/** CRcvUList: the sockets of a receiving queue by the time they were last active, and the sweep
    over those that were idle for too long. */
module IdleList {

  /** rdtsc: a clock that never runs backwards. */
  class Clock {
    var now: int

    constructor ()
      ensures now == 0
    {
      now := 0;
    }

    method Rdtsc() returns (t: int)
      modifies this
      ensures old(now) <= now == t
    {
      var passed: int :| passed >= 0;
      now := now + passed;
      t := now;
    }
  }

  /** A node and what is used of its socket: whether it is connected, not broken and not closing. */
  class CRNode {
    var timeStamp: int
    var prev: CRNode?
    var next: CRNode?
    var onList: bool
    var alive: bool

    constructor (alive: bool)
      ensures !onList && this.alive == alive && prev == null && next == null
    {
      timeStamp, prev, next, onList := 0, null, null, false;
      this.alive := alive;
    }
  }

  function At(order: seq<CRNode>, i: int): CRNode? {
    if 0 <= i < |order| then order[i] else null
  }

  ghost predicate Distinct(order: seq<CRNode>) {
    forall i, j :: 0 <= i < j < |order| ==> order[i] != order[j]
  }

  ghost predicate PrevLinked(order: seq<CRNode>)
    reads order`prev
  {
    forall i {:trigger order[i].prev} :: 0 <= i < |order| ==> order[i].prev == At(order, i - 1)
  }

  ghost predicate NextLinked(order: seq<CRNode>)
    reads order`next
  {
    forall i {:trigger order[i].next} :: 0 <= i < |order| ==> order[i].next == At(order, i + 1)
  }

  ghost predicate AllOn(order: seq<CRNode>)
    reads order`onList
  {
    forall i :: 0 <= i < |order| ==> order[i].onList
  }

  /** The nodes are linked in this order, in both directions. */
  ghost predicate Linked(order: seq<CRNode>)
    reads order`prev, order`next, order`onList
  {
    Distinct(order) && PrevLinked(order) && NextLinked(order) && AllOn(order)
  }

  /** From the least to the most recently active. */
  ghost predicate Sorted(order: seq<CRNode>, now: int)
    reads order`timeStamp
  {
    && (forall i, j :: 0 <= i <= j < |order| ==> order[i].timeStamp <= order[j].timeStamp)
    && (forall i :: 0 <= i < |order| ==> order[i].timeStamp <= now)
  }

  function Without(order: seq<CRNode>, i: int): (r: seq<CRNode>)
    requires 0 <= i < |order|
    ensures |r| == |order| - 1
    ensures forall j :: 0 <= j < |r| ==> r[j] == order[if j < i then j else j + 1]
  {
    order[..i] + order[i + 1..]
  }

  class CRcvUList {
    var pUList: CRNode?
    var pLast: CRNode?
    const clock: Clock
    ghost var order: seq<CRNode>   // the list
    ghost var nodes: set<CRNode>   // all that ever were on it

    ghost predicate Wired()
      reads this, nodes
    {
      (forall i :: 0 <= i < |order| ==> order[i] in nodes) && Linked(order) && pUList == At(order, 0) && pLast == At(order, |order| - 1)
    }

    ghost predicate Valid()
      reads this, clock, nodes
    {
      Wired() && Sorted(order, clock.now)
    }

    constructor (clock: Clock)
      ensures Valid() && order == [] && this.clock == clock
    {
      pUList, pLast := null, null;
      this.clock := clock;
      order, nodes := [], {};
    }

    /** insert: at the end, with the time of now. */
    method Insert(n: CRNode)
      requires Valid() && n !in order
      modifies this, clock, n, nodes`next
      ensures Valid() && order == old(order) + [n] && n.timeStamp == clock.now && n.alive == old(n.alive)
    {
      var now := clock.Rdtsc();
      n.timeStamp := now;
      n.onList := true;
      Append(n);
    }

    method Append(n: CRNode)
      requires Wired() && n !in order && n.onList
      modifies this`pUList, this`pLast, this`order, this`nodes, n`prev, n`next, nodes`next
      ensures Wired() && order == old(order) + [n] && nodes == old(nodes) + {n}
    {
      if pUList == null {
        n.prev := null;
        n.next := null;
        pLast := n;
        pUList := n;
      } else {
        n.prev := pLast;
        n.next := null;
        pLast.next := n;
        pLast := n;
      }
      order := order + [n];
      nodes := nodes + {n};
    }

    /** Takes the node at index i out of the links of its neighbours. */
    method Unlink(n: CRNode, ghost i: int)
      requires Wired() && 0 <= i < |order| && order[i] == n
      modifies this`pUList, this`pLast, this`order, nodes`prev, nodes`next
      ensures Wired() && order == Without(old(order), i)
    {
      LinksOf(i);
      if n.prev == null {
        UnlinkFirst(n);
      } else {
        UnlinkInner(n, i);
      }
    }

    lemma LinksOf(i: int)
      requires Wired() && 0 <= i < |order|
      ensures order[i].prev == At(order, i - 1) && order[i].next == At(order, i + 1) && order[i].onList
    {
    }

    method UnlinkFirst(n: CRNode)
      requires Wired() && 0 < |order| && order[0] == n
      modifies this`pUList, this`pLast, this`order, nodes`prev, nodes`next
      ensures Wired() && order == Without(old(order), 0)
    {
      pUList := n.next;
      if pUList == null {
        pLast := null;
      } else {
        pUList.prev := null;
      }
      order := Without(order, 0);
    }

    method UnlinkInner(n: CRNode, ghost i: int)
      requires Wired() && 0 < i < |order| && order[i] == n
      modifies this`pLast, this`order, nodes`prev, nodes`next
      ensures Wired() && order == Without(old(order), i)
    {
      hide PrevLinked, NextLinked, Distinct, AllOn;
      LinksOf(i);
      WithoutKeeps(order, i);
      SkipNext(n, i);
      if n.next == null {
        pLast := n.prev;
        SameBefore(order, i);
      } else {
        SkipPrev(n, i);
      }
      order := Without(order, i);
    }

    /** The node before n points past it. */
    method SkipNext(n: CRNode, ghost i: int)
      requires 0 < i < |order| && order[i] == n && Distinct(order) && NextLinked(order) && order[i - 1] in nodes
      requires n.prev == order[i - 1] && n.next == At(order, i + 1)
      modifies nodes`next
      ensures NextLinked(Without(order, i)) && n.next == old(n.next)
    {
      n.prev.next := n.next;
    }

    /** The node after n points back past it. */
    method SkipPrev(n: CRNode, ghost i: int)
      requires 0 < i < |order| - 1 && order[i] == n && Distinct(order) && PrevLinked(order) && order[i + 1] in nodes
      requires n.prev == order[i - 1] && n.next == order[i + 1]
      modifies nodes`prev
      ensures PrevLinked(Without(order, i))
    {
      n.next.prev := n.prev;
    }

    static lemma WithoutKeeps(order: seq<CRNode>, i: int)
      requires 0 <= i < |order| && Distinct(order) && AllOn(order)
      ensures Distinct(Without(order, i)) && AllOn(Without(order, i)) && order[i] !in Without(order, i)
    {
    }

    static lemma SameBefore(order: seq<CRNode>, i: int)
      requires |order| > 1 && i == |order| - 1 && PrevLinked(order)
      ensures PrevLinked(Without(order, i))
    {
    }

    /** remove. */
    method Remove(n: CRNode, ghost i: int)
      requires Valid() && (n.onList <==> n in order) && (n.onList ==> 0 <= i < |order| && order[i] == n)
      modifies this`pUList, this`pLast, this`order, nodes`prev, nodes`next, n`prev, n`next, n`onList
      ensures Valid() && !n.onList
      ensures order == if old(n.onList) then Without(old(order), i) else old(order)
    {
      if !n.onList {
        return;
      }
      hide Linked, Sorted, Without;
      SortedWithout(order, i, clock.now);
      TakeOff(n, i);
    }

    method TakeOff(n: CRNode, ghost i: int)
      requires Wired() && 0 <= i < |order| && order[i] == n
      modifies this`pUList, this`pLast, this`order, nodes`prev, nodes`next, n`prev, n`next, n`onList
      ensures Wired() && !n.onList && order == Without(old(order), i)
    {
      hide PrevLinked, NextLinked, AllOn, Distinct;
      WithoutKeeps(order, i);
      Unlink(n, i);
      n.next := null;
      n.prev := null;
      n.onList := false;
    }

    static lemma SortedWithout(order: seq<CRNode>, i: int, now: int)
      requires 0 <= i < |order| && Sorted(order, now)
      ensures Sorted(Without(order, i), now)
    {
    }

    /** update: the node moves to the end, with the time of now. */
    method Update(n: CRNode, ghost i: int)
      requires Valid() && (n.onList <==> n in order) && (n.onList ==> 0 <= i < |order| && order[i] == n)
      modifies this`pUList, this`pLast, this`order, this`nodes, clock, nodes`prev, nodes`next, n`timeStamp, n`prev, n`next
      ensures Valid() && n.onList == old(n.onList) && nodes == old(nodes)
      ensures order == if n.onList then Without(old(order), i) + [n] else old(order)
      ensures n.onList ==> n.timeStamp == clock.now >= old(clock.now)
    {
      hide Linked, Sorted, Without;
      if !n.onList {
        return;
      }
      var now := clock.Rdtsc();
      SortedLater(old(clock.now), now);
      Touch(n, i, now);
      MoveToEnd(n, i);
    }

    method MoveToEnd(n: CRNode, ghost i: int)
      requires Wired() && 0 <= i < |order| && order[i] == n
      modifies this`pUList, this`pLast, this`order, this`nodes, nodes`prev, nodes`next, n`prev, n`next
      ensures Wired() && order == Without(old(order), i) + [n] && nodes == old(nodes)
    {
      hide Linked, Without;
      LinksOf(i);
      if n.next == null {
        LastWithout(order, i);
        return;
      }
      LeavesOnce(order, i);
      assert n in nodes;
      Unlink(n, i);
      Append(n);
    }

    static lemma LastWithout(order: seq<CRNode>, i: int)
      requires 0 <= i < |order| && At(order, i + 1) == null
      ensures order == Without(order, i) + [order[i]]
    {
    }

    method Touch(n: CRNode, ghost i: int, now: int)
      requires 0 <= i < |order| && order[i] == n && Linked(order) && Sorted(order, now)
      modifies n`timeStamp
      ensures Sorted(Without(order, i) + [n], now) && n.timeStamp == now
    {
      hide PrevLinked, NextLinked, AllOn;
      n.timeStamp := now;
    }

    static lemma LeavesOnce(order: seq<CRNode>, i: int)
      requires 0 <= i < |order| && Linked(order)
      ensures order[i] !in Without(order, i) && forall m :: m in Without(order, i) ==> m in order
    {
      hide PrevLinked, NextLinked, AllOn;
    }

    lemma SortedLater(before: int, now: int)
      requires Sorted(order, before) && before <= now
      ensures Sorted(order, now)
    {
    }

    /** The nodes whose sockets can be kept. */
    ghost function Alive(): set<CRNode>
      reads this, order`alive
    {
      set n | n in order && n.alive
    }

    /** The sweep of CRcvQueue::worker: as long as the first node was last active before ctime, it is
        either served, which moves it to the end, or dropped.  Serving may end the socket.  ctime is
        interval ticks ago, which takes a clock that has run that long. */
    method Sweep(interval: int) returns (ctime: int, ghost k: int)
      requires Valid() && 0 <= interval <= clock.now
      modifies this`pUList, this`pLast, this`order, this`nodes, clock, nodes
      ensures Valid() && 0 <= k <= |old(order)|
      ensures forall i :: 0 <= i < |old(order)| ==> (old(order[i].timeStamp) < ctime <==> i < k)
      ensures order == old(order)[k..] + Kept(old(order)[..k], old(Alive()))
      ensures forall n :: n in order ==> n.timeStamp >= ctime
    {
      hide Linked, Sorted, Swept, Kept;
      var currtime := clock.Rdtsc();
      ctime := currtime - interval;
      SortedLater(old(clock.now), currtime);
      ghost var whole, alive, times := order, Alive(), Times(order);
      k := 0;
      OrderIsDistinct();
      SweptStart(whole, alive, ctime);
      var ul := pUList;
      while ul != null && ul.timeStamp < ctime
        invariant Valid() && nodes == old(nodes) && ul == pUList && 0 <= k <= |whole| && ctime <= clock.now
        invariant Swept(whole, alive, times, k, ctime, order)
        decreases |whole| - k
      {
        SweepOne(ul, whole, alive, times, k, ctime);
        k := k + 1;
        ul := pUList;
      }
      SweptEnd(whole, alive, times, k, ctime, order, clock.now);
    }

    method SweepOne(ul: CRNode, ghost whole: seq<CRNode>, ghost alive: set<CRNode>, ghost times: seq<int>, ghost k: int, ghost ctime: int)
      requires Valid() && |order| > 0 && order[0] == ul && ul.timeStamp < ctime <= clock.now
      requires Swept(whole, alive, times, k, ctime, order)
      modifies this`pUList, this`pLast, this`order, this`nodes, clock, nodes
      ensures Valid() && nodes == old(nodes) && k < |whole| && ctime <= clock.now && Swept(whole, alive, times, k + 1, ctime, order)
    {
      hide Linked, Sorted, Kept, Without;
      SweptFirst(whole, alive, times, k, ctime, order);
      KeptStep(whole, alive, k);
      FirstIsOn();
      if ul.alive {
        ul.alive := *;
        Update(ul, 0);
      } else {
        Remove(ul, 0);
      }
    }

    lemma FirstIsOn()
      requires Wired() && |order| > 0
      ensures order[0].onList && order[0] in nodes
    {
    }

    lemma OrderIsDistinct()
      requires Wired()
      ensures Distinct(order)
    {
    }
  }

  /** The nodes that are alive, in order. */
  ghost function Kept(some: seq<CRNode>, alive: set<CRNode>): seq<CRNode> {
    if |some| == 0 then []
    else Kept(some[..|some| - 1], alive) + if some[|some| - 1] in alive then [some[|some| - 1]] else []
  }

  ghost function Times(order: seq<CRNode>): (ts: seq<int>)
    reads order`timeStamp
    ensures |ts| == |order| && forall i :: 0 <= i < |order| ==> ts[i] == order[i].timeStamp
  {
    if |order| == 0 then [] else Times(order[..|order| - 1]) + [order[|order| - 1].timeStamp]
  }

  /** The first k nodes have been dealt with; the others are as they were. */
  ghost predicate Swept(whole: seq<CRNode>, alive: set<CRNode>, times: seq<int>, k: int, ctime: int, order: seq<CRNode>)
    reads whole`timeStamp, whole`alive
  {
    && 0 <= k <= |whole| == |times| && Distinct(whole)
    && order == whole[k..] + Kept(whole[..k], alive)
    && (forall i :: k <= i < |whole| ==> (whole[i].alive <==> whole[i] in alive) && whole[i].timeStamp == times[i])
    && (forall n :: n in whole[..k] && n in alive ==> n.timeStamp >= ctime)
    && (forall i :: 0 <= i < k ==> times[i] < ctime)
  }

  lemma SweptStart(whole: seq<CRNode>, alive: set<CRNode>, ctime: int)
    requires Distinct(whole) && forall n :: n in whole ==> (n.alive <==> n in alive)
    ensures Swept(whole, alive, Times(whole), 0, ctime, whole)
  {
    assert whole[0..] + Kept(whole[..0], alive) == whole;
  }

  /** The kept nodes are nodes, alive at first. */
  lemma {:induction false} KeptFrom(some: seq<CRNode>, alive: set<CRNode>)
    ensures forall n :: n in Kept(some, alive) ==> n in some && n in alive
  {
    if |some| > 0 {
      KeptFrom(some[..|some| - 1], alive);
    }
  }

  lemma KeptStep(whole: seq<CRNode>, alive: set<CRNode>, k: int)
    requires 0 <= k < |whole|
    ensures Kept(whole[..k + 1], alive) == Kept(whole[..k], alive) + if whole[k] in alive then [whole[k]] else []
  {
    assert whole[..k + 1][..k] == whole[..k];
  }

  /** A node before ctime at the front is the next of the old list. */
  lemma SweptFirst(whole: seq<CRNode>, alive: set<CRNode>, times: seq<int>, k: int, ctime: int, order: seq<CRNode>)
    requires Swept(whole, alive, times, k, ctime, order) && |order| > 0 && order[0].timeStamp < ctime
    ensures k < |whole| && order[0] == whole[k]
    ensures Without(order, 0) == whole[k + 1..] + Kept(whole[..k], alive)
  {
    if k == |whole| {
      assert order[0] in Kept(whole[..k], alive);
      KeptFrom(whole[..k], alive);
    } else {
      assert order[1..] == whole[k + 1..] + Kept(whole[..k], alive);
      assert order[..0] == [];
    }
  }

  lemma SweptEnd(whole: seq<CRNode>, alive: set<CRNode>, times: seq<int>, k: int, ctime: int, order: seq<CRNode>, now: int)
    requires Swept(whole, alive, times, k, ctime, order) && Sorted(order, now)
    requires |order| > 0 ==> order[0].timeStamp >= ctime
    ensures forall n :: n in order ==> n.timeStamp >= ctime
    ensures forall i :: 0 <= i < |whole| ==> (times[i] < ctime <==> i < k)
    ensures order == whole[k..] + Kept(whole[..k], alive)
  {
    forall i | k <= i < |whole|
      ensures times[i] >= ctime
    {
      assert order[i - k] == whole[i];
    }
  }
}
