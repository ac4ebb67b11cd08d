/** CSndUList: the sockets that want to send, in an array heap by the time of their next packet. */
module SendSchedule {

  // ---------- Heap order on the keys alone ----------

  function Parent(i: int): int {
    (i - 1) / 2
  }

  ghost predicate Heap(ks: seq<int>) {
    forall i :: 0 < i < |ks| ==> ks[Parent(i)] <= ks[i]
  }

  /** Only the key at q may be smaller than its parent's. */
  ghost predicate HeapButUp(ks: seq<int>, q: int) {
    && 0 <= q < |ks|
    && (forall i :: 0 < i < |ks| && i != q ==> ks[Parent(i)] <= ks[i])
    && (forall i :: 0 < i < |ks| && Parent(i) == q && q > 0 ==> ks[Parent(q)] <= ks[i])
  }

  /** Only the key at q may be larger than its children's. */
  ghost predicate HeapButDown(ks: seq<int>, q: int) {
    && 0 <= q
    && (forall i :: 0 < i < |ks| && Parent(i) != q ==> ks[Parent(i)] <= ks[i])
    && (forall i :: 0 < i < |ks| && Parent(i) == q && q > 0 ==> ks[Parent(q)] <= ks[i])
  }

  function Swap(ks: seq<int>, p: int, q: int): seq<int>
    requires 0 <= p < |ks| && 0 <= q < |ks|
  {
    ks[p := ks[q]][q := ks[p]]
  }

  lemma ParentBelow(i: int)
    requires i > 0
    ensures 0 <= Parent(i) < i && (i == 2 * Parent(i) + 1 || i == 2 * Parent(i) + 2)
  {
  }

  lemma SwapUp(ks: seq<int>, q: int)
    requires HeapButUp(ks, q) && q > 0 && ks[Parent(q)] > ks[q]
    ensures HeapButUp(Swap(ks, Parent(q), q), Parent(q))
  {
    var p := Parent(q);
    var ks' := Swap(ks, p, q);
    forall i | 0 < i < |ks'| && i != p
      ensures ks'[Parent(i)] <= ks'[i]
    {
      ParentBelow(i);
      if i != q && Parent(i) == p {
        assert ks[Parent(i)] <= ks[i];
      }
    }
    if p > 0 {
      ParentBelow(p);
      assert ks[Parent(p)] <= ks[p];
    }
    forall i | 0 < i < |ks'| && Parent(i) == p && p > 0
      ensures ks'[Parent(p)] <= ks'[i]
    {
      assert i != q ==> ks[Parent(i)] <= ks[i];
    }
  }

  lemma DoneUp(ks: seq<int>, q: int)
    requires HeapButUp(ks, q) && (q > 0 ==> ks[Parent(q)] <= ks[q])
    ensures Heap(ks)
  {
  }

  lemma SwapDown(ks: seq<int>, q: int, p: int)
    requires HeapButDown(ks, q) && q < p < |ks| && Parent(p) == q && ks[q] > ks[p]
    requires forall i :: 0 < i < |ks| && Parent(i) == q ==> ks[p] <= ks[i]
    ensures HeapButDown(Swap(ks, p, q), p)
  {
    var ks' := Swap(ks, p, q);
    forall i | 0 < i < |ks'| && Parent(i) != p
      ensures ks'[Parent(i)] <= ks'[i]
    {
      ParentBelow(i);
      if i == q {
        assert ks[Parent(q)] <= ks[p];
      }
    }
    forall i | 0 < i < |ks'| && Parent(i) == p
      ensures ks'[Parent(p)] <= ks'[i]
    {
      ParentBelow(i);
      assert ks[Parent(i)] <= ks[i];
    }
  }

  lemma DoneDown(ks: seq<int>, q: int)
    requires HeapButDown(ks, q) && forall i :: 0 < i < |ks| && Parent(i) == q ==> ks[q] <= ks[i]
    ensures Heap(ks)
  {
  }

  lemma {:induction false} RootIsLeast(ks: seq<int>, i: nat)
    requires Heap(ks) && i < |ks|
    ensures ks[0] <= ks[i]
  {
    if i > 0 {
      ParentBelow(i);
      RootIsLeast(ks, Parent(i));
    }
  }

  lemma Appended(ks: seq<int>, k: int)
    requires Heap(ks)
    ensures HeapButUp(ks + [k], |ks|)
  {
    forall i | 0 < i < |ks|
      ensures (ks + [k])[Parent(i)] <= (ks + [k])[i]
    {
      ParentBelow(i);
      assert ks[Parent(i)] <= ks[i];
    }
    forall i | 0 < i <= |ks| && Parent(i) == |ks|
      ensures false
    {
      ParentBelow(i);
    }
  }

  /** The last key takes the place of the one at q. */
  function Refilled(ks: seq<int>, q: int): seq<int>
    requires 0 <= q < |ks|
  {
    ks[q := ks[|ks| - 1]][..|ks| - 1]
  }

  /** Exactly when sifting down is enough. */
  predicate Refillable(ks: seq<int>, q: int)
    requires 0 <= q < |ks|
  {
    q == 0 || q == |ks| - 1 || (0 <= Parent(q) < |ks| && ks[Parent(q)] <= ks[|ks| - 1])
  }

  lemma RefilledDown(ks: seq<int>, q: int)
    requires Heap(ks) && 0 <= q < |ks| && Refillable(ks, q)
    ensures HeapButDown(Refilled(ks, q), q)
  {
    var r := Refilled(ks, q);
    forall i | 0 < i < |r| && Parent(i) != q
      ensures r[Parent(i)] <= r[i]
    {
      ParentBelow(i);
      assert ks[Parent(i)] <= ks[i];
    }
    forall i | 0 < i < |r| && Parent(i) == q && q > 0
      ensures r[Parent(q)] <= r[i]
    {
      ParentBelow(i);
      ParentBelow(q);
      assert ks[Parent(i)] <= ks[i] && ks[Parent(q)] <= ks[q];
    }
  }

  /** Otherwise the key moved to q is smaller than its parent, and not larger than its children. */
  lemma RefilledTooSmall(ks: seq<int>, q: int)
    requires Heap(ks) && 0 <= q < |ks| && !Refillable(ks, q)
    ensures var r := Refilled(ks, q);
      && 0 < q < |r| && 0 <= Parent(q) < q && r[Parent(q)] > r[q]
      && forall i :: 0 < i < |r| && Parent(i) == q ==> r[q] <= r[i]
  {
    var r := Refilled(ks, q);
    ParentBelow(q);
    assert ks[Parent(q)] <= ks[q];
    forall i | 0 < i < |r| && Parent(i) == q
      ensures r[q] <= r[i]
    {
      ParentBelow(i);
      assert ks[Parent(i)] <= ks[i];
    }
  }

  // ---------- The heap of sockets ----------

  /** A socket in the schedule; CUDT and its address are left out. */
  class CSNode {
    var timeStamp: int
    var heapLoc: int

    constructor ()
      ensures heapLoc == -1
    {
      timeStamp, heapLoc := 0, -1;
    }
  }

  /** h holds every node of all once, and each knows its index; the node at hole need not. */
  ghost predicate Placed(h: seq<CSNode?>, all: set<CSNode>, hole: int)
    reads all
  {
    && (forall i :: 0 <= i < |h| ==> h[i] != null && h[i] in all && (i != hole ==> h[i].heapLoc == i))
    && (forall i, j :: 0 <= i < j < |h| ==> h[i] != h[j])
    && (forall m {:trigger m.heapLoc} :: m in all ==>
          (0 <= hole < |h| && m == h[hole]) || (0 <= m.heapLoc < |h| && h[m.heapLoc] == m))
  }

  ghost predicate Keyed(h: seq<CSNode?>, ks: seq<int>)
    reads h`timeStamp
  {
    |h| == |ks| && forall i :: 0 <= i < |h| ==> h[i] != null && h[i].timeStamp == ks[i]
  }

  ghost function Keys(h: seq<CSNode?>): (ks: seq<int>)
    requires forall i :: 0 <= i < |h| ==> h[i] != null
    reads h
    ensures Keyed(h, ks)
  {
    if |h| == 0 then [] else Keys(h[..|h| - 1]) + [h[|h| - 1].timeStamp]
  }

  lemma KeyedIsKeys(h: seq<CSNode?>, ks: seq<int>)
    requires Keyed(h, ks)
    ensures Keys(h) == ks
  {
  }

  class CSndUList {
    var heap: array<CSNode?>
    var lastEntry: int
    ghost var nodes: set<CSNode>

    ghost function Live(): seq<CSNode?>
      requires -1 <= lastEntry < heap.Length
      reads this, heap
    {
      heap[..lastEntry + 1]
    }

    /** Every node of the schedule is in the heap once, at the index it knows. */
    ghost predicate Valid()
      reads this, heap, nodes
    {
      && 0 < heap.Length && -1 <= lastEntry < heap.Length
      && Placed(Live(), nodes, -1)
    }

    ghost function Times(): seq<int>
      requires Valid()
      reads this, heap, nodes
    {
      Keys(Live())
    }

    /** The times are in heap order. */
    ghost predicate Ordered()
      requires Valid()
      reads this, heap, nodes
    {
      Heap(Times())
    }

    constructor ()
      ensures Valid() && nodes == {} && Ordered() && fresh(heap)
    {
      heap := new CSNode?[4096](_ => null);
      lastEntry := -1;
      nodes := {};
    }

    /** insert_: the node climbs from the end as long as its parent is later. */
    method InsertNode(ts: int, n: CSNode)
      requires Valid() && (n in nodes <==> n.heapLoc >= 0) && (n !in nodes ==> lastEntry + 1 < heap.Length)
      modifies this`lastEntry, this`nodes, heap, nodes`heapLoc, n`heapLoc, n`timeStamp
      ensures Valid() && nodes == old(nodes) + {n} && n.heapLoc >= 0
      ensures n in old(nodes) ==> Live() == old(Live()) && n.timeStamp == old(n.timeStamp)
      ensures n !in old(nodes) ==> n.timeStamp == ts && lastEntry == old(lastEntry) + 1
      ensures old(Ordered()) ==> Ordered()
    {
      if n.heapLoc >= 0 {
        return;
      }
      hide Placed, Keyed, Heap, HeapButUp;
      ghost var was := Times();
      AppendLast(ts, n, was);
      if Heap(was) {
        Appended(was, ts);
      }
      SiftUp(n, was + [ts]);
    }

    method AppendLast(ts: int, n: CSNode, ghost ks: seq<int>)
      requires Valid() && n !in nodes && lastEntry + 1 < heap.Length && Keyed(Live(), ks)
      modifies this`lastEntry, this`nodes, heap, n`timeStamp
      ensures lastEntry == old(lastEntry) + 1 && |ks| == lastEntry && nodes == old(nodes) + {n} && heap[lastEntry] == n
      ensures Placed(Live(), nodes, lastEntry) && Keyed(Live(), ks + [ts]) && n.timeStamp == ts
    {
      lastEntry := lastEntry + 1;
      heap[lastEntry] := n;
      n.timeStamp := ts;
      nodes := nodes + {n};
    }

    method SiftUp(n: CSNode, ghost keys: seq<int>)
      requires 0 <= lastEntry < heap.Length && heap[lastEntry] == n && n in nodes
      requires Placed(Live(), nodes, lastEntry) && Keyed(Live(), keys)
      modifies heap, nodes`heapLoc
      ensures Valid() && n.heapLoc >= 0
      ensures HeapButUp(keys, lastEntry) ==> Ordered()
    {
      hide Placed, Keyed, HeapButUp, Heap;
      ghost var ks := keys;
      var q := lastEntry;
      var p := q;
      while p != 0
        invariant 0 <= p == q <= lastEntry
        invariant Placed(Live(), nodes, q) && Keyed(Live(), ks) && heap[q] == n
        invariant HeapButUp(keys, lastEntry) ==> HeapButUp(ks, q)
        decreases q
        modifies heap, nodes`heapLoc
      {
        p := Parent(q);
        ParentBelow(q);
        KeyAt(Live(), ks, p);
        KeyAt(Live(), ks, q);
        if heap[p].timeStamp > heap[q].timeStamp {
          if HeapButUp(ks, q) {
            SwapUp(ks, q);
          }
          Exchange(p, q, ks);
          ks := Swap(ks, p, q);
          q := p;
        } else {
          break;
        }
      }
      KeyAt(Live(), ks, q);
      if HeapButUp(ks, q) {
        DoneUp(ks, q);
      }
      Settle(n, q, ks);
    }

    /** The node at q takes its parent's place p; only its own index is not stored yet. */
    method Exchange(p: int, q: int, ghost ks: seq<int>)
      requires 0 <= p < q <= lastEntry < heap.Length
      requires Placed(Live(), nodes, q) && Keyed(Live(), ks)
      modifies heap, nodes`heapLoc
      ensures Placed(Live(), nodes, p) && Keyed(Live(), Swap(ks, p, q)) && heap[p] == old(heap[q])
    {
      hide Keyed, Swap;
      ghost var h := Live();
      SwappedKeys(h, ks, p, q);
      var t := heap[p];
      heap[p] := heap[q];
      heap[q] := t;
      t.heapLoc := q;
      assert Live() == h[p := h[q]][q := h[p]];
    }

    static lemma SwappedKeys(h: seq<CSNode?>, ks: seq<int>, p: int, q: int)
      requires Keyed(h, ks) && 0 <= p < |h| && 0 <= q < |h|
      ensures |ks| == |h| && Keyed(h[p := h[q]][q := h[p]], Swap(ks, p, q))
    {
    }

    /** The node at q learns its index. */
    method Settle(n: CSNode, q: int, ghost ks: seq<int>)
      requires 0 <= q <= lastEntry < heap.Length && heap[q] == n
      requires Placed(Live(), nodes, q) && Keyed(Live(), ks)
      modifies nodes`heapLoc
      ensures Valid() && n.heapLoc == q && Keys(Live()) == ks
    {
      n.heapLoc := q;
      KeyedIsKeys(Live(), ks);
    }

    static lemma KeyAt(h: seq<CSNode?>, ks: seq<int>, i: int)
      requires Keyed(h, ks) && 0 <= i < |h|
      ensures |ks| == |h| && h[i] != null && h[i].timeStamp == ks[i]
    {
    }

    /** remove_: the last node takes the place of n and sinks as long as a child is earlier.  The
        order survives exactly if the last node is not earlier than the parent of that place. */
    method RemoveNode(n: CSNode)
      requires Valid() && (n in nodes <==> n.heapLoc >= 0)
      modifies this`lastEntry, this`nodes, heap, nodes`heapLoc, n`heapLoc
      ensures Valid() && nodes == old(nodes) - {n} && n.heapLoc < 0
      ensures n !in old(nodes) ==> Live() == old(Live())
      ensures n in old(nodes) ==> lastEntry == old(lastEntry) - 1
      ensures n in old(nodes) && old(Ordered()) ==>
        0 <= old(n.heapLoc) < old(|Times()|) && (Ordered() <==> Refillable(old(Times()), old(n.heapLoc)))
    {
      hide Placed, Keyed, Heap, HeapButDown, Refilled, Refillable;
      if n.heapLoc >= 0 {
        ghost var ks := Times();
        var q := n.heapLoc;
        Refill(n, ks);
        RefilledCases(ks, q);
        SiftDown(q, Refilled(ks, q));
        n.heapLoc := -1;
      }
    }

    static lemma RefilledCases(ks: seq<int>, q: int)
      requires Heap(ks) ==> 0 <= q < |ks|
      ensures Heap(ks) && Refillable(ks, q) ==> HeapButDown(Refilled(ks, q), q)
      ensures Heap(ks) && !Refillable(ks, q) ==>
        var r := Refilled(ks, q);
        !Heap(r) && q < |r| && forall i :: 0 < i < |r| && Parent(i) == q ==> r[q] <= r[i]
    {
      if Heap(ks) {
        if Refillable(ks, q) {
          RefilledDown(ks, q);
        } else {
          RefilledTooSmall(ks, q);
        }
      }
    }

    method Refill(n: CSNode, ghost ks: seq<int>)
      requires Valid() && n in nodes && Keyed(Live(), ks)
      modifies this`lastEntry, this`nodes, heap, nodes`heapLoc
      ensures 0 <= n.heapLoc == old(n.heapLoc) < |ks| == old(lastEntry) + 1
      ensures nodes == old(nodes) - {n} && lastEntry == old(lastEntry) - 1
      ensures Valid() && Keyed(Live(), Refilled(ks, n.heapLoc))
    {
      heap[n.heapLoc] := heap[lastEntry];
      lastEntry := lastEntry - 1;
      heap[n.heapLoc].heapLoc := n.heapLoc;
      nodes := nodes - {n};
    }

    method SiftDown(q0: int, ghost keys: seq<int>)
      requires Valid() && 0 <= q0 && Keyed(Live(), keys)
      modifies heap, nodes`heapLoc
      ensures Valid()
      ensures HeapButDown(keys, q0) ==> Ordered()
      ensures q0 < |keys| && (forall i :: 0 < i < |keys| && Parent(i) == q0 ==> keys[q0] <= keys[i]) ==> Times() == keys
    {
      hide Placed, Keyed, HeapButDown, Heap;
      ghost var ks := keys;
      var q := q0;
      var p := q * 2 + 1;
      ghost var moved := false;
      while p <= lastEntry
        invariant 0 <= q && p == 2 * q + 1 && Placed(Live(), nodes, -1) && Keyed(Live(), ks)
        invariant HeapButDown(keys, q0) ==> HeapButDown(ks, q)
        invariant moved ==> 0 <= q0 < |keys| && exists i :: 0 < i < |keys| && Parent(i) == q0 && keys[q0] > keys[i]
        invariant !moved ==> ks == keys && q == q0
        decreases lastEntry - q
        modifies heap, nodes`heapLoc
      {
        KeyAt(Live(), ks, q);
        KeyAt(Live(), ks, p);
        if p + 1 <= lastEntry {
          KeyAt(Live(), ks, p + 1);
          if heap[p].timeStamp > heap[p + 1].timeStamp {
            p := p + 1;
          }
        }
        Children(ks, q, p);
        KeyAt(Live(), ks, p);
        if heap[q].timeStamp > heap[p].timeStamp {
          if HeapButDown(ks, q) {
            SwapDown(ks, q, p);
          }
          moved := true;
          Sink(p, q, ks);
          ks := Swap(ks, p, q);
          q := p;
          p := q * 2 + 1;
        } else {
          break;
        }
      }
      SameLength(Live(), ks);
      NoChildren(ks, q);
      if HeapButDown(ks, q) {
        DoneDown(ks, q);
      }
      KeyedIsKeys(Live(), ks);
    }

    static lemma SameLength(h: seq<CSNode?>, ks: seq<int>)
      requires Keyed(h, ks)
      ensures |h| == |ks|
    {
    }

    /** p is the earlier child of q. */
    static lemma Children(ks: seq<int>, q: int, p: int)
      requires 0 <= q && 2 * q + 1 < |ks|
      requires p == 2 * q + 1 || (p == 2 * q + 2 && p < |ks|)
      requires 2 * q + 2 < |ks| ==> ks[p] <= ks[2 * q + 1] && ks[p] <= ks[2 * q + 2]
      ensures q < p < |ks| && Parent(p) == q
      ensures forall i :: 0 < i < |ks| && Parent(i) == q ==> ks[p] <= ks[i]
    {
    }

    static lemma NoChildren(ks: seq<int>, q: int)
      requires 0 <= q
      ensures 2 * q + 1 >= |ks| ==> forall i :: 0 < i < |ks| ==> Parent(i) != q
    {
    }

    /** The node at q changes places with its child p. */
    method Sink(p: int, q: int, ghost ks: seq<int>)
      requires 0 <= q < p <= lastEntry < heap.Length
      requires Placed(Live(), nodes, -1) && Keyed(Live(), ks)
      modifies heap, nodes`heapLoc
      ensures Placed(Live(), nodes, -1) && Keyed(Live(), Swap(ks, p, q))
    {
      var t := heap[p];
      heap[p] := heap[q];
      heap[p].heapLoc := p;
      heap[q] := t;
      heap[q].heapLoc := q;
    }

    /** insert: the array doubles when it is full. */
    method Insert(ts: int, n: CSNode)
      requires Valid() && (n in nodes <==> n.heapLoc >= 0)
      modifies this, heap, nodes`heapLoc, n`heapLoc, n`timeStamp
      ensures Valid() && nodes == old(nodes) + {n} && n.heapLoc >= 0
      ensures n !in old(nodes) ==> n.timeStamp == ts
      ensures n in old(nodes) ==> n.timeStamp == old(n.timeStamp)
      ensures heap == old(heap) || fresh(heap)
      ensures old(Ordered()) ==> Ordered()
    {
      if lastEntry == heap.Length - 1 {
        Grow();
      }
      InsertNode(ts, n);
    }

    method Grow()
      requires Valid() && lastEntry == heap.Length - 1
      modifies this`heap
      ensures Valid() && Live() == old(Live()) && fresh(heap) && heap.Length == 2 * old(heap.Length)
    {
      var temp := new CSNode?[heap.Length * 2](_ => null);
      var i := 0;
      while i < heap.Length
        invariant 0 <= i <= heap.Length && temp[..i] == heap[..i]
        modifies temp
      {
        temp[i] := heap[i];
        i := i + 1;
      }
      heap := temp;
    }

    lemma SomeNode()
      requires Valid() && nodes != {}
      ensures lastEntry >= 0
    {
      var m :| m in nodes;
      assert 0 <= m.heapLoc < |Live()|;
    }

    /** getNextProcTime: 0 without a node; otherwise, in an ordered heap, the earliest time. */
    method GetNextProcTime() returns (ts: int)
      requires Valid()
      ensures nodes == {} ==> ts == 0
      ensures nodes != {} ==> exists n :: n in nodes && n.timeStamp == ts
      ensures nodes != {} && Ordered() ==> forall n :: n in nodes ==> ts <= n.timeStamp
    {
      if lastEntry == -1 {
        if nodes != {} {
          SomeNode();
        }
        return 0;
      }
      First();
      ts := heap[0].timeStamp;
    }

    /** update: a node that is first stays there with the earliest time there is; any other node is
        inserted anew with it. */
    method Update(n: CSNode, reschedule: bool)
      requires Valid() && (n in nodes <==> n.heapLoc >= 0) && (n !in nodes ==> lastEntry + 1 < heap.Length)
      modifies this`lastEntry, this`nodes, heap, nodes`heapLoc, n`heapLoc, n`timeStamp
      ensures Valid() && nodes == old(nodes) + {n}
      ensures n !in old(nodes) || reschedule ==> n.timeStamp == 1
      ensures n !in old(nodes) && old(Ordered()) ==> Ordered()
      ensures n in old(nodes) && old(n.heapLoc) == 0 && old(Ordered()) && (forall m :: m in old(nodes) ==> old(m.timeStamp) >= 1) ==>
        Ordered()
    {
      if n.heapLoc >= 0 {
        if !reschedule {
          return;
        }
        if n.heapLoc == 0 {
          Advance(n);
          return;
        }
        RemoveNode(n);
      }
      InsertNode(1, n);
    }

    method Advance(n: CSNode)
      requires Valid() && n in nodes && n.heapLoc == 0
      modifies n`timeStamp
      ensures Valid() && n.timeStamp == 1
      ensures old(Ordered()) && (forall m :: m in nodes ==> old(m.timeStamp) >= 1) ==> Ordered()
    {
      ghost var ks := Times();
      n.timeStamp := 1;
      KeyedIsKeys(Live(), ks[0 := 1]);
      if Heap(ks) && forall m :: m in nodes ==> old(m.timeStamp) >= 1 {
        forall i | 0 < i < |ks|
          ensures ks[0 := 1][Parent(i)] <= ks[0 := 1][i]
        {
          ParentBelow(i);
          assert Live()[i] in nodes;
        }
      }
    }

    method TakeFirst() returns (n: CSNode)
      requires Valid() && lastEntry >= 0
      modifies this`lastEntry, this`nodes, heap, nodes`heapLoc
      ensures Valid() && n in old(nodes) && nodes == old(nodes) - {n} && n.heapLoc < 0 && lastEntry == old(lastEntry) - 1
      ensures old(Ordered()) ==> Ordered() && forall m :: m in old(nodes) ==> n.timeStamp <= m.timeStamp
    {
      hide Placed, Keyed, Heap;
      First();
      n := heap[0];
      RemoveNode(n);
    }

    /** pop: the first node leaves, and returns with its next time if its socket packed a packet.
        The state of the socket and what packData answers are parameters. */
    method Pop(connected: bool, broken: bool, packed: bool, ts: int) returns (sent: bool, n: CSNode?)
      requires Valid() && 0 <= ts
      modifies this`lastEntry, this`nodes, heap, nodes`heapLoc, nodes`timeStamp
      ensures Valid() && (old(Ordered()) ==> Ordered())
      ensures old(nodes) == {} ==> !sent && n == null && nodes == {}
      ensures old(nodes) != {} ==> n != null && n in old(nodes) && (sent <==> connected && !broken && packed)
      ensures old(nodes) != {} ==> nodes == if sent && ts > 0 then old(nodes) else old(nodes) - {n}
      ensures old(nodes) != {} && old(Ordered()) ==> forall m :: m in old(nodes) ==> old(n.timeStamp) <= old(m.timeStamp)
      ensures sent && ts > 0 ==> n.timeStamp == ts
    {
      hide Placed, Keyed, Heap, CSndUList.Ordered, CSndUList.Times;
      if lastEntry == -1 {
        if nodes != {} {
          SomeNode();
        }
        return false, null;
      }
      n := TakeFirst();
      if !connected || broken || !packed {
        return false, n;
      }
      if ts > 0 {
        InsertNode(ts, n);
      }
      return true, n;
    }

    /** The node at the front is first, and in an ordered heap the earliest. */
    lemma First()
      requires Valid() && 0 <= lastEntry
      ensures heap[0] != null && heap[0] in nodes && heap[0].heapLoc == 0
      ensures Ordered() ==> forall m :: m in nodes ==> heap[0].timeStamp <= m.timeStamp
    {
      if Ordered() {
        forall m | m in nodes
          ensures heap[0].timeStamp <= m.timeStamp
        {
          RootIsLeast(Times(), m.heapLoc);
        }
      }
    }
  }

  /** Removing from the middle can break the order: the last node may belong to an earlier branch. */
  lemma InteriorRemovalBreaksOrder()
    ensures Heap([1, 10, 2, 11, 12, 3]) && !Refillable([1, 10, 2, 11, 12, 3], 3)
    ensures !Heap(Refilled([1, 10, 2, 11, 12, 3], 3))
  {
    var r := Refilled([1, 10, 2, 11, 12, 3], 3);
    assert r == [1, 10, 2, 3, 12];
    assert r[Parent(3)] > r[3];
  }
}
