/** The interval lists of lost packets, stored as linked lists inside fixed arrays.

    A node is an interval of lost numbers; the list is seen as a map from the first number of each
    node to its last.  A node lives in the array slot given by the distance of its first number
    from the start of a window that is no longer than the array, so no two numbers share a slot. */
module LossNodes {
  import opened Chunks
  import opened SeqNo

  type Nodes = map<int, int>

  /** The numbers first, first + 1, ..., and the slot of the first. */
  datatype Win = Win(first: int, slot: int, size: int)

  ghost predicate WinOk(w: Win) {
    0 <= w.slot < w.size <= 0x1000_0000 && 0 <= w.first
  }

  ghost predicate InWin(w: Win, x: int) {
    w.first <= x < w.first + w.size
  }

  function Slot(w: Win, x: int): int {
    var d := w.slot + (x - w.first);
    if d < w.size then d else d - w.size
  }

  function Unslot(w: Win, j: int): int {
    if j >= w.slot then w.first + (j - w.slot) else w.first + (j - w.slot) + w.size
  }

  /** Every node fits the window. */
  ghost predicate Fits(w: Win, m: Nodes) {
    forall x :: x in m ==> InWin(w, x) && x <= m[x] && InWin(w, m[x])
  }

  ghost predicate Disjoint(m: Nodes) {
    forall x, y :: x in m && y in m && x < y ==> m[x] < y
  }

  ghost predicate IsNext(m: Nodes, x: int, y: int) {
    y in m && x < y && forall z :: z in m ==> z <= x || y <= z
  }

  ghost predicate IsLast(m: Nodes, x: int) {
    forall z :: z in m ==> z <= x
  }

  ghost predicate IsFirst(m: Nodes, x: int) {
    x in m && forall z :: z in m ==> x <= z
  }

  /** m_piData1 and m_piData2: -1 marks an empty slot and the missing end of a single number. */
  ghost predicate Stored(w: Win, m: Nodes, d1: seq<int>, d2: seq<int>) {
    && WinOk(w) && |d1| == w.size && |d2| == w.size
    && forall x {:trigger Slot(w, x)} :: InWin(w, x) ==>
         && d1[Slot(w, x)] == (if x in m then Wrap(x) else -1)
         && d2[Slot(w, x)] == (if x in m && x < m[x] then Wrap(m[x]) else -1)
  }

  /** m_piNext: where the node after x is. */
  ghost predicate Forward(w: Win, m: Nodes, x: int, j: int) {
    if j == -1 then IsLast(m, x) else 0 <= j < w.size && IsNext(m, x, Unslot(w, j))
  }

  ghost predicate Linked(w: Win, m: Nodes, next: seq<int>) {
    && WinOk(w) && Fits(w, m) && |next| == w.size
    && forall x :: x in m ==> Forward(w, m, x, next[Slot(w, x)])
  }

  /** m_iHead. */
  ghost predicate Headed(w: Win, m: Nodes, head: int) {
    if head == -1 then m == map[] else 0 <= head < w.size && IsFirst(m, Unslot(w, head))
  }

  ghost predicate Rep(w: Win, m: Nodes, d1: seq<int>, d2: seq<int>, next: seq<int>) {
    Stored(w, m, d1, d2) && Linked(w, m, next)
  }

  lemma SameUpdate<T>(s: seq<T>, i: nat)
    requires i < |s|
    ensures s[i := s[i]] == s
  {
  }

  // ---------- The order of the nodes ----------

  lemma SameNext(m: Nodes, a: int, b: int, c: int)
    requires IsNext(m, a, b)
    ensures IsNext(m, a, c) ==> b == c
    ensures !IsLast(m, a)
  {
  }

  lemma SamePrior(m: Nodes, a: int, b: int, c: int)
    requires a in m && IsNext(m, a, c)
    ensures b in m && IsNext(m, b, c) ==> a == b
    ensures !IsFirst(m, c)
  {
  }

  /** The order without node y. */
  lemma DropOrder(m: Nodes, y: int, a: int, b: int)
    requires a != y
    ensures IsNext(m, a, b) && b != y ==> IsNext(m - {y}, a, b)
    ensures IsLast(m, a) ==> IsLast(m - {y}, a)
    ensures IsFirst(m, a) ==> IsFirst(m - {y}, a)
  {
  }

  /** The neighbours of a node that leaves become neighbours. */
  lemma DropBetween(m: Nodes, a: int, y: int, b: int)
    requires IsNext(m, a, y)
    ensures IsNext(m, y, b) ==> IsNext(m - {y}, a, b)
    ensures IsLast(m, y) ==> IsLast(m - {y}, a)
  {
  }

  lemma DropFirst(m: Nodes, y: int, b: int)
    requires IsFirst(m, y) && IsNext(m, y, b)
    ensures IsFirst(m - {y}, b)
  {
  }

  // ---------- Slots ----------

  lemma SlotInverse(w: Win, x: int)
    requires WinOk(w) && InWin(w, x)
    ensures 0 <= Slot(w, x) < w.size && Unslot(w, Slot(w, x)) == x
  {
  }

  lemma UnslotInverse(w: Win, j: int)
    requires WinOk(w) && 0 <= j < w.size
    ensures InWin(w, Unslot(w, j)) && Slot(w, Unslot(w, j)) == j
  {
  }

  lemma SlotInjective(w: Win, x: int, y: int)
    requires WinOk(w) && InWin(w, x) && InWin(w, y)
    ensures Slot(w, x) == Slot(w, y) <==> x == y
  {
  }

  lemma ModUnique(a: int, n: int, q: int, r: int)
    requires n > 0 && a == q * n + r && 0 <= r < n
    ensures a % n == r
  {
    var q', r' := a / n, a % n;
    assert a == q' * n + r';
    assert (q - q') * n == r' - r;
    assert q - q' >= 1 ==> (q - q') * n >= n;
    assert q - q' <= -1 ==> (q - q') * n <= -n;
    assert q == q';
  }

  /** The slot arithmetic of the program: an offset from the head, modulo the array size. */
  lemma SlotByOffset(w: Win, h: int, x: int)
    requires WinOk(w) && InWin(w, h) && InWin(w, x)
    ensures (Slot(w, h) + (x - h) + w.size) % w.size == Slot(w, x)
    ensures x >= h ==> (Slot(w, h) + (x - h)) % w.size == Slot(w, x)
  {
    var a := Slot(w, h) + (x - h);
    var q := if a < 0 then -1 else if a < w.size then 0 else 1;
    ModUnique(a, w.size, q, Slot(w, x));
    ModUnique(a + w.size, w.size, q + 1, Slot(w, x));
  }

  lemma SlotSucc(w: Win, x: int)
    requires WinOk(w) && InWin(w, x) && InWin(w, x + 1)
    ensures (Slot(w, x) + 1) % w.size == Slot(w, x + 1)
  {
    var a := Slot(w, x) + 1;
    ModUnique(a, w.size, if a < w.size then 0 else 1, Slot(w, x + 1));
  }

  lemma SlotPred(w: Win, x: int)
    requires WinOk(w) && InWin(w, x) && InWin(w, x - 1)
    ensures (Slot(w, x) - 1 + w.size) % w.size == Slot(w, x - 1)
  {
    var a := Slot(w, x) - 1 + w.size;
    ModUnique(a, w.size, if a < w.size then 0 else 1, Slot(w, x - 1));
  }

  // ---------- The set a list stands for ----------

  ghost function Elems(m: Nodes): set<int> {
    set x, z | x in m && z in Interval(x, m[x]) :: z
  }

  lemma ElemsCovered(m: Nodes)
    ensures forall z :: z in Elems(m) <==> exists x :: x in m && x <= z <= m[x]
  {
    forall z
      ensures z in Elems(m) <==> exists x :: x in m && x <= z <= m[x]
    {
      if x :| x in m && x <= z <= m[x] {
        assert z in Interval(x, m[x]);
      }
    }
  }

  /** The node that holds a number. */
  lemma HolderOf(m: Nodes, z: int) returns (x: int)
    requires z in Elems(m)
    ensures x in m && x <= z <= m[x]
  {
    x :| x in m && z in Interval(x, m[x]);
  }

  lemma ElemsMember(m: Nodes, x: int, z: int)
    requires x in m && x <= z <= m[x]
    ensures z in Elems(m)
  {
    assert z in Interval(x, m[x]);
  }

  /** A node splits off the whole. */
  lemma ElemsRemove(m: Nodes, x: int)
    requires x in m
    ensures Elems(m) == Elems(m - {x}) + Interval(x, m[x])
  {
    var rest := m - {x};
    forall z
      ensures z in Elems(m) <==> z in Elems(rest) || z in Interval(x, m[x])
    {
      if z in Elems(m) {
        var y :| y in m && z in Interval(y, m[y]);
        if y != x {
          assert y in rest && rest[y] == m[y];
        }
      }
      if z in Elems(rest) {
        var y :| y in rest && z in Interval(y, rest[y]);
        assert y in m && m[y] == rest[y];
      }
    }
  }

  lemma ElemsAdd(m: Nodes, a: int, b: int)
    ensures Elems(m[a := b]) == Elems(m - {a}) + Interval(a, b)
  {
    var m' := m[a := b];
    assert m' - {a} == m - {a};
    ElemsRemove(m', a);
  }

  lemma OutsideOthers(m: Nodes, x: int)
    requires x in m && Disjoint(m) && forall y :: y in m ==> y <= m[y]
    ensures Elems(m - {x}) !! Interval(x, m[x])
  {
    hide Elems;
    var rest := m - {x};
    forall z | z in Elems(rest)
      ensures z !in Interval(x, m[x])
    {
      var y := HolderOf(rest, z);
      assert m[y] == rest[y];
    }
  }

  lemma DisjointRemove(m: Nodes, x: int)
    requires x in m && Disjoint(m) && forall y :: y in m ==> y <= m[y]
    ensures Elems(m - {x}) !! Interval(x, m[x])
    ensures |Elems(m)| == |Elems(m - {x})| + |Interval(x, m[x])|
  {
    hide Elems, Interval, Disjoint;
    var rest := m - {x};
    OutsideOthers(m, x);
    ElemsRemove(m, x);
    CardDisjoint(Elems(rest), Interval(x, m[x]));
  }

  lemma CardDisjoint(a: set<int>, b: set<int>)
    requires a !! b
    ensures |a + b| == |a| + |b|
  {
  }

  // ---------- Moving the window ----------

  function MoveTo(w: Win, lo: int): Win {
    var s := w.slot + (lo - w.first);
    Win(lo, if s < 0 then s + w.size else if s < w.size then s else s - w.size, w.size)
  }

  lemma MoveKeepsSlot(w: Win, lo: int, x: int)
    requires WinOk(w) && 0 <= lo && InWin(w, x) && InWin(MoveTo(w, lo), x)
    ensures WinOk(MoveTo(w, lo)) && Slot(MoveTo(w, lo), x) == Slot(w, x)
  {
  }

  lemma MoveStored(w: Win, lo: int, m: Nodes, d1: seq<int>, d2: seq<int>)
    requires Fits(w, m) && Stored(w, m, d1, d2)
    requires 0 <= lo && -w.size < lo - w.first < w.size && Fits(MoveTo(w, lo), m)
    ensures Stored(MoveTo(w, lo), m, d1, d2)
  {
    var w' := MoveTo(w, lo);
    forall x {:trigger Slot(w', x)} | InWin(w', x)
      ensures d1[Slot(w', x)] == (if x in m then Wrap(x) else -1)
      ensures d2[Slot(w', x)] == (if x in m && x < m[x] then Wrap(m[x]) else -1)
    {
      var y := if x < w.first then x + w.size else if x < w.first + w.size then x else x - w.size;
      assert InWin(w, y) && Slot(w, y) == Slot(w', x);
      assert y != x ==> x !in m && y !in m;
    }
  }

  lemma MoveUnslot(w: Win, lo: int, x: int, j: int)
    requires WinOk(w) && 0 <= lo && InWin(w, x) && InWin(MoveTo(w, lo), x) && j == Slot(w, x)
    ensures Unslot(MoveTo(w, lo), j) == x
  {
  }

  /** The window may slide to any place that still holds the whole list. */
  lemma MoveRep(w: Win, lo: int, m: Nodes, d1: seq<int>, d2: seq<int>, next: seq<int>, head: int)
    requires Rep(w, m, d1, d2, next) && Headed(w, m, head) && m != map[]
    requires 0 <= lo && Fits(MoveTo(w, lo), m)
    ensures Rep(MoveTo(w, lo), m, d1, d2, next) && Headed(MoveTo(w, lo), m, head)
  {
    var w' := MoveTo(w, lo);
    var h := Unslot(w, head);
    assert h in m;
    MoveStored(w, lo, m, d1, d2);
    MoveUnslot(w, lo, h, head);
    forall x | x in m
      ensures Forward(w', m, x, next[Slot(w', x)])
    {
      MoveKeepsSlot(w, lo, x);
      var j := next[Slot(w, x)];
      if j != -1 {
        MoveUnslot(w, lo, Unslot(w, j), j);
      }
    }
  }

  /** An empty list may be given any window. */
  lemma EmptyAnyWindow(w: Win, w': Win, d1: seq<int>, d2: seq<int>)
    requires Stored(w, map[], d1, d2) && WinOk(w') && w'.size == w.size
    ensures Stored(w', map[], d1, d2)
  {
    forall x {:trigger Slot(w', x)} | InWin(w', x)
      ensures d1[Slot(w', x)] == -1 && d2[Slot(w', x)] == -1
    {
      UnslotInverse(w, Slot(w', x));
    }
  }

  // ---------- One node changes ----------

  /** m_piData2 as it stands after the end of node x has been written. */
  function EndEntry(x: int, last: int): int {
    if x < last then Wrap(last) else -1
  }

  /** Writing node [a, b] into the free slot of a. */
  lemma AddStored(w: Win, m: Nodes, d1: seq<int>, d2: seq<int>, a: int, b: int)
    requires Stored(w, m, d1, d2) && InWin(w, a) && a !in m && a <= b
    ensures Stored(w, m[a := b], d1[Slot(w, a) := Wrap(a)], d2[Slot(w, a) := EndEntry(a, b)])
    ensures d2[Slot(w, a)] == -1
  {
    forall x {:trigger Slot(w, x)} | InWin(w, x)
      ensures x != a ==> Slot(w, x) != Slot(w, a)
    {
    }
  }

  lemma SetEndStored(w: Win, m: Nodes, d1: seq<int>, d2: seq<int>, a: int, b: int)
    requires Stored(w, m, d1, d2) && InWin(w, a) && a in m && a <= b
    ensures Stored(w, m[a := b], d1, d2[Slot(w, a) := EndEntry(a, b)])
  {
    forall x {:trigger Slot(w, x)} | InWin(w, x)
      ensures x != a ==> Slot(w, x) != Slot(w, a)
    {
    }
  }

  lemma DropStored(w: Win, m: Nodes, d1: seq<int>, d2: seq<int>, a: int)
    requires Stored(w, m, d1, d2) && InWin(w, a) && a in m
    ensures Stored(w, m - {a}, d1[Slot(w, a) := -1], d2[Slot(w, a) := -1])
  {
    forall x {:trigger Slot(w, x)} | InWin(w, x)
      ensures x != a ==> Slot(w, x) != Slot(w, a)
    {
    }
  }

  /** A node enters before the whole list. */
  lemma AddFirstLinked(w: Win, m: Nodes, next: seq<int>, head: int, a: int, b: int)
    requires Linked(w, m, next) && Headed(w, m, head)
    requires InWin(w, a) && a <= b && InWin(w, b) && forall x :: x in m ==> a < x
    ensures Linked(w, m[a := b], next[Slot(w, a) := head])
    ensures Headed(w, m[a := b], Slot(w, a))
  {
    SlotInverse(w, a);
    var m', next' := m[a := b], next[Slot(w, a) := head];
    forall x | x in m'
      ensures Forward(w, m', x, next'[Slot(w, x)])
    {
      if x != a {
        SlotInjective(w, x, a);
        assert Forward(w, m, x, next[Slot(w, x)]);
      }
    }
  }

  /** A node enters right after node p. */
  lemma AddAfterLinked(w: Win, m: Nodes, next: seq<int>, p: int, a: int, b: int)
    requires Linked(w, m, next) && p in m && p < a && (forall z :: z in m ==> z <= p || a < z)
    requires InWin(w, a) && a <= b && InWin(w, b)
    ensures Linked(w, m[a := b], next[Slot(w, a) := next[Slot(w, p)]][Slot(w, p) := Slot(w, a)])
  {
    SlotInverse(w, a);
    SlotInjective(w, p, a);
    var m', next' := m[a := b], next[Slot(w, a) := next[Slot(w, p)]][Slot(w, p) := Slot(w, a)];
    assert Forward(w, m, p, next[Slot(w, p)]);
    forall x | x in m'
      ensures Forward(w, m', x, next'[Slot(w, x)])
    {
      SlotInjective(w, x, a);
      SlotInjective(w, x, p);
      if x != a && x != p {
        assert Forward(w, m, x, next[Slot(w, x)]);
      }
    }
  }

  lemma SetEndLinked(w: Win, m: Nodes, next: seq<int>, a: int, b: int)
    requires Linked(w, m, next) && a in m && a <= b && InWin(w, b)
    ensures Linked(w, m[a := b], next)
  {
    forall x | x in m
      ensures Forward(w, m[a := b], x, next[Slot(w, x)])
    {
      assert Forward(w, m, x, next[Slot(w, x)]);
    }
  }

  /** The node after k leaves. */
  lemma DropNextLinked(w: Win, m: Nodes, next: seq<int>, k: int, y: int)
    requires Linked(w, m, next) && k in m && IsNext(m, k, y)
    ensures Linked(w, m - {y}, next[Slot(w, k) := next[Slot(w, y)]])
  {
    hide Forward, IsNext;
    NextIsNode(m, k, y);
    SlotInverse(w, k);
    SlotInverse(w, y);
    var next' := next[Slot(w, k) := next[Slot(w, y)]];
    forall x | x in m - {y}
      ensures Forward(w, m - {y}, x, next'[Slot(w, x)])
    {
      SlotInverse(w, x);
      SlotInjective(w, x, k);
      DropForward(w, m, k, y, x, next[Slot(w, x)], next[Slot(w, y)]);
    }
  }

  lemma NextIsNode(m: Nodes, k: int, y: int)
    requires IsNext(m, k, y)
    ensures y in m && k != y
  {
  }

  lemma DropForward(w: Win, m: Nodes, k: int, y: int, x: int, j: int, jy: int)
    requires IsNext(m, k, y) && k in m && x in m && x != y && Forward(w, m, x, j) && Forward(w, m, y, jy)
    ensures Forward(w, m - {y}, x, if x == k then jy else j)
  {
    hide IsNext, IsLast, Unslot;
    if x == k {
      DropBetween(m, k, y, Unslot(w, jy));
    } else {
      SamePrior(m, k, x, y);
      DropOrder(m, y, x, Unslot(w, j));
    }
  }

  /** The first node leaves. */
  lemma DropFirstLinked(w: Win, m: Nodes, next: seq<int>, a: int)
    requires Linked(w, m, next) && IsFirst(m, a)
    ensures Linked(w, m - {a}, next)
    ensures Headed(w, m - {a}, next[Slot(w, a)])
  {
    var m' := m - {a};
    assert Forward(w, m, a, next[Slot(w, a)]);
    if next[Slot(w, a)] == -1 {
      assert forall z :: z !in m';
      assert m' == map[];
    }
    forall x | x in m'
      ensures Forward(w, m', x, next[Slot(w, x)])
    {
      assert Forward(w, m, x, next[Slot(w, x)]);
    }
  }

  // ---------- The edits of a whole list ----------

  lemma EmptyElems()
    ensures Elems(map[]) == {}
  {
  }

  /** The first node of an empty list goes to slot 0. */
  lemma FirstRep(w: Win, m: Nodes, d1: seq<int>, d2: seq<int>, next: seq<int>, w': Win, a: int, b: int)
    requires Stored(w, m, d1, d2) && m == map[] && |next| == w.size
    requires WinOk(w') && w'.size == w.size && InWin(w', a) && a <= b && InWin(w', b) && Slot(w', a) == 0
    ensures Rep(w', m[a := b], d1[0 := Wrap(a)], d2[0 := EndEntry(a, b)], next[0 := -1])
    ensures Headed(w', m[a := b], 0) && Disjoint(m[a := b])
    ensures d2[0] == -1
    ensures Elems(m[a := b]) == Interval(a, b)
  {
    hide Stored, Forward, Wrap, Elems;
    EmptyStored(w, m, d1, d2, w');
    AddStored(w', m, d1, d2, a, b);
    AddFirstLinked(w', m, next, -1, a, b);
    ElemsAdd(m, a, b);
    assert m - {a} == m;
    EmptyElems();
  }

  lemma EmptyStored(w: Win, m: Nodes, d1: seq<int>, d2: seq<int>, w': Win)
    requires Stored(w, m, d1, d2) && m == map[]
    requires WinOk(w') && w'.size == w.size
    ensures Stored(w', m, d1, d2) && |d1| == |d2| == w.size
  {
    EmptyAnyWindow(w, w', d1, d2);
  }

  lemma RepFits(w: Win, m: Nodes, d1: seq<int>, d2: seq<int>, next: seq<int>)
    requires Rep(w, m, d1, d2, next)
    ensures WinOk(w) && Fits(w, m) && |d1| == |d2| == |next| == w.size
  {
  }

  /** Only node k may reach into the nodes after it. */
  ghost predicate GrownNodes(m: Nodes, k: int) {
    k in m && forall x, y :: x in m && y in m && x < y && x != k ==> m[x] < y
  }

  lemma GrownMember(m: Nodes, k: int)
    requires GrownNodes(m, k)
    ensures k in m
  {
  }

  lemma AddGrown(m: Nodes, a: int, b: int)
    requires Disjoint(m) && a !in m && forall x :: x in m && x < a ==> m[x] < a
    ensures GrownNodes(m[a := b], a)
    ensures m[a := b] - {a} == m && Elems(m[a := b]) == Elems(m) + Interval(a, b)
  {
    hide Elems;
    assert m - {a} == m;
    ElemsAdd(m, a, b);
  }

  lemma GrowGrown(m: Nodes, k: int, a: int, b: int)
    requires Disjoint(m) && k in m && k <= a <= m[k] + 1 && m[k] < b && a <= b
    requires forall x :: x in m ==> x <= m[x]
    ensures GrownNodes(m[k := b], k)
    ensures m[k := b] - {k} == m - {k} && Elems(m[k := b]) == Elems(m) + Interval(a, b)
    ensures |Elems(m)| == |Elems(m - {k})| + m[k] - k + 1
  {
    hide Elems;
    GrowShape(m, k, b);
    ElemsAdd(m, k, b);
    ElemsRemove(m, k);
    DisjointRemove(m, k);
    IntervalJoin(k, m[k], a, b);
    UnionAssoc(Elems(m - {k}), Interval(k, m[k]), Interval(a, b));
  }

  lemma GrowShape(m: Nodes, k: int, b: int)
    requires Disjoint(m) && k in m
    ensures GrownNodes(m[k := b], k) && m[k := b] - {k} == m - {k}
  {
  }

  lemma InsideElems(m: Nodes, k: int, a: int, b: int)
    requires k in m && k <= a && b <= m[k]
    ensures Interval(a, b) <= Elems(m)
  {
    ElemsRemove(m, k);
  }

  /** Once node k reaches no other, the length counts the set. */
  lemma GrownDone(m: Nodes, k: int)
    requires GrownNodes(m, k) && forall y :: y in m && k < y ==> m[k] < y
    requires forall x :: x in m ==> x <= m[x]
    ensures Disjoint(m) && |Elems(m)| == m[k] - k + 1 + |Elems(m - {k})|
  {
    hide Elems;
    assert Disjoint(m);
    DisjointRemove(m, k);
  }

  lemma FrontRep(w: Win, m: Nodes, d1: seq<int>, d2: seq<int>, next: seq<int>, head: int, a: int, b: int)
    requires Rep(w, m, d1, d2, next) && Headed(w, m, head)
    requires InWin(w, a) && a <= b && InWin(w, b) && forall x :: x in m ==> a < x
    ensures 0 <= Slot(w, a) < w.size && Unslot(w, Slot(w, a)) == a && d2[Slot(w, a)] == -1
    ensures Rep(w, m[a := b], d1[Slot(w, a) := Wrap(a)], d2[Slot(w, a) := EndEntry(a, b)],
                next[Slot(w, a) := head])
    ensures Headed(w, m[a := b], Slot(w, a))
  {
    hide Stored, Forward;
    SlotInverse(w, a);
    AddStored(w, m, d1, d2, a, b);
    AddFirstLinked(w, m, next, head, a, b);
  }

  lemma AfterRep(w: Win, m: Nodes, d1: seq<int>, d2: seq<int>, next: seq<int>, head: int, p: int, a: int, b: int)
    requires Rep(w, m, d1, d2, next) && Headed(w, m, head) && p in m && p < a
    requires InWin(w, a) && a <= b && InWin(w, b) && forall z :: z in m ==> z <= p || a < z
    ensures 0 <= Slot(w, a) < w.size && Unslot(w, Slot(w, a)) == a && d2[Slot(w, a)] == -1
    ensures 0 <= Slot(w, p) < w.size && Slot(w, p) != Slot(w, a)
    ensures Rep(w, m[a := b], d1[Slot(w, a) := Wrap(a)], d2[Slot(w, a) := EndEntry(a, b)],
                next[Slot(w, a) := next[Slot(w, p)]][Slot(w, p) := Slot(w, a)])
    ensures Headed(w, m[a := b], head)
  {
    hide Stored, Forward;
    SlotInverse(w, a);
    SlotInverse(w, p);
    SlotInjective(w, a, p);
    AddStored(w, m, d1, d2, a, b);
    AddAfterLinked(w, m, next, p, a, b);
  }

  lemma SetEndRep(w: Win, m: Nodes, d1: seq<int>, d2: seq<int>, next: seq<int>, head: int, k: int, b: int)
    requires Rep(w, m, d1, d2, next) && Headed(w, m, head) && k in m && k <= b && InWin(w, b)
    ensures 0 <= Slot(w, k) < w.size
    ensures Rep(w, m[k := b], d1, d2[Slot(w, k) := EndEntry(k, b)], next)
    ensures Headed(w, m[k := b], head)
  {
    hide Stored, Forward;
    SlotInverse(w, k);
    SetEndStored(w, m, d1, d2, k, b);
    SetEndLinked(w, m, next, k, b);
  }

  lemma DropNextRep(w: Win, m: Nodes, d1: seq<int>, d2: seq<int>, next: seq<int>, head: int, k: int, y: int)
    requires Rep(w, m, d1, d2, next) && Headed(w, m, head) && k in m && IsNext(m, k, y)
    ensures 0 <= Slot(w, k) < w.size && 0 <= Slot(w, y) < w.size && Slot(w, k) != Slot(w, y)
    ensures Rep(w, m - {y}, d1[Slot(w, y) := -1], d2[Slot(w, y) := -1], next[Slot(w, k) := next[Slot(w, y)]])
    ensures Headed(w, m - {y}, head)
  {
    hide Stored, Forward;
    SlotInverse(w, k);
    SlotInverse(w, y);
    SlotInjective(w, k, y);
    DropStored(w, m, d1, d2, y);
    DropNextLinked(w, m, next, k, y);
  }

  lemma DropFirstRep(w: Win, m: Nodes, d1: seq<int>, d2: seq<int>, next: seq<int>, a: int)
    requires Rep(w, m, d1, d2, next) && IsFirst(m, a)
    ensures 0 <= Slot(w, a) < w.size
    ensures Rep(w, m - {a}, d1[Slot(w, a) := -1], d2[Slot(w, a) := -1], next)
    ensures Headed(w, m - {a}, next[Slot(w, a)])
  {
    hide Stored, Forward;
    SlotInverse(w, a);
    DropStored(w, m, d1, d2, a);
    DropFirstLinked(w, m, next, a);
  }

  /** What the program reads in the slot of a node. */
  lemma ReadNode(w: Win, m: Nodes, d1: seq<int>, d2: seq<int>, next: seq<int>, x: int)
    requires Rep(w, m, d1, d2, next) && x in m
    ensures InWin(w, x) && x <= m[x] && InWin(w, m[x])
    ensures 0 <= Slot(w, x) < w.size && Unslot(w, Slot(w, x)) == x
    ensures d1[Slot(w, x)] == Wrap(x) && d2[Slot(w, x)] == EndEntry(x, m[x])
    ensures Forward(w, m, x, next[Slot(w, x)])
  {
    SlotInverse(w, x);
  }

  /** The slot of a number tells whether a node starts there. */
  lemma ReadSlot(w: Win, m: Nodes, d1: seq<int>, d2: seq<int>, x: int)
    requires Stored(w, m, d1, d2) && InWin(w, x)
    ensures 0 <= Slot(w, x) < w.size
    ensures d1[Slot(w, x)] == Wrap(x) <==> x in m
  {
    SlotInverse(w, x);
  }

  /** Node y, next after k and touching it, is absorbed. */
  lemma MergeElems(m: Nodes, k: int, y: int)
    requires GrownNodes(m, k) && IsNext(m, k, y) && y <= m[k] + 1
    requires forall x :: x in m ==> x <= m[x]
    ensures var m' := m[k := Max(m[k], m[y])] - {y};
      GrownNodes(m', k) && Elems(m') == Elems(m) && m' - {k} == m - {k} - {y}
    ensures |Elems(m - {k})| == |Elems(m - {k} - {y})| + m[y] - y + 1
  {
    hide Elems;
    var e := Max(m[k], m[y]);
    var rest := m - {k} - {y};
    var m' := m[k := e] - {y};
    MergeShape(m, k, y, e);
    ElemsAdd(m', k, e);
    ElemsRemove(m, k);
    ElemsRemove(m - {k}, y);
    IntervalJoin(k, m[k], y, m[y]);
    UnionAssoc(Elems(rest), Interval(k, m[k]), Interval(y, m[y]));
    UnionSwap(Elems(rest), Interval(k, m[k]), Interval(y, m[y]));
    DisjointRemove(m - {k}, y);
  }

  lemma MergeShape(m: Nodes, k: int, y: int, e: int)
    requires GrownNodes(m, k) && IsNext(m, k, y)
    ensures var m' := m[k := e] - {y};
      GrownNodes(m', k) && m' - {k} == m - {k} - {y} && m'[k := e] == m' && k in m' && m'[k] == e
    ensures y in m - {k} && (m - {k})[y] == m[y] && Disjoint(m - {k})
  {
  }

  lemma IntervalJoin(lo: int, mid: int, a: int, hi: int)
    requires lo <= a <= mid + 1
    ensures Interval(lo, Max(mid, hi)) == Interval(lo, mid) + Interval(a, hi)
  {
  }

  lemma UnionAssoc<T>(a: set<T>, b: set<T>, c: set<T>)
    ensures a + (b + c) == (a + b) + c
  {
  }

  lemma UnionSwap<T>(a: set<T>, b: set<T>, c: set<T>)
    ensures (a + b) + c == (a + c) + b
  {
  }

  lemma SwapUpdates<T>(s: seq<T>, i: nat, j: nat, u: T, v: T)
    requires i < |s| && j < |s| && i != j
    ensures s[i := u][j := v] == s[j := v][i := u]
  {
  }

  lemma EmptyMeansNoElems(m: Nodes)
    requires forall x :: x in m ==> x <= m[x]
    ensures |Elems(m)| == 0 <==> m == map[]
  {
    if m == map[] {
      EmptyElems();
    } else {
      var x := Pick(m.Keys);
      ElemsMember(m, x, x);
    }
  }

  /** The first number leaves a longer first node: the node moves one slot on. */
  lemma ShiftFirstRep(w: Win, m: Nodes, d1: seq<int>, d2: seq<int>, next: seq<int>, x: int)
    requires Rep(w, m, d1, d2, next) && IsFirst(m, x) && x < m[x] && Disjoint(m)
    ensures 0 <= Slot(w, x) < w.size && 0 <= Slot(w, x + 1) < w.size && Slot(w, x) != Slot(w, x + 1)
    ensures Unslot(w, Slot(w, x + 1)) == x + 1 && d2[Slot(w, x + 1)] == -1
    ensures Rep(w, (m - {x})[x + 1 := m[x]],
                d1[Slot(w, x + 1) := Wrap(x + 1)][Slot(w, x) := -1],
                d2[Slot(w, x + 1) := EndEntry(x + 1, m[x])][Slot(w, x) := -1],
                next[Slot(w, x + 1) := next[Slot(w, x)]])
    ensures Headed(w, (m - {x})[x + 1 := m[x]], Slot(w, x + 1))
  {
    hide Stored, Linked, Headed;
    RepFits(w, m, d1, d2, next);
    var i, j := Slot(w, x), Slot(w, x + 1);
    SlotInverse(w, x);
    SlotInverse(w, x + 1);
    DropFirstRep(w, m, d1, d2, next, x);
    FrontRep(w, m - {x}, d1[i := -1], d2[i := -1], next, next[i], x + 1, m[x]);
    SwapUpdates(d1, i, j, -1, Wrap(x + 1));
    SwapUpdates(d2, i, j, -1, EndEntry(x + 1, m[x]));
  }

  /** The first number of a longer node leaves it. */
  lemma ShiftElems(m: Nodes, x: int)
    requires x in m && x < m[x] && Disjoint(m) && forall y :: y in m ==> y <= m[y]
    ensures var m' := (m - {x})[x + 1 := m[x]];
      Disjoint(m') && Elems(m') == Elems(m) - {x} && |Elems(m')| == |Elems(m)| - 1
    ensures x in Elems(m)
  {
    hide Elems;
    var rest := m - {x};
    ShiftShape(m, x);
    ElemsRemove(m, x);
    ElemsAdd(rest, x + 1, m[x]);
    DisjointRemove(m, x);
    ElemsMember(m, x, x);
    IntervalHead(x, m[x]);
    WithoutOne(Elems(rest), Interval(x + 1, m[x]), x);
    CardWithout(Elems(m), x);
  }

  /** A node of one number leaves. */
  lemma DropElems(m: Nodes, x: int)
    requires x in m && x == m[x] && Disjoint(m) && forall y :: y in m ==> y <= m[y]
    ensures Disjoint(m - {x}) && Elems(m - {x}) == Elems(m) - {x} && |Elems(m - {x})| == |Elems(m)| - 1
    ensures x in Elems(m)
  {
    hide Elems;
    ElemsRemove(m, x);
    DisjointRemove(m, x);
    ElemsMember(m, x, x);
    IntervalHead(x, x);
    WithoutOne(Elems(m - {x}), Interval(x + 1, x), x);
    CardWithout(Elems(m), x);
  }

  /** The last number of a longer node leaves it. */
  lemma TrimElems(m: Nodes, p: int)
    requires p in m && p < m[p] && Disjoint(m) && forall y :: y in m ==> y <= m[y]
    ensures var m' := m[p := m[p] - 1];
      Disjoint(m') && Elems(m') == Elems(m) - {m[p]} && |Elems(m')| == |Elems(m)| - 1
    ensures m[p] in Elems(m)
  {
    hide Elems;
    TrimShape(m, p);
    ElemsRemove(m, p);
    ElemsAdd(m, p, m[p] - 1);
    DisjointRemove(m, p);
    ElemsMember(m, p, m[p]);
    IntervalLast(p, m[p]);
    WithoutOne(Elems(m - {p}), Interval(p, m[p] - 1), m[p]);
    CardWithout(Elems(m), m[p]);
  }

  lemma TrimShape(m: Nodes, p: int)
    requires p in m && p < m[p] && Disjoint(m)
    ensures Disjoint(m[p := m[p] - 1])
  {
  }

  lemma IntervalLast(lo: int, hi: int)
    requires lo <= hi
    ensures Interval(lo, hi) == {hi} + Interval(lo, hi - 1) && hi !in Interval(lo, hi - 1)
  {
  }

  lemma ShiftShape(m: Nodes, x: int)
    requires x in m && x < m[x] && Disjoint(m)
    ensures Disjoint((m - {x})[x + 1 := m[x]]) && m - {x} - {x + 1} == m - {x}
  {
  }

  lemma IntervalHead(lo: int, hi: int)
    requires lo <= hi
    ensures Interval(lo, hi) == {lo} + Interval(lo + 1, hi) && lo !in Interval(lo + 1, hi)
  {
  }

  lemma WithoutOne<T>(a: set<T>, b: set<T>, x: T)
    requires x !in a && x !in b
    ensures (a + ({x} + b)) - {x} == a + b
  {
  }

  lemma CardWithout<T>(s: set<T>, x: T)
    requires x in s
    ensures |s - {x}| == |s| - 1
  {
  }

  lemma FirstIsLeast(m: Nodes, x: int)
    requires IsFirst(m, x) && forall y :: y in m ==> y <= m[y]
    ensures IsLeast(x, Elems(m))
  {
    ElemsMember(m, x, x);
    ElemsCovered(m);
  }

  /** Node p keeps its numbers up to keep; those after x become a node of their own. */
  lemma SplitRep(w: Win, m: Nodes, d1: seq<int>, d2: seq<int>, next: seq<int>, head: int,
                 p: int, keep: int, x: int)
    requires Rep(w, m, d1, d2, next) && Headed(w, m, head) && Disjoint(m) && p in m && p <= keep <= x < m[p]
    ensures var i, j := Slot(w, p), Slot(w, x + 1);
      && 0 <= i < w.size && 0 <= j < w.size && i != j && Unslot(w, j) == x + 1 && d2[j] == -1
      && Rep(w, m[x + 1 := m[p]][p := keep], d1[j := Wrap(x + 1)],
             d2[j := EndEntry(x + 1, m[p])][i := EndEntry(p, keep)], next[j := next[i]][i := j])
      && Headed(w, m[x + 1 := m[p]][p := keep], head)
  {
    hide Stored, Linked, Headed;
    RepFits(w, m, d1, d2, next);
    var i, j := Slot(w, p), Slot(w, x + 1);
    AfterRep(w, m, d1, d2, next, head, p, x + 1, m[p]);
    SetEndRep(w, m[x + 1 := m[p]], d1[j := Wrap(x + 1)], d2[j := EndEntry(x + 1, m[p])],
              next[j := next[i]][i := j], head, p, keep);
  }

  /** A number inside a node leaves it. */
  lemma CutElems(m: Nodes, p: int, x: int)
    requires Disjoint(m) && p in m && p < x < m[p] && forall y :: y in m ==> y <= m[y]
    ensures var m' := m[x + 1 := m[p]][p := x - 1];
      Disjoint(m') && Elems(m') == Elems(m) - {x} && |Elems(m')| == |Elems(m)| - 1
    ensures x in Elems(m)
  {
    hide Elems;
    var m1 := m[x + 1 := m[p]][p := x];
    SplitElems(m, p, x);
    TrimElems(m1, p);
    assert m1[p := x - 1] == m[x + 1 := m[p]][p := x - 1];
  }

  lemma SplitElems(m: Nodes, p: int, x: int)
    requires Disjoint(m) && p in m && p <= x < m[p]
    ensures var m' := m[x + 1 := m[p]][p := x]; Disjoint(m') && Elems(m') == Elems(m)
  {
    hide Elems;
    var rest := m - {p};
    SplitShape(m, p, x);
    ElemsAdd(rest[x + 1 := m[p]], p, x);
    ElemsAdd(rest, x + 1, m[p]);
    ElemsRemove(m, p);
    IntervalJoin(p, x, x + 1, m[p]);
    UnionSwap(Elems(rest), Interval(x + 1, m[p]), Interval(p, x));
    UnionAssoc(Elems(rest), Interval(p, x), Interval(x + 1, m[p]));
  }

  lemma SplitShape(m: Nodes, p: int, x: int)
    requires Disjoint(m) && p in m && p <= x < m[p]
    ensures var m', rest := m[x + 1 := m[p]][p := x], m - {p};
      && Disjoint(m') && m' == rest[x + 1 := m[p]][p := x]
      && rest[x + 1 := m[p]] - {p} == rest[x + 1 := m[p]] && rest - {x + 1} == rest
  {
  }

  /** The nodes that start after x. */
  ghost predicate IsTail(m: Nodes, m': Nodes, x: int) {
    && (forall y :: y in m' ==> y in m && m'[y] == m[y] && y > x)
    && (forall y :: y in m && y > x ==> y in m')
  }

  lemma TailElems(m: Nodes, m': Nodes, x: int)
    requires IsTail(m, m', x) && forall y :: y in m && y <= x ==> m[y] <= x
    ensures Elems(m') == set z | z in Elems(m) && z > x
  {
    hide Elems;
    ElemsCovered(m);
    ElemsCovered(m');
    forall z
      ensures z in Elems(m') <==> z in Elems(m) && z > x
    {
      if z in Elems(m) && z > x {
        var y :| y in m && y <= z <= m[y];
        assert y in m' && y <= z <= m'[y];
      }
    }
  }

  /** How a pair of arguments is stored: the end is written only when it differs. */
  lemma SamePair(a: int, b: int)
    requires 0 <= a <= b && Near(a, b)
    ensures Wrap(a) == Wrap(b) <==> a == b
    ensures EndEntry(a, b) == if Wrap(a) == Wrap(b) then -1 else Wrap(b)
  {
    WrapInjective(a, b);
  }

  lemma EndIsWrap(a: int, b: int)
    requires 0 <= a <= b
    ensures EndEntry(a, b) == (if a == b then -1 else Wrap(b)) && Wrap(b) != -1
  {
  }

  lemma ModBounds(a: int, n: int)
    requires n > 0
    ensures 0 <= a % n < n
  {
  }

  lemma Absorbed(s: set<int>, t: set<int>)
    requires t <= s
    ensures s + t == s
  {
  }

  // ---------- Writing ----------

  /** Writes the pair [a, b] into a free slot; the end only when it differs from the start. */
  method WritePair(data1: array<int>, data2: array<int>, loc: int, seqno1: int, seqno2: int, ghost a: int, ghost b: int)
    requires 0 <= loc < data1.Length && loc < data2.Length && data1 != data2 && data2[loc] == -1
    requires 0 <= a <= b && Near(a, b) && seqno1 == Wrap(a) && seqno2 == Wrap(b)
    modifies data1, data2
    ensures data1[..] == old(data1[..])[loc := Wrap(a)]
    ensures data2[..] == old(data2[..])[loc := EndEntry(a, b)]
  {
    SamePair(a, b);
    data1[loc] := seqno1;
    if seqno2 != seqno1 {
      data2[loc] := seqno2;
    }
  }

  /** A stretch that holds every lost number holds every node. */
  lemma FitsWhereLost(w: Win, m: Nodes, lo: int)
    requires WinOk(w) && Fits(w, m) && forall x :: x in Elems(m) ==> lo <= x < lo + w.size
    ensures Fits(MoveTo(w, lo), m)
  {
    forall x | x in m
      ensures InWin(MoveTo(w, lo), x) && InWin(MoveTo(w, lo), m[x])
    {
      ElemsMember(m, x, x);
      ElemsMember(m, x, m[x]);
    }
  }

  /** Writes the part of a node [p, last] after x, that is [x + 1, last], into the slot of x + 1. */
  method CarryEnd(data1: array<int>, data2: array<int>, loc: int, i: int, seqno: int, ghost x: int, ghost last: int)
    requires data1 != data2 && 0 <= loc < data1.Length && data1.Length == data2.Length && 0 <= i < data1.Length
    requires i != loc && 0 <= x < last && Near(x, last)
    requires seqno == Wrap(x) && data2[i] == Wrap(last) && data2[loc] == -1
    modifies data1, data2
    ensures data1[..] == old(data1[..])[loc := Wrap(x + 1)]
    ensures data2[..] == old(data2[..])[loc := EndEntry(x + 1, last)]
  {
    hide Wrap, SeqCmp, IncSeq;
    IncSeqExact(x);
    SeqCmpOrder(last, x + 1);
    SameUpdate(data2[..], loc);
    data1[loc] := IncSeq(seqno);
    if SeqCmp(data2[i], data1[loc]) > 0 {
      data2[loc] := data2[i];
    }
  }
}
