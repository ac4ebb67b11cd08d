/** The backward links of the receiver's loss list. */
module RcvLossNodes {
  import opened Chunks
  import opened SeqNo
  import opened LossNodes

  /** m_piPrior: where the node before x is. */
  ghost predicate Backward(w: Win, m: Nodes, x: int, j: int) {
    if j == -1 then IsFirst(m, x) else 0 <= j < w.size && IsNext(m, Unslot(w, j), x) && Unslot(w, j) in m
  }

  ghost predicate BackLinked(w: Win, m: Nodes, prior: seq<int>) {
    && WinOk(w) && Fits(w, m) && |prior| == w.size
    && forall x :: x in m ==> Backward(w, m, x, prior[Slot(w, x)])
  }

  /** m_iTail, of a list that is not empty. */
  ghost predicate Tailed(w: Win, m: Nodes, tail: int) {
    m != map[] ==> 0 <= tail < w.size && Unslot(w, tail) in m && IsLast(m, Unslot(w, tail))
  }

  ghost predicate DoubleRep(w: Win, m: Nodes, d1: seq<int>, d2: seq<int>, next: seq<int>, prior: seq<int>,
                            head: int, tail: int) {
    Rep(w, m, d1, d2, next) && Headed(w, m, head) && BackLinked(w, m, prior) && Tailed(w, m, tail)
  }

  lemma MoveBackLinked(w: Win, lo: int, m: Nodes, prior: seq<int>, some: int)
    requires BackLinked(w, m, prior) && 0 <= lo && Fits(MoveTo(w, lo), m) && some in m
    ensures BackLinked(MoveTo(w, lo), m, prior)
  {
    var w' := MoveTo(w, lo);
    MoveKeepsSlot(w, lo, some);
    forall x | x in m
      ensures Backward(w', m, x, prior[Slot(w', x)])
    {
      MoveKeepsSlot(w, lo, x);
      var j := prior[Slot(w, x)];
      if j != -1 {
        MoveUnslot(w, lo, Unslot(w, j), j);
      }
    }
  }

  lemma SetEndBackLinked(w: Win, m: Nodes, prior: seq<int>, a: int, b: int)
    requires BackLinked(w, m, prior) && a in m && a <= b && InWin(w, b)
    ensures BackLinked(w, m[a := b], prior)
  {
    forall x | x in m
      ensures Backward(w, m[a := b], x, prior[Slot(w, x)])
    {
      assert Backward(w, m, x, prior[Slot(w, x)]);
    }
  }

  /** Node a enters right after node p; y is the node after both, if there is one. */
  lemma AddAfterBackLinked(w: Win, m: Nodes, prior: seq<int>, p: int, a: int, b: int, y: int)
    requires BackLinked(w, m, prior) && p in m && p < a && InWin(w, a) && a <= b && InWin(w, b)
    requires IsLast(m, p) || (IsNext(m, p, y) && a < y)
    ensures BackLinked(w, m[a := b],
              if IsLast(m, p) then prior[Slot(w, a) := Slot(w, p)]
              else prior[Slot(w, a) := Slot(w, p)][Slot(w, y) := Slot(w, a)])
  {
    SlotInverse(w, a);
    SlotInverse(w, p);
    var m' := m[a := b];
    var prior' := if IsLast(m, p) then prior[Slot(w, a) := Slot(w, p)]
                  else prior[Slot(w, a) := Slot(w, p)][Slot(w, y) := Slot(w, a)];
    forall x | x in m'
      ensures Backward(w, m', x, prior'[Slot(w, x)])
    {
      SlotInjective(w, x, a);
      if !IsLast(m, p) {
        SlotInjective(w, x, y);
        SlotInjective(w, y, a);
      }
      if x != a {
        assert Backward(w, m, x, prior[Slot(w, x)]);
      }
    }
  }

  /** Node x leaves; y is the node after it, if there is one. */
  lemma DropBackLinked(w: Win, m: Nodes, prior: seq<int>, x: int, y: int)
    requires BackLinked(w, m, prior) && x in m && (IsLast(m, x) || IsNext(m, x, y))
    ensures BackLinked(w, m - {x}, if IsLast(m, x) then prior else prior[Slot(w, y) := prior[Slot(w, x)]])
  {
    hide Backward;
    SlotInverse(w, x);
    var prior' := if IsLast(m, x) then prior else prior[Slot(w, y) := prior[Slot(w, x)]];
    forall z | z in m - {x}
      ensures Backward(w, m - {x}, z, prior'[Slot(w, z)])
    {
      DropBackward(w, m, prior, x, y, z);
      if !IsLast(m, x) {
        SlotInjective(w, z, y);
      }
    }
  }

  lemma DropBackward(w: Win, m: Nodes, prior: seq<int>, x: int, y: int, z: int)
    requires BackLinked(w, m, prior) && x in m && (IsLast(m, x) || IsNext(m, x, y)) && z in m && z != x
    ensures Backward(w, m - {x}, z, prior[Slot(w, if !IsLast(m, x) && z == y then x else z)])
  {
    hide Slot, Unslot, IsNext, IsLast, IsFirst;
    SlotInverse(w, x);
    SlotInverse(w, z);
    var jx, jz := prior[Slot(w, x)], prior[Slot(w, z)];
    if !IsLast(m, x) && z == y {
      if jx == -1 {
        DropFirst(m, x, y);
      } else {
        NextIsNode(m, Unslot(w, jx), x);
        DropBetween(m, Unslot(w, jx), x, y);
      }
    } else {
      if jz == -1 {
        DropOrder(m, x, z, z);
      } else {
        SameNext(m, Unslot(w, jz), z, y);
        DropOrder(m, x, Unslot(w, jz), z);
      }
    }
  }

  ghost function Shifted(m: Nodes, x: int): Nodes
    requires x in m
  {
    (m - {x})[x + 1 := m[x]]
  }

  function Moved(x: int, a: int): int {
    if a == x then x + 1 else a
  }

  /** A node that gives up its first number keeps its place in the order. */
  lemma ShiftOrder(m: Nodes, x: int, a: int, b: int)
    requires Disjoint(m) && x in m && x < m[x]
    ensures a in m && IsNext(m, a, b) ==> IsNext(Shifted(m, x), Moved(x, a), Moved(x, b))
    ensures a in m && IsLast(m, a) ==> IsLast(Shifted(m, x), Moved(x, a))
    ensures IsFirst(m, a) ==> IsFirst(Shifted(m, x), Moved(x, a))
  {
  }

  /** Node x moves on to x + 1; k is the node before it, if there is one. */
  lemma ShiftLinked(w: Win, m: Nodes, next: seq<int>, x: int, k: int)
    requires Linked(w, m, next) && Disjoint(m) && x in m && x < m[x]
    requires IsFirst(m, x) || (IsNext(m, k, x) && k in m)
    ensures InWin(w, x + 1)
    ensures Linked(w, (m - {x})[x + 1 := m[x]],
              if IsFirst(m, x) then next[Slot(w, x + 1) := next[Slot(w, x)]]
              else next[Slot(w, x + 1) := next[Slot(w, x)]][Slot(w, k) := Slot(w, x + 1)])
  {
    hide Forward, Unslot;
    var m' := (m - {x})[x + 1 := m[x]];
    SlotInverse(w, x + 1);
    var next' := if IsFirst(m, x) then next[Slot(w, x + 1) := next[Slot(w, x)]]
                 else next[Slot(w, x + 1) := next[Slot(w, x)]][Slot(w, k) := Slot(w, x + 1)];
    forall z | z in m'
      ensures Forward(w, m', z, next'[Slot(w, z)])
    {
      ShiftForward(w, m, next, x, k, z);
      SlotInjective(w, z, x + 1);
      if !IsFirst(m, x) {
        SlotInjective(w, z, k);
        SlotInjective(w, k, x + 1);
      }
    }
  }

  lemma ShiftForward(w: Win, m: Nodes, next: seq<int>, x: int, k: int, z: int)
    requires Linked(w, m, next) && Disjoint(m) && x in m && x < m[x]
    requires IsFirst(m, x) || (IsNext(m, k, x) && k in m)
    requires z == x + 1 || (z in m && z != x)
    ensures InWin(w, x + 1)
    ensures Forward(w, (m - {x})[x + 1 := m[x]], z,
              if z == x + 1 then next[Slot(w, x)]
              else if !IsFirst(m, x) && z == k then Slot(w, x + 1) else next[Slot(w, z)])
  {
    hide Slot, Unslot, IsNext, IsLast, IsFirst, Disjoint;
    SlotInverse(w, x);
    SlotInverse(w, x + 1);
    var from := if z == x + 1 then x else z;
    SlotInverse(w, from);
    var j := next[Slot(w, from)];
    assert Forward(w, m, from, j);
    ShiftOrder(m, x, from, Unslot(w, j));
    if j != -1 {
      NextIsNode(m, from, Unslot(w, j));
      SamePrior(m, from, k, Unslot(w, j));
      if z == k && !IsFirst(m, x) {
        SameNext(m, k, x, Unslot(w, j));
      }
    } else if z == k && !IsFirst(m, x) {
      SameNext(m, k, x, x);
    }
  }

  lemma ShiftBackLinked(w: Win, m: Nodes, prior: seq<int>, x: int, y: int)
    requires BackLinked(w, m, prior) && Disjoint(m) && x in m && x < m[x]
    requires IsLast(m, x) || IsNext(m, x, y)
    ensures InWin(w, x + 1)
    ensures BackLinked(w, (m - {x})[x + 1 := m[x]],
              if IsLast(m, x) then prior[Slot(w, x + 1) := prior[Slot(w, x)]]
              else prior[Slot(w, x + 1) := prior[Slot(w, x)]][Slot(w, y) := Slot(w, x + 1)])
  {
    hide Backward, Unslot;
    var m' := (m - {x})[x + 1 := m[x]];
    SlotInverse(w, x + 1);
    var prior' := if IsLast(m, x) then prior[Slot(w, x + 1) := prior[Slot(w, x)]]
                  else prior[Slot(w, x + 1) := prior[Slot(w, x)]][Slot(w, y) := Slot(w, x + 1)];
    forall z | z in m'
      ensures Backward(w, m', z, prior'[Slot(w, z)])
    {
      ShiftBackward(w, m, prior, x, y, z);
      SlotInjective(w, z, x + 1);
      if !IsLast(m, x) {
        SlotInjective(w, z, y);
        SlotInjective(w, y, x + 1);
      }
    }
  }

  lemma ShiftBackward(w: Win, m: Nodes, prior: seq<int>, x: int, y: int, z: int)
    requires BackLinked(w, m, prior) && Disjoint(m) && x in m && x < m[x]
    requires IsLast(m, x) || IsNext(m, x, y)
    requires z == x + 1 || (z in m && z != x)
    ensures InWin(w, x + 1)
    ensures Backward(w, (m - {x})[x + 1 := m[x]], z,
              if z == x + 1 then prior[Slot(w, x)]
              else if !IsLast(m, x) && z == y then Slot(w, x + 1) else prior[Slot(w, z)])
  {
    hide Slot, Unslot, IsNext, IsLast, IsFirst, Disjoint;
    SlotInverse(w, x);
    SlotInverse(w, x + 1);
    var from := if z == x + 1 then x else z;
    SlotInverse(w, from);
    var j := prior[Slot(w, from)];
    assert Backward(w, m, from, j);
    ShiftOrder(m, x, Unslot(w, j), from);
    ShiftOrder(m, x, from, from);
    if j != -1 {
      NextIsNode(m, Unslot(w, j), from);
      SameNext(m, Unslot(w, j), from, y);
      if z == y && !IsLast(m, x) {
        SamePrior(m, x, Unslot(w, j), y);
      }
    } else if z == y && !IsLast(m, x) {
      SamePrior(m, x, x, y);
    }
  }

  lemma FirstBackLinked(w: Win, m: Nodes, prior: seq<int>, a: int, b: int)
    requires m == map[] && WinOk(w) && |prior| == w.size && InWin(w, a) && a <= b && InWin(w, b) && Slot(w, a) == 0
    ensures BackLinked(w, m[a := b], prior[0 := -1]) && Tailed(w, m[a := b], 0)
  {
  }

  /** What the program reads from the links of node x: the slots of its neighbours, or -1. */
  lemma ReadLinks(w: Win, m: Nodes, next: seq<int>, prior: seq<int>, head: int, tail: int, x: int)
    returns (k: int, y: int)
    requires Linked(w, m, next) && BackLinked(w, m, prior) && Headed(w, m, head) && Tailed(w, m, tail) && x in m
    ensures 0 <= Slot(w, x) < w.size && Unslot(w, Slot(w, x)) == x
    ensures var i := prior[Slot(w, x)];
      if i == -1 then IsFirst(m, x)
      else !IsFirst(m, x) && 0 <= i < w.size && k in m && IsNext(m, k, x) && i == Slot(w, k) && Unslot(w, i) == k
    ensures var j := next[Slot(w, x)];
      if j == -1 then IsLast(m, x)
      else !IsLast(m, x) && 0 <= j < w.size && y in m && IsNext(m, x, y) && j == Slot(w, y) && Unslot(w, j) == y
    ensures head == Slot(w, x) <==> IsFirst(m, x)
    ensures tail == Slot(w, x) <==> IsLast(m, x)
  {
    SlotInverse(w, x);
    assert Forward(w, m, x, next[Slot(w, x)]) && Backward(w, m, x, prior[Slot(w, x)]);
    k, y := x, x;
    if prior[Slot(w, x)] != -1 {
      k := Unslot(w, prior[Slot(w, x)]);
      UnslotInverse(w, prior[Slot(w, x)]);
    }
    if next[Slot(w, x)] != -1 {
      y := Unslot(w, next[Slot(w, x)]);
      UnslotInverse(w, next[Slot(w, x)]);
    }
    UnslotInverse(w, head);
    UnslotInverse(w, tail);
  }

  lemma ShiftRep(w: Win, m: Nodes, d1: seq<int>, d2: seq<int>, x: int)
    requires Stored(w, m, d1, d2) && Fits(w, m) && Disjoint(m) && x in m && x < m[x]
    ensures 0 <= Slot(w, x) < w.size && 0 <= Slot(w, x + 1) < w.size && Slot(w, x) != Slot(w, x + 1)
    ensures InWin(w, x + 1) && Unslot(w, Slot(w, x + 1)) == x + 1 && d2[Slot(w, x + 1)] == -1
    ensures Stored(w, (m - {x})[x + 1 := m[x]],
                   d1[Slot(w, x + 1) := Wrap(x + 1)][Slot(w, x) := -1],
                   d2[Slot(w, x + 1) := EndEntry(x + 1, m[x])][Slot(w, x) := -1])
  {
    hide Stored;
    var i, j := Slot(w, x), Slot(w, x + 1);
    StoredSizes(w, m, d1, d2);
    SlotInverse(w, x);
    SlotInverse(w, x + 1);
    DropStored(w, m, d1, d2, x);
    AddStored(w, m - {x}, d1[i := -1], d2[i := -1], x + 1, m[x]);
    SwapUpdates(d1, i, j, -1, Wrap(x + 1));
    SwapUpdates(d2, i, j, -1, EndEntry(x + 1, m[x]));
  }

  lemma StoredSizes(w: Win, m: Nodes, d1: seq<int>, d2: seq<int>)
    requires Stored(w, m, d1, d2)
    ensures WinOk(w) && |d1| == |d2| == w.size
  {
  }

  /** Head and tail after node x has gone. */
  lemma DropTailed(w: Win, m: Nodes, tail: int, x: int, k: int)
    requires WinOk(w) && Fits(w, m) && Tailed(w, m, tail) && x in m
    requires IsFirst(m, x) || (k in m && IsNext(m, k, x))
    ensures Tailed(w, m - {x}, if IsLast(m, x) && !IsFirst(m, x) then Slot(w, k) else tail)
  {
    if IsLast(m, x) && !IsFirst(m, x) {
      SlotInverse(w, k);
    } else if IsLast(m, x) {
      if m - {x} != map[] {
        var z := Pick((m - {x}).Keys);
      }
    } else {
      assert Unslot(w, tail) != x;
    }
  }

  lemma ShiftEnds(w: Win, m: Nodes, head: int, tail: int, x: int)
    requires WinOk(w) && Fits(w, m) && Disjoint(m) && Headed(w, m, head) && Tailed(w, m, tail) && x in m && x < m[x]
    ensures Headed(w, (m - {x})[x + 1 := m[x]], if IsFirst(m, x) then Slot(w, x + 1) else head)
    ensures Tailed(w, (m - {x})[x + 1 := m[x]], if IsLast(m, x) then Slot(w, x + 1) else tail)
  {
    SlotInverse(w, x + 1);
  }

  lemma ShiftSlots(w: Win, m: Nodes, x: int, k: int, y: int)
    requires WinOk(w) && Fits(w, m) && Disjoint(m) && x in m && x < m[x]
    ensures IsNext(m, k, x) && k in m ==> Slot(w, k) != Slot(w, x + 1) && Slot(w, k) != Slot(w, x)
    ensures IsNext(m, x, y) ==> Slot(w, y) != Slot(w, x + 1) && Slot(w, y) != Slot(w, x)
  {
  }

  lemma CutBackLinked(w: Win, m: Nodes, prior: seq<int>, tail: int, p: int, keep: int, x: int, y: int)
    requires BackLinked(w, m, prior) && Tailed(w, m, tail) && Disjoint(m) && p in m && p <= keep <= x < m[p]
    requires IsLast(m, p) || IsNext(m, p, y)
    ensures 0 <= Slot(w, x + 1) < w.size && Slot(w, p) != Slot(w, x + 1)
    ensures !IsLast(m, p) ==> 0 <= Slot(w, y) < w.size
    ensures BackLinked(w, m[x + 1 := m[p]][p := keep],
              if IsLast(m, p) then prior[Slot(w, x + 1) := Slot(w, p)]
              else prior[Slot(w, x + 1) := Slot(w, p)][Slot(w, y) := Slot(w, x + 1)])
    ensures Tailed(w, m[x + 1 := m[p]][p := keep], if IsLast(m, p) then Slot(w, x + 1) else tail)
  {
    hide Backward;
    SlotInverse(w, p);
    SlotInverse(w, x + 1);
    if !IsLast(m, p) {
      SlotInverse(w, y);
      assert Unslot(w, tail) != p;
    }
    AddAfterBackLinked(w, m, prior, p, x + 1, m[p], y);
    var prior' := if IsLast(m, p) then prior[Slot(w, x + 1) := Slot(w, p)]
                  else prior[Slot(w, x + 1) := Slot(w, p)][Slot(w, y) := Slot(w, x + 1)];
    SetEndBackLinked(w, m[x + 1 := m[p]], prior', p, keep);
  }
}
