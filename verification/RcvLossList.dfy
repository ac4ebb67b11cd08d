/** The receiver's loss list. */
module RcvLossList {
  import opened Chunks
  import opened SeqNo
  import opened LossNodes
  import opened RcvLossNodes
  import opened SenderSpec
  import opened NakCodec

  class CRcvLossList {
    const size: int
    const data1: array<int>
    const data2: array<int>
    const next: array<int>
    const prior: array<int>
    var head: int
    var tail: int
    var length: int

    ghost var win: Win
    ghost var nodes: Nodes

    /** The arrays hold the nodes as a doubly linked list. */
    ghost predicate Shaped()
      reads this`head, this`tail, this`win, this`nodes, data1, data2, next, prior
    {
      && data1 != data2 && data1 != next && data1 != prior && data2 != next && data2 != prior && next != prior
      && win.size == size == data1.Length == data2.Length == next.Length == prior.Length
      && DoubleRep(win, nodes, data1[..], data2[..], next[..], prior[..], head, tail)
      && Disjoint(nodes)
    }

    ghost predicate Valid()
      reads this, data1, data2, next, prior
    {
      Shaped() && length == |Elems(nodes)|
    }

    /** The lost numbers, unwrapped. */
    ghost function Lost(): set<int>
      reads this
    {
      Elems(nodes)
    }

    constructor (size: int)
      requires 0 < size <= 0x1000_0000
      ensures Valid() && Lost() == {} && this.size == size
      ensures fresh(data1) && fresh(data2) && fresh(next) && fresh(prior)
    {
      this.size := size;
      data1 := new int[size](_ => -1);
      data2 := new int[size](_ => -1);
      next := new int[size](_ => 0);
      prior := new int[size](_ => 0);
      head := -1;
      tail := -1;
      length := 0;
      win := Win(0, 0, size);
      nodes := map[];
    }

    /** Lets the window start at lo; the arrays do not change. */
    ghost method Slide(lo: int)
      requires Valid() && 0 <= lo && nodes != map[]
      requires forall x :: x in Lost() ==> lo <= x < lo + size
      modifies this`win
      ensures Valid() && win == MoveTo(old(win), lo) && win.first == lo && win.size == size
    {
      hide Stored, Linked, Elems, Disjoint, BackLinked, IsLast;
      RepFits(win, nodes, data1[..], data2[..], next[..]);
      assert Lost() == Elems(nodes);
      FitsWhereLost(win, nodes, lo);
      MoveRep(win, lo, nodes, data1[..], data2[..], next[..], head);
      var t := Unslot(win, tail);
      MoveBackLinked(win, lo, nodes, prior[..], t);
      UnslotInverse(win, tail);
      MoveUnslot(win, lo, t, tail);
      win := MoveTo(win, lo);
    }

    lemma LengthIsZero()
      requires Valid()
      ensures length == 0 <==> nodes == map[]
    {
      RepFits(win, nodes, data1[..], data2[..], next[..]);
      EmptyMeansNoElems(nodes);
    }

    method InsertEmpty(seqno1: int, seqno2: int, ghost a: int, ghost b: int, ghost lo: int)
      requires Valid() && nodes == map[]
      requires 0 <= lo <= a <= b < lo + size && seqno1 == Wrap(a) && seqno2 == Wrap(b)
      modifies this, data1, data2, next, prior
      ensures Valid() && Lost() == Interval(a, b)
    {
      hide Stored, Linked, Elems, Wrap, SeqLen, EndEntry, BackLinked;
      ghost var w := Win(lo, if a == lo then 0 else size - (a - lo), size);
      RepFits(win, nodes, data1[..], data2[..], next[..]);
      FirstRep(win, nodes, data1[..], data2[..], next[..], w, a, b);
      FirstBackLinked(w, nodes, prior[..], a, b);
      EmptyElems();
      SeqLenExact(a, b);
      head := 0;
      tail := 0;
      WritePair(data1, data2, head, seqno1, seqno2, a, b);
      next[head] := -1;
      prior[head] := -1;
      length := length + SeqLen(seqno1, seqno2);
      win := w;
      nodes := nodes[a := b];
    }

    /** What the tail tells. */
    lemma ReadTail(a: int) returns (k: int)
      requires Valid() && nodes != map[] && 0 <= a && forall y :: y in nodes ==> nodes[y] < a && Near(a, nodes[y] + 1)
      ensures 0 <= tail < size && k in nodes && IsLast(nodes, k) && tail == Slot(win, k) && k <= nodes[k]
      ensures next[tail] == -1 && InWin(win, nodes[k]) && WinOk(win)
      ensures data2[tail] == EndEntry(k, nodes[k])
      ensures (data2[tail] != -1 && IncSeq(data2[tail]) == Wrap(a)) <==> (k < nodes[k] && nodes[k] + 1 == a)
    {
      hide Stored, Linked, Elems, Wrap, IncSeq, BackLinked, Disjoint, EndEntry;
      RepFits(win, nodes, data1[..], data2[..], next[..]);
      k := Unslot(win, tail);
      UnslotInverse(win, tail);
      ReadNode(win, nodes, data1[..], data2[..], next[..], k);
      EndIsWrap(k, nodes[k]);
      IncSeqExact(nodes[k]);
      WrapInjective(a, nodes[k] + 1);
    }

    method ExtendTail(loc: int, seqno2: int, ghost k: int, ghost b: int)
      requires Shaped() && k in nodes && IsLast(nodes, k) && k <= nodes[k] < b && InWin(win, b)
      requires loc == Slot(win, k) && seqno2 == Wrap(b)
      modifies this`nodes, data2
      ensures Shaped() && Elems(nodes) == old(Elems(nodes)) + Interval(old(nodes[k]) + 1, b)
      ensures |Elems(nodes)| == |old(Elems(nodes))| + b - old(nodes[k])
    {
      hide Stored, Linked, Elems, Wrap, BackLinked, Headed, Slot;
      RepFits(win, nodes, data1[..], data2[..], next[..]);
      ghost var a := nodes[k] + 1;
      SetEndRep(win, nodes, data1[..], data2[..], next[..], head, k, b);
      SetEndBackLinked(win, nodes, prior[..], k, b);
      GrowGrown(nodes, k, a, b);
      GrownDone(nodes[k := b], k);
      data2[loc] := seqno2;
      nodes := nodes[k := b];
    }

    method Append(loc: int, seqno1: int, seqno2: int, ghost k: int, ghost a: int, ghost b: int)
      requires Shaped() && k in nodes && IsLast(nodes, k) && k <= nodes[k] < a <= b && InWin(win, a) && InWin(win, b)
      requires tail == Slot(win, k) && loc == Slot(win, a) && seqno1 == Wrap(a) && seqno2 == Wrap(b)
      requires 0 <= tail < size && next[tail] == -1
      modifies this`nodes, this`tail, data1, data2, next, prior
      ensures Shaped() && Elems(nodes) == old(Elems(nodes)) + Interval(a, b)
      ensures |Elems(nodes)| == |old(Elems(nodes))| + b - a + 1
    {
      hide Stored, Linked, Elems, Wrap, BackLinked, Headed, Slot, Unslot, EndEntry, Interval, Fits;
      RepFits(win, nodes, data1[..], data2[..], next[..]);
      AfterRep(win, nodes, data1[..], data2[..], next[..], head, k, a, b);
      AddAfterBackLinked(win, nodes, prior[..], k, a, b, a);
      AddGrown(nodes, a, b);
      GrownDone(nodes[a := b], a);
      SwapUpdates(next[..], tail, loc, loc, -1);
      WritePair(data1, data2, loc, seqno1, seqno2, a, b);
      LinkLast(loc);
      nodes := nodes[a := b];
    }

    method LinkLast(loc: int)
      requires next != prior && next.Length == prior.Length == size && 0 <= loc < size && 0 <= tail < size && tail != loc
      modifies this`tail, next, prior
      ensures next[..] == old(next[..])[old(tail) := loc][loc := -1] && prior[..] == old(prior[..])[loc := old(tail)]
      ensures tail == loc
    {
      next[tail] := loc;
      prior[loc] := tail;
      next[loc] := -1;
      tail := loc;
    }

    /** Adds the numbers from a to b, all of them above the list.  The list and the new numbers
        fit a stretch of size numbers starting at lo. */
    method Insert(seqno1: int, seqno2: int, ghost a: int, ghost b: int, ghost lo: int)
      requires Valid() && 0 <= lo <= a <= b < lo + size && seqno1 == Wrap(a) && seqno2 == Wrap(b)
      requires forall x :: x in Lost() ==> lo <= x < a
      modifies this, data1, data2, next, prior
      ensures Valid() && Lost() == old(Lost()) + Interval(a, b)
    {
      hide Shaped, Elems;
      LengthIsZero();
      if 0 == length {
        EmptyElems();
        InsertEmpty(seqno1, seqno2, a, b, lo);
      } else {
        AllBelow(a);
        Slide(lo);
        InsertAbove(seqno1, seqno2, a, b);
      }
    }

    method InsertAbove(seqno1: int, seqno2: int, ghost a: int, ghost b: int)
      requires Valid() && nodes != map[] && InWin(win, a) && a <= b && InWin(win, b)
      requires seqno1 == Wrap(a) && seqno2 == Wrap(b)
      requires forall y :: y in nodes ==> nodes[y] < a
      modifies this, data1, data2, next, prior
      ensures Valid() && Elems(nodes) == old(Elems(nodes)) + Interval(a, b)
    {
      hide Shaped, Elems, Wrap, SeqLen, Interval, Near;
      NearInWin(a, b);
      SeqLenExact(a, b);
      Place(seqno1, seqno2, a, b);
      length := length + SeqLen(seqno1, seqno2);
    }

    /** The last node grows, or a new one follows it. */
    method Place(seqno1: int, seqno2: int, ghost a: int, ghost b: int)
      requires Shaped() && length == |Elems(nodes)|
      requires nodes != map[] && InWin(win, a) && a <= b && InWin(win, b)
      requires seqno1 == Wrap(a) && seqno2 == Wrap(b)
      requires forall y :: y in nodes ==> nodes[y] < a
      modifies this`nodes, this`tail, data1, data2, next, prior
      ensures Shaped() && Elems(nodes) == old(Elems(nodes)) + Interval(a, b)
      ensures |Elems(nodes)| == |old(Elems(nodes))| + b - a + 1
    {
      hide Stored, Linked, BackLinked, Headed, Tailed, Disjoint;
      hide Elems, EndEntry, Wrap, SeqOff, IncSeq, Slot, Interval, Near;
      ghost var h := ReadHead(a);
      ghost var k := ReadTail(a);
      var offset := SeqOff(data1[head], seqno1);
      var loc := (head + offset) % size;
      if -1 != data2[tail] && IncSeq(data2[tail]) == seqno1 {
        loc := tail;
        ExtendTail(loc, seqno2, k, b);
      } else {
        Append(loc, seqno1, seqno2, k, a, b);
      }
    }

    lemma NearInWin(a: int, b: int)
      requires Shaped() && InWin(win, a) && InWin(win, b)
      ensures 0 <= a && Near(a, b)
    {
      hide Stored, Linked, Elems, BackLinked, Disjoint, Headed, Tailed;
      RepFits(win, nodes, data1[..], data2[..], next[..]);
    }

    /** What the head and the slot of x tell, for an x in the window. */
    lemma ReadHead(x: int) returns (h: int)
      requires Valid() && nodes != map[] && InWin(win, x)
      ensures 0 <= head < size && IsFirst(nodes, h) && head == Slot(win, h)
      ensures WinOk(win) && 0 <= x && InWin(win, h)
      ensures forall y :: y in nodes ==> Near(x, y) && Near(x, nodes[y]) && Near(x, nodes[y] + 1)
      ensures var offset := SeqOff(data1[head], Wrap(x));
        offset == x - h && (offset >= 0 ==> (head + offset) % size == Slot(win, x))
      ensures 0 <= Slot(win, x) < size && (data1[Slot(win, x)] == Wrap(x) <==> x in nodes)
    {
      hide Stored, Linked, Elems, Wrap, SeqOff, Slot, Unslot, Disjoint, BackLinked;
      RepFits(win, nodes, data1[..], data2[..], next[..]);
      h := Unslot(win, head);
      UnslotInverse(win, head);
      ReadNode(win, nodes, data1[..], data2[..], next[..], h);
      ReadSlot(win, nodes, data1[..], data2[..], x);
      SeqOffExact(h, x);
      SlotByOffset(win, h, x);
    }

    lemma AllBelow(a: int)
      requires Valid() && forall x :: x in Lost() ==> x < a
      ensures forall y :: y in nodes ==> nodes[y] < a
    {
      hide Stored, Linked, Elems, BackLinked, Disjoint, Headed;
      RepFits(win, nodes, data1[..], data2[..], next[..]);
      forall y | y in nodes
        ensures nodes[y] < a
      {
        ElemsMember(nodes, y, nodes[y]);
        assert nodes[y] in Lost();
      }
    }

    /** A node of one number is unlinked. */
    method DropNode(loc: int, ghost x: int)
      requires Shaped() && x in nodes && nodes[x] == x && loc == Slot(win, x)
      modifies this`nodes, this`head, this`tail, data1, next, prior
      ensures Shaped() && Elems(nodes) == old(Elems(nodes)) - {x} && x in old(Elems(nodes))
      ensures |Elems(nodes)| == |old(Elems(nodes))| - 1
    {
      hide Stored, Linked, Elems, Wrap, BackLinked, Headed, Tailed, Slot, Unslot, IsFirst, IsLast, IsNext, Disjoint;
      RepFits(win, nodes, data1[..], data2[..], next[..]);
      ReadNode(win, nodes, data1[..], data2[..], next[..], x);
      EndIsWrap(x, x);
      SameUpdate(data2[..], loc);
      ghost var k, y := ReadLinks(win, nodes, next[..], prior[..], head, tail, x);
      DropElems(nodes, x);
      DropBackLinked(win, nodes, prior[..], x, y);
      DropTailed(win, nodes, tail, x, k);
      if head == loc {
        DropFirstRep(win, nodes, data1[..], data2[..], next[..], x);
        head := next[head];
        if -1 != head {
          prior[head] := -1;
        }
      } else {
        DropNextRep(win, nodes, data1[..], data2[..], next[..], head, k, x);
        next[prior[loc]] := next[loc];
        if -1 != next[loc] {
          prior[next[loc]] := prior[loc];
        } else {
          tail := prior[loc];
        }
      }
      data1[loc] := -1;
      nodes := nodes - {x};
    }

    /** The links of the node at loc move to i, and its neighbours point there. */
    method MoveLinks(loc: int, i: int)
      requires next != prior && next.Length == prior.Length == size && 0 <= loc < size && 0 <= i < size && i != loc
      requires head != loc ==> 0 <= prior[loc] < size && prior[loc] != i
      requires tail != loc ==> 0 <= next[loc] < size && next[loc] != i
      modifies this`head, this`tail, next, prior
      ensures next[..] == if old(head) == loc then old(next[..])[i := old(next[loc])]
                          else old(next[..])[i := old(next[loc])][old(prior[loc]) := i]
      ensures prior[..] == if old(tail) == loc then old(prior[..])[i := old(prior[loc])]
                           else old(prior[..])[i := old(prior[loc])][old(next[loc]) := i]
      ensures head == (if old(head) == loc then i else old(head)) && tail == if old(tail) == loc then i else old(tail)
    {
      next[i] := next[loc];
      prior[i] := prior[loc];
      if head == loc {
        head := i;
      } else {
        next[prior[i]] := i;
      }
      if tail == loc {
        tail := i;
      } else {
        prior[next[i]] := i;
      }
    }

    /** A longer node gives up its first number and moves one slot on. */
    method ShiftNode(loc: int, ghost x: int)
      requires Shaped() && x in nodes && x < nodes[x] && loc == Slot(win, x)
      modifies this`nodes, this`head, this`tail, data1, data2, next, prior
      ensures Shaped() && Elems(nodes) == old(Elems(nodes)) - {x} && x in old(Elems(nodes))
      ensures |Elems(nodes)| == |old(Elems(nodes))| - 1
    {
      hide Stored, Linked, Elems, Wrap, BackLinked, Headed, Tailed, Slot, Unslot, IncSeq, IsFirst, IsLast, IsNext, Disjoint, EndEntry;
      RepFits(win, nodes, data1[..], data2[..], next[..]);
      ReadNode(win, nodes, data1[..], data2[..], next[..], x);
      EndIsWrap(x, nodes[x]);
      ghost var k, y := ReadLinks(win, nodes, next[..], prior[..], head, tail, x);
      ShiftElems(nodes, x);
      ShiftRep(win, nodes, data1[..], data2[..], x);
      ShiftLinked(win, nodes, next[..], x, k);
      ShiftBackLinked(win, nodes, prior[..], x, y);
      ShiftEnds(win, nodes, head, tail, x);
      SlotSucc(win, x);
      ShiftSlots(win, nodes, x, k, y);
      var i := (loc + 1) % size;
      CarryEnd(data1, data2, i, loc, data1[loc], x, nodes[x]);
      data1[loc] := -1;
      data2[loc] := -1;
      MoveLinks(loc, i);
      nodes := (nodes - {x})[x + 1 := nodes[x]];
    }

    /** Node p gives up its last number x. */
    method TrimNode(i: int, end: int, ghost p: int, ghost x: int)
      requires Shaped() && p in nodes && p < nodes[p] == x && i == Slot(win, p) && end == EndEntry(p, x - 1)
      modifies this`nodes, data2
      ensures Shaped() && Elems(nodes) == old(Elems(nodes)) - {x} && x in old(Elems(nodes))
      ensures |Elems(nodes)| == |old(Elems(nodes))| - 1
    {
      hide Stored, Linked, Elems, Wrap, BackLinked, Headed, Slot, Unslot, Disjoint;
      RepFits(win, nodes, data1[..], data2[..], next[..]);
      SetEndRep(win, nodes, data1[..], data2[..], next[..], head, p, x - 1);
      SetEndBackLinked(win, nodes, prior[..], p, x - 1);
      TrimElems(nodes, p);
      data2[i] := end;
      nodes := nodes[p := x - 1];
    }

    /** Node p is cut in two around x, one of its inner numbers. */
    method CutNode(i: int, loc: int, seqno: int, end: int, ghost p: int, ghost x: int)
      requires Shaped() && p in nodes && p < x < nodes[p] && end == EndEntry(p, x - 1)
      requires i == Slot(win, p) && loc == Slot(win, x + 1) && seqno == Wrap(x)
      modifies this`nodes, this`tail, data1, data2, next, prior
      ensures Shaped() && Elems(nodes) == old(Elems(nodes)) - {x} && x in old(Elems(nodes))
      ensures |Elems(nodes)| == |old(Elems(nodes))| - 1
    {
      hide Stored, Linked, Elems, Wrap, BackLinked, Headed, Tailed, Slot, Unslot, Disjoint, IsLast, IsFirst, IsNext;
      RepFits(win, nodes, data1[..], data2[..], next[..]);
      ReadNode(win, nodes, data1[..], data2[..], next[..], p);
      EndIsWrap(p, nodes[p]);
      ghost var k, y := ReadLinks(win, nodes, next[..], prior[..], head, tail, p);
      SplitRep(win, nodes, data1[..], data2[..], next[..], head, p, x - 1, x);
      CutBackLinked(win, nodes, prior[..], tail, p, x - 1, x, y);
      CutElems(nodes, p, x);
      CarryEnd(data1, data2, loc, i, seqno, x, nodes[p]);
      data2[i] := end;
      next[loc] := next[i];
      next[i] := loc;
      prior[loc] := i;
      if tail == i {
        tail := loc;
      } else {
        prior[next[loc]] := loc;
      }
      nodes := nodes[x + 1 := nodes[p]][p := x - 1];
    }

    /** Looks backward, slot by slot, for the last node that starts before x. */
    method ScanBack(loc: int, ghost h: int, ghost x: int) returns (i: int, ghost p: int)
      requires Valid() && InWin(win, x) && h in nodes && h < x && x !in nodes && loc == Slot(win, x)
      ensures 0 <= i < size && p in nodes && p < x && i == Slot(win, p)
      ensures forall y :: y in nodes ==> y <= p || x < y
    {
      hide Linked, Elems, Wrap, BackLinked, Headed, Tailed, Slot, Unslot, Disjoint;
      RepFits(win, nodes, data1[..], data2[..], next[..]);
      p := x - 1;
      SlotPred(win, x);
      i := (loc - 1 + size) % size;
      ReadSlotFree(p);
      while -1 == data1[i]
        invariant h <= p < x && i == Slot(win, p) && 0 <= i < size
        invariant forall y :: y in nodes ==> y <= p || x < y
        invariant data1[i] == -1 <==> p !in nodes
        decreases p - h
      {
        p := p - 1;
        SlotPred(win, p + 1);
        i := (i - 1 + size) % size;
        ReadSlotFree(p);
      }
    }

    lemma ReadSlotFree(p: int)
      requires Valid() && InWin(win, p)
      ensures 0 <= Slot(win, p) < size && (data1[Slot(win, p)] == -1 <==> p !in nodes)
    {
      hide Linked, Elems, BackLinked, Headed, Tailed, Disjoint;
      SlotInverse(win, p);
    }

    /** Removes x and tells whether it was in the list. */
    method Remove(seqno: int, ghost x: int, ghost lo: int) returns (found: bool)
      requires Valid() && 0 <= lo <= x < lo + size && seqno == Wrap(x)
      requires forall y :: y in Lost() ==> lo <= y < lo + size
      modifies this, data1, data2, next, prior
      ensures Valid() && Lost() == old(Lost()) - {x} && found == (x in old(Lost()))
    {
      hide Shaped, Elems, Wrap;
      LengthIsZero();
      if 0 == length {
        EmptyElems();
        return false;
      }
      Slide(lo);
      found := RemoveInWindow(seqno, x);
    }

    method RemoveInWindow(seqno: int, ghost x: int) returns (found: bool)
      requires Valid() && nodes != map[] && InWin(win, x) && seqno == Wrap(x)
      modifies this, data1, data2, next, prior
      ensures Valid() && Elems(nodes) == old(Elems(nodes)) - {x} && found == (x in old(Elems(nodes)))
    {
      hide DoubleRep, Elems, Wrap, SeqOff, SeqCmp, Slot, Unslot, DecSeq, IncSeq, Disjoint;
      ghost var h := ReadHead(x);
      var offset := SeqOff(data1[head], seqno);
      if offset < 0 {
        NotBeforeFirst(h, x);
        return false;
      }
      var loc := (head + offset) % size;
      if seqno == data1[loc] {
        EndRead(x);
        if -1 == data2[loc] {
          DropNode(loc, x);
        } else {
          ShiftNode(loc, x);
        }
        length := length - 1;
        return true;
      }
      var i;
      ghost var p;
      i, p := ScanBack(loc, h, x);
      EndRead(p);
      SeqCmpOrder(x, nodes[p]);
      if -1 == data2[i] || SeqCmp(seqno, data2[i]) > 0 {
        NotBetween(p, x);
        return false;
      }
      WrapInjective(x, nodes[p]);
      WrapInjective(x, p + 1);
      IncSeqExact(p);
      DecSeqExact(x);
      EndIsWrap(p, x - 1);
      if seqno == data2[i] {
        if seqno == IncSeq(data1[i]) {
          TrimNode(i, -1, p, x);
        } else {
          TrimNode(i, DecSeq(seqno), p, x);
        }
      } else {
        SlotSucc(win, x);
        loc := (loc + 1) % size;
        if seqno == IncSeq(data1[i]) {
          CutNode(i, loc, seqno, -1, p, x);
        } else {
          CutNode(i, loc, seqno, DecSeq(seqno), p, x);
        }
      }
      length := length - 1;
      return true;
    }

    /** What the slot of node p tells about its end. */
    lemma EndRead(p: int)
      requires Valid() && p in nodes
      ensures 0 <= Slot(win, p) < size
      ensures WinOk(win) && InWin(win, p) && p <= nodes[p] && InWin(win, nodes[p])
      ensures data1[Slot(win, p)] == Wrap(p)
      ensures data2[Slot(win, p)] == if p == nodes[p] then -1 else Wrap(nodes[p])
      ensures p < nodes[p] ==> data2[Slot(win, p)] != -1
    {
      hide Stored, Linked, Elems, Wrap, Slot, Unslot, Headed, BackLinked, Tailed, Disjoint;
      RepFits(win, nodes, data1[..], data2[..], next[..]);
      ReadNode(win, nodes, data1[..], data2[..], next[..], p);
      EndIsWrap(p, nodes[p]);
    }

    lemma NotBeforeFirst(h: int, x: int)
      requires Valid() && IsFirst(nodes, h) && x < h
      ensures x !in Elems(nodes) && Elems(nodes) - {x} == Elems(nodes)
    {
      hide Stored, Linked, Headed, BackLinked, Tailed, Disjoint;
      ElemsCovered(nodes);
    }

    lemma NotBetween(p: int, x: int)
      requires Valid() && p in nodes && nodes[p] < x && forall y :: y in nodes ==> y <= p || x < y
      ensures x !in Elems(nodes) && Elems(nodes) - {x} == Elems(nodes)
    {
      hide Stored, Linked, Headed, BackLinked, Tailed;
      RepFits(win, nodes, data1[..], data2[..], next[..]);
      ElemsCovered(nodes);
    }

    method GetLossLength() returns (r: int)
      requires Valid()
      ensures r == |Lost()|
    {
      r := length;
    }

    method GetFirstLostSeq() returns (seqno: int, ghost x: int)
      requires Valid()
      ensures Lost() == {} ==> seqno == -1
      ensures Lost() != {} ==> IsLeast(x, Lost()) && 0 <= x && seqno == Wrap(x)
    {
      hide Stored, Linked, Elems, Wrap, Slot, Unslot, BackLinked, Tailed, Disjoint;
      LengthIsZero();
      EmptyElems();
      x := -1;
      if 0 == length {
        return -1, x;
      }
      RepFits(win, nodes, data1[..], data2[..], next[..]);
      x := Unslot(win, head);
      UnslotInverse(win, head);
      ReadNode(win, nodes, data1[..], data2[..], next[..], x);
      FirstIsLeast(nodes, x);
      seqno := data1[head];
    }

    /** A walk along the list stands at slot i of node x, with the nodes of rest ahead. */
    ghost predicate Walking(rest: Nodes, i: int, x: int)
      reads this
    {
      if i == -1 then rest == map[]
      else
        && IsFirst(rest, x) && i == Slot(win, x)
        && (forall y :: y in rest ==> y in nodes && rest[y] == nodes[y])
        && (forall y :: y in nodes && x <= y ==> y in rest)
    }

    lemma WalkStart() returns (x: int)
      requires Valid()
      ensures Walking(nodes, head, x)
    {
      hide Stored, Linked, Elems, Slot, Unslot, BackLinked, Tailed, Disjoint;
      RepFits(win, nodes, data1[..], data2[..], next[..]);
      x := Unslot(win, head);
      if head != -1 {
        UnslotInverse(win, head);
      }
    }

    lemma EndReadAt(rest: Nodes, i: int, x: int)
      requires Valid() && Walking(rest, i, x) && i != -1
      ensures 0 <= i < size && x in nodes && IsFirst(rest, x) && i == Slot(win, x) && rest[x] == nodes[x]
      ensures 0 <= x <= nodes[x] && data1[i] == Wrap(x) && data2[i] == EndEntry(x, nodes[x])
    {
      hide Stored, Linked, Elems, Slot, Unslot, BackLinked, Tailed, Disjoint, Headed, Wrap;
      RepFits(win, nodes, data1[..], data2[..], next[..]);
      ReadNode(win, nodes, data1[..], data2[..], next[..], x);
    }

    lemma WalkOn(rest: Nodes, i: int, x: int) returns (y: int)
      requires Valid() && Walking(rest, i, x) && i != -1
      ensures 0 <= i < size && Walking(rest - {x}, next[i], y)
      ensures x in rest.Keys && (rest - {x}).Keys == rest.Keys - {x}
    {
      hide Stored, Linked, Elems, Slot, Unslot, Disjoint, Headed;
      RepFits(win, nodes, data1[..], data2[..], next[..]);
      EndReadAt(rest, i, x);
      var k;
      k, y := ReadLinksAt(x);
      if next[i] == -1 && rest - {x} != map[] {
        var z := Pick((rest - {x}).Keys);
      }
    }

    lemma ReadLinksAt(x: int) returns (k: int, y: int)
      requires Valid() && x in nodes
      ensures 0 <= Slot(win, x) < size
      ensures var j := next[Slot(win, x)];
        if j == -1 then IsLast(nodes, x) else y in nodes && IsNext(nodes, x, y) && j == Slot(win, y)
    {
      hide Stored, Elems, Slot, Unslot, Disjoint;
      k, y := ReadLinks(win, nodes, next[..], prior[..], head, tail, x);
    }

    /** Writes the entry of node x, one word or two. */
    method PutEntry(words: array<int>, len0: int, i: int, ghost x: int) returns (len: int)
      requires 0 <= len0 < words.Length - 1 && words != data1 && words != data2
      requires 0 <= i < data1.Length && data1.Length == data2.Length && x in nodes && 0 <= x <= nodes[x]
      requires data1[i] == Wrap(x) && data2[i] == EndEntry(x, nodes[x])
      modifies words
      ensures len0 < len <= len0 + 2
      ensures words[..len] == old(words[..len0]) + EncodeLoss(NodeLoss(x, nodes[x]))
      ensures words[len..] == old(words[len..])
    {
      hide Wrap, Elems;
      EndIsWrap(x, nodes[x]);
      len := len0;
      words[len] := data1[i];
      if -1 != data2[i] {
        words[len] := Mark(words[len]);
        len := len + 1;
        words[len] := data2[i];
      }
      len := len + 1;
    }

    /** Codes the list, smallest numbers first, until the array is full up to its last cell.
        quiet: a loss was reported or received too recently. */
    method GetLossArray(words: array<int>, limit: int, quiet: bool) returns (len: int, ghost report: seq<Loss>)
      requires Valid() && limit <= words.Length
      requires words != data1 && words != data2 && words != next && words != prior
      modifies words
      ensures Valid() && 0 <= len <= words.Length && (len > 0 ==> len <= limit)
      ensures words[..len] == Encode(report) && report <= Ordered(nodes)
      ensures quiet ==> report == []
      ensures !quiet ==> report == Ordered(nodes) || len >= limit - 1
      ensures words[len..] == old(words[..])[len..]
    {
      hide DoubleRep, Elems, Wrap, Disjoint, Encode, Ordered;
      len, report := 0, [];
      EncodeNone();
      if quiet {
        return;
      }
      var i := head;
      ghost var rest := nodes;
      ghost var x := WalkStart();
      while len < limit - 1 && -1 != i
        invariant Valid() && 0 <= len <= words.Length && (len > 0 ==> len <= limit)
        invariant words[..len] == Encode(report) && Ordered(nodes) == report + Ordered(rest)
        invariant words[len..] == old(words[..])[len..]
        invariant Walking(rest, i, x)
        decreases |rest.Keys|
      {
        EndReadAt(rest, i, x);
        EncodeAppend(report, NodeLoss(x, nodes[x]));
        OrderedStep(rest, x);
        AppendAssoc(report, [NodeLoss(x, nodes[x])], Ordered(rest - {x}));
        len := PutEntry(words, len, i, x);
        report := report + [NodeLoss(x, nodes[x])];
        ghost var y := WalkOn(rest, i, x);
        rest, x := rest - {x}, y;
        i := next[i];
      }
      OrderedNone(rest);
    }

    /** Some node has a number from a to b. */
    static ghost predicate Meets(m: Nodes, a: int, b: int) {
      exists x :: x in m && x <= b && a <= m[x]
    }

    static lemma MeetsStep(m: Nodes, x: int, a: int, b: int)
      requires x in m
      ensures Meets(m, a, b) <==> (x <= b && a <= m[x]) || Meets(m - {x}, a, b)
    {
      if y :| y in m && y <= b && a <= m[y] {
        assert y != x ==> y in m - {x} && (m - {x})[y] == m[y];
      }
      if Meets(m - {x}, a, b) {
        var y :| y in m - {x} && y <= b && a <= (m - {x})[y];
        assert y in m && m[y] == (m - {x})[y];
      }
    }

    lemma MeetsIsLost(a: int, b: int)
      requires Valid() && a <= b
      ensures Meets(nodes, a, b) <==> exists z :: z in Lost() && a <= z <= b
    {
      hide Stored, Linked, BackLinked, Headed, Tailed, Disjoint, Elems;
      RepFits(win, nodes, data1[..], data2[..], next[..]);
      ElemsCovered(nodes);
      if Meets(nodes, a, b) {
        var x :| x in nodes && x <= b && a <= nodes[x];
        var z := if x < a then a else x;
        assert z in Elems(nodes);
      }
      if z :| z in Elems(nodes) && a <= z <= b {
        var x :| x in nodes && x <= z <= nodes[x];
        assert x <= b && a <= nodes[x];
      }
      assert Lost() == Elems(nodes);
    }

    /** Whether any number from a to b is lost. */
    method Find(seqno1: int, seqno2: int, ghost a: int, ghost b: int, ghost lo: int) returns (found: bool)
      requires Valid() && 0 <= lo <= a <= b < lo + size && seqno1 == Wrap(a) && seqno2 == Wrap(b)
      requires forall x :: x in Lost() ==> lo <= x < lo + size
      ensures found <==> exists z :: z in Lost() && a <= z <= b
    {
      hide DoubleRep, Elems, Wrap, SeqCmp, Disjoint, Meets, IsFirst;
      MeetsIsLost(a, b);
      LengthIsZero();
      if 0 == length {
        EmptyElems();
        return false;
      }
      var p := head;
      ghost var rest := nodes;
      ghost var x := WalkStart();
      while -1 != p
        invariant Walking(rest, p, x)
        invariant Meets(nodes, a, b) <==> Meets(rest, a, b)
        decreases |rest.Keys|
      {
        EndReadAt(rest, p, x);
        InReachOf(x, a, b, lo);
        MeetsStep(rest, x, a, b);
        SeqCmpOrder(x, a);
        SeqCmpOrder(x, b);
        SeqCmpOrder(nodes[x], a);
        EndIsWrap(x, nodes[x]);
        if SeqCmp(data1[p], seqno1) == 0
          || (SeqCmp(data1[p], seqno1) > 0 && SeqCmp(data1[p], seqno2) <= 0)
          || (SeqCmp(data1[p], seqno1) < 0 && data2[p] != -1 && SeqCmp(data2[p], seqno1) >= 0) {
          MeetsIsLost(a, b);
          return true;
        }
        ghost var y := WalkOn(rest, p, x);
        rest, x := rest - {x}, y;
        p := next[p];
      }
      NoneMeets(rest, a, b);
      return false;
    }

    static lemma NoneMeets(m: Nodes, a: int, b: int)
      ensures m == map[] ==> !Meets(m, a, b)
    {
    }

    lemma InReachOf(x: int, a: int, b: int, lo: int)
      requires Valid() && x in nodes && 0 <= lo <= a <= b < lo + size && forall y :: y in Lost() ==> lo <= y < lo + size
      ensures Near(x, a) && Near(x, b) && Near(nodes[x], a) && x <= nodes[x] && 0 <= x
    {
      hide Stored, Linked, BackLinked, Headed, Tailed, Disjoint, Elems;
      RepFits(win, nodes, data1[..], data2[..], next[..]);
      ElemsMember(nodes, x, x);
      ElemsMember(nodes, x, nodes[x]);
      assert x in Lost() && nodes[x] in Lost();
    }

    /** Numbers the range removal passes over: where the range wraps, the largest number there is. */
    static predicate PassedOver(a: int, b: int, y: int) {
      Wrap(a) > Wrap(b) && Wrap(y) == MAX_SEQ_NO
    }

    static ghost function AfterRange(lost: set<int>, a: int, b: int): set<int> {
      set y | y in lost && (!(a <= y <= b) || PassedOver(a, b, y))
    }

    /** Removes the numbers from a to b one by one, all but one that the program passes over.  A range
        that does not wrap must end below the largest number, or the loop runs forever. */
    method RemoveRange(seqno1: int, seqno2: int, ghost a: int, ghost b: int, ghost lo: int)
      requires Valid() && 0 <= lo <= a <= b < lo + size && seqno1 == Wrap(a) && seqno2 == Wrap(b)
      requires seqno1 <= seqno2 ==> seqno2 < MAX_SEQ_NO
      requires forall y :: y in Lost() ==> lo <= y < lo + size
      modifies this, data1, data2, next, prior
      ensures Valid() && Lost() == AfterRange(old(Lost()), a, b)
    {
      hide Shaped, Wrap, Interval, PassedOver, AfterRange, Near, CRcvLossList.Lost;
      ghost var was := Lost();
      SizeIsSmall(a, b, lo);
      WrapRange(a);
      WrapRange(b);
      if seqno1 <= seqno2 {
        SameTurn(a, b);
        RemoveRun(seqno1, seqno2 + 1, a, lo);
        NonePassed(was, a, b);
      } else {
        ghost var top := NextTurn(a, b);
        RemoveRun(seqno1, MAX_SEQ_NO, a, lo);
        StillBounded(was, Lost(), a, top - 1, lo, size);
        RemoveRun(0, seqno2 + 1, top + 1, lo);
        AllButTop(was, Lost(), a, b, top);
      }
    }

    lemma SizeIsSmall(a: int, b: int, lo: int)
      requires Valid() && lo <= a <= b < lo + size
      ensures Near(a, b)
    {
      hide Stored, Linked, BackLinked, Headed, Tailed, Disjoint, Elems;
      RepFits(win, nodes, data1[..], data2[..], next[..]);
    }

    static lemma StillBounded(was: set<int>, now: set<int>, a: int, b: int, lo: int, size: int)
      requires now == was - Interval(a, b) && forall y :: y in was ==> lo <= y < lo + size
      ensures forall y :: y in now ==> lo <= y < lo + size
    {
    }

    static lemma NonePassed(was: set<int>, a: int, b: int)
      requires forall y :: a <= y <= b ==> !PassedOver(a, b, y)
      ensures was - Interval(a, b) == AfterRange(was, a, b)
    {
      hide PassedOver;
    }

    /** The numbers stored as i0 up to, not including, end. */
    method RemoveRun(i0: int, end: int, ghost a: int, ghost lo: int)
      requires Valid() && 0 <= i0 <= end <= MAX_SEQ_NO + 1 && 0 <= lo <= a && a + (end - i0) <= lo + size
      requires i0 == Wrap(a)
      requires forall y :: y in Lost() ==> lo <= y < lo + size
      modifies this, data1, data2, next, prior
      ensures Valid() && Lost() == old(Lost()) - Interval(a, a + (end - i0) - 1)
    {
      hide Shaped, Wrap, Interval, CRcvLossList.Lost;
      var i := i0;
      ghost var was := Lost();
      NothingOff(was, a);
      while i < end
        invariant i0 <= i <= end && Valid()
        invariant Lost() == was - Interval(a, a + (i - i0) - 1)
        decreases end - i
      {
        WrapAdds(a, i - i0);
        OneOff(was, Lost(), a, a + (i - i0), lo, size);
        var found := Remove(i, a + (i - i0), lo);
        i := i + 1;
      }
    }

    static lemma NothingOff(was: set<int>, a: int)
      ensures was - Interval(a, a - 1) == was
    {
    }

    static lemma OneOff(was: set<int>, now: set<int>, a: int, x: int, lo: int, size: int)
      requires a <= x && now == was - Interval(a, x - 1) && forall y :: y in was ==> lo <= y < lo + size
      ensures now - {x} == was - Interval(a, x)
      ensures forall y :: y in now ==> lo <= y < lo + size
    {
    }

    static lemma WrapAdds(a: int, k: int)
      requires 0 <= a && 0 <= k && Wrap(a) + k <= MAX_SEQ_NO
      ensures Wrap(a + k) == Wrap(a) + k
    {
    }

    /** Without a wrap in between, stored numbers count on. */
    static lemma SameTurn(a: int, b: int)
      requires 0 <= a <= b && Near(a, b) && Wrap(a) <= Wrap(b)
      ensures b - a == Wrap(b) - Wrap(a)
      ensures forall y :: a <= y <= b ==> !PassedOver(a, b, y)
    {
      assert b - a == (b / MODULUS - a / MODULUS) * MODULUS + (b % MODULUS - a % MODULUS);
    }

    /** With a wrap in between, one number is stored as the largest. */
    static lemma NextTurn(a: int, b: int) returns (top: int)
      requires 0 <= a <= b && Near(a, b) && Wrap(a) > Wrap(b)
      ensures a <= top < b && Wrap(top) == MAX_SEQ_NO && Wrap(top + 1) == 0
      ensures top - a == MAX_SEQ_NO - Wrap(a) && b - (top + 1) == Wrap(b)
    {
      var qa := a / MODULUS;
      top := (qa + 1) * MODULUS - 1;
    }

    static lemma AllButTop(was: set<int>, now: set<int>, a: int, b: int, top: int)
      requires 0 <= a <= top < b && Near(a, b) && Wrap(top) == MAX_SEQ_NO && Wrap(a) > Wrap(b)
      requires now == was - Interval(a, top - 1) - Interval(top + 1, b)
      ensures now == AfterRange(was, a, b)
    {
      forall y | a <= y <= b
        ensures PassedOver(a, b, y) <==> y == top
      {
        WrapInjective(y, top);
      }
    }

    /** A range is removed whole exactly if it ends below the largest number, or wraps around without
        a lost number that is stored as the largest. */
    static lemma RangeExact(lost: set<int>, a: int, b: int)
      requires 0 <= a && 0 <= b
      ensures RangeEnds(Wrap(a), Wrap(b)) && AfterRange(lost, a, b) == lost - Interval(a, b) <==>
              if Wrap(a) <= Wrap(b) then Wrap(b) < MAX_SEQ_NO
              else forall y :: y in lost && a <= y <= b ==> Wrap(y) != MAX_SEQ_NO
    {
      hide Wrap, RangeEnds;
      WrapRange(a);
      WrapRange(b);
      RangeEndsExact(Wrap(a), Wrap(b));
      if AfterRange(lost, a, b) == lost - Interval(a, b) {
        forall y | y in lost && a <= y <= b
          ensures !PassedOver(a, b, y)
        {
          assert y !in AfterRange(lost, a, b);
        }
      }
    }
  }

  // ---------- Where the loop of range removal ends ----------

  /** ++ on a 32-bit integer. */
  function PlusPlus(i: int): int {
    if i == 0x7FFF_FFFF then -0x8000_0000 else i + 1
  }

  /** The loop variable after n rounds. */
  function LoopIndex(i: int, n: nat): int
    decreases n
  {
    if n == 0 then i else LoopIndex(PlusPlus(i), n - 1)
  }

  /** The loop over a range that does not wrap gets past its last number. */
  ghost predicate RangeEnds(seqno1: int, seqno2: int) {
    seqno1 <= seqno2 ==> exists n: nat :: LoopIndex(seqno1, n) > seqno2
  }

  lemma {:induction false} CountsUp(i: int, n: nat)
    requires i + n <= 0x7FFF_FFFF
    ensures LoopIndex(i, n) == i + n
    decreases n
  {
    if n > 0 {
      CountsUp(i + 1, n - 1);
    }
  }

  lemma {:induction false} StaysInt32(i: int, n: nat)
    requires FitsInt32(i)
    ensures FitsInt32(LoopIndex(i, n))
    decreases n
  {
    if n > 0 {
      StaysInt32(PlusPlus(i), n - 1);
    }
  }

  /** The loop ends exactly if the last number is not the largest: no 32-bit integer exceeds that. */
  lemma RangeEndsExact(seqno1: int, seqno2: int)
    requires FitsInt32(seqno1) && FitsInt32(seqno2)
    ensures RangeEnds(seqno1, seqno2) <==> (seqno1 <= seqno2 ==> seqno2 < MAX_SEQ_NO)
  {
    if seqno1 <= seqno2 < MAX_SEQ_NO {
      CountsUp(seqno1, seqno2 + 1 - seqno1);
    }
    forall n: nat
      ensures FitsInt32(LoopIndex(seqno1, n))
    {
      StaysInt32(seqno1, n);
    }
  }
}
