/** The sender's loss list. */
module SndLossList {
  import opened Chunks
  import opened SeqNo
  import opened LossNodes

  class CSndLossList {
    const size: int
    const data1: array<int>
    const data2: array<int>
    const next: array<int>
    var head: int
    var length: int
    var lastInsertPos: int

    ghost var win: Win
    ghost var nodes: Nodes

    /** The arrays hold the nodes, whatever their overlaps, with the first node at first. */
    ghost predicate Shaped(first: int)
      reads this, data1, data2, next
    {
      && data1 != data2 && data1 != next && data2 != next
      && win.size == size == data1.Length == data2.Length == next.Length
      && Rep(win, nodes, data1[..], data2[..], next[..])
      && Headed(win, nodes, first)
      && (lastInsertPos == -1 || (0 <= lastInsertPos < size && Unslot(win, lastInsertPos) in nodes))
    }

    ghost predicate Valid()
      reads this, data1, data2, next
    {
      Shaped(head) && Disjoint(nodes) && length == |Elems(nodes)|
    }

    /** The lost numbers, unwrapped. */
    ghost function Lost(): set<int>
      reads this
    {
      Elems(nodes)
    }

    /** Node k has been written or has grown and may now reach into the nodes after it. */
    ghost predicate Grown(k: int)
      reads this, data1, data2, next
    {
      && Shaped(head) && GrownNodes(nodes, k)
      && length == nodes[k] - k + 1 + |Elems(nodes - {k})|
    }

    constructor (size: int)
      requires 0 < size <= 0x1000_0000
      ensures Valid() && Lost() == {} && this.size == size
      ensures fresh(data1) && fresh(data2) && fresh(next) && data1 != data2 && data1 != next && data2 != next
    {
      this.size := size;
      data1 := new int[size](_ => -1);
      data2 := new int[size](_ => -1);
      next := new int[size](_ => 0);
      head := -1;
      length := 0;
      lastInsertPos := -1;
      win := Win(0, 0, size);
      nodes := map[];
    }

    /** Lets the window start at lo; the arrays do not change. */
    ghost method Slide(lo: int)
      requires Valid() && 0 <= lo && nodes != map[] && Fits(MoveTo(win, lo), nodes)
      modifies this`win
      ensures Valid() && win == MoveTo(old(win), lo) && win.first == lo
    {
      hide Rep, Fits, Elems, Disjoint;
      RepFits(win, nodes, data1[..], data2[..], next[..]);
      MoveRep(win, lo, nodes, data1[..], data2[..], next[..], head);
      if lastInsertPos != -1 {
        SlideEntry(win, lo, nodes, lastInsertPos);
      }
      win := MoveTo(win, lo);
    }

    static lemma SlideEntry(w: Win, lo: int, m: Nodes, j: int)
      requires WinOk(w) && Fits(w, m) && 0 <= lo && Fits(MoveTo(w, lo), m)
      requires 0 <= j < w.size && Unslot(w, j) in m
      ensures Unslot(MoveTo(w, lo), j) == Unslot(w, j)
    {
      UnslotInverse(w, j);
      MoveUnslot(w, lo, Unslot(w, j), j);
    }

    method InsertEmpty(seqno1: int, seqno2: int, ghost a: int, ghost b: int, ghost lo: int)
      requires Valid() && nodes == map[]
      requires 0 <= lo <= a <= b < lo + size && seqno1 == Wrap(a) && seqno2 == Wrap(b)
      modifies this, data1, data2, next
      ensures Valid() && Lost() == Interval(a, b)
    {
      hide Stored, Linked, Elems, Wrap, SeqLen, EndEntry;
      ghost var d1, d2, nx := data1[..], data2[..], next[..];
      ghost var w := Win(lo, if a == lo then 0 else size - (a - lo), size);
      RepFits(win, nodes, d1, d2, nx);
      FirstRep(win, nodes, d1, d2, nx, w, a, b);
      EmptyElems();
      SeqLenExact(a, b);
      head := 0;
      WritePair(data1, data2, head, seqno1, seqno2, a, b);
      next[head] := -1;
      lastInsertPos := head;
      length := length + SeqLen(seqno1, seqno2);

      win := w;
      nodes := nodes[a := b];
    }

    method InsertFront(loc: int, seqno1: int, seqno2: int, ghost a: int, ghost b: int)
      requires Valid() && InWin(win, a) && a <= b && InWin(win, b) && (forall x :: x in nodes ==> a < x)
      requires loc == Slot(win, a) && seqno1 == Wrap(a) && seqno2 == Wrap(b)
      modifies this, data1, data2, next
      ensures Grown(a) && lastInsertPos == loc && win == old(win) && Elems(nodes) == old(Elems(nodes)) + Interval(a, b)
    {
      hide Stored, Linked, Elems, Wrap, SeqLen, EndEntry, Slot, Unslot, GrownNodes;
      RepFits(win, nodes, data1[..], data2[..], next[..]);
      FrontRep(win, nodes, data1[..], data2[..], next[..], head, a, b);
      AddGrown(nodes, a, b);
      SeqLenExact(a, b);
      WritePair(data1, data2, loc, seqno1, seqno2, a, b);
      next[loc] := head;
      head := loc;
      lastInsertPos := loc;
      length := length + SeqLen(seqno1, seqno2);
      nodes := nodes[a := b];
    }

    method InsertAfter(i: int, loc: int, seqno1: int, seqno2: int, ghost p: int, ghost a: int, ghost b: int)
      requires Valid() && InWin(win, a) && a <= b && InWin(win, b)
      requires p in nodes && nodes[p] < a && (forall z :: z in nodes ==> z <= p || a < z)
      requires i == Slot(win, p) && loc == Slot(win, a) && seqno1 == Wrap(a) && seqno2 == Wrap(b)
      modifies this, data1, data2, next
      ensures Grown(a) && lastInsertPos == loc && win == old(win) && Elems(nodes) == old(Elems(nodes)) + Interval(a, b)
    {
      hide Stored, Linked, Elems, Wrap, SeqLen, EndEntry, Slot, Unslot, GrownNodes;
      RepFits(win, nodes, data1[..], data2[..], next[..]);
      AfterRep(win, nodes, data1[..], data2[..], next[..], head, p, a, b);
      AddGrown(nodes, a, b);
      SeqLenExact(a, b);
      lastInsertPos := loc;
      WritePair(data1, data2, loc, seqno1, seqno2, a, b);
      next[loc] := next[i];
      next[i] := loc;
      length := length + SeqLen(seqno1, seqno2);
      nodes := nodes[a := b];
    }

    /** Node k, which already holds a - 1 or starts at a, is extended to b. */
    method Extend(loc: int, from: int, seqno2: int, ghost k: int, ghost a: int, ghost b: int)
      requires Valid() && k in nodes && k <= a <= nodes[k] + 1 && nodes[k] < b && InWin(win, b) && a <= b
      requires loc == Slot(win, k) && from == Wrap(nodes[k]) && seqno2 == Wrap(b)
      modifies this, data2
      ensures Grown(k) && lastInsertPos == loc && win == old(win) && Elems(nodes) == old(Elems(nodes)) + Interval(a, b)
    {
      hide Stored, Linked, Elems, Wrap, SeqLen, Slot, Unslot, GrownNodes, Headed;
      RepFits(win, nodes, data1[..], data2[..], next[..]);
      SlotInverse(win, k);
      SetEndRep(win, nodes, data1[..], data2[..], next[..], head, k, b);
      GrowGrown(nodes, k, a, b);
      SeqLenExact(nodes[k], b);
      length := length + SeqLen(from, seqno2) - 1;
      data2[loc] := seqno2;
      lastInsertPos := loc;
      nodes := nodes[k := b];
    }

    /** Takes over the end of node y, next after k, where it lies further, and counts it off. */
    method AbsorbEnd(loc: int, i: int, ghost k: int, ghost y: int)
      requires Grown(k) && y in nodes && k < y <= nodes[k] + 1 && k < nodes[k]
      requires loc == Slot(win, k) && i == Slot(win, y)
      modifies this`length, data2
      ensures 0 <= loc < size && 0 <= i < size && loc != i
      ensures data2[..] == old(data2[..])[loc := EndEntry(k, Max(nodes[k], nodes[y]))]
      ensures length == old(length) + (Max(nodes[k], nodes[y]) - nodes[k]) - (nodes[y] - y + 1)
    {
      hide Rep, Elems, Wrap, SeqLen, SeqCmp, Slot, Unslot, Headed, IncSeq;
      RepFits(win, nodes, data1[..], data2[..], next[..]);
      ReadNode(win, nodes, data1[..], data2[..], next[..], k);
      ReadNode(win, nodes, data1[..], data2[..], next[..], y);
      SlotInjective(win, k, y);
      SameUpdate(data2[..], loc);
      WrapRange(nodes[y]);
      if data2[i] != -1 {
        SeqCmpOrder(nodes[y], nodes[k]);
        SeqCmpOrder(nodes[k], y);
        if SeqCmp(data2[i], data2[loc]) > 0 {
          if SeqCmp(data2[loc], data1[i]) >= 0 {
            SeqLenExact(y, nodes[k]);
            length := length - SeqLen(data1[i], data2[loc]);
          }
          data2[loc] := data2[i];
        } else {
          SeqLenExact(y, nodes[y]);
          length := length - SeqLen(data1[i], data2[i]);
        }
      } else {
        IncSeqExact(nodes[k]);
        WrapInjective(y, nodes[k] + 1);
        if data1[i] == IncSeq(data2[loc]) {
          data2[loc] := data1[i];
        } else {
          length := length - 1;
        }
      }
    }

    /** One round of the coalescing loop: node y, next after k and touching it, disappears. */
    method MergeNext(loc: int, i: int, ghost k: int, ghost y: int)
      requires Grown(k) && IsNext(nodes, k, y) && y <= nodes[k] + 1 && k < nodes[k]
      requires loc == Slot(win, k) && i == Slot(win, y) && lastInsertPos == loc
      modifies this, data1, data2, next
      ensures Grown(k) && lastInsertPos == loc && win == old(win)
      ensures Elems(nodes) == old(Elems(nodes)) && nodes.Keys == old(nodes.Keys) - {y}
    {
      hide Stored, Linked, Elems, EndEntry, Slot, Unslot, GrownNodes, Headed;
      RepFits(win, nodes, data1[..], data2[..], next[..]);
      assert k in nodes by {
        GrownMember(nodes, k);
      }
      ghost var e := Max(nodes[k], nodes[y]);
      MergeElems(nodes, k, y);
      AbsorbEnd(loc, i, k, y);
      SetEndRep(win, nodes, data1[..], old(data2[..]), next[..], head, k, e);
      nodes := nodes[k := e];
      DropNextRep(win, nodes, data1[..], data2[..], next[..], head, k, y);
      SlotInverse(win, k);
      data1[i] := -1;
      data2[i] := -1;
      next[loc] := next[i];
      nodes := nodes - {y};
    }

    /** Merges node k with the nodes it reaches or touches. */
    method Coalesce(loc: int, ghost k: int)
      requires Grown(k) && loc == Slot(win, k) && lastInsertPos == loc
      modifies this, data1, data2, next
      ensures Valid() && Elems(nodes) == old(Elems(nodes))
    {
      hide Stored, Elems, EndEntry, Wrap, SeqCmp, IncSeq, Slot, Headed, GrownNodes;
      ghost var y := ReadGrown(k);
      while next[loc] != -1 && data2[loc] != -1
        invariant Grown(k) && win == old(win) && lastInsertPos == loc
        invariant 0 <= loc < size
        invariant Elems(nodes) == old(Elems(nodes))
        decreases |nodes.Keys|
      {
        var i := next[loc];
        y := ReadGrown(k);
        if SeqCmp(data1[i], IncSeq(data2[loc])) <= 0 {
          MergeNext(loc, i, k, y);
        } else {
          break;
        }
      }
      y := ReadGrown(k);
      GrownDone(nodes, k);
    }

    /** What the slots of node k and of the node y after it tell. */
    lemma ReadGrown(k: int) returns (y: int)
      requires Grown(k)
      ensures 0 <= Slot(win, k) < size && k in nodes && data2[Slot(win, k)] == EndEntry(k, nodes[k])
      ensures k == nodes[k] <==> data2[Slot(win, k)] == -1
      ensures var i := next[Slot(win, k)];
        if i == -1 then IsLast(nodes, k)
        else
          && 0 <= i < size && IsNext(nodes, k, y) && i == Slot(win, y)
          && (k < nodes[k] ==>
               (SeqCmp(data1[i], IncSeq(data2[Slot(win, k)])) <= 0 <==> y <= nodes[k] + 1))
    {
      hide Elems, Stored, Linked, Wrap, SeqCmp, IncSeq, Slot, Headed, Unslot;
      RepFits(win, nodes, data1[..], data2[..], next[..]);
      ReadNode(win, nodes, data1[..], data2[..], next[..], k);
      WrapRange(nodes[k]);
      var i := next[Slot(win, k)];
      y := k;
      if i != -1 {
        y := Unslot(win, i);
        UnslotInverse(win, i);
        ReadNode(win, nodes, data1[..], data2[..], next[..], y);
        IncSeqExact(nodes[k]);
        SeqCmpOrder(y, nodes[k] + 1);
      }
    }

    /** The last node that starts before x, found from node p on. */
    method FindPrior(from: int, seqno: int, ghost p: int, ghost x: int) returns (i: int, ghost q: int)
      requires Valid() && p in nodes && from == Slot(win, p) && p < x && seqno == Wrap(x)
      requires forall y :: y in nodes ==> Near(x, y)
      ensures 0 <= i < size && q in nodes && i == Slot(win, q) && q < x
      ensures forall y :: y in nodes ==> y <= q || x <= y
    {
      hide Stored, Linked, Elems, EndEntry, Wrap, SeqCmp, Slot, Headed, Unslot;
      i, q := from, p;
      ghost var y := ReadNeighbour(q, x);
      while next[i] != -1 && SeqCmp(data1[next[i]], seqno) < 0
        invariant 0 <= i < size && q in nodes && i == Slot(win, q) && q < x
        invariant next[i] != -1 ==> 0 <= next[i] < size
        decreases x - q
      {
        y := ReadNeighbour(q, x);
        i := next[i];
        q := y;
        y := ReadNeighbour(q, x);
      }
      y := ReadNeighbour(q, x);
    }

    lemma ReadNeighbour(q: int, x: int) returns (y: int)
      requires Valid() && q in nodes && q < x && forall y :: y in nodes ==> Near(x, y)
      ensures 0 <= Slot(win, q) < size
      ensures var i := next[Slot(win, q)];
        if i == -1 then IsLast(nodes, q)
        else 0 <= i < size && IsNext(nodes, q, y) && i == Slot(win, y)
             && (SeqCmp(data1[i], Wrap(x)) < 0 <==> y < x)
    {
      hide Stored, Linked, Elems, EndEntry, Wrap, SeqCmp, Slot, Headed, Unslot;
      RepFits(win, nodes, data1[..], data2[..], next[..]);
      ReadNode(win, nodes, data1[..], data2[..], next[..], q);
      var i := next[Slot(win, q)];
      y := q;
      if i != -1 {
        y := Unslot(win, i);
        UnslotInverse(win, i);
        ReadNode(win, nodes, data1[..], data2[..], next[..], y);
        SeqCmpOrder(y, x);
      }
    }

    /** The new interval starts where a node starts. */
    method InsertAtStart(loc: int, seqno1: int, seqno2: int, ghost a: int, ghost b: int) returns (grew: bool)
      requires Valid() && a in nodes && a <= b && InWin(win, b)
      requires loc == Slot(win, a) && seqno1 == Wrap(a) && seqno2 == Wrap(b)
      modifies this, data2
      ensures win == old(win)
      ensures grew ==> Grown(a) && lastInsertPos == loc && Elems(nodes) == old(Elems(nodes)) + Interval(a, b)
      ensures !grew ==> Valid() && length == old(length) && nodes == old(nodes) && Interval(a, b) <= Elems(nodes)
    {
      hide Stored, Linked, Elems, EndEntry, Wrap, SeqCmp, Slot, Unslot, Headed, GrownNodes;
      EndRead(a);
      SamePair(a, b);
      lastInsertPos := loc;
      if data2[loc] == -1 {
        if seqno2 != seqno1 {
          Extend(loc, seqno1, seqno2, a, a, b);
          return true;
        }
      } else {
        SeqCmpOrder(b, nodes[a]);
        if SeqCmp(seqno2, data2[loc]) > 0 {
          Extend(loc, data2[loc], seqno2, a, a, b);
          return true;
        }
      }
      InsideElems(nodes, a, a, b);
      return false;
    }

    /** What the slot of node p tells about its end. */
    lemma EndRead(p: int)
      requires Valid() && p in nodes
      ensures 0 <= Slot(win, p) < size && Unslot(win, Slot(win, p)) == p
      ensures InWin(win, p) && p <= nodes[p] && InWin(win, nodes[p]) && WinOk(win)
      ensures data1[Slot(win, p)] == Wrap(p)
      ensures data2[Slot(win, p)] == if p == nodes[p] then -1 else Wrap(nodes[p])
      ensures p < nodes[p] ==> data2[Slot(win, p)] != -1
    {
      hide Stored, Linked, Elems, Wrap, Slot, Unslot, Headed;
      RepFits(win, nodes, data1[..], data2[..], next[..]);
      ReadNode(win, nodes, data1[..], data2[..], next[..], p);
      WrapRange(nodes[p]);
    }

    /** The new interval starts inside or after node q, the last to start before it. */
    method InsertPast(i: int, loc: int, seqno1: int, seqno2: int, ghost q: int, ghost a: int, ghost b: int)
      returns (grew: bool, at: int, ghost k: int)
      requires Valid() && q in nodes && q < a <= b && InWin(win, a) && InWin(win, b) && a !in nodes
      requires forall y :: y in nodes ==> y <= q || a <= y
      requires i == Slot(win, q) && loc == Slot(win, a) && seqno1 == Wrap(a) && seqno2 == Wrap(b)
      modifies this, data1, data2, next
      ensures win == old(win)
      ensures grew ==> Grown(k) && at == Slot(win, k) && lastInsertPos == at
                       && Elems(nodes) == old(Elems(nodes)) + Interval(a, b)
      ensures !grew ==> Valid() && length == old(length) && nodes == old(nodes) && Interval(a, b) <= Elems(nodes)
    {
      hide Stored, Linked, Elems, EndEntry, Wrap, SeqCmp, Slot, Unslot, Headed, GrownNodes;
      EndRead(q);
      SeqCmpOrder(nodes[q], a);
      SeqCmpOrder(nodes[q], b);
      at, k := loc, a;
      if data2[i] == -1 || SeqCmp(data2[i], seqno1) < 0 {
        InsertAfter(i, loc, seqno1, seqno2, q, a, b);
        grew := true;
      } else {
        lastInsertPos := i;
        if SeqCmp(data2[i], seqno2) < 0 {
          Extend(i, data2[i], seqno2, q, a, b);
          grew, at, k := true, i, q;
        } else {
          InsideElems(nodes, q, a, b);
          grew := false;
        }
      }
    }

    /** Adds the numbers from a to b and returns how many of them are new.  The list and the new
        numbers fit a stretch of size numbers starting at lo. */
    method Insert(seqno1: int, seqno2: int, ghost a: int, ghost b: int, ghost lo: int) returns (added: int)
      requires Valid() && 0 <= lo <= a <= b < lo + size && seqno1 == Wrap(a) && seqno2 == Wrap(b)
      requires forall x :: x in Lost() ==> lo <= x < lo + size
      modifies this, data1, data2, next
      ensures Valid() && Lost() == old(Lost()) + Interval(a, b)
      ensures added == |Lost()| - |old(Lost())|
    {
      hide Stored, Linked, Elems, EndEntry, Wrap, SeqOff, Slot, Unslot, Headed, GrownNodes, InWin, WinOk, Disjoint;
      LengthIsZero();
      if 0 == length {
        EmptyElems();
        InsertEmpty(seqno1, seqno2, a, b, lo);
        return length;
      }
      ghost var was := Lost();
      AnchorAt(a, b, lo);
      Slide(lo);
      var origlen := length;
      ghost var h := ReadHead(a);
      var offset := SeqOff(data1[head], seqno1);
      var loc := (head + offset + size) % size;
      ghost var k := a;
      if offset < 0 {
        InsertFront(loc, seqno1, seqno2, a, b);
      } else {
        var grew;
        if seqno1 == data1[loc] {
          grew := InsertAtStart(loc, seqno1, seqno2, a, b);
        } else {
          ghost var q := h;
          var i := head;
          if -1 != lastInsertPos {
            ghost var p := ReadLastInsert(a);
            if SeqCmp(data1[lastInsertPos], seqno1) < 0 {
              i, q := lastInsertPos, p;
            }
          }
          i, q := FindPrior(i, seqno1, q, a);
          grew, loc, k := InsertPast(i, loc, seqno1, seqno2, q, a, b);
        }
        if !grew {
          Absorbed(was, Interval(a, b));
          return 0;
        }
      }
      Coalesce(loc, k);
      return length - origlen;
    }

    lemma LengthIsZero()
      requires Valid()
      ensures length == 0 <==> nodes == map[]
    {
      RepFits(win, nodes, data1[..], data2[..], next[..]);
      EmptyMeansNoElems(nodes);
    }

    /** A stretch of size numbers that holds every lost number holds every node. */
    lemma AnchorAt(a: int, b: int, lo: int)
      requires Valid() && nodes != map[] && 0 <= lo <= a <= b < lo + size
      requires forall x :: x in Lost() ==> lo <= x < lo + size
      ensures Fits(MoveTo(win, lo), nodes) && InWin(MoveTo(win, lo), a) && InWin(MoveTo(win, lo), b)
    {
      hide Stored, Linked, Elems, Headed, Disjoint;
      RepFits(win, nodes, data1[..], data2[..], next[..]);
      forall x | x in nodes
        ensures InWin(MoveTo(win, lo), x) && InWin(MoveTo(win, lo), nodes[x])
      {
        ElemsMember(nodes, x, x);
        ElemsMember(nodes, x, nodes[x]);
        assert x in Lost() && nodes[x] in Lost();
      }
    }

    /** What the head and the slot of x tell, for an x in the window. */
    lemma ReadHead(x: int) returns (h: int)
      requires Valid() && nodes != map[] && InWin(win, x)
      ensures 0 <= head < size && IsFirst(nodes, h) && head == Slot(win, h)
      ensures WinOk(win) && 0 <= x
      ensures forall y :: y in nodes ==> Near(x, y)
      ensures var offset := SeqOff(data1[head], Wrap(x));
        && offset == x - h
        && (head + offset + size) % size == Slot(win, x) && 0 <= Slot(win, x) < size
      ensures data1[Slot(win, x)] == Wrap(x) <==> x in nodes
    {
      hide Stored, Linked, Elems, Wrap, SeqOff, Slot, Unslot, Disjoint;
      RepFits(win, nodes, data1[..], data2[..], next[..]);
      h := Unslot(win, head);
      UnslotInverse(win, head);
      ReadNode(win, nodes, data1[..], data2[..], next[..], h);
      ReadSlot(win, nodes, data1[..], data2[..], x);
      SeqOffExact(h, x);
      SlotByOffset(win, h, x);
    }

    lemma ReadLastInsert(x: int) returns (p: int)
      requires Valid() && lastInsertPos != -1 && InWin(win, x)
      ensures 0 <= lastInsertPos < size && p in nodes && lastInsertPos == Slot(win, p)
      ensures SeqCmp(data1[lastInsertPos], Wrap(x)) < 0 <==> p < x
    {
      hide Stored, Linked, Elems, Wrap, SeqCmp, Slot, Unslot, Disjoint, Headed;
      RepFits(win, nodes, data1[..], data2[..], next[..]);
      p := Unslot(win, lastInsertPos);
      UnslotInverse(win, lastInsertPos);
      ReadNode(win, nodes, data1[..], data2[..], next[..], p);
      SeqCmpOrder(p, x);
    }

    /** The smallest lost number leaves; its node shrinks or disappears. */
    method RemoveHead(ghost x: int)
      requires Valid() && IsFirst(nodes, x) && head == Slot(win, x)
      modifies this, data1, data2, next
      ensures Valid() && win == old(win) && Lost() == old(Lost()) - {x} && IsLeast(x, old(Lost()))
    {
      hide Stored, Linked, Elems, EndEntry, Wrap, SeqCmp, Slot, Unslot, Headed;
      EndRead(x);
      RepFits(win, nodes, data1[..], data2[..], next[..]);
      OtherNode(win, nodes, lastInsertPos, x);
      if lastInsertPos == head {
        lastInsertPos := -1;
      }
      if -1 == data2[head] {
        DropFirstRep(win, nodes, data1[..], data2[..], next[..], x);
        DropElems(nodes, x);
        FirstIsLeast(nodes, x);
        SameUpdate(data2[..], head);
        data1[head] := -1;
        head := next[head];
        nodes := nodes - {x};
      } else {
        ShiftHead(x);
      }
      length := length - 1;
    }

    /** An entry of another slot points at another node. */
    static lemma OtherNode(w: Win, m: Nodes, j: int, x: int)
      requires WinOk(w) && (j == -1 || 0 <= j < w.size)
      ensures j != -1 && j != Slot(w, x) ==> Unslot(w, j) != x
    {
      if j != -1 {
        UnslotInverse(w, j);
      }
    }

    method ShiftHead(ghost x: int)
      requires Shaped(head) && Disjoint(nodes) && IsFirst(nodes, x) && x < nodes[x] && head == Slot(win, x)
      requires lastInsertPos != head
      modifies this`head, this`nodes, data1, data2, next
      ensures Shaped(head) && Disjoint(nodes)
      ensures Elems(nodes) == old(Elems(nodes)) - {x} && |Elems(nodes)| == |old(Elems(nodes))| - 1
      ensures IsLeast(x, old(Elems(nodes)))
    {
      hide Stored, Linked, Elems, EndEntry, Wrap, SeqCmp, Slot, Unslot, Headed, Disjoint, IncSeq;
      RepFits(win, nodes, data1[..], data2[..], next[..]);
      ReadNode(win, nodes, data1[..], data2[..], next[..], x);
      ShiftFirstRep(win, nodes, data1[..], data2[..], next[..], x);
      ShiftElems(nodes, x);
      FirstIsLeast(nodes, x);
      OtherNode(win, nodes, lastInsertPos, x);
      EndIsWrap(x, nodes[x]);
      SlotSucc(win, x);
      var loc := (head + 1) % size;
      CarryEnd(data1, data2, loc, head, data1[head], x, nodes[x]);
      data1[head] := -1;
      data2[head] := -1;
      next[loc] := next[head];
      head := loc;
      nodes := (nodes - {x})[x + 1 := nodes[x]];
    }

    /** Cuts node p in two after x; the list still stands for the same numbers. */
    method SplitNode(i: int, loc: int, seqno: int, end: int, ghost p: int, ghost x: int)
      requires Valid() && p in nodes && p <= x < nodes[p] && end == EndEntry(p, x)
      requires i == Slot(win, p) && loc == Slot(win, x + 1) && seqno == Wrap(x)
      modifies this`nodes, data1, data2, next
      ensures Valid() && Elems(nodes) == old(Elems(nodes))
      ensures nodes == old(nodes[x + 1 := nodes[p]][p := x])
    {
      hide Stored, Linked, Elems, Wrap, Slot, Unslot, Headed, Disjoint;
      RepFits(win, nodes, data1[..], data2[..], next[..]);
      EndRead(p);
      SplitRep(win, nodes, data1[..], data2[..], next[..], head, p, x, x);
      SplitElems(nodes, p, x);
      CarryEnd(data1, data2, loc, i, seqno, x, nodes[p]);
      data2[i] := end;
      next[loc] := next[i];
      next[i] := loc;
      nodes := nodes[x + 1 := nodes[p]][p := x];
    }

    /** Which slot becomes the head when everything up to x goes: the node after q, the last node
        to start at or before x. */
    ghost predicate HeadAfter(newHead: int, x: int)
      reads this
    {
      if newHead == -1 then forall y :: y in nodes ==> y <= x
      else 0 <= newHead < size && Unslot(win, newHead) in nodes && Unslot(win, newHead) > x
           && forall y :: y in nodes ==> y <= x || Unslot(win, newHead) <= y
    }

    /** Empties the slot h of the first node, which lies before the new head. */
    method DropOne(h: int, ghost x: int) returns (h': int)
      requires Shaped(h) && Disjoint(nodes) && length == |Elems(nodes)|
      requires HeadAfter(head, x) && h != head
      modifies this`length, this`lastInsertPos, this`nodes, data1, data2
      ensures Shaped(h') && Disjoint(nodes) && length == |Elems(nodes)|
      ensures exists f :: f in old(nodes) && f <= x && nodes == old(nodes) - {f}
    {
      hide Stored, Linked, Elems, Wrap, SeqLen, Slot, Unslot, EndEntry, Disjoint, Headed, HeadAfter;
      RepFits(win, nodes, data1[..], data2[..], next[..]);
      ghost var f := FirstBefore(h, x);
      ReadNode(win, nodes, data1[..], data2[..], next[..], f);
      DropFirstRep(win, nodes, data1[..], data2[..], next[..], f);
      DropFirstCount(nodes, f);
      OtherNode(win, nodes, lastInsertPos, f);
      WrapRange(nodes[f]);
      SameUpdate(data2[..], h);
      if data2[h] != -1 {
        EndIsWrap(f, nodes[f]);
        SeqLenExact(f, nodes[f]);
        length := length - SeqLen(data1[h], data2[h]);
        data2[h] := -1;
      } else {
        EndIsWrap(f, nodes[f]);
        length := length - 1;
      }
      data1[h] := -1;
      if lastInsertPos == h {
        lastInsertPos := -1;
      }
      h' := next[h];
      nodes := nodes - {f};
    }

    lemma FirstBefore(h: int, x: int) returns (f: int)
      requires Shaped(h) && HeadAfter(head, x) && h != head
      ensures 0 <= h < size && IsFirst(nodes, f) && h == Slot(win, f) && Unslot(win, h) == f && f <= x
    {
      hide Stored, Linked, Elems, Slot, Unslot;
      RepFits(win, nodes, data1[..], data2[..], next[..]);
      f := Unslot(win, h);
      UnslotInverse(win, h);
      if head != -1 {
        UnslotInverse(win, head);
      }
    }

    static lemma DropFirstCount(m: Nodes, f: int)
      requires Disjoint(m) && f in m && forall y :: y in m ==> y <= m[y]
      ensures Disjoint(m - {f}) && |Elems(m - {f})| == |Elems(m)| - (m[f] - f + 1)
    {
      DisjointRemove(m, f);
    }

    /** Removes all nodes before the new head. */
    method DropBefore(newHead: int, ghost x: int)
      requires Valid() && HeadAfter(newHead, x)
      requires forall y :: y in nodes && y <= x ==> nodes[y] <= x
      modifies this, data1, data2
      ensures Valid() && Lost() == set z | z in old(Lost()) && z > x
    {
      hide Stored, Linked, Elems, Wrap, SeqLen, Slot, EndEntry, Disjoint;
      ghost var was := nodes;
      var h := head;
      head := newHead;
      while h != head
        invariant Shaped(h) && Disjoint(nodes) && length == |Elems(nodes)|
        invariant win == old(win) && head == newHead
        invariant forall y :: y in nodes ==> y in was && nodes[y] == was[y]
        invariant forall y :: y in was && y > x ==> y in nodes
        invariant HeadAfter(head, x)
        decreases |nodes.Keys|
      {
        h := DropOne(h, x);
      }
      assert IsTail(was, nodes, x);
      TailElems(was, nodes, x);
    }

    /** What the head tells about an x that need not lie in the window. */
    lemma ReadHeadNear(x: int) returns (h: int)
      requires Valid() && nodes != map[] && 0 <= x && forall y :: y in Lost() ==> Near(x, y)
      ensures 0 <= head < size && IsFirst(nodes, h) && head == Slot(win, h) && IsLeast(h, Lost()) && 0 <= h
      ensures forall y :: y in nodes ==> Near(x, y)
      ensures var offset := SeqOff(data1[head], Wrap(x)); offset == x - h
      ensures h <= x ==>
        var loc := (head + (x - h) + size) % size;
        && 0 <= loc < size && (InWin(win, x) ==> loc == Slot(win, x))
        && (data1[loc] == Wrap(x) <==> x in nodes)
    {
      hide Stored, Linked, Elems, Wrap, SeqOff, Slot, Unslot, Disjoint;
      RepFits(win, nodes, data1[..], data2[..], next[..]);
      h := Unslot(win, head);
      UnslotInverse(win, head);
      ReadNode(win, nodes, data1[..], data2[..], next[..], h);
      FirstIsLeast(nodes, h);
      forall y | y in nodes
        ensures Near(x, y)
      {
        ElemsMember(nodes, y, y);
        assert y in Lost();
      }
      SeqOffExact(h, x);
      if h <= x {
        var loc := (head + (x - h) + size) % size;
        if InWin(win, x) {
          SlotByOffset(win, h, x);
          ReadSlot(win, nodes, data1[..], data2[..], x);
        } else {
          ModBounds(head + (x - h) + size, size);
          ReadFarSlot(win, nodes, data1[..], data2[..], loc, x);
        }
      }
    }

    static lemma ReadFarSlot(w: Win, m: Nodes, d1: seq<int>, d2: seq<int>, j: int, x: int)
      requires Stored(w, m, d1, d2) && 0 <= j < w.size && 0 <= x && !InWin(w, x)
      requires forall y :: y in m ==> InWin(w, y) && Near(x, y)
      ensures x !in m && d1[j] != Wrap(x)
    {
      var y := Unslot(w, j);
      UnslotInverse(w, j);
      if y in m {
        WrapInjective(x, y);
      }
    }

    /** The nodes after q start after x. */
    lemma NextIsHead(q: int, x: int)
      requires Valid() && q in nodes && q <= x && (forall y :: y in nodes ==> y <= q || x < y)
      ensures 0 <= Slot(win, q) < size && HeadAfter(next[Slot(win, q)], x)
    {
      hide Stored, Elems, Slot, Unslot, Disjoint, Headed;
      ReadNode(win, nodes, data1[..], data2[..], next[..], q);
    }

    lemma SplitHead(q: int, x: int)
      requires Valid() && x + 1 in nodes && forall y :: y in nodes ==> y <= q || x < y
      requires q <= x
      ensures HeadAfter(Slot(win, x + 1), x)
    {
      hide Stored, Linked, Elems, Slot, Unslot, Disjoint, Headed;
      ReadNode(win, nodes, data1[..], data2[..], next[..], x + 1);
    }

    lemma NoneStraddles(q: int, x: int)
      requires Valid() && q in nodes && nodes[q] <= x && forall y :: y in nodes ==> y <= q || x < y
      ensures forall y :: y in nodes && y <= x ==> nodes[y] <= x
    {
      hide Stored, Linked, Elems, Slot, Unslot, Headed;
      RepFits(win, nodes, data1[..], data2[..], next[..]);
    }

    /** Everything up to x goes, x being above the smallest lost number h. */
    method RemovePast(loc0: int, seqno: int, ghost h: int, ghost x: int)
      requires Valid() && 0 <= h < x && seqno == Wrap(x) && IsFirst(nodes, h) && head == Slot(win, h)
      requires forall y :: y in nodes ==> Near(x, y)
      requires 0 <= loc0 < size && (InWin(win, x) ==> loc0 == Slot(win, x))
      requires data1[loc0] == Wrap(x) <==> x in nodes
      modifies this, data1, data2, next
      ensures Valid() && Lost() == set z | z in old(Lost()) && z > x
    {
      hide Stored, Linked, Elems, Wrap, SeqCmp, Slot, Unslot, Headed, HeadAfter, Rep;
      var loc := loc0;
      var newHead;
      ghost var q := x;
      if seqno == data1[loc] {
        EndRead(x);
        EndIsWrap(x, x);
        var temp := loc;
        loc := (loc + 1) % size;
        if -1 == data2[temp] {
          NextIsHead(x, x);
          newHead := next[temp];
        } else {
          SlotSucc(win, x);
          SplitNode(temp, loc, seqno, -1, x, x);
          SplitHead(x, x);
          newHead := loc;
        }
      } else {
        var i;
        i, q := FindPrior(head, seqno, h, x);
        EndRead(q);
        EndIsWrap(q, x);
        SeqCmpOrder(nodes[q], x);
        loc := (loc + 1) % size;
        if -1 == data2[i] || SeqCmp(data2[i], seqno) <= 0 {
          NextIsHead(q, x);
          newHead := next[i];
        } else {
          SlotSucc(win, x);
          SplitNode(i, loc, seqno, seqno, q, x);
          SplitHead(q, x);
          newHead := loc;
        }
      }
      NoneStraddles(q, x);
      DropBefore(newHead, x);
    }

    /** Removes every lost number up to x. */
    method Remove(seqno: int, ghost x: int)
      requires Valid() && 0 <= x && seqno == Wrap(x)
      requires forall y :: y in Lost() ==> Near(x, y)
      modifies this, data1, data2, next
      ensures Valid() && Lost() == set z | z in old(Lost()) && z > x
    {
      hide Stored, Linked, Elems, EndEntry, Wrap, SeqOff, Slot, Unslot, Headed, InWin, WinOk, Disjoint;
      LengthIsZero();
      if 0 == length {
        EmptyElems();
        assert Lost() == set z | z in Lost() && z > x;
        return;
      }
      ghost var h := ReadHeadNear(x);
      var offset := SeqOff(data1[head], seqno);
      var loc := (head + offset + size) % size;
      if 0 == offset {
        RemoveHead(h);
        OneUpTo(old(Lost()), x);
      } else if offset > 0 {
        RemovePast(loc, seqno, h, x);
      } else {
        NoneUpTo(Lost(), h, x);
      }
    }

    static lemma OneUpTo(s: set<int>, x: int)
      requires IsLeast(x, s)
      ensures s - {x} == set z | z in s && z > x
    {
    }

    static lemma NoneUpTo(s: set<int>, h: int, x: int)
      requires IsLeast(h, s) && x < h
      ensures s == set z | z in s && z > x
    {
    }

    /** Returns the smallest lost number and removes it, or returns -1. */
    method GetLostSeq() returns (seqno: int, ghost x: int)
      requires Valid()
      modifies this, data1, data2, next
      ensures Valid()
      ensures old(Lost()) == {} ==> seqno == -1 && Lost() == {}
      ensures old(Lost()) != {} ==>
        IsLeast(x, old(Lost())) && 0 <= x && seqno == Wrap(x) && Lost() == old(Lost()) - {x}
    {
      hide Stored, Linked, Elems, Wrap, Slot, Unslot, Headed, Disjoint;
      LengthIsZero();
      EmptyElems();
      x := -1;
      if 0 == length {
        return -1, x;
      }
      x := ReadFirst();
      seqno := data1[head];
      RemoveHead(x);
    }

    lemma ReadFirst() returns (h: int)
      requires Valid() && nodes != map[]
      ensures 0 <= head < size && IsFirst(nodes, h) && head == Slot(win, h) && data1[head] == Wrap(h) && 0 <= h
    {
      hide Stored, Linked, Elems, Slot, Unslot, Disjoint, Wrap;
      RepFits(win, nodes, data1[..], data2[..], next[..]);
      h := Unslot(win, head);
      UnslotInverse(win, head);
      ReadNode(win, nodes, data1[..], data2[..], next[..], h);
    }

    method GetLossLength() returns (r: int)
      requires Valid()
      ensures r == |Lost()|
    {
      r := length;
    }
  }
}
