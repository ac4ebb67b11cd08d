/** The receiver's buffer: slots in a circle, each empty or holding one unit of the shared pool. */
module RcvBuffer {
  import opened Options
  import opened Chunks
  import opened LossNodes
  import opened ReceiverSpec
  import opened UnitQueue
  import M = MessageSpec

  /** The circle after its first number has gone. */
  ghost function Advance(w: Win): Win {
    Win(w.first + 1, if w.slot + 1 == w.size then 0 else w.slot + 1, w.size)
  }

  lemma AdvanceSlot(w: Win, y: int)
    requires WinOk(w) && InWin(w, y) && y != w.first
    ensures WinOk(Advance(w)) && InWin(Advance(w), y) && Slot(Advance(w), y) == Slot(w, y)
    ensures Slot(w, y) != w.slot && 0 <= Slot(w, y) < w.size
  {
  }

  lemma AdvanceSlots(w: Win, slots: map<int, Chunk>)
    requires WinOk(w) && forall y :: y in slots ==> InWin(w, y) && y != w.first
    ensures forall y :: y in slots ==>
      InWin(Advance(w), y) && Slot(Advance(w), y) == Slot(w, y) != w.slot && 0 <= Slot(w, y) < w.size
  {
  }

  lemma AboveAll(slots: map<int, Chunk>, lo: int)
    requires forall x :: x in slots ==> lo <= x
    ensures Above(slots, lo) == slots
  {
  }

  lemma AboveStep(slots: map<int, Chunk>, s: int, lo: int)
    requires s <= lo
    ensures Above(Above(slots, s), lo) == Above(slots, lo)
  {
  }

  lemma AboveNext(slots: map<int, Chunk>, lo: int)
    requires forall x :: x in slots ==> lo <= x
    ensures slots - {lo} == Above(slots, lo + 1)
  {
  }

  lemma AdvanceUnslot(w: Win, j: int)
    requires WinOk(w) && 0 <= j < w.size && j != w.slot
    ensures Unslot(Advance(w), j) == Unslot(w, j) && Unslot(w, j) != w.first
  {
  }

  lemma FirstSlot(w: Win)
    requires WinOk(w)
    ensures Slot(w, w.first) == w.slot && InWin(w, w.first) && WinOk(Advance(w))
  {
  }

  /** Every number held is in its slot, and nothing else is in any slot. */
  ghost predicate Circled(w: Win, units: seq<CUnit?>, slots: map<int, Chunk>, held: set<CUnit>, marked: set<int>)
    reads held
  {
    && WinOk(w) && |units| == w.size
    && (forall x :: x in slots ==> InWin(w, x)) && (forall u :: u in held ==> u.flag != 0) && marked <= slots.Keys
    && (forall x {:trigger Slot(w, x)} {:trigger slots[x]} :: x in slots ==>
          Holds(units[Slot(w, x)], held, slots[x], x in marked))
    && (forall j :: 0 <= j < w.size && units[j] != null ==> Unslot(w, j) in slots)
    && (forall i, j :: 0 <= i < j < w.size && units[i] != null ==> units[i] != units[j])
  }

  /** The other numbers held are in other slots than x, and the other slots hold other numbers. */
  lemma OthersStay(w: Win, units: seq<CUnit?>, slots: map<int, Chunk>, x: int)
    requires WinOk(w) && |units| == w.size && InWin(w, x)
    requires forall y :: y in slots ==> InWin(w, y)
    requires forall j :: 0 <= j < w.size && units[j] != null ==> Unslot(w, j) in slots
    ensures forall y :: y in slots && y != x ==> Slot(w, y) != Slot(w, x) && 0 <= Slot(w, y) < w.size
    ensures forall j :: 0 <= j < w.size && j != Slot(w, x) && units[j] != null ==> Unslot(w, j) in slots - {x}
  {
    hide Slot, Unslot, WinOk, InWin;
    forall y | y in slots && y != x
      ensures Slot(w, y) != Slot(w, x) && 0 <= Slot(w, y) < w.size
    {
      SlotInverse(w, y);
      SlotInjective(w, x, y);
    }
    forall j | 0 <= j < w.size && j != Slot(w, x) && units[j] != null
      ensures Unslot(w, j) in slots - {x}
    {
      UnslotInverse(w, j);
    }
  }

  lemma UnitAt(w: Win, units: seq<CUnit?>, slots: map<int, Chunk>, held: set<CUnit>, marked: set<int>, x: int)
    requires Circled(w, units, slots, held, marked) && x in slots
    ensures WinOk(w) && |units| == w.size && 0 <= Slot(w, x) < w.size && InWin(w, x)
    ensures units[Slot(w, x)] != null && units[Slot(w, x)] in held && units[Slot(w, x)].chunk == slots[x]
    ensures forall i :: 0 <= i < w.size && i != Slot(w, x) ==> units[i] != units[Slot(w, x)]
  {
    hide Slot, Unslot, WinOk, InWin;
    SlotInverse(w, x);
  }

  /** Without one number and the unit that holds it, the circle is as before. */
  lemma UnitTaken(w: Win, units: seq<CUnit?>, slots: map<int, Chunk>, held: set<CUnit>, marked: set<int>, x: int)
    requires Circled(w, units, slots, held, marked) && x in slots
    ensures 0 <= Slot(w, x) < w.size == |units| && units[Slot(w, x)] != null
    ensures Circled(w, units[Slot(w, x) := null], slots - {x}, held - {units[Slot(w, x)]}, marked - {x})
  {
    hide Slot, Unslot, WinOk, InWin, Holds;
    UnitAt(w, units, slots, held, marked, x);
    OthersHold(w, units, slots, held, marked, x);
    OthersStay(w, units, slots, x);
  }

  lemma OthersHold(w: Win, units: seq<CUnit?>, slots: map<int, Chunk>, held: set<CUnit>, marked: set<int>, x: int)
    requires Circled(w, units, slots, held, marked) && x in slots
    requires |units| == w.size && 0 <= Slot(w, x) < w.size && units[Slot(w, x)] != null
    ensures forall y {:trigger Slot(w, y)} {:trigger slots[y]} :: y in slots && y != x ==>
      && 0 <= Slot(w, y) < w.size
      && Holds(units[Slot(w, x) := null][Slot(w, y)], held - {units[Slot(w, x)]}, slots[y], y in marked - {x})
  {
    hide Slot, Unslot, WinOk, InWin;
    UnitAt(w, units, slots, held, marked, x);
    OthersStay(w, units, slots, x);
  }

  lemma HeldAreTaken(w: Win, units: seq<CUnit?>, slots: map<int, Chunk>, held: set<CUnit>, marked: set<int>)
    requires Circled(w, units, slots, held, marked)
    ensures WinOk(w) && forall u :: u in held ==> u.flag != 0
  {
  }

  /** An occupied unit goes into the empty slot of its number. */
  lemma UnitStored(w: Win, units: seq<CUnit?>, slots: map<int, Chunk>, held: set<CUnit>, marked: set<int>,
                   unit: CUnit, x: int)
    requires Circled(w, units, slots, held, marked) && InWin(w, x) && x !in slots && (unit.flag == 1 || unit.flag == 2)
    requires forall i :: 0 <= i < w.size ==> units[i] != unit
    ensures 0 <= Slot(w, x) < w.size
    ensures Circled(w, units[Slot(w, x) := unit], slots[x := unit.chunk], held + {unit},
                    if unit.flag == 2 then marked + {x} else marked)
  {
    hide Slot, Unslot, WinOk, InWin;
    SlotInverse(w, x);
    var pos := Slot(w, x);
    var slots', held' := slots[x := unit.chunk], held + {unit};
    var marked' := if unit.flag == 2 then marked + {x} else marked;
    forall y | y in slots'
      ensures 0 <= Slot(w, y) < w.size && Holds(units[pos := unit][Slot(w, y)], held', slots'[y], y in marked')
    {
      if y != x {
        SlotInverse(w, y);
        SlotInjective(w, x, y);
      }
    }
  }

  ghost predicate Holds(u: CUnit?, held: set<CUnit>, chunk: Chunk, read: bool)
    reads held
  {
    u != null && u in held && u.flag == (if read then 2 else 1) && u.chunk == chunk
  }

  class CRcvBuffer {
    const units: array<CUnit?>
    const queue: CUnitQueue
    const size: int
    var startPos: int
    var lastAckPos: int
    var maxPos: int
    var notch: int

    ghost var start: int                // the number at startPos
    ghost var lastAck: int              // the number at lastAckPos
    ghost var slots: map<int, Chunk>    // what is held, by number
    ghost var held: set<CUnit>          // the units that hold it
    ghost var marked: set<int>          // the numbers read but not yet acknowledged

    ghost function Circle(p: int): Win
      reads this`start
    {
      Win(start, p, size)
    }

    /** Number x is held exactly in the slot it maps to. */
    ghost predicate ShapedAt(p: int)
      reads this`start, this`lastAck, this`lastAckPos, this`slots, this`held, this`marked, units, held
    {
      Shape(Win(start, p, size))
    }

    ghost predicate Shape(w: Win)
      reads this`lastAck, this`lastAckPos, this`slots, this`held, this`marked, units, held
    {
      && units.Length == size == w.size && InWin(w, lastAck) && lastAckPos == Slot(w, lastAck)
      && Circled(w, units[..], slots, held, marked)
    }

    ghost predicate Valid()
      reads this`startPos, this`start, this`lastAck, this`lastAckPos, this`slots, this`held, this`marked, units, held
    {
      ShapedAt(startPos)
    }

    constructor (size: int, queue: CUnitQueue, ghost isn: int)
      requires 0 < size <= 0x1000_0000 && 0 <= isn
      ensures Valid() && fresh(units) && this.size == size && this.queue == queue
      ensures slots == map[] && held == {} && marked == {} && start == lastAck == isn && notch == 0 && maxPos == -1
    {
      this.size := size;
      this.queue := queue;
      units := new CUnit?[size](_ => null);
      startPos, lastAckPos, maxPos, notch := 0, 0, -1, 0;
      start, lastAck, slots, held, marked := isn, isn, map[], {}, {};
    }

    lemma PosAt(p: int, x: int)
      requires WinOk(Circle(p)) && start <= lastAck <= x < start + size && lastAckPos == Slot(Circle(p), lastAck)
      ensures (lastAckPos + (x - lastAck)) % size == Slot(Circle(p), x) && 0 <= Slot(Circle(p), x) < size
    {
      SlotInverse(Circle(p), x);
      SlotByOffset(Circle(p), lastAck, x);
    }

    /** Stores a unit at an offset from the acknowledged position; 0 on success, -1 if the slot
        is taken. */
    method AddData(unit: CUnit, offset: int, ghost x: int) returns (r: int)
      requires Valid() && 0 <= offset && x == lastAck + offset < start + size
      requires unit.flag == 0
      modifies this`maxPos, this`slots, this`held, units, unit`flag, queue`count
      ensures Valid() && maxPos == if offset > old(maxPos) then offset else old(maxPos)
      ensures x in old(slots) ==> r == -1 && slots == old(slots) && held == old(held) && queue.count == old(queue.count)
      ensures x in old(slots) ==> unit.flag == 0
      ensures x !in old(slots) ==>
        r == 0 && slots == old(slots)[x := unit.chunk] && held == old(held) + {unit} && queue.count == old(queue.count) + 1
    {
      PosAt(startPos, x);
      UnslotInverse(Circle(startPos), Slot(Circle(startPos), x));
      SlotInverse(Circle(startPos), x);
      var pos := (lastAckPos + offset) % size;
      if offset > maxPos {
        maxPos := offset;
      }
      if null != units[pos] {
        return -1;
      }
      FreeUnitIsNew(unit);
      Store(pos, unit, x);
      queue.count := queue.count + 1;
      return 0;
    }

    /** A free unit is in no slot. */
    lemma HeldIsTaken(unit: CUnit)
      requires Valid() && unit.flag == 0
      ensures unit !in held
    {
    }

    lemma FreeUnitIsNew(unit: CUnit)
      requires Valid() && unit.flag == 0
      ensures forall i :: 0 <= i < size ==> units[i] != unit
    {
      forall i | 0 <= i < size
        ensures units[i] != unit
      {
        UnslotInverse(Circle(startPos), i);
      }
    }

    method Store(pos: int, unit: CUnit, ghost x: int)
      requires Valid() && unit.flag == 0 && InWin(Circle(startPos), x) && x !in slots && pos == Slot(Circle(startPos), x)
      requires forall i :: 0 <= i < size ==> units[i] != unit
      modifies this`slots, this`held, units, unit`flag
      ensures Valid() && slots == old(slots)[x := unit.chunk] && held == old(held) + {unit} && unit.flag == 1
    {
      hide Circled, Slot, InWin;
      ghost var w, us, before, mine := Circle(startPos), units[..], slots, held;
      HeldAreTaken(w, us, slots, held, marked);
      SlotInverse(w, x);
      units[pos] := unit;
      unit.flag := 1;
      slots := slots[x := unit.chunk];
      held := held + {unit};
      UnitStored(w, us, before, mine, marked, unit, x);
    }

    function GetRcvDataSize(): int
      reads this`startPos, this`lastAckPos
    {
      if lastAckPos >= startPos then lastAckPos - startPos else size + lastAckPos - startPos
    }

    /** One slot stays empty so that a full buffer can be told from an empty one. */
    function GetAvailBufSize(): int
      reads this`startPos, this`lastAckPos
    {
      size - GetRcvDataSize() - 1
    }

    lemma DataSizeExact()
      requires Valid()
      ensures GetRcvDataSize() == lastAck - start && GetAvailBufSize() == size - (lastAck - start) - 1
    {
    }

    /** The acknowledged position advances by len numbers. */
    method AckData(len: int)
      requires Valid() && 0 <= len && lastAck + len < start + size
      modifies this`lastAckPos, this`lastAck, this`maxPos
      ensures Valid() && lastAck == old(lastAck) + len && maxPos == Max(old(maxPos) - len, 0)
    {
      PosAt(startPos, lastAck + len);
      lastAckPos := (lastAckPos + len) % size;
      lastAck := lastAck + len;
      maxPos := maxPos - len;
      if maxPos < 0 {
        maxPos := 0;
      }
    }

    /** The unit at the head of the circle goes back to the pool. */
    method FreeFirst(p: int) returns (p': int)
      requires ShapedAt(p) && start < lastAck && start in slots
      modifies this`start, this`slots, this`held, this`marked, units, held`flag, queue`count
      ensures ShapedAt(p') && start == old(start) + 1 && slots == old(slots) - {old(start)} && marked == old(marked) - {old(start)}
      ensures p' == if p + 1 == size then 0 else p + 1
      ensures held <= old(held) && queue.count == old(queue.count) - 1
      ensures forall u :: u in held ==> u.flag == old(u.flag)
    {
      hide ShapedAt;
      ReadSize(p);
      FreeUnit(p);
      p' := p + 1;
      if p' == size {
        p' := 0;
      }
      MoveStart(p, p');
    }

    lemma ReadSize(p: int)
      requires ShapedAt(p)
      ensures units.Length == size && 0 <= p < size
      ensures forall x :: x in slots ==> start <= x
    {
      FirstSlot(Circle(p));
    }

    /** The unit of the first number goes back to the pool; its slot is empty. */
    method FreeUnit(p: int)
      requires ShapedAt(p) && start in slots
      modifies this`slots, this`held, this`marked, units, held`flag, queue`count
      ensures ShapedAt(p) && slots == old(slots) - {start} && marked == old(marked) - {start}
      ensures held <= old(held) && queue.count == old(queue.count) - 1
      ensures forall u :: u in held ==> u.flag == old(u.flag)
    {
      hide Slot, InWin, Circled;
      UnitAt(Circle(p), units[..], slots, held, marked, start);
      UnitTaken(Circle(p), units[..], slots, held, marked, start);
      FirstIsAt(p);
      var tmp := units[p];
      units[p] := null;
      tmp.flag := 0;
      queue.count := queue.count - 1;
      slots := slots - {start};
      held := held - {tmp};
      marked := marked - {start};
    }

    lemma FirstIsAt(p: int)
      requires ShapedAt(p)
      ensures 0 <= p < size == units.Length && Slot(Circle(p), start) == p
    {
    }

    /** The circle starts one number later once the first number is not held. */
    ghost method MoveStart(p: int, p': int)
      requires ShapedAt(p) && start < lastAck && start !in slots && p' == if p + 1 == size then 0 else p + 1
      modifies this`start
      ensures ShapedAt(p') && start == old(start) + 1
    {
      hide Shape;
      ShapeMoves(Circle(p));
      start := start + 1;
    }

    lemma ShapeMoves(w: Win)
      requires Shape(w) && w.first != lastAck && w.first !in slots
      ensures Shape(Advance(w))
    {
      hide Slot, Unslot, WinOk, InWin, Advance;
      FirstSlot(w);
      AdvanceSlot(w, lastAck);
      AdvanceSlots(w, slots);
      AdvanceSize(w);
      forall j | 0 <= j < size && units[j] != null
        ensures Unslot(Advance(w), j) in slots
      {
        UnslotFirst(w, j);
        AdvanceUnslot(w, j);
      }
    }

    static lemma AdvanceSize(w: Win)
      ensures Advance(w).size == w.size
    {
    }

    static lemma UnslotFirst(w: Win, j: int)
      requires WinOk(w) && 0 <= j < w.size
      ensures Unslot(w, j) != w.first ==> j != w.slot
    {
    }

    /** Stream mode: everything acknowledged is held, none of it marked, and the notch lies inside the first chunk. */
    ghost predicate Gapless()
      reads this`start, this`lastAck, this`slots, this`notch, this`marked
    {
      && marked == {}
      && (forall x {:trigger x in slots} :: start <= x < lastAck ==> x in slots)
      && (notch > 0 ==> start < lastAck && notch < |slots[start].data|)
      && start <= lastAck && 0 <= notch
    }

    /** What a read of len bytes does from here on. */
    ghost function Reading(len: int): Taken
      requires Gapless()
      reads this`start, this`lastAck, this`slots, this`notch, this`marked
    {
      Consume(Held(slots, start, lastAck), notch, len)
    }

    /** Copies out up to len bytes; chunks read to their end are freed. */
    method ReadBuffer(len: int) returns (data: seq<byte>)
      requires Valid() && Gapless()
      modifies this`startPos, this`start, this`slots, this`held, this`marked, this`notch, units, held`flag, queue`count
      ensures Valid() && Gapless()
      ensures var t := old(Reading(len));
        && data == t.bytes && notch == t.notch && start == old(start) + t.freed
        && slots == Above(old(slots), start) && queue.count == old(queue.count) - t.freed
      ensures held <= old(held) && forall u :: u in held ==> u.flag == old(u.flag)
    {
      hide ShapedAt, Gapless, Reading, Above;
      var p := startPos;
      var rs := len;
      data := [];
      ghost var was := slots;
      ghost var target := Reading(len);
      SlotsAbove(p);
      AboveAll(slots, start);
      StartPending(target);
      ReadPosition(p);
      while p != lastAckPos && rs > 0
        invariant ShapedAt(p) && Gapless() && (p == lastAckPos <==> start == lastAck) && start <= lastAck
        invariant Pending(target, start - old(start), data, Reading(rs))
        invariant old(start) <= start && slots == Above(was, start)
        invariant held <= old(held) && forall u :: u in held ==> u.flag == old(u.flag)
        invariant queue.count == old(queue.count) - (start - old(start))
        decreases lastAck - start, rs
      {
        ghost var s0, rest := start, Reading(rs);
        var got;
        p, got := ReadStep(p, rs);
        rs := rs - |got|;
        PendingStep(target, s0 - old(start), data, rest, start - s0, got, Reading(rs));
        AboveStep(was, s0, start);
        data := data + got;
        ReadPosition(p);
      }
      startPos := p;
      ReadingDone(rs);
      EndPending(target, start - old(start), data, Reading(rs));
    }

    lemma SlotsAbove(p: int)
      requires ShapedAt(p)
      ensures forall x :: x in slots ==> start <= x
    {
    }

    lemma ReadingDone(rs: int)
      requires Gapless() && (start == lastAck || rs <= 0)
      ensures Reading(rs) == Taken(0, notch, [])
    {
    }

    /** One round of the copy loop: the unit at p is read to its end and freed, or in part. */
    method ReadStep(p: int, rs: int) returns (p': int, got: seq<byte>)
      requires ShapedAt(p) && Gapless() && start < lastAck && rs > 0
      modifies this`start, this`slots, this`held, this`marked, this`notch, units, held`flag, queue`count
      ensures ShapedAt(p') && Gapless() && |got| <= rs
      ensures Pending(old(Reading(rs)), start - old(start), got, Reading(rs - |got|))
      ensures old(start) <= start <= old(start) + 1 && (start == old(start) ==> |got| == rs)
      ensures slots == Above(old(slots), start)
      ensures held <= old(held) && forall u :: u in held ==> u.flag == old(u.flag)
      ensures queue.count == old(queue.count) - (start - old(start))
    {
      hide ShapedAt, Consume, Held, Above;
      ReadPosition(p);
      SlotsAbove(p);
      StepTaken(rs);
      AboveAll(slots, start);
      AboveNext(slots, start);
      var unitsize := |units[p].chunk.data| - notch;
      if unitsize > rs {
        unitsize := rs;
      }
      got := units[p].chunk.data[notch..notch + unitsize];
      if rs > unitsize || rs == |units[p].chunk.data| - notch {
        p' := FreeFirst(p);
        notch := 0;
      } else {
        p' := p;
        notch := notch + rs;
        ReadingDone(0);
      }
    }

    lemma StepTaken(rs: int)
      requires Gapless() && start < lastAck && rs > 0
      ensures start in slots && notch <= |slots[start].data|
      ensures var unit := slots[start].data[notch..];
        && (rs < |unit| ==> Reading(rs) == Taken(0, notch + rs, unit[..rs]))
        && (rs >= |unit| ==>
             var rest := Consume(Held(slots - {start}, start + 1, lastAck), 0, rs - |unit|);
             Reading(rs) == Taken(1 + rest.freed, rest.notch, unit + rest.bytes))
    {
      HeldSame(slots, slots - {start}, start + 1, lastAck);
      var held := Held(slots, start, lastAck);
      assert held[1..] == Held(slots, start + 1, lastAck);
    }

    static lemma StartPending(t: Taken)
      ensures Pending(t, 0, [], t)
    {
    }

    static lemma EndPending(t: Taken, freed: int, data: seq<byte>, rest: Taken)
      requires Pending(t, freed, data, rest) && rest.freed == 0 && rest.bytes == []
      ensures t.freed == freed && t.notch == rest.notch && t.bytes == data
    {
    }

    static lemma PendingStep(t: Taken, freed: int, data: seq<byte>, rest: Taken, more: int, got: seq<byte>, rest': Taken)
      requires Pending(t, freed, data, rest) && Pending(rest, more, got, rest')
      ensures Pending(t, freed + more, data + got, rest')
    {
      AppendAssoc(data, got, rest'.bytes);
    }

    static ghost predicate Pending(target: Taken, freed: int, data: seq<byte>, rest: Taken) {
      target.freed == freed + rest.freed && target.notch == rest.notch && target.bytes == data + rest.bytes
    }

    lemma ReadPosition(p: int)
      requires ShapedAt(p) && Gapless()
      ensures 0 <= p < size == units.Length && (p == lastAckPos <==> start == lastAck) && start <= lastAck
      ensures start < lastAck ==> start in slots && units[p] != null && units[p].chunk == slots[start]
    {
      FirstSlot(Circle(p));
      SlotInjective(Circle(p), start, lastAck);
    }

    // ---------- Message mode ----------

    ghost function Cells(): map<int, M.Cell>
      reads this`slots, this`marked
    {
      map x | x in slots :: M.Cell(slots[x], x in marked)
    }

    ghost function Msg(): M.MsgRcv
      reads this`start, this`lastAck, this`maxPos, this`slots, this`marked
    {
      M.MsgRcv(start, lastAck, maxPos, Cells())
    }

    /** One slot is always empty, and the largest offset ever stored lies inside the circle. */
    ghost predicate InBounds()
      reads this`start, this`lastAck, this`maxPos, this`slots
    {
      && -1 <= maxPos && start <= lastAck && lastAck + maxPos < start + size
      && forall x :: x in slots ==> x < start + size - 1
    }

    /** The position i slots after p. */
    static function After(p: int, i: int, size: int): int {
      if p + i < size then p + i else p + i - size
    }

    /** What the slot of x shows. */
    lemma SlotShows(p: int, i: int)
      requires ShapedAt(p) && 0 <= i < size
      ensures units.Length == size && 0 <= p < size && 0 <= After(p, i, size) < size
      ensures var u := units[After(p, i, size)];
        && (u == null <==> start + i !in slots)
        && (u != null ==> u.chunk == slots[start + i] && u.flag == if start + i in marked then 2 else 1)
        && (M.Unread(Cells(), start + i) <==> u != null && u.flag == 1)
      ensures After(p, i, size) == lastAckPos <==> start + i == lastAck
    {
      var w := Circle(p);
      SlotInverse(w, start + i);
      SlotInjective(w, start + i, lastAck);
      UnslotInverse(w, After(p, i, size));
      assert Slot(w, start + i) == After(p, i, size);
    }

    static lemma OneLess(m: map<int, Chunk>, x: int)
      ensures |m - {x}| == if x in m then |m| - 1 else |m|
    {
      assert (m - {x}).Keys == m.Keys - {x};
    }

    /** Whether the message at the front is whole, as far as it is acknowledged. */
    method LookAhead() returns (good: bool)
      requires Valid() && start <= lastAck
      ensures good == M.Good(Cells(), start, lastAck)
    {
      hide ShapedAt, Cells, M.Unread;
      var i := startPos;
      ghost var k := 0;
      good := true;
      AckInCircle();
      SlotShows(startPos, 0);
      while i != lastAckPos
        invariant 0 <= k <= lastAck - start < size && i == After(startPos, k, size)
        invariant i == lastAckPos <==> start + k == lastAck
        invariant M.Good(Cells(), start, lastAck) == M.Good(Cells(), start + k, lastAck)
        decreases lastAck - start - k
      {
        SlotShows(startPos, k);
        CellShows(start + k);
        if units[i] == null || units[i].flag != 1 {
          return false;
        }
        if units[i].chunk.msgNo.last {
          return true;
        }
        i := i + 1;
        if i == size {
          i := 0;
        }
        k := k + 1;
        SlotShows(startPos, k);
      }
    }

    lemma AckInCircle()
      requires Valid()
      ensures start <= lastAck < start + size
    {
    }

    lemma CellShows(x: int)
      ensures x in slots <==> x in Cells()
      ensures x in slots ==> Cells()[x] == M.Cell(slots[x], x in marked)
    {
    }

    /** Slots before the first good message of the acknowledged part are freed. */
    method SkipBad()
      requires Valid() && start <= lastAck
      modifies this`startPos, this`start, this`slots, this`held, this`marked, units, held`flag, queue`count
      ensures Valid() && Msg() == M.Skip(old(Msg())) && held <= old(held)
      ensures forall u :: u in held ==> u.flag == old(u.flag)
      ensures queue.count - |slots| == old(queue.count) - |old(slots)|
      ensures forall x :: x in slots ==> x in old(slots)
    {
      hide ShapedAt, Cells, M.Unread, M.Good;
      while startPos != lastAckPos
        invariant Valid() && start <= lastAck && held <= old(held)
        invariant forall x :: x in slots ==> x in old(slots)
        invariant M.Skip(Msg()) == M.Skip(old(Msg()))
        invariant queue.count - |slots| == old(queue.count) - |old(slots)|
        invariant forall u :: u in held ==> u.flag == old(u.flag)
        decreases lastAck - start
      {
        AckInCircle();
        SlotShows(startPos, 0);
        CellShows(start);
        if units[startPos] != null && units[startPos].flag == 1 && units[startPos].chunk.msgNo.first {
          var good := LookAhead();
          if good {
            break;
          }
        }
        SkipFirst();
      }
      AckInCircle();
      SlotShows(startPos, 0);
    }

    method SkipFirst()
      requires Valid() && start < lastAck
      modifies this`startPos, this`start, this`slots, this`held, this`marked, units, held`flag, queue`count
      ensures Valid() && start == old(start) + 1 && held <= old(held)
      ensures forall u :: u in held ==> u.flag == old(u.flag)
      ensures Cells() == old(Cells()) - {old(start)} && forall x :: x in slots ==> x in old(slots)
      ensures queue.count - |slots| == old(queue.count) - |old(slots)|
    {
      hide ShapedAt;
      AckInCircle();
      SlotShows(startPos, 0);
      OneLess(slots, start);
      if units[startPos] == null {
        ghost var p := startPos;
        startPos := startPos + 1;
        if startPos == size {
          startPos := 0;
        }
        MoveStart(p, startPos);
      } else {
        startPos := FreeFirst(startPos);
      }
    }

    /** Looks from the start for the first message that may be handed out; positions in the circle
        for its head and its end. */
    method FindMsg() returns (found: bool, p: int, q: int, passack: bool, ghost f: M.Found)
      requires Valid() && InBounds()
      ensures f == M.Find(Cells(), start, lastAck + maxPos, lastAck, None)
      ensures f.Message? ==>
        && found && start <= f.p <= f.q < start + size && (passack <==> f.q >= lastAck)
        && p == After(startPos, f.p - start, size) && q == After(startPos, f.q - start, size)
      ensures f.Nothing? && found ==> passack && 0 <= q < size && p == (q + 1) % size
    {
      hide ShapedAt, Cells, After, M.Find;
      SizeIsPositive();
      SlotShows(startPos, 0);
      DataSizeExact();
      p, q := -1, startPos;
      passack := startPos == lastAckPos;
      found := false;
      ghost var head: Option<int> := None;
      var i, n := 0, maxPos + GetRcvDataSize();
      StartAfter();
      while i <= n
        invariant 0 <= i <= n + 1 <= size && start + n == lastAck + maxPos && !found
        invariant 0 <= q < size && q == After(startPos, i, size) && (passack <==> start + i >= lastAck)
        invariant HeadAt(p, head, i)
        invariant M.Find(Cells(), start, lastAck + maxPos, lastAck, None) ==
                  M.Find(Cells(), start + i, lastAck + maxPos, lastAck, head)
        decreases n + 1 - i
      {
        p, found, head := Round(i, q, p, passack, head);
        if found {
          f := M.Message(head.value, start + i);
          return;
        }
        AfterNext(startPos, i);
        q := q + 1;
        if q == size {
          q := 0;
        }
        i := i + 1;
        AckAt(startPos, i);
        if q == lastAckPos {
          passack := true;
        }
      }
      NothingLeft(head);
      f := M.Nothing(head);
      if p != -1 && (q + 1) % size == p {
        found := true;
      }
    }

    /** p is the position of the head so far, -1 if there is none. */
    ghost predicate HeadAt(p: int, head: Option<int>, i: int)
      reads this`start, this`startPos
    {
      if head.None? then p == -1
      else start <= head.value < start + i && 0 <= p < size && p == After(startPos, head.value - start, size)
    }

    /** One round of the search, at the slot i after the start. */
    method Round(i: int, q: int, p: int, passack: bool, ghost head: Option<int>)
      returns (p': int, found: bool, ghost head': Option<int>)
      requires Valid() && 0 <= i < size && q == After(startPos, i, size) && (passack <==> start + i >= lastAck)
      requires start + i <= lastAck + maxPos && HeadAt(p, head, i)
      ensures HeadAt(p', head', i + 1)
      ensures var all := M.Find(Cells(), start + i, lastAck + maxPos, lastAck, head);
        if found then head'.Some? && all == M.Message(head'.value, start + i)
        else all == M.Find(Cells(), start + i + 1, lastAck + maxPos, lastAck, head')
    {
      hide ShapedAt, Cells, After, M.Find, M.Unread;
      SlotShows(startPos, i);
      CellShows(start + i);
      M.FindNext(Cells(), start + i, lastAck + maxPos, lastAck, head);
      if units[q] != null && units[q].flag == 1 {
        p', found := Boundary(units[q].chunk.msgNo, q, p);
        head' := if units[q].chunk.msgNo.first then Some(start + i) else head;
      } else {
        p', found, head' := -1, false, None;
      }
      if found {
        if !(!passack || !units[q].chunk.msgNo.inOrder) {
          found := false;
        }
      }
    }

    /** The switch over the boundary bits: the head so far, and whether a message ends here. */
    static method Boundary(no: MsgNo, q: int, p: int) returns (p': int, found: bool)
      ensures p' == if no.first then q else p
      ensures found <==> no.last && (no.first || p != -1)
    {
      p', found := p, false;
      if no.first && no.last {
        p' := q;
        found := true;
      } else if no.first {
        p' := q;
      } else if no.last {
        if p != -1 {
          found := true;
        }
      }
    }

    lemma NothingLeft(head: Option<int>)
      ensures M.Find(Cells(), lastAck + maxPos + 1, lastAck + maxPos, lastAck, head) == M.Nothing(head)
    {
    }

    lemma SizeIsPositive()
      requires Valid()
      ensures 0 < size == units.Length && 0 <= startPos < size
    {
    }

    lemma StartAfter()
      requires 0 <= startPos < size
      ensures After(startPos, 0, size) == startPos
    {
    }

    static lemma AfterStep(p: int, i: int, size: int)
      requires 0 <= p < size && 0 <= i < size
      ensures 0 <= After(p, i, size) < size && 0 <= After(p, i + 1, size) < size
      ensures After(p, i + 1, size) == if After(p, i, size) + 1 == size then 0 else After(p, i, size) + 1
    {
    }

    lemma AfterNext(p: int, i: int)
      requires 0 <= p < size && 0 <= i < size
      ensures 0 <= After(p, i, size) < size && 0 <= After(p, i + 1, size) < size
      ensures After(p, i + 1, size) == if After(p, i, size) + 1 == size then 0 else After(p, i, size) + 1
    {
      AfterStep(p, i, size);
    }

    /** The acknowledged position is met exactly at its number, until the circle closes. */
    lemma AckAt(p: int, i: int)
      requires ShapedAt(p) && 0 < i <= size && start <= lastAck
      ensures After(p, i, size) == lastAckPos && start + i - 1 < lastAck ==> start + i == lastAck
      ensures start + i == lastAck ==> After(p, i, size) == lastAckPos
    {
      if i < size {
        SlotShows(p, i);
      } else {
        SlotShows(p, 0);
      }
    }

    method ScanMsg() returns (found: bool, p: int, q: int, passack: bool, ghost f: M.Found)
      requires Valid() && InBounds()
      modifies this`startPos, this`start, this`slots, this`held, this`marked, units, held`flag, queue`count
      ensures Valid() && InBounds() && (Msg(), f) == M.Scan(old(Msg())) && held <= old(held)
      ensures forall x :: x in slots ==> x in old(slots)
      ensures forall u :: u in held ==> u.flag == old(u.flag)
      ensures queue.count - |slots| == old(queue.count) - |old(slots)|
      ensures f.Message? ==>
        && found && start <= f.p <= f.q < start + size && (passack <==> f.q >= lastAck)
        && p == After(startPos, f.p - start, size) && q == After(startPos, f.q - start, size)
      ensures f.Nothing? && found ==> passack && 0 <= q < size && p == (q + 1) % size
    {
      hide ShapedAt, Cells, After, M.Skip, M.Find;
      AckInCircle();
      SlotShows(startPos, 0);
      StartAfter0();
      if startPos == lastAckPos && 0 == maxPos {
        return false, -1, -1, true, M.Nothing(None);
      }
      SkipBad();
      AckInCircle();
      found, p, q, passack, f := FindMsg();
    }

    lemma StartAfter0()
      requires Valid()
      ensures After(startPos, 0, size) == startPos
    {
    }

    /** One unit of a message: handed back to the pool if the message is acknowledged, otherwise
        kept and marked as read. */
    method TakeUnit(p: int, passack: bool, ghost x: int) returns (chunk: Chunk, p': int)
      requires if passack then Valid() && start <= x < start + size && p == After(startPos, x - start, size)
               else ShapedAt(p) && x == start < lastAck
      requires M.Unread(Cells(), x)
      modifies this`start, this`slots, this`held, this`marked, units, held`flag, queue`count
      ensures chunk == old(slots[x]) && p' == if p + 1 == size then 0 else p + 1
      ensures passack ==> Valid() && start == old(start) && Cells() == M.MarkRead(old(Cells()), x, x)
      ensures !passack ==> ShapedAt(p') && start == x + 1 && Cells() == old(Cells()) - {x}
      ensures held <= old(held) && queue.count - |slots| == old(queue.count) - |old(slots)|
      ensures forall y :: y in slots ==> y in old(slots)
    {
      hide ShapedAt, After, M.MarkRead;
      CellShows(x);
      if !passack {
        FirstShows(p);
        OneLess(slots, start);
        chunk := units[p].chunk;
        p' := FreeFirst(p);
      } else {
        SlotShows(startPos, x - start);
        chunk := units[p].chunk;
        MarkUnit(p, x);
        p' := if p + 1 == size then 0 else p + 1;
      }
    }

    lemma FirstShows(p: int)
      requires ShapedAt(p) && start in slots
      ensures 0 <= p < size == units.Length && units[p] != null && units[p].chunk == slots[start]
    {
      FirstSlot(Circle(p));
    }

    method MarkUnit(p: int, ghost x: int)
      requires Valid() && start <= x < start + size && p == After(startPos, x - start, size) && x in slots
      modifies this`marked, held`flag
      ensures Valid() && marked == old(marked) + {x} && Cells() == M.MarkRead(old(Cells()), x, x)
    {
      hide After, Slot, InWin, Circled;
      ghost var w, us, before, mine := Circle(startPos), units[..], slots, held;
      SlotIsAfter(startPos, x - start);
      UnitAt(w, us, slots, held, marked, x);
      UnitTaken(w, us, slots, held, marked, x);
      units[p].flag := 2;
      UnitStored(w, us[p := null], slots - {x}, held - {us[p]}, marked - {x}, us[p], x);
      BackAgain(us, p, slots, x, held, marked);
      marked := marked + {x};
    }

    lemma BackAgain(us: seq<CUnit?>, p: int, slots: map<int, Chunk>, x: int, held: set<CUnit>, marked: set<int>)
      requires 0 <= p < |us| && us[p] != null && x in slots && us[p] in held
      ensures us[p := null][p := us[p]] == us && (slots - {x})[x := slots[x]] == slots
      ensures held - {us[p]} + {us[p]} == held && marked - {x} + {x} == marked + {x}
    {
      assert ((slots - {x})[x := slots[x]]).Keys == slots.Keys;
    }

    lemma SlotIsAfter(p: int, i: int)
      requires 0 <= i < size
      ensures Slot(Circle(p), start + i) == After(p, i, size)
    {
    }

    /** Copying out a message is under way: x is the number at p, rs the room left. */
    ghost predicate Copying(cells: map<int, M.Cell>, base: int, f: M.Found, x: int, p: int, passack: bool, len: nat, data: seq<byte>, rs: int)
      requires f.Message?
      reads this, units, held
    {
      && base <= f.p <= x <= f.q + 1 < base + size && 0 <= startPos < size && p == After(startPos, x - base, size)
      && M.Whole(cells, f.p, f.q) && (forall y :: x <= y <= f.q ==> M.Unread(Cells(), y) && y in cells && cells[y].chunk == Cells()[y].chunk)
      && 0 <= rs == len - |data|
      && data + M.Cut(M.Pieces(cells, x, f.q), rs) == M.Cut(M.Pieces(cells, f.p, f.q), len)
      && if passack then Valid() && start == base && Cells() == M.MarkRead(cells, f.p, x - 1)
         else ShapedAt(p) && start == x && f.q < lastAck && Cells() == M.From(cells, x)
    }

    method CopyOne(p: int, passack: bool, rs: int, ghost cells: map<int, M.Cell>, ghost base: int, ghost f: M.Found, ghost x: int, ghost len: nat, ghost data: seq<byte>)
      returns (p': int, got: seq<byte>)
      requires f.Message? && x <= f.q && Copying(cells, base, f, x, p, passack, len, data, rs)
      modifies this`start, this`slots, this`held, this`marked, units, held`flag, queue`count
      ensures |got| <= rs && Copying(cells, base, f, x + 1, p', passack, len, data + got, rs - |got|)
      ensures held <= old(held) && queue.count - |slots| == old(queue.count) - |old(slots)|
      ensures forall y :: y in slots ==> y in old(slots)
    {
      hide ShapedAt, Cells, After, M.MarkRead, M.From, M.Cut, M.Pieces;
      assert M.Unread(Cells(), x);
      CellShows(x);
      M.MarkMore(cells, f.p, x);
      M.FromMore(cells, x);
      M.PiecesStep(cells, x, f.q);
      M.CutStep(M.Pieces(cells, x, f.q), rs);
      AfterStep(startPos, x - base, size);
      ghost var before := Cells();
      var chunk;
      chunk, p' := TakeUnit(p, passack, x);
      var unitsize := |chunk.data|;
      if unitsize > rs {
        unitsize := rs;
      }
      got := chunk.data[..unitsize];
      AppendAssoc(data, got, M.Cut(M.Pieces(cells, x + 1, f.q), rs - unitsize));
      M.OthersUnread(before, Cells(), x);
    }

    /** readMsg: the first whole message that may be handed out, as far as data has room; nothing if
        there is none.  all, isn and done are the messages that were sent, their first number and
        the heads of those handed out before. */
    method ReadMsg(len: nat, ghost all: seq<Chunk>, ghost isn: int, ghost done: set<int>) returns (data: seq<byte>)
      requires Valid() && InBounds() && M.MsgInv(all, isn, Msg(), done)
      modifies this`startPos, this`start, this`slots, this`held, this`marked, units, held`flag, queue`count
      ensures Valid() && InBounds() && held <= old(held)
      ensures queue.count - |slots| == old(queue.count) - |old(slots)|
      ensures var (s, f) := M.Scan(old(Msg()));
        (f.Message? ==> M.Whole(s.slots, f.p, f.q)) && (Msg(), data) == M.Take(s, f, len)
    {
      hide ShapedAt, Cells, After, M.MsgInv, M.Scan, M.Take, M.IsMessage, M.Unread, Copying;
      M.ReadKeepsInv(all, isn, Msg(), done, len);
      var found, p, q, passack;
      ghost var f;
      found, p, q, passack, f := ScanMsg();
      data := [];
      ghost var s, cells, base, x := Msg(), Cells(), start, if f.Message? then f.p else 0;
      if !found {
        M.TakeNothing(s, f, len);
        return;
      }
      var rs := len;
      ghost var mine, known := held, slots;
      SizeIsPositive();
      if f.Message? {
        CopyStart(f, p, passack, len);
        AtTheEnd(cells, base, f, x, p, q, passack, len, data, rs);
      }
      while p != (q + 1) % size
        invariant f.Nothing? ==> p == (q + 1) % size && Msg() == s && data == [] && Valid() && passack
        invariant f.Message? ==> f.p <= x <= f.q + 1 && Copying(cells, base, f, x, p, passack, len, data, rs)
        invariant f.Message? ==> (p == (q + 1) % size <==> x == f.q + 1)
        invariant held <= mine && queue.count - |slots| == old(queue.count) - |old(slots)|
        invariant forall y :: y in slots ==> y in known
        invariant lastAck == s.lastAck && maxPos == s.maxPos
        modifies this`start, this`slots, this`held, this`marked, units, mine`flag, queue`count
        decreases if f.Message? then f.q + 1 - x else 0
      {
        var got;
        p, got := CopyOne(p, passack, rs, cells, base, f, x, len, data);
        rs := rs - |got|;
        data := data + got;
        x := x + 1;
        AtTheEnd(cells, base, f, x, p, q, passack, len, data, rs);
      }
      M.TakeNothing(s, f, len);
      if f.Message? {
        CopyEnd(cells, base, f, p, passack, len, data, rs, s);
      }
      if !passack {
        startPos := (q + 1) % size;
      }
    }

    lemma CopyStart(f: M.Found, p: int, passack: bool, len: nat)
      requires Valid() && InBounds() && f.Message? && start <= f.p <= f.q && p == After(startPos, f.p - start, size)
      requires (passack <==> f.q >= lastAck) && M.Whole(Cells(), f.p, f.q)
      requires (forall y :: f.p <= y <= f.q ==> M.Unread(Cells(), y)) && (f.q < lastAck ==> f.p == start)
      ensures Copying(Cells(), start, f, f.p, p, passack, len, [], len)
    {
      hide ShapedAt, M.MarkRead, M.From, M.Cut, M.Pieces;
      SizeIsPositive();
      M.MarkMore(Cells(), f.p, f.p);
      M.FromMore(Cells(), f.p);
      SlotsAbove(startPos);
      assert f.q in Cells();
    }

    /** The loop ends right after the last unit of the message. */
    lemma AtTheEnd(cells: map<int, M.Cell>, base: int, f: M.Found, x: int, p: int, q: int, passack: bool, len: nat, data: seq<byte>, rs: int)
      requires f.Message? && f.p <= f.q && Copying(cells, base, f, x, p, passack, len, data, rs)
      requires q == After(startPos, f.q - base, size)
      ensures p == (q + 1) % size <==> x == f.q + 1
    {
      hide ShapedAt, Cells, M.MarkRead, M.From, M.Cut, M.Pieces;
      AfterStep(startPos, f.q - base, size);
      WrapPos(q);
    }

    lemma WrapPos(q: int)
      requires 0 <= q < size
      ensures (q + 1) % size == if q + 1 == size then 0 else q + 1
    {
    }

    lemma CopyEnd(cells: map<int, M.Cell>, base: int, f: M.Found, p: int, passack: bool, len: nat, data: seq<byte>, rs: int, s: M.MsgRcv)
      requires f.Message? && Copying(cells, base, f, f.q + 1, p, passack, len, data, rs)
      requires s == M.MsgRcv(base, lastAck, maxPos, cells) && (passack <==> f.q >= lastAck)
      ensures M.Whole(s.slots, f.p, f.q) && (Msg(), data) == M.Take(s, f, len)
      ensures ShapedAt(if passack then startPos else p) && base <= start
      ensures start <= lastAck || start == base
    {
      hide ShapedAt, Cells, After, M.MarkRead, M.From;
      assert M.Cut([], rs) == [];
      assert data + [] == data;
    }
  }
}
