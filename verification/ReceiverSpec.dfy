/** The receiving half of a connection on unwrapped sequence numbers: what each call of the
    receiver does to its state, and the local invariant every call keeps. */
module ReceiverSpec {
  import opened Options
  import opened Chunks
  import opened SenderSpec

  datatype Rcv = Rcv(
    lastAck: int,             // m_iRcvLastAck
    lastAckAck: int,          // m_iRcvLastAckAck
    curr: int,                // m_iRcvCurrSeqNo
    lost: set<int>,           // m_pRcvLossList
    slots: map<int, Chunk>,   // m_pRcvBuffer, by sequence number
    start: int,               // the sequence number at m_iStartPos: the first one not read
    notch: nat)               // m_iNotch

  ghost predicate RcvOk(c: Config, r: Rcv) {
    && Bounded(c, r)
    && Covered(r)
    && c.isn <= r.lastAckAck <= r.lastAck
    && (r.notch == 0 || (r.start < r.lastAck && r.notch < |r.slots[r.start].data|))
  }

  /** Everything held fits the buffer, which always keeps one slot empty. */
  ghost predicate Bounded(c: Config, r: Rcv) {
    && c.isn <= r.start <= r.lastAck <= r.curr + 1
    && r.lastAck <= r.start + c.rcvBufSize - 1
    && r.curr <= r.start + c.rcvBufSize - 2
    && (forall x :: x in r.slots ==> r.start <= x <= r.curr)
    && (forall x {:trigger x in r.slots} :: r.start <= x < r.lastAck ==> x in r.slots)
  }

  /** From lastAck to curr every number is either lost or held, and none is both. */
  ghost predicate Covered(r: Rcv) {
    && (forall x :: x in r.lost ==> r.lastAck <= x <= r.curr && x !in r.slots)
    && (forall x {:trigger x in r.slots} {:trigger x in r.lost} ::
          r.lastAck <= x <= r.curr ==> x in r.lost || x in r.slots)
  }

  function RcvInit(c: Config): Rcv {
    Rcv(c.isn, c.isn, c.isn - 1, {}, map[], c.isn, 0)
  }

  /** getAvailBufSize: one slot always stays empty. */
  function AvailBufSize(c: Config, r: Rcv): int {
    c.rcvBufSize - (r.lastAck - r.start) - 1
  }

  /** processData stores a packet only inside the buffer and only once. */
  predicate Storable(c: Config, r: Rcv, x: int) {
    0 <= x - r.lastAck < AvailBufSize(c, r) && x !in r.slots
  }

  /** processData, and the loss report it sends at once when a gap opens. */
  function OnData(c: Config, r: Rcv, x: int, chunk: Chunk): (Rcv, Option<Loss>) {
    if !Storable(c, r, x) then (r, None)
    else
      var r1 := r.(slots := r.slots[x := chunk]);
      if x > r.curr + 1 then
        (r1.(lost := r.lost + Interval(r.curr + 1, x - 1), curr := x),
         Some(if r.curr + 1 == x - 1 then Single(x - 1) else Pair(r.curr + 1, x - 1)))
      else if x > r.curr then (r1.(curr := x), None)
      else (r1.(lost := r.lost - {x}), None)
  }

  /** The acknowledgement point: the first loss, or the number after the largest received. */
  ghost predicate IsAckPoint(r: Rcv, ack: int) {
    if r.lost == {} then ack == r.curr + 1 else IsLeast(ack, r.lost)
  }

  datatype Ack = NoAck | LiteAck(ack: int) | FullAck(ack: int, avail: int)

  /** sendCtrl case 2.  quiet: too little time has passed to repeat an acknowledgement. */
  ghost predicate SendAck(c: Config, r: Rcv, lite: bool, quiet: bool, r': Rcv, out: Ack) {
    exists ack :: IsAckPoint(r, ack) &&
      if ack == r.lastAckAck then r' == r && out == NoAck
      else if lite then r' == r && out == LiteAck(ack)
      else if ack < r.lastAck || (ack == r.lastAck && quiet) then r' == r && out == NoAck
      else
        && r' == r.(lastAck := ack)
        && out == if ack > r.lastAckAck then FullAck(ack, Max(AvailBufSize(c, r'), 2)) else NoAck
  }

  /** processCtrl case 6, once the acknowledged number has been looked up. */
  function OnAckAck(r: Rcv, ack: int): Rcv {
    if ack > r.lastAckAck then r.(lastAckAck := ack) else r
  }

  /** The chunks held for the numbers from lo up to, not including, hi. */
  function Held(slots: map<int, Chunk>, lo: int, hi: int): (s: seq<Chunk>)
    requires forall x {:trigger x in slots} :: lo <= x < hi ==> x in slots
    ensures |s| == if lo < hi then hi - lo else 0
    ensures forall i :: 0 <= i < |s| ==> s[i] == slots[lo + i]
    decreases hi - lo
  {
    if lo >= hi then [] else [slots[lo]] + Held(slots, lo + 1, hi)
  }

  /** What is left of the slots once the numbers below lo are freed. */
  function Above(slots: map<int, Chunk>, lo: int): map<int, Chunk> {
    map x | x in slots && x >= lo :: slots[x]
  }

  /** readBuffer: whole chunks are freed as they are consumed, a partial read moves the notch. */
  function Read(r: Rcv, len: int): (Rcv, seq<byte>)
    requires r.start <= r.lastAck
    requires forall x {:trigger x in r.slots} :: r.start <= x < r.lastAck ==> x in r.slots
    requires r.start < r.lastAck ==> r.notch <= |r.slots[r.start].data|
  {
    var taken := Consume(Held(r.slots, r.start, r.lastAck), r.notch, len);
    (r.(slots := Above(r.slots, r.start + taken.freed),
        start := r.start + taken.freed, notch := taken.notch),
     taken.bytes)
  }

  /** Every reported number is one the receiver is missing. */
  ghost predicate LossReport(r: Rcv, losses: seq<Loss>) {
    forall i | 0 <= i < |losses| ::
      LossLo(losses[i]) <= LossHi(losses[i]) && Interval(LossLo(losses[i]), LossHi(losses[i])) <= r.lost
  }

  lemma RcvInitOk(c: Config)
    requires ConfigOk(c)
    ensures RcvOk(c, RcvInit(c))
  {
  }

  lemma OnDataBounded(c: Config, r: Rcv, x: int, chunk: Chunk)
    requires Bounded(c, r) && Storable(c, r, x)
    ensures Bounded(c, OnData(c, r, x, chunk).0)
  {
  }

  lemma OnDataCovered(c: Config, r: Rcv, x: int, chunk: Chunk)
    requires Covered(r) && Bounded(c, r) && Storable(c, r, x)
    ensures Covered(OnData(c, r, x, chunk).0)
  {
    hide Covered, Bounded, Interval;
    if x > r.curr + 1 {
      GapCovered(c, r, x, chunk);
    } else {
      NextCovered(c, r, x, chunk);
    }
  }

  lemma GapCovered(c: Config, r: Rcv, x: int, chunk: Chunk)
    requires Covered(r) && Bounded(c, r) && x > r.curr + 1
    ensures Covered(r.(slots := r.slots[x := chunk], lost := r.lost + Interval(r.curr + 1, x - 1), curr := x))
  {
    hide Interval;
    var r' := r.(slots := r.slots[x := chunk], lost := r.lost + Interval(r.curr + 1, x - 1), curr := x);
    forall y | r.lastAck <= y <= x
      ensures y in r'.lost || y in r'.slots
    {
      assert y <= r.curr ==> y in r.lost || y in r.slots;
    }
  }

  lemma NextCovered(c: Config, r: Rcv, x: int, chunk: Chunk)
    requires Covered(r) && Bounded(c, r) && r.lastAck <= x <= r.curr + 1
    ensures Covered(r.(slots := r.slots[x := chunk], lost := r.lost - {x}, curr := Max(r.curr, x)))
    ensures x == r.curr + 1 ==> r.lost - {x} == r.lost
  {
    var r' := r.(slots := r.slots[x := chunk], lost := r.lost - {x}, curr := Max(r.curr, x));
    forall y | r.lastAck <= y <= r'.curr
      ensures y in r'.lost || y in r'.slots
    {
      assert y <= r.curr ==> y in r.lost || y in r.slots;
    }
  }

  /** Storing a packet keeps the coverage: nothing is forgotten and nothing is counted twice. */
  lemma OnDataOk(c: Config, r: Rcv, x: int, chunk: Chunk)
    requires RcvOk(c, r)
    ensures RcvOk(c, OnData(c, r, x, chunk).0)
  {
    if Storable(c, r, x) {
      OnDataBounded(c, r, x, chunk);
      OnDataCovered(c, r, x, chunk);
    }
  }

  /** Every gap the receiver inserts lies above its whole loss list and below the end of the
      buffer: the condition under which the loss list stores it. */
  lemma GapIsAboveList(c: Config, r: Rcv, x: int)
    requires RcvOk(c, r) && Storable(c, r, x) && x > r.curr + 1
    ensures forall y :: y in r.lost ==> y < r.curr + 1
    ensures r.lastAck <= r.curr + 1 <= x - 1 < r.lastAck + c.rcvBufSize
    ensures forall y :: y in r.lost ==> r.lastAck <= y < r.lastAck + c.rcvBufSize
  {
  }

  lemma OnAckAckOk(c: Config, r: Rcv, ack: int)
    requires RcvOk(c, r) && ack <= r.lastAck
    ensures RcvOk(c, OnAckAck(r, ack))
  {
  }

  lemma SendAckOk(c: Config, r: Rcv, lite: bool, quiet: bool, r': Rcv, out: Ack)
    requires RcvOk(c, r) && SendAck(c, r, lite, quiet, r', out)
    ensures RcvOk(c, r')
  {
  }

  /** The bytes a reader could obtain now. */
  function Readable(r: Rcv): seq<byte>
    requires r.start <= r.lastAck
    requires forall x {:trigger x in r.slots} :: r.start <= x < r.lastAck ==> x in r.slots
    requires r.start < r.lastAck ==> r.notch <= |r.slots[r.start].data|
  {
    Unread(Held(r.slots, r.start, r.lastAck), r.notch)
  }

  lemma HeldSame(slots: map<int, Chunk>, slots': map<int, Chunk>, lo: int, hi: int)
    requires forall x {:trigger x in slots} :: lo <= x < hi ==> x in slots
    requires forall x {:trigger x in slots'} :: lo <= x < hi ==> x in slots' && x in slots && slots[x] == slots'[x]
    ensures Held(slots, lo, hi) == Held(slots', lo, hi)
  {
    var a, b := Held(slots, lo, hi), Held(slots', lo, hi);
    assert forall i | 0 <= i < |a| :: a[i] == slots[lo + i] && b[i] == slots'[lo + i] && lo + i in slots';
  }

  lemma HeldAfter(slots: map<int, Chunk>, lo: int, hi: int, k: nat)
    requires forall x {:trigger x in slots} :: lo <= x < hi ==> x in slots
    requires lo + k <= hi
    ensures var rest := Above(slots, lo + k);
      && (forall x {:trigger x in rest} :: lo + k <= x < hi ==> x in rest)
      && Held(rest, lo + k, hi) == Held(slots, lo, hi)[k..]
  {
    var rest := Above(slots, lo + k);
    assert forall x {:trigger x in rest} :: lo + k <= x < hi ==> x in slots && x in rest;
    var a, b := Held(rest, lo + k, hi), Held(slots, lo, hi)[k..];
    assert forall i | 0 <= i < |a| :: a[i] == rest[lo + k + i] && b[i] == slots[lo + k + i];
  }

  lemma ReadOk(c: Config, r: Rcv, len: int)
    requires RcvOk(c, r)
    ensures RcvOk(c, Read(r, len).0)
  {
    var held := Held(r.slots, r.start, r.lastAck);
    ConsumeBounds(held, r.notch, len);
    var taken := Consume(held, r.notch, len);
    var r' := Read(r, len).0;
    assert Bounded(c, r') && Covered(r');
    if taken.freed < |held| {
      assert held[taken.freed] == r.slots[r.start + taken.freed];
    }
  }

  lemma ReadableAfter(c: Config, r: Rcv, len: int)
    requires RcvOk(c, r)
    ensures RcvOk(c, Read(r, len).0)
    ensures var held := Held(r.slots, r.start, r.lastAck);
      var taken := Consume(held, r.notch, len);
      && taken.freed <= |held| && (taken.freed < |held| ==> taken.notch <= |held[taken.freed].data|)
      && Readable(Read(r, len).0) == Unread(held[taken.freed..], taken.notch)
  {
    hide Consume, Unread, Flatten, Held, Above, Covered;
    ReadOk(c, r, len);
    var held := Held(r.slots, r.start, r.lastAck);
    ConsumeBounds(held, r.notch, len);
    HeldAfter(r.slots, r.start, r.lastAck, Consume(held, r.notch, len).freed);
  }

  /** Reading hands out exactly the front of the readable bytes and leaves exactly the rest. */
  lemma ReadTakesPrefix(c: Config, r: Rcv, len: nat)
    requires RcvOk(c, r)
    ensures RcvOk(c, Read(r, len).0)
    ensures Read(r, len).1 + Readable(Read(r, len).0) == Readable(r)
    ensures |Read(r, len).1| == Min(len, |Readable(r)|)
  {
    ReadableAfter(c, r, len);
    ConsumeBytes(Held(r.slots, r.start, r.lastAck), r.notch, len);
  }
}
