/** Message mode on unwrapped sequence numbers: which message a receive call finds, and why it is
    always one whole message that was not handed out before. */
module MessageSpec {
  import opened Options
  import opened Chunks

  /** A slot of the receive buffer; read means handed out but not yet acknowledged (flag 2). */
  datatype Cell = Cell(chunk: Chunk, read: bool)

  datatype MsgRcv = MsgRcv(
    start: int,               // the number at m_iStartPos
    lastAck: int,             // the number at m_iLastAckPos
    maxPos: int,              // m_iMaxPos
    slots: map<int, Cell>)

  predicate Unread(slots: map<int, Cell>, x: int) {
    x in slots && !slots[x].read
  }

  // ---------- scanMsg ----------

  /** From x on to the end of its message, or to the acknowledged position, nothing is missing. */
  predicate Good(slots: map<int, Cell>, x: int, lastAck: int)
    decreases lastAck - x
  {
    x >= lastAck || (Unread(slots, x) && (slots[x].chunk.msgNo.last || Good(slots, x + 1, lastAck)))
  }

  predicate Stops(slots: map<int, Cell>, x: int, lastAck: int) {
    Unread(slots, x) && slots[x].chunk.msgNo.first && Good(slots, x, lastAck)
  }

  /** Slots before the first good message of the acknowledged part are freed. */
  function Skip(r: MsgRcv): (r': MsgRcv)
    ensures r' == r.(start := r'.start, slots := r'.slots)
    ensures r.start <= r.lastAck ==> r.start <= r'.start <= r.lastAck
    decreases r.lastAck - r.start
  {
    if r.start >= r.lastAck || Stops(r.slots, r.start, r.lastAck) then r
    else Skip(r.(start := r.start + 1, slots := r.slots - {r.start}))
  }

  /** Looking ahead, for any contents of the buffer: every slot up to the end of the message that starts at
      x, or up to the acknowledged position, is there and not read. */
  lemma {:induction false} GoodExact(slots: map<int, Cell>, x: int, lastAck: int)
    ensures Good(slots, x, lastAck) <==>
      forall y :: x <= y < lastAck && Continues(slots, x, y) ==> Unread(slots, y)
    decreases lastAck - x
  {
    if x < lastAck {
      assert Continues(slots, x, x);
      if Unread(slots, x) && !slots[x].chunk.msgNo.last {
        GoodExact(slots, x + 1, lastAck);
        forall y | x < y
          ensures Continues(slots, x, y) <==> Continues(slots, x + 1, y)
        {
        }
      } else if Unread(slots, x) {
        forall y | x < y
          ensures !Continues(slots, x, y)
        {
          assert x <= x < y && slots[x].chunk.msgNo.last;
        }
      }
    }
  }

  /** No message ends from x up to, not including, y. */
  predicate Continues(slots: map<int, Cell>, x: int, y: int) {
    forall z {:trigger z in slots} :: x <= z < y ==> !(z in slots && slots[z].chunk.msgNo.last)
  }

  /** Where skipping stops: at the unread first packet of a message that is whole as far as acknowledged. */
  lemma StopsExact(slots: map<int, Cell>, x: int, lastAck: int)
    requires x < lastAck
    ensures Stops(slots, x, lastAck) <==>
      && x in slots && slots[x].chunk.msgNo.first
      && forall y :: x <= y < lastAck && Continues(slots, x, y) ==> y in slots && !slots[y].read
  {
    hide Good;
    GoodExact(slots, x, lastAck);
    assert Continues(slots, x, x);
  }

  /** Skipping, for any contents of the buffer: the slots before the first one where a good message starts,
      or before the acknowledged position, are freed, and no others. */
  lemma {:induction false} SkipExact(r: MsgRcv)
    requires r.start <= r.lastAck
    ensures var k := Skip(r).start;
      && (k == r.lastAck || Stops(r.slots, k, r.lastAck)) && r.start <= k <= r.lastAck
      && (forall y :: r.start <= y < k ==> !Stops(r.slots, y, r.lastAck))
      && (forall y :: y in Skip(r).slots <==> y in r.slots && !(r.start <= y < k))
      && (forall y :: y in Skip(r).slots ==> Skip(r).slots[y] == r.slots[y])
    decreases r.lastAck - r.start
  {
    hide Stops;
    if r.start < r.lastAck && !Stops(r.slots, r.start, r.lastAck) {
      var r1 := r.(start := r.start + 1, slots := r.slots - {r.start});
      SkipExact(r1);
      forall y | r.start < y
        ensures Stops(r1.slots, y, r.lastAck) <==> Stops(r.slots, y, r.lastAck)
      {
        SameStops(r.slots, r1.slots, r.start, y, r.lastAck);
      }
    }
  }

  lemma {:induction false} SameStops(slots: map<int, Cell>, slots': map<int, Cell>, x: int, y: int, lastAck: int)
    requires x < y && slots' == slots - {x}
    ensures Good(slots', y, lastAck) <==> Good(slots, y, lastAck)
    ensures Stops(slots', y, lastAck) <==> Stops(slots, y, lastAck)
    decreases lastAck - y
  {
    if y < lastAck {
      SameStops(slots, slots', x, y + 1, lastAck);
    }
  }

  datatype Found = Nothing(head: Option<int>) | Message(p: int, q: int)

  /** Looks for the first message from x to end that may be handed out; p is its head so far. */
  function Find(slots: map<int, Cell>, x: int, end: int, lastAck: int, p: Option<int>): Found
    decreases end - x
  {
    if x > end then Nothing(p)
    else if !Unread(slots, x) then Find(slots, x + 1, end, lastAck, None)
    else
      var no := slots[x].chunk.msgNo;
      var head := if no.first then Some(x) else p;
      if no.last && head.Some? && (x < lastAck || !no.inOrder) then Message(head.value, x)
      else Find(slots, x + 1, end, lastAck, head)
  }

  /** One round of the search. */
  lemma FindNext(slots: map<int, Cell>, x: int, end: int, lastAck: int, p: Option<int>)
    requires x <= end
    ensures !Unread(slots, x) ==> Find(slots, x, end, lastAck, p) == Find(slots, x + 1, end, lastAck, None)
    ensures Unread(slots, x) ==>
      var no := slots[x].chunk.msgNo;
      var head := if no.first then Some(x) else p;
      Find(slots, x, end, lastAck, p) ==
      if no.last && head.Some? && (x < lastAck || !no.inOrder) then Message(head.value, x)
      else Find(slots, x + 1, end, lastAck, head)
  {
  }

  /** The chunks from p to q. */
  function Pieces(slots: map<int, Cell>, p: int, q: int): seq<Chunk>
    requires forall x {:trigger x in slots} :: p <= x <= q ==> x in slots
    decreases q - p
  {
    if p > q then [] else [slots[p].chunk] + Pieces(slots, p + 1, q)
  }

  /** Slots p to q are marked as read. */
  function MarkRead(slots: map<int, Cell>, p: int, q: int): map<int, Cell> {
    map x | x in slots :: if p <= x <= q then slots[x].(read := true) else slots[x]
  }

  function From(slots: map<int, Cell>, lo: int): map<int, Cell> {
    map x | x in slots && lo <= x :: slots[x]
  }

  lemma MarkMore(slots: map<int, Cell>, p: int, x: int)
    requires p <= x
    ensures MarkRead(MarkRead(slots, p, x - 1), x, x) == MarkRead(slots, p, x)
    ensures MarkRead(slots, p, p - 1) == slots
  {
    var a, b := MarkRead(MarkRead(slots, p, x - 1), x, x), MarkRead(slots, p, x);
    assert a.Keys == b.Keys == slots.Keys;
    var c := MarkRead(slots, p, p - 1);
    assert c.Keys == slots.Keys;
  }

  lemma OthersUnread(before: map<int, Cell>, after: map<int, Cell>, x: int)
    requires after == MarkRead(before, x, x) || after == before - {x}
    ensures forall y :: y != x && Unread(before, y) ==> Unread(after, y) && after[y].chunk == before[y].chunk
  {
  }

  lemma FromMore(slots: map<int, Cell>, x: int)
    ensures From(slots, x) - {x} == From(slots, x + 1)
    ensures (forall y :: y in slots ==> x <= y) ==> From(slots, x) == slots
  {
  }

  lemma PiecesStep(slots: map<int, Cell>, p: int, q: int)
    requires p <= q && Whole(slots, p, q)
    ensures p in slots && Whole(slots, p + 1, q)
    ensures Pieces(slots, p, q)[0] == slots[p].chunk && Pieces(slots, p, q)[1..] == Pieces(slots, p + 1, q)
    ensures |Pieces(slots, p, q)| > 0
  {
    assert p in slots;
  }

  predicate Whole(slots: map<int, Cell>, p: int, q: int) {
    forall x {:trigger x in slots} :: p <= x <= q ==> x in slots
  }

  /** What readMsg hands out and leaves behind, given what was found. */
  function Take(r: MsgRcv, f: Found, len: nat): (res: (MsgRcv, seq<byte>))
    requires f.Message? ==> Whole(r.slots, f.p, f.q)
  {
    if f.Nothing? then (r, [])
    else
      (if f.q < r.lastAck then r.(start := f.q + 1, slots := From(r.slots, f.q + 1))
       else r.(slots := MarkRead(r.slots, f.p, f.q)),
       Cut(Pieces(r.slots, f.p, f.q), len))
  }

  /** The first len bytes of a message. */
  function Cut(chunks: seq<Chunk>, len: nat): (b: seq<byte>)
    ensures |b| <= len
  {
    var all := Flatten(chunks);
    all[..Min(len, |all|)]
  }

  /** Chunk by chunk. */
  lemma CutStep(chunks: seq<Chunk>, len: nat)
    requires |chunks| > 0
    ensures var u := Min(|chunks[0].data|, len); Cut(chunks, len) == chunks[0].data[..u] + Cut(chunks[1..], len - u)
  {
    hide Flatten;
    FlattenStep(chunks);
    var u := Min(|chunks[0].data|, len);
    var rest := Flatten(chunks[1..]);
    if u == len {
      assert rest[..0] == [];
    }
  }

  lemma TakeNothing(r: MsgRcv, f: Found, len: nat)
    ensures f.Nothing? ==> Take(r, f, len) == (r, [])
  {
  }

  function IsEmpty(r: MsgRcv): bool {
    r.start == r.lastAck && r.maxPos == 0
  }

  function Scan(r: MsgRcv): (MsgRcv, Found) {
    if IsEmpty(r) then (r, Nothing(None))
    else
      var s := Skip(r);
      (s, Find(s.slots, s.start, s.lastAck + s.maxPos, s.lastAck, None))
  }

  // ---------- The stream of messages that was sent ----------

  /** first marks the chunks that begin a message, last those that end one. */
  ghost predicate WellFormed(all: seq<Chunk>) {
    && (|all| > 0 ==> all[0].msgNo.first && all[|all| - 1].msgNo.last)
    && (forall i :: 0 < i < |all| ==> (all[i].msgNo.first <==> all[i - 1].msgNo.last))
  }

  /** One whole message: chunks p to q. */
  ghost predicate IsMessage(all: seq<Chunk>, p: int, q: int) {
    && 0 <= p <= q < |all| && all[p].msgNo.first && all[q].msgNo.last
    && forall i :: p <= i < q ==> !all[i].msgNo.last
  }

  /** The first chunk of the message of chunk i. */
  function Head(all: seq<Chunk>, i: nat): (p: nat)
    requires WellFormed(all) && i < |all|
    ensures p <= i && all[p].msgNo.first
    decreases i
  {
    if all[i].msgNo.first then i else Head(all, i - 1)
  }

  /** Between the head and chunk i no message ends and none begins. */
  lemma {:induction false} HeadFacts(all: seq<Chunk>, i: nat)
    requires WellFormed(all) && i < |all|
    ensures forall k :: Head(all, i) <= k < i ==> !all[k].msgNo.last
    ensures forall k :: Head(all, i) < k <= i ==> !all[k].msgNo.first
    decreases i
  {
    if !all[i].msgNo.first {
      HeadFacts(all, i - 1);
    }
  }

  lemma {:induction false} SameHead(all: seq<Chunk>, i: nat, k: nat)
    requires WellFormed(all) && i <= k < |all| && Head(all, k) <= i
    ensures Head(all, i) == Head(all, k)
    decreases k
  {
    if i < k {
      SameHead(all, i, k - 1);
    }
  }

  /** What addBuffer puts into the stream is one message, and messages in a row stay messages. */
  lemma {:induction false} SplitIsMessage(data: seq<byte>, mss: nat, first: bool, inOrder: bool, number: nat)
    requires mss > 0 && |data| > 0
    ensures var s := Split(data, mss, first, inOrder, number);
      && |s| > 0 && s[0].msgNo.first == first && s[|s| - 1].msgNo.last
      && (forall i :: 0 < i < |s| ==> !s[i].msgNo.first) && (forall i :: 0 <= i < |s| - 1 ==> !s[i].msgNo.last)
    decreases |data|
  {
    if |data| > mss {
      SplitIsMessage(data[mss..], mss, false, inOrder, number);
    }
  }

  lemma WellFormedAppend(all: seq<Chunk>, data: seq<byte>, mss: nat, inOrder: bool, number: nat)
    requires WellFormed(all) && mss > 0
    ensures WellFormed(all + Split(data, mss, true, inOrder, number))
  {
    var s := Split(data, mss, true, inOrder, number);
    if |data| == 0 {
      assert all + s == all;
    } else {
      SplitIsMessage(data, mss, true, inOrder, number);
      var more := all + s;
      forall i | 0 < i < |more|
        ensures more[i].msgNo.first <==> more[i - 1].msgNo.last
      {
        if i < |all| {
          assert all[i].msgNo.first <==> all[i - 1].msgNo.last;
        } else if i > |all| {
          assert !s[i - |all|].msgNo.first && !s[i - |all| - 1].msgNo.last;
        }
      }
    }
  }

  // ---------- The invariant ----------

  predicate Sent(all: seq<Chunk>, isn: int, x: int) {
    isn <= x < isn + |all|
  }

  /** The number of the first chunk of the message of x. */
  function HeadOf(all: seq<Chunk>, isn: int, x: int): (p: int)
    requires WellFormed(all) && Sent(all, isn, x)
    ensures isn <= p <= x && all[p - isn].msgNo.first
  {
    isn + Head(all, x - isn)
  }

  /** done holds the heads of the messages handed out so far.  A slot is marked exactly if its
      message is among them, such a message is still there from start on, and every message that
      starts below start is among them. */
  ghost predicate MsgInv(all: seq<Chunk>, isn: int, r: MsgRcv, done: set<int>) {
    && WellFormed(all) && isn <= r.start <= r.lastAck <= isn + |all| && r.maxPos >= -1
    && Filled(all, isn, r)
    && (forall x :: x in r.slots ==> (r.slots[x].read <==> HeadOf(all, isn, x) in done))
    && (forall x {:trigger x in r.slots} :: r.start <= x && Sent(all, isn, x) && HeadOf(all, isn, x) in done ==> x in r.slots)
    && (forall p :: Sent(all, isn, p) && p < r.start && all[p - isn].msgNo.first ==> p in done)
    && (forall p :: p in done ==> Sent(all, isn, p) && all[p - isn].msgNo.first)
  }

  /** The slots hold what was sent, and everything acknowledged. */
  ghost predicate Filled(all: seq<Chunk>, isn: int, r: MsgRcv) {
    && (forall x :: x in r.slots ==> r.start <= x && Sent(all, isn, x) && r.slots[x].chunk == all[x - isn])
    && (forall x {:trigger x in r.slots} :: r.start <= x < r.lastAck ==> x in r.slots)
  }

  lemma AddKeepsInv(all: seq<Chunk>, isn: int, r: MsgRcv, done: set<int>, x: int, maxPos: int)
    requires MsgInv(all, isn, r, done) && r.lastAck <= x && Sent(all, isn, x) && x !in r.slots && maxPos >= -1
    ensures MsgInv(all, isn, r.(slots := r.slots[x := Cell(all[x - isn], false)], maxPos := maxPos), done)
  {
  }

  lemma AckKeepsInv(all: seq<Chunk>, isn: int, r: MsgRcv, done: set<int>, lastAck: int, maxPos: int)
    requires MsgInv(all, isn, r, done) && r.lastAck <= lastAck <= isn + |all| && maxPos >= -1
    requires forall x {:trigger x in r.slots} :: r.lastAck <= x < lastAck ==> x in r.slots
    ensures MsgInv(all, isn, r.(lastAck := lastAck, maxPos := maxPos), done)
  {
  }

  lemma {:induction false} HeadGrows(all: seq<Chunk>, more: seq<Chunk>, i: nat)
    requires WellFormed(all) && WellFormed(all + more) && i < |all|
    ensures Head(all + more, i) == Head(all, i)
    decreases i
  {
    if !all[i].msgNo.first {
      HeadGrows(all, more, i - 1);
    }
  }

  /** Further messages are accepted by the sender. */
  lemma GrowKeepsInv(all: seq<Chunk>, isn: int, r: MsgRcv, done: set<int>, more: seq<Chunk>)
    requires MsgInv(all, isn, r, done) && WellFormed(all + more)
    ensures MsgInv(all + more, isn, r, done)
  {
    hide WellFormed, Head, HeadOf;
    var all' := all + more;
    forall x | Sent(all', isn, x)
      ensures Sent(all, isn, x) ==> all'[x - isn] == all[x - isn] && HeadOf(all', isn, x) == HeadOf(all, isn, x)
      ensures !Sent(all, isn, x) ==> HeadOf(all', isn, x) >= isn + |all|
    {
      HeadInMore(all, isn, more, x);
    }
    forall x {:trigger x in r.slots} | r.start <= x && Sent(all', isn, x) && HeadOf(all', isn, x) in done
      ensures x in r.slots
    {
      assert Sent(all, isn, HeadOf(all', isn, x));
    }
  }

  lemma HeadInMore(all: seq<Chunk>, isn: int, more: seq<Chunk>, x: int)
    requires WellFormed(all) && WellFormed(all + more) && Sent(all + more, isn, x)
    ensures Sent(all, isn, x) ==> HeadOf(all + more, isn, x) == HeadOf(all, isn, x)
    ensures !Sent(all, isn, x) ==> HeadOf(all + more, isn, x) >= isn + |all|
  {
    hide WellFormed, Head;
    if Sent(all, isn, x) {
      HeadGrows(all, more, x - isn);
    } else {
      NewHead(all, more, x - isn);
    }
  }

  lemma {:induction false} NewHead(all: seq<Chunk>, more: seq<Chunk>, i: nat)
    requires WellFormed(all) && WellFormed(all + more) && |all| <= i < |all + more|
    ensures Head(all + more, i) >= |all|
    decreases i
  {
    if i > |all| && !(all + more)[i].msgNo.first {
      NewHead(all, more, i - 1);
    } else if i == |all| && |all| > 0 {
      assert (all + more)[|all| - 1] == all[|all| - 1];
    }
  }

  // ---------- Skipping frees only what was read ----------

  /** The chunk after x, if x does not end its message. */
  lemma NextHead(all: seq<Chunk>, isn: int, x: int)
    requires WellFormed(all) && Sent(all, isn, x) && !all[x - isn].msgNo.last
    ensures Sent(all, isn, x + 1) && HeadOf(all, isn, x + 1) == HeadOf(all, isn, x)
  {
    assert !all[x + 1 - isn].msgNo.first;
  }

  lemma FirstIsHead(all: seq<Chunk>, isn: int, x: int)
    requires WellFormed(all) && Sent(all, isn, x)
    ensures all[x - isn].msgNo.first <==> HeadOf(all, isn, x) == x
  {
  }

  /** An acknowledged slot that is not read is the start of something good. */
  lemma {:induction false} UnreadIsGood(all: seq<Chunk>, isn: int, r: MsgRcv, done: set<int>, x: int)
    requires MsgInv(all, isn, r, done) && r.start <= x <= r.lastAck
    requires x < r.lastAck ==> Unread(r.slots, x)
    ensures Good(r.slots, x, r.lastAck)
    decreases r.lastAck - x
  {
    hide WellFormed, Head, HeadOf;
    if x < r.lastAck && !r.slots[x].chunk.msgNo.last {
      NextHead(all, isn, x);
      assert x + 1 < r.lastAck ==> x + 1 in r.slots;
      UnreadIsGood(all, isn, r, done, x + 1);
    }
  }

  /** The first acknowledged slot is read, or a good message starts there. */
  lemma StartCases(all: seq<Chunk>, isn: int, r: MsgRcv, done: set<int>)
    requires MsgInv(all, isn, r, done) && r.start < r.lastAck
    ensures r.start in r.slots && (r.slots[r.start].read || Stops(r.slots, r.start, r.lastAck))
  {
    hide WellFormed, Head, HeadOf, Good;
    var x := r.start;
    assert x in r.slots;
    if !r.slots[x].read {
      FirstIsHead(all, isn, x);
      UnreadIsGood(all, isn, r, done, x);
    }
  }

  lemma {:induction false} SkipKeepsInv(all: seq<Chunk>, isn: int, r: MsgRcv, done: set<int>)
    requires MsgInv(all, isn, r, done)
    ensures MsgInv(all, isn, Skip(r), done)
    ensures var s := Skip(r); s.start == s.lastAck || Stops(s.slots, s.start, s.lastAck)
    decreases r.lastAck - r.start
  {
    hide MsgInv, Stops;
    InvBounds(all, isn, r, done);
    if r.start < r.lastAck && !Stops(r.slots, r.start, r.lastAck) {
      StartCases(all, isn, r, done);
      SkipOne(all, isn, r, done);
      SkipKeepsInv(all, isn, r.(start := r.start + 1, slots := r.slots - {r.start}), done);
    }
  }

  lemma InvBounds(all: seq<Chunk>, isn: int, r: MsgRcv, done: set<int>)
    requires MsgInv(all, isn, r, done)
    ensures WellFormed(all) && isn <= r.start <= r.lastAck <= isn + |all| && Filled(all, isn, r) && r.maxPos >= -1
  {
  }

  lemma SkipOne(all: seq<Chunk>, isn: int, r: MsgRcv, done: set<int>)
    requires MsgInv(all, isn, r, done) && r.start < r.lastAck && r.start in r.slots && r.slots[r.start].read
    ensures MsgInv(all, isn, r.(start := r.start + 1, slots := r.slots - {r.start}), done)
  {
    hide WellFormed, Head, HeadOf;
    FirstIsHead(all, isn, r.start);
  }

  // ---------- What is found is one whole message that was not read ----------

  /** From its head to x the message is there and has not ended before x - 1. */
  ghost predicate Underway(all: seq<Chunk>, isn: int, slots: map<int, Cell>, p: Option<int>, x: int) {
    p.Some? ==>
      && Sent(all, isn, p.value) && p.value < x && all[p.value - isn].msgNo.first
      && (forall y :: p.value <= y < x ==> Unread(slots, y))
      && (forall y :: p.value <= y < x - 1 ==> Sent(all, isn, y) && !all[y - isn].msgNo.last)
  }

  lemma {:induction false} FindsMessage(all: seq<Chunk>, isn: int, r: MsgRcv, x: int, end: int, p: Option<int>)
    requires WellFormed(all) && Filled(all, isn, r) && Underway(all, isn, r.slots, p, x)
    ensures var f := Find(r.slots, x, end, r.lastAck, p);
      f.Message? ==>
        && IsMessage(all, f.p - isn, f.q - isn) && x <= f.q <= end
        && (forall y :: f.p <= y <= f.q ==> Unread(r.slots, y))
        && (f.q < r.lastAck || !all[f.q - isn].msgNo.inOrder)
    decreases end - x
  {
    hide Find, IsMessage, WellFormed, Underway;
    if x <= end {
      FindNext(r.slots, x, end, r.lastAck, p);
      if !Unread(r.slots, x) {
        NotUnderway(all, isn, r.slots, x + 1);
        FindsMessage(all, isn, r, x + 1, end, None);
      } else {
        var no := r.slots[x].chunk.msgNo;
        var head := if no.first then Some(x) else p;
        assert no == all[x - isn].msgNo;
        UnderwayStep(all, isn, r.slots, p, x);
        if !(no.last && head.Some? && (x < r.lastAck || !no.inOrder)) {
          FindsMessage(all, isn, r, x + 1, end, head);
        }
      }
    } else {
      FindNone(r.slots, x, end, r.lastAck, p);
    }
  }

  lemma FindNone(slots: map<int, Cell>, x: int, end: int, lastAck: int, p: Option<int>)
    requires x > end
    ensures Find(slots, x, end, lastAck, p) == Nothing(p)
  {
  }

  lemma NotUnderway(all: seq<Chunk>, isn: int, slots: map<int, Cell>, x: int)
    ensures Underway(all, isn, slots, None, x)
  {
  }

  lemma UnderwayStep(all: seq<Chunk>, isn: int, slots: map<int, Cell>, p: Option<int>, x: int)
    requires WellFormed(all) && Sent(all, isn, x) && Unread(slots, x) && Underway(all, isn, slots, p, x)
    ensures var no := all[x - isn].msgNo;
      var head := if no.first then Some(x) else p;
      && Underway(all, isn, slots, head, x + 1)
      && (head.Some? && no.last ==>
            IsMessage(all, head.value - isn, x - isn) && forall y :: head.value <= y <= x ==> Unread(slots, y))
  {
    var no := all[x - isn].msgNo;
    if p.Some? && !no.first {
      assert !all[x - 1 - isn].msgNo.last;
      forall i | p.value - isn <= i < x - isn
        ensures !all[i].msgNo.last
      {
        assert Unread(slots, i + isn);
        assert i + isn < x - 1 ==> Sent(all, isn, i + isn) && !all[i + isn - isn].msgNo.last;
      }
    }
  }

  /** A whole message at the front is found. */
  lemma {:induction false} FindsFirst(all: seq<Chunk>, isn: int, r: MsgRcv, p: int, q: int, x: int, end: int)
    requires WellFormed(all) && Filled(all, isn, r) && IsMessage(all, p - isn, q - isn) && p <= x <= q <= end && q < r.lastAck
    requires forall y :: p <= y <= q ==> Unread(r.slots, y)
    ensures Find(r.slots, x, end, r.lastAck, if x == p then None else Some(p)) == Message(p, q)
    decreases q - x
  {
    assert Unread(r.slots, x) && r.slots[x].chunk == all[x - isn];
    if x > p {
      assert !all[x - 1 - isn].msgNo.last;
    }
    if x < q {
      FindsFirst(all, isn, r, p, q, x + 1, end);
    }
  }

  /** The chunks with head p are exactly those of the message that starts at p. */
  lemma MessageHeads(all: seq<Chunk>, isn: int, p: int, q: int, y: int)
    requires WellFormed(all) && IsMessage(all, p - isn, q - isn) && Sent(all, isn, y)
    ensures HeadOf(all, isn, y) == p <==> p <= y <= q
    ensures y > q ==> HeadOf(all, isn, y) > q
  {
    hide Head;
    HeadFacts(all, y - isn);
    var h := Head(all, y - isn);
    if p <= y <= q && h > p - isn {
      PreviousEnds(all, h);
    }
  }

  /** A message that was found can be taken: it was not handed out before, the invariant holds with
      it handed out, and its bytes are those that were sent, as far as there is room. */
  lemma TakeKeepsInv(all: seq<Chunk>, isn: int, s: MsgRcv, done: set<int>, p: int, q: int, len: nat)
    requires MsgInv(all, isn, s, done) && IsMessage(all, p - isn, q - isn)
    requires forall y :: p <= y <= q ==> Unread(s.slots, y)
    requires q < s.lastAck ==> p == s.start
    ensures p !in done && Whole(s.slots, p, q)
    ensures MsgInv(all, isn, Take(s, Message(p, q), len).0, done + {p})
    ensures Take(s, Message(p, q), len).1 == Cut(all[p - isn..q + 1 - isn], len)
  {
    hide MsgInv, HeadOf, WellFormed, Flatten;
    InvBounds(all, isn, s, done);
    assert forall y {:trigger y in s.slots} :: p <= y <= q ==> Unread(s.slots, y);
    NotDone(all, isn, s, done, p, q);
    PiecesAreSent(all, isn, s, p, q);
    if q < s.lastAck {
      FreedKeepsInv(all, isn, s, done, p, q);
    } else {
      MarkedKeepsInv(all, isn, s, done, p, q);
    }
  }

  lemma NotDone(all: seq<Chunk>, isn: int, s: MsgRcv, done: set<int>, p: int, q: int)
    requires MsgInv(all, isn, s, done) && IsMessage(all, p - isn, q - isn) && Unread(s.slots, p)
    ensures p !in done
  {
    hide WellFormed, Head, HeadOf;
    FirstIsHead(all, isn, p);
  }

  lemma FreedKeepsInv(all: seq<Chunk>, isn: int, s: MsgRcv, done: set<int>, p: int, q: int)
    requires MsgInv(all, isn, s, done) && IsMessage(all, p - isn, q - isn) && p == s.start && q < s.lastAck
    ensures MsgInv(all, isn, s.(start := q + 1, slots := From(s.slots, q + 1)), done + {p})
  {
    hide WellFormed, Head, HeadOf, IsMessage;
    forall y | Sent(all, isn, y)
      ensures HeadOf(all, isn, y) == p <==> p <= y <= q
    {
      MessageHeads(all, isn, p, q, y);
    }
    MessageBounds(all, isn, p, q);
    forall y | Sent(all, isn, y) && y < q + 1 && all[y - isn].msgNo.first
      ensures y in done + {p}
    {
      FirstIsHead(all, isn, y);
    }
  }

  lemma MessageBounds(all: seq<Chunk>, isn: int, p: int, q: int)
    requires IsMessage(all, p - isn, q - isn)
    ensures Sent(all, isn, p) && Sent(all, isn, q) && p <= q && all[p - isn].msgNo.first
  {
  }

  lemma MarkedKeepsInv(all: seq<Chunk>, isn: int, s: MsgRcv, done: set<int>, p: int, q: int)
    requires MsgInv(all, isn, s, done) && IsMessage(all, p - isn, q - isn)
    requires forall y :: p <= y <= q ==> Unread(s.slots, y)
    ensures MsgInv(all, isn, s.(slots := MarkRead(s.slots, p, q)), done + {p})
  {
    hide WellFormed, Head, HeadOf, IsMessage, Filled;
    forall y | Sent(all, isn, y)
      ensures HeadOf(all, isn, y) == p <==> p <= y <= q
    {
      MessageHeads(all, isn, p, q, y);
    }
    MarkedStaysFilled(all, isn, s, p, q);
    MessageBounds(all, isn, p, q);
    assert forall y {:trigger y in s.slots} :: p <= y <= q ==> Unread(s.slots, y);
  }

  lemma MarkedStaysFilled(all: seq<Chunk>, isn: int, s: MsgRcv, p: int, q: int)
    requires Filled(all, isn, s)
    ensures Filled(all, isn, s.(slots := MarkRead(s.slots, p, q)))
    ensures forall x :: x in s.slots ==> Sent(all, isn, x)
  {
  }

  lemma PiecesAreSent(all: seq<Chunk>, isn: int, s: MsgRcv, p: int, q: int)
    requires Filled(all, isn, s) && Whole(s.slots, p, q) && isn <= p <= q + 1 && (p <= q ==> Sent(all, isn, q))
    requires p > q ==> p <= isn + |all|
    ensures Pieces(s.slots, p, q) == all[p - isn..q + 1 - isn]
    decreases q - p
  {
    if p <= q {
      assert p in s.slots;
      PiecesAreSent(all, isn, s, p + 1, q);
      assert all[p - isn..q + 1 - isn] == [all[p - isn]] + all[p + 1 - isn..q + 1 - isn];
    }
  }

  /** The last chunk of the message of chunk i. */
  function Tail(all: seq<Chunk>, i: nat): (q: nat)
    requires WellFormed(all) && i < |all|
    ensures i <= q < |all| && all[q].msgNo.last && forall k :: i <= k < q ==> !all[k].msgNo.last
    decreases |all| - i
  {
    if all[i].msgNo.last then i else Tail(all, i + 1)
  }

  lemma {:induction false} TailAtMost(all: seq<Chunk>, i: nat, q: nat)
    requires WellFormed(all) && i <= q < |all| && all[q].msgNo.last
    ensures Tail(all, i) <= q
    decreases q - i
  {
    if !all[i].msgNo.last {
      TailAtMost(all, i + 1, q);
    }
  }

  lemma PreviousEnds(all: seq<Chunk>, i: nat)
    requires WellFormed(all) && 0 < i < |all| && all[i].msgNo.first
    ensures all[i - 1].msgNo.last
  {
  }

  /** If a message starts at the front and ends below the acknowledged position, it is the one. */
  lemma FrontIsFound(all: seq<Chunk>, isn: int, s: MsgRcv, done: set<int>)
    requires MsgInv(all, isn, s, done) && s.start < s.lastAck && Stops(s.slots, s.start, s.lastAck)
    ensures var q := isn + Tail(all, s.start - isn);
      q < s.lastAck ==>
        && IsMessage(all, s.start - isn, q - isn)
        && Find(s.slots, s.start, s.lastAck + s.maxPos, s.lastAck, None) == Message(s.start, q)
  {
    hide Head, HeadOf, Good, Find;
    var p := s.start;
    var q := isn + Tail(all, p - isn);
    if q < s.lastAck {
      assert p in s.slots && IsMessage(all, p - isn, q - isn);
      forall y | p <= y <= q
        ensures Unread(s.slots, y)
      {
        MessageHeads(all, isn, p, q, y);
        FirstIsHead(all, isn, p);
        assert y in s.slots;
      }
      FindsFirst(all, isn, s, p, q, p, s.lastAck + s.maxPos);
    }
  }

  /** A receive call hands out nothing, or one whole message that it had not handed out before, in
      the bytes that were sent; and no message is freed without having been handed out. */
  lemma ReadKeepsInv(all: seq<Chunk>, isn: int, r: MsgRcv, done: set<int>, len: nat)
    requires MsgInv(all, isn, r, done)
    ensures var (s, f) := Scan(r);
      && MsgInv(all, isn, s, done)
      && (f.Message? ==>
            && IsMessage(all, f.p - isn, f.q - isn) && f.p !in done && Whole(s.slots, f.p, f.q)
            && (forall y :: f.p <= y <= f.q ==> Unread(s.slots, y)) && (f.q < s.lastAck ==> f.p == s.start)
            && MsgInv(all, isn, Take(s, f, len).0, done + {f.p})
            && Take(s, f, len).1 == Cut(all[f.p - isn..f.q + 1 - isn], len))
  {
    hide MsgInv, Find, Skip, Take, Flatten, Filled, Stops, IsMessage;
    if !IsEmpty(r) {
      SkipKeepsInv(all, isn, r, done);
      var s := Skip(r);
      InvBounds(all, isn, s, done);
      var end := s.lastAck + s.maxPos;
      FindsMessage(all, isn, s, s.start, end, None);
      var f := Find(s.slots, s.start, end, s.lastAck, None);
      if f.Message? {
        MessageBounds(all, isn, f.p, f.q);
        assert Unread(s.slots, f.p) && f == Message(f.p, f.q);
        if f.q < s.lastAck {
          AckedIsFront(all, isn, s, done, f.p, f.q);
        }
        TakeKeepsInv(all, isn, s, done, f.p, f.q, len);
      }
    }
  }

  /** An acknowledged message that is found starts at the front. */
  lemma AckedIsFront(all: seq<Chunk>, isn: int, s: MsgRcv, done: set<int>, p: int, q: int)
    requires MsgInv(all, isn, s, done) && (s.start == s.lastAck || Stops(s.slots, s.start, s.lastAck))
    requires Find(s.slots, s.start, s.lastAck + s.maxPos, s.lastAck, None) == Message(p, q)
    requires IsMessage(all, p - isn, q - isn) && s.start <= q < s.lastAck && Unread(s.slots, p)
    ensures p == s.start
  {
    hide Head, HeadOf, Good, Find, Stops;
    if p > s.start {
      PreviousEnds(all, p - isn);
      TailAtMost(all, s.start - isn, p - 1 - isn);
    }
    FrontIsFound(all, isn, s, done);
  }

  // ---------- Every message that may be handed out is found ----------

  /** The message of chunks p to q is whole and unread, and it is acknowledged, or was sent without the
      order flag and lies within the largest offset. */
  ghost predicate Available(all: seq<Chunk>, isn: int, r: MsgRcv, p: int, q: int) {
    && IsMessage(all, p - isn, q - isn)
    && (forall y :: p <= y <= q ==> Unread(r.slots, y))
    && (q < r.lastAck || (q <= r.lastAck + r.maxPos && !all[q - isn].msgNo.inOrder))
  }

  /** A held packet is unread exactly if its message was not handed out. */
  lemma UnreadMeans(all: seq<Chunk>, isn: int, r: MsgRcv, done: set<int>, p: int, q: int, x: int)
    requires MsgInv(all, isn, r, done) && IsMessage(all, p - isn, q - isn) && p <= x <= q
    ensures Unread(r.slots, x) <==> x in r.slots && p !in done
  {
    hide WellFormed, Head, HeadOf, IsMessage, Filled;
    MessageBounds(all, isn, p, q);
    MessageInside(all, isn, p, q, x);
    MessageHeads(all, isn, p, q, x);
  }

  lemma MessageInside(all: seq<Chunk>, isn: int, p: int, q: int, x: int)
    requires IsMessage(all, p - isn, q - isn) && p <= x <= q
    ensures Sent(all, isn, x)
  {
  }

  /** Skipping frees no slot that is still to be read. */
  lemma {:induction false} SkipKeepsUnread(all: seq<Chunk>, isn: int, r: MsgRcv, done: set<int>, y: int)
    requires MsgInv(all, isn, r, done)
    ensures Unread(Skip(r).slots, y) <==> Unread(r.slots, y)
    decreases r.lastAck - r.start
  {
    hide MsgInv, Stops;
    InvBounds(all, isn, r, done);
    if r.start < r.lastAck && !Stops(r.slots, r.start, r.lastAck) {
      StartCases(all, isn, r, done);
      SkipOne(all, isn, r, done);
      SkipKeepsUnread(all, isn, r.(start := r.start + 1, slots := r.slots - {r.start}), done, y);
    }
  }

  /** The search stops at the latest where an available message ends. */
  lemma {:induction false} FindsByEnd(all: seq<Chunk>, isn: int, r: MsgRcv, p: int, q: int, x: int, end: int, head: Option<int>)
    requires WellFormed(all) && Filled(all, isn, r) && Available(all, isn, r, p, q) && x <= q <= end
    requires x > p ==> head.Some?
    ensures var f := Find(r.slots, x, end, r.lastAck, head); f.Message? && f.q <= q
    decreases q - x
  {
    FindNext(r.slots, x, end, r.lastAck, head);
    if x >= p {
      assert Unread(r.slots, x) && r.slots[x].chunk == all[x - isn];
    }
    if !Unread(r.slots, x) {
      FindsByEnd(all, isn, r, p, q, x + 1, end, None);
    } else {
      var no := r.slots[x].chunk.msgNo;
      var head' := if no.first then Some(x) else head;
      if !(no.last && head'.Some? && (x < r.lastAck || !no.inOrder)) {
        FindsByEnd(all, isn, r, p, q, x + 1, end, head');
      }
    }
  }

  /** A receive call hands out a message exactly if one is available, unless the buffer counts as empty:
      the code takes it for empty also when all it holds is the packet at the front, unacknowledged.  Of
      several available messages it hands out the one that ends first. */
  lemma ScanExact(all: seq<Chunk>, isn: int, r: MsgRcv, done: set<int>)
    requires MsgInv(all, isn, r, done)
    ensures Scan(r).1.Message? <==> !IsEmpty(r) && exists p, q :: Available(all, isn, r, p, q)
    ensures Scan(r).1.Message? ==>
      && Available(all, isn, r, Scan(r).1.p, Scan(r).1.q)
      && forall p, q :: Available(all, isn, r, p, q) ==> Scan(r).1.q <= q
  {
    hide MsgInv, Find, Skip, Filled, Stops, WellFormed;
    if !IsEmpty(r) {
      var s := Skip(r);
      SkipKeepsInv(all, isn, r, done);
      InvBounds(all, isn, r, done);
      InvBounds(all, isn, s, done);
      forall p, q
        ensures Available(all, isn, r, p, q) <==> Available(all, isn, s, p, q)
      {
        SameAvailable(all, isn, r, done, p, q);
      }
      var end := s.lastAck + s.maxPos;
      FindsMessage(all, isn, s, s.start, end, None);
      var found := Find(s.slots, s.start, end, s.lastAck, None);
      if found.Message? {
        assert Available(all, isn, s, found.p, found.q);
        assert Available(all, isn, r, found.p, found.q);
      }
      forall p, q | Available(all, isn, s, p, q)
        ensures var f := Find(s.slots, s.start, end, s.lastAck, None); f.Message? && f.q <= q
      {
        StartsInside(all, isn, s, p, q);
        FindsByEnd(all, isn, s, p, q, s.start, end, None);
      }
    }
  }

  lemma SameAvailable(all: seq<Chunk>, isn: int, r: MsgRcv, done: set<int>, p: int, q: int)
    requires MsgInv(all, isn, r, done)
    ensures Available(all, isn, r, p, q) <==> Available(all, isn, Skip(r), p, q)
  {
    hide MsgInv, Skip, Unread, IsMessage;
    forall y
      ensures Unread(Skip(r).slots, y) <==> Unread(r.slots, y)
    {
      SkipKeepsUnread(all, isn, r, done, y);
    }
    InsideAll(all, p - isn, q - isn);
  }

  lemma InsideAll(all: seq<Chunk>, p: int, q: int)
    ensures IsMessage(all, p, q) ==> 0 <= q < |all|
  {
  }

  lemma StartsInside(all: seq<Chunk>, isn: int, r: MsgRcv, p: int, q: int)
    requires Filled(all, isn, r) && Available(all, isn, r, p, q)
    ensures r.start <= p <= q
  {
    assert Unread(r.slots, p);
  }

  /** As long as a whole acknowledged message waits, a receive call hands one out. */
  lemma WaitingIsFound(all: seq<Chunk>, isn: int, r: MsgRcv, done: set<int>, p: int, q: int)
    requires MsgInv(all, isn, r, done) && IsMessage(all, p - isn, q - isn) && p !in done && q < r.lastAck
    ensures Scan(r).1.Message?
  {
    hide Head, HeadOf, Find, Stops, Skip, Good;
    assert p >= r.start && !IsEmpty(r);
    SkipKeepsInv(all, isn, r, done);
    var s := Skip(r);
    assert p >= s.start;
    FrontIsFound(all, isn, s, done);
    TailAtMost(all, s.start - isn, q - isn);
  }

  // ---------- Every run ----------

  /** What a receive call handed out: the message of chunks p to q, as far as len reached. */
  datatype Handed = Handed(p: int, q: int, len: nat, bytes: seq<byte>)

  datatype MsgState = MsgState(all: seq<Chunk>, r: MsgRcv, log: seq<Handed>)

  datatype MsgStep =
    | SendMsg(data: seq<byte>, mss: nat, inOrder: bool, number: nat)
    | Arrive(x: int)
    | Acknowledge(lastAck: int)
    | Receive(len: nat)

  function MsgInit(isn: int): MsgState {
    MsgState([], MsgRcv(isn, isn, -1, map[]), [])
  }

  function MaxPosAfter(r: MsgRcv, x: int): int {
    Max(r.maxPos, x - r.lastAck)
  }

  ghost predicate MsgNext(isn: int, st: MsgState, st': MsgState, step: MsgStep) {
    match step
    case SendMsg(data, mss, inOrder, number) =>
      mss > 0 && st' == st.(all := st.all + Split(data, mss, true, inOrder, number))
    case Arrive(x) =>
      && st.r.lastAck <= x && Sent(st.all, isn, x) && x !in st.r.slots
      && st' == st.(r := st.r.(slots := st.r.slots[x := Cell(st.all[x - isn], false)], maxPos := MaxPosAfter(st.r, x)))
    case Acknowledge(lastAck) =>
      && st.r.lastAck <= lastAck <= isn + |st.all|
      && (forall x {:trigger x in st.r.slots} :: st.r.lastAck <= x < lastAck ==> x in st.r.slots)
      && st' == st.(r := st.r.(lastAck := lastAck, maxPos := Max(st.r.maxPos - (lastAck - st.r.lastAck), 0)))
    case Receive(len) =>
      var (s, f) := Scan(st.r);
      if f.Nothing? then st' == st.(r := s)
      else Whole(s.slots, f.p, f.q) ==>
             var (r', bytes) := Take(s, f, len);
             st' == st.(r := r', log := st.log + [Handed(f.p, f.q, len, bytes)])
  }

  ghost function Heads(log: seq<Handed>): set<int> {
    set i | 0 <= i < |log| :: log[i].p
  }

  /** An entry is one whole message in the bytes that were sent. */
  ghost predicate EntryOk(all: seq<Chunk>, isn: int, h: Handed) {
    && IsMessage(all, h.p - isn, h.q - isn)
    && h.bytes == Cut(all[h.p - isn..h.q + 1 - isn], h.len)
  }

  ghost predicate LogOk(all: seq<Chunk>, isn: int, log: seq<Handed>) {
    && (forall i :: 0 <= i < |log| ==> EntryOk(all, isn, log[i]))
    && (forall i, j :: 0 <= i < j < |log| ==> log[i].p != log[j].p)
  }

  ghost predicate MsgStateInv(isn: int, st: MsgState) {
    MsgInv(st.all, isn, st.r, Heads(st.log)) && LogOk(st.all, isn, st.log)
  }

  lemma EntryStaysOk(all: seq<Chunk>, more: seq<Chunk>, isn: int, h: Handed)
    requires EntryOk(all, isn, h)
    ensures EntryOk(all + more, isn, h)
  {
    hide Flatten;
    AppendSlice(all, more, h.p - isn, h.q + 1 - isn);
  }

  lemma ReceiveKeepsInv(isn: int, st: MsgState, st': MsgState, len: nat)
    requires MsgStateInv(isn, st) && MsgNext(isn, st, st', Receive(len))
    ensures MsgStateInv(isn, st')
  {
    hide MsgInv, Scan, Take, EntryOk;
    ReadKeepsInv(st.all, isn, st.r, Heads(st.log), len);
    var (s, f) := Scan(st.r);
    if f.Message? {
      var (r', bytes) := Take(s, f, len);
      var h := Handed(f.p, f.q, len, bytes);
      NewEntry(st.all, isn, h);
      assert Heads(st.log + [h]) == Heads(st.log) + {f.p} by {
        forall x | x in Heads(st.log)
          ensures x in Heads(st.log + [h])
        {
          var i :| 0 <= i < |st.log| && st.log[i].p == x;
          assert (st.log + [h])[i].p == x;
        }
        assert (st.log + [h])[|st.log|].p == f.p;
      }
      assert forall i :: 0 <= i < |st.log| ==> st.log[i].p in Heads(st.log);
    }
  }

  lemma NewEntry(all: seq<Chunk>, isn: int, h: Handed)
    requires IsMessage(all, h.p - isn, h.q - isn)
    requires h.bytes == Cut(all[h.p - isn..h.q + 1 - isn], h.len)
    ensures EntryOk(all, isn, h)
  {
  }

  lemma MsgNextInv(isn: int, st: MsgState, st': MsgState, step: MsgStep)
    requires MsgStateInv(isn, st) && MsgNext(isn, st, st', step)
    ensures MsgStateInv(isn, st')
  {
    hide MsgInv, EntryOk, Split, Scan, Take;
    var done := Heads(st.log);
    InvBounds(st.all, isn, st.r, done);
    match step
    case SendMsg(data, mss, inOrder, number) =>
      var more := Split(data, mss, true, inOrder, number);
      WellFormedAppend(st.all, data, mss, inOrder, number);
      GrowKeepsInv(st.all, isn, st.r, done, more);
      forall i | 0 <= i < |st.log|
        ensures EntryOk(st'.all, isn, st.log[i])
      {
        EntryStaysOk(st.all, more, isn, st.log[i]);
      }
    case Arrive(x) =>
      AddKeepsInv(st.all, isn, st.r, done, x, MaxPosAfter(st.r, x));
    case Acknowledge(lastAck) =>
      AckKeepsInv(st.all, isn, st.r, done, lastAck, Max(st.r.maxPos - (lastAck - st.r.lastAck), 0));
    case Receive(len) =>
      ReceiveKeepsInv(isn, st, st', len);
  }

  ghost predicate MsgFollows(isn: int, st: MsgState, st': MsgState) {
    exists step :: MsgNext(isn, st, st', step)
  }

  ghost predicate MsgRun(isn: int, run: seq<MsgState>) {
    && |run| > 0 && run[0] == MsgInit(isn)
    && forall i {:trigger MsgFollows(isn, run[i], run[i + 1])} | 0 <= i < |run| - 1 :: MsgFollows(isn, run[i], run[i + 1])
  }

  lemma StepOf(isn: int, run: seq<MsgState>, i: nat)
    requires MsgRun(isn, run) && i + 1 < |run|
    ensures MsgFollows(isn, run[i], run[i + 1])
  {
    hide MsgFollows;
  }

  /** In every run every receive call that returns data returns one whole message, cut to the length
      of the caller's buffer, and no message is returned twice. */
  lemma {:induction false} MessagesWholeAndOnce(isn: int, run: seq<MsgState>, i: nat)
    requires MsgRun(isn, run) && i < |run|
    ensures LogOk(run[i].all, isn, run[i].log) && MsgStateInv(isn, run[i])
  {
    if i == 0 {
      assert WellFormed([]);
    } else {
      MessagesWholeAndOnce(isn, run, i - 1);
      StepOf(isn, run, i - 1);
      var step :| MsgNext(isn, run[i - 1], run[i], step);
      MsgNextInv(isn, run[i - 1], run[i], step);
    }
  }

  /** In every run every message that starts below the first kept slot has been returned. */
  lemma NoMessageLost(isn: int, run: seq<MsgState>, i: nat, p: int)
    requires MsgRun(isn, run) && i < |run|
    requires Sent(run[i].all, isn, p) && p < run[i].r.start && run[i].all[p - isn].msgNo.first
    ensures p in Heads(run[i].log)
  {
    MessagesWholeAndOnce(isn, run, i);
  }
}
