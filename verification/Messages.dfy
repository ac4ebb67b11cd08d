/** Message mode from end to end: two endpoints over a network that loses, repeats and reorders, where
    one application sends messages and the other receives them. */
module Messages {
  import opened Chunks
  import opened SenderSpec
  import opened ReceiverSpec
  import opened Protocol
  import M = MessageSpec

  /** A connection in message mode.  Its delivered bytes are those below the first kept slot; what
      receive calls really returned is in the log. */
  datatype World = World(
    st: State,
    marked: set<int>,            // slots that were read but not yet acknowledged (flag 2)
    maxPos: int,                 // m_iMaxPos
    log: seq<M.Handed>,          // what every receive call returned
    sent: map<int, seq<byte>>)   // every message sent, by the number of its first packet

  datatype Move =
    | SendMsg(data: seq<byte>, inOrder: bool)
    | RecvMsg(len: nat)
    | Other(step: Step)

  function Cells(slots: map<int, Chunk>, marked: set<int>): map<int, M.Cell> {
    map x | x in slots :: M.Cell(slots[x], x in marked)
  }

  function Contents(cells: map<int, M.Cell>): map<int, Chunk> {
    map x | x in cells :: cells[x].chunk
  }

  function Marked(cells: map<int, M.Cell>): set<int> {
    set x | x in cells && cells[x].read
  }

  /** The receive buffer as readMsg sees it. */
  function View(r: Rcv, marked: set<int>, maxPos: int): M.MsgRcv {
    M.MsgRcv(r.start, r.lastAck, maxPos, Cells(r.slots, marked))
  }

  function Shown(m: World): M.MsgState {
    M.MsgState(m.st.accepted, View(m.st.rcv, m.marked, m.maxPos), m.log)
  }

  function Start(c: Config): World {
    World(Init(c), {}, -1, [], map[])
  }

  /** m_iMaxPos follows arriving packets, stored or not, and acknowledgements. */
  function MaxPosNext(c: Config, r: Rcv, maxPos: int, step: Step, r': Rcv): int {
    match step
    case DataStep(p) =>
      if 0 <= p.seqno - r.lastAck < AvailBufSize(c, r) then Max(maxPos, p.seqno - r.lastAck) else maxPos
    case AckStep(_, _) => if r'.lastAck == r.lastAck then maxPos else Max(maxPos - (r'.lastAck - r.lastAck), 0)
    case _ => maxPos
  }

  /** What a receive call leaves behind. */
  function After(c: Config, m: World, r: M.MsgRcv): World
    requires 0 <= r.start - c.isn <= |m.st.accepted|
  {
    m.(st := m.st.(rcv := m.st.rcv.(start := r.start, slots := Contents(r.slots)),
                   delivered := Flatten(m.st.accepted[..r.start - c.isn])),
       marked := Marked(r.slots))
  }

  /** Outside the invariant anything may follow; EveryRun shows that no run gets there. */
  ghost predicate Moves(c: Config, m: World, m': World, move: Move) {
    WorldInv(c, m) ==>
      match move
      case SendMsg(data, inOrder) =>
        && data != [] && Accepted(c, m.st.snd, data) == data
        && Next(c, m.st, m'.st, SendStep(data, inOrder))
        && m' == m.(st := m'.st, sent := m.sent[c.isn + |m.st.accepted| := data])
      case RecvMsg(len) =>
        Receives(c, m, m', len)
      case Other(step) =>
        && !step.SendStep? && !step.RecvStep? && Next(c, m.st, m'.st, step)
        && m' == m.(st := m'.st, maxPos := MaxPosNext(c, m.st.rcv, m.maxPos, step, m'.st.rcv))
  }

  ghost predicate Receives(c: Config, m: World, m': World, len: nat)
    requires WorldInv(c, m)
  {
    ScanStays(c, m, len);
    var (s, f) := M.Scan(Shown(m).r);
    if f.Nothing? then m' == After(c, m, s)
    else
      var (r, bytes) := M.Take(s, f, len);
      m' == After(c, m, r).(log := m.log + [M.Handed(f.p, f.q, len, bytes)])
  }

  // ---------- The invariant ----------

  /** The message that starts at index i. */
  ghost predicate SentAs(all: seq<Chunk>, i: int, data: seq<byte>) {
    exists k :: Spans(all, i, k, data)
  }

  ghost predicate Spans(all: seq<Chunk>, i: int, k: int, data: seq<byte>) {
    M.IsMessage(all, i, k) && Flatten(all[i..k + 1]) == data
  }

  ghost predicate SentOk(all: seq<Chunk>, isn: int, sent: map<int, seq<byte>>) {
    && (forall p :: p in sent ==> SentAs(all, p - isn, sent[p]))
    && (forall p :: M.Sent(all, isn, p) && all[p - isn].msgNo.first ==> p in sent)
  }

  ghost predicate WorldInv(c: Config, m: World) {
    && Inv(c, m.st) && m.st.rcv.notch == 0 && m.marked <= m.st.rcv.slots.Keys
    && m.st.delivered == Flatten(m.st.accepted[..m.st.rcv.start - c.isn])
    && M.MsgStateInv(c.isn, Shown(m))
    && (forall x :: x in m.st.rcv.slots ==> x - m.st.rcv.lastAck <= m.maxPos)
    && SentOk(m.st.accepted, c.isn, m.sent)
  }

  /** A receive call finds whole messages and stays within what was accepted. */
  lemma ScanStays(c: Config, m: World, len: nat)
    requires WorldInv(c, m)
    ensures var (s, f) := M.Scan(Shown(m).r);
      && 0 <= s.start - c.isn <= |m.st.accepted|
      && (f.Message? ==> M.Whole(s.slots, f.p, f.q) && 0 <= M.Take(s, f, len).0.start - c.isn <= |m.st.accepted|)
  {
    hide Inv, SentOk, M.Scan, M.Take;
    M.ReadKeepsInv(m.st.accepted, c.isn, Shown(m).r, M.Heads(m.log), len);
  }

  // ---------- Receiving ----------

  /** Slots are freed from the front, and the others keep their chunks. */
  ghost predicate Shrinks(r: M.MsgRcv, r': M.MsgRcv) {
    && r'.lastAck == r.lastAck && r'.maxPos == r.maxPos && r.start <= r'.start <= r.lastAck
    && (forall x :: x in r'.slots <==> x in r.slots && x >= r'.start)
    && (forall x :: x in r'.slots ==> r'.slots[x].chunk == r.slots[x].chunk)
  }

  lemma {:induction false} SkipShrinks(r: M.MsgRcv)
    requires r.start <= r.lastAck && forall x :: x in r.slots ==> x >= r.start
    ensures Shrinks(r, M.Skip(r))
    decreases r.lastAck - r.start
  {
    if !(r.start >= r.lastAck || M.Stops(r.slots, r.start, r.lastAck)) {
      SkipShrinks(r.(start := r.start + 1, slots := r.slots - {r.start}));
    }
  }

  lemma ScanShrinks(r: M.MsgRcv)
    requires r.start <= r.lastAck && forall x :: x in r.slots ==> x >= r.start
    ensures Shrinks(r, M.Scan(r).0)
  {
    hide M.Skip, M.Find;
    SkipShrinks(r);
  }

  lemma TakeShrinks(r: M.MsgRcv, s: M.MsgRcv, f: M.Found, len: nat)
    requires Shrinks(r, s) && f.Message? && M.Whole(s.slots, f.p, f.q) && s.start <= f.p <= f.q
    ensures Shrinks(r, M.Take(s, f, len).0)
  {
    hide M.Pieces, M.Cut;
  }

  lemma CellsBack(cells: map<int, M.Cell>)
    ensures Cells(Contents(cells), Marked(cells)) == cells
  {
    var back := Cells(Contents(cells), Marked(cells));
    assert back.Keys == cells.Keys;
    forall x | x in cells
      ensures back[x] == cells[x]
    {
      assert back[x].read <==> x in Marked(cells);
    }
  }

  lemma ContentsAbove(r: Rcv, marked: set<int>, maxPos: int, r': M.MsgRcv)
    requires Shrinks(View(r, marked, maxPos), r')
    ensures Contents(r'.slots) == Above(r.slots, r'.start)
  {
    forall x
      ensures x in Contents(r'.slots) <==> x in Above(r.slots, r'.start)
    {
      assert x in View(r, marked, maxPos).slots <==> x in r.slots;
    }
    assert Contents(r'.slots).Keys == Above(r.slots, r'.start).Keys;
  }

  /** Freeing slots from the front of the acknowledged part keeps the two-party invariant. */
  lemma FreeingKeepsInv(c: Config, st: State, st': State, k: int)
    requires Inv(c, st) && st.rcv.notch == 0 && st.rcv.start <= k <= st.rcv.lastAck && k - c.isn <= |st.accepted|
    requires st' == st.(rcv := st.rcv.(start := k, slots := Above(st.rcv.slots, k)),
                        delivered := Flatten(st.accepted[..k - c.isn]))
    ensures Inv(c, st')
  {
    hide SndOk, MessageOk, BytesConserved, Flatten;
    AboveConserves(c, st, st', k);
    ReceiverOnly(c, st, st');
  }

  lemma AboveConserves(c: Config, st: State, st': State, k: int)
    requires BytesConserved(c, st) && st.rcv.start <= k <= st.rcv.lastAck && c.isn <= k && k - c.isn <= |st.accepted|
    requires st' == st.(rcv := st.rcv.(start := k, notch := 0, slots := Above(st.rcv.slots, k)),
                        delivered := Flatten(st.accepted[..k - c.isn]))
    ensures BytesConserved(c, st')
  {
    hide Flatten, Unread;
    var i, j := k - c.isn, st.rcv.lastAck - c.isn;
    UnreadWhole(st.accepted[i..j]);
    assert st.accepted[..j] == st.accepted[..i] + st.accepted[i..j];
    FlattenAppend(st.accepted[..i], st.accepted[i..j]);
  }

  lemma AfterKeepsInv(c: Config, m: World, r: M.MsgRcv, log: seq<M.Handed>)
    requires WorldInv(c, m) && Shrinks(Shown(m).r, r) && 0 <= r.start - c.isn <= |m.st.accepted|
    requires M.MsgStateInv(c.isn, M.MsgState(m.st.accepted, r, log))
    ensures WorldInv(c, After(c, m, r).(log := log))
  {
    hide SentOk, M.MsgStateInv, Inv, Flatten;
    var m' := After(c, m, r).(log := log);
    ContentsAbove(m.st.rcv, m.marked, m.maxPos, r);
    FreeingKeepsInv(c, m.st, m'.st, r.start);
    CellsBack(r.slots);
  }

  lemma RecvMsgKeepsInv(c: Config, m: World, m': World, len: nat)
    requires WorldInv(c, m) && Receives(c, m, m', len)
    ensures WorldInv(c, m')
  {
    hide SentOk, Inv, Flatten, M.Scan, M.Take, After, M.MsgStateInv, Shrinks;
    ScanStays(c, m, len);
    ReceivedShown(c, m, len);
    var (s, f) := M.Scan(Shown(m).r);
    if f.Nothing? {
      AfterKeepsInv(c, m, s, m.log);
      AfterKeepsLog(c, m, s);
    } else {
      var (r, bytes) := M.Take(s, f, len);
      AfterKeepsInv(c, m, r, m.log + [M.Handed(f.p, f.q, len, bytes)]);
    }
  }

  lemma AfterKeepsLog(c: Config, m: World, r: M.MsgRcv)
    requires 0 <= r.start - c.isn <= |m.st.accepted|
    ensures After(c, m, r).(log := m.log) == After(c, m, r)
  {
  }

  /** What a receive call shows to the next one. */
  lemma ReceivedShown(c: Config, m: World, len: nat)
    requires WorldInv(c, m)
    ensures var (s, f) := M.Scan(Shown(m).r);
      && Shrinks(Shown(m).r, s)
      && (f.Nothing? ==> M.MsgStateInv(c.isn, M.MsgState(m.st.accepted, s, m.log)))
      && (f.Message? ==>
            && M.Whole(s.slots, f.p, f.q)
            && var (r, bytes) := M.Take(s, f, len);
            && Shrinks(Shown(m).r, r)
            && M.MsgStateInv(c.isn, M.MsgState(m.st.accepted, r, m.log + [M.Handed(f.p, f.q, len, bytes)])))
  {
    hide SentOk, Inv, Flatten, M.Scan, M.Take, Shrinks, M.MsgInv, M.LogOk, M.IsMessage;
    var before := Shown(m);
    var (s, f) := M.Scan(before.r);
    InvIsBounded(c, m);
    ScanShrinks(before.r);
    M.ReadKeepsInv(before.all, c.isn, before.r, M.Heads(m.log), len);
    if f.Message? {
      var (r, bytes) := M.Take(s, f, len);
      var log := m.log + [M.Handed(f.p, f.q, len, bytes)];
      FoundInside(before.all, c.isn, s, M.Heads(m.log), f);
      TakeShrinks(before.r, s, f, len);
      M.MsgNextInv(c.isn, before, M.MsgState(before.all, r, log), M.Receive(len));
    }
  }

  lemma InvIsBounded(c: Config, m: World)
    requires WorldInv(c, m)
    ensures var r := Shown(m).r; r.start <= r.lastAck && forall x :: x in r.slots ==> x >= r.start
  {
    hide Inv, SentOk;
  }

  lemma FoundInside(all: seq<Chunk>, isn: int, s: M.MsgRcv, done: set<int>, f: M.Found)
    requires M.MsgInv(all, isn, s, done) && f.Message? && M.IsMessage(all, f.p - isn, f.q - isn)
    requires forall y :: f.p <= y <= f.q ==> M.Unread(s.slots, y)
    ensures s.start <= f.p <= f.q
  {
    assert M.Unread(s.slots, f.p);
  }

  // ---------- Sending, and everything else ----------

  lemma SentGrows(all: seq<Chunk>, isn: int, sent: map<int, seq<byte>>, data: seq<byte>, mss: nat, inOrder: bool, number: nat)
    requires M.WellFormed(all) && SentOk(all, isn, sent) && mss > 0 && data != []
    ensures SentOk(all + Split(data, mss, true, inOrder, number), isn, sent[isn + |all| := data])
  {
    hide Flatten, Split, SentAs, M.WellFormed, M.IsMessage;
    var more := Split(data, mss, true, inOrder, number);
    var all' := all + more;
    M.SplitIsMessage(data, mss, true, inOrder, number);
    NewMessage(all, data, mss, inOrder, number);
    forall p | p in sent
      ensures SentAs(all', p - isn, sent[p]) && p != isn + |all|
    {
      OldMessage(all, more, p - isn, sent[p]);
    }
    OneHead(all, more);
  }

  /** Only the first of the new packets starts a message. */
  lemma OneHead(all: seq<Chunk>, more: seq<Chunk>)
    requires forall i :: 0 < i < |more| ==> !more[i].msgNo.first
    ensures forall i | 0 <= i < |all + more| && (all + more)[i].msgNo.first :: i < |all| ==> all[i].msgNo.first
    ensures forall i | 0 <= i < |all + more| && (all + more)[i].msgNo.first :: i <= |all|
  {
  }

  lemma NewMessage(all: seq<Chunk>, data: seq<byte>, mss: nat, inOrder: bool, number: nat)
    requires mss > 0 && data != []
    ensures SentAs(all + Split(data, mss, true, inOrder, number), |all|, data)
  {
    hide Flatten, Split;
    var more := Split(data, mss, true, inOrder, number);
    var all' := all + more;
    M.SplitIsMessage(data, mss, true, inOrder, number);
    SplitKeepsBytes(data, mss, true, inOrder, number);
    assert all'[|all|..|all| + |more|] == more;
    assert Spans(all', |all|, |all| + |more| - 1, data);
  }

  lemma OldMessage(all: seq<Chunk>, more: seq<Chunk>, i: int, data: seq<byte>)
    requires SentAs(all, i, data)
    ensures SentAs(all + more, i, data) && 0 <= i < |all|
  {
    hide Flatten;
    var k :| Spans(all, i, k, data);
    AppendSlice(all, more, i, k + 1);
    assert Spans(all + more, i, k, data);
  }

  lemma SendMsgKeepsInv(c: Config, m: World, m': World, data: seq<byte>, inOrder: bool)
    requires WorldInv(c, m) && Moves(c, m, m', SendMsg(data, inOrder))
    ensures WorldInv(c, m')
  {
    hide Inv, Flatten, Split, M.MsgStateInv, SentOk;
    var st, st' := m.st, m'.st;
    NextInv(c, st, st', SendStep(data, inOrder));
    WholeIsAppended(c, st, st', data, inOrder);
    M.MsgNextInv(c.isn, Shown(m), Shown(m'), M.SendMsg(data, c.payloadSize, inOrder, st.snd.nextMsgNo));
    WorldIsWellFormed(c, m);
    AppendTake(st.accepted, Split(data, c.payloadSize, true, inOrder, st.snd.nextMsgNo), st.rcv.start - c.isn);
    SentGrows(st.accepted, c.isn, m.sent, data, c.payloadSize, inOrder, st.snd.nextMsgNo);
  }

  lemma WorldIsWellFormed(c: Config, m: World)
    requires WorldInv(c, m)
    ensures M.WellFormed(m.st.accepted)
    ensures c.isn <= m.st.rcv.start <= m.st.rcv.lastAck <= c.isn + |m.st.accepted|
  {
    hide Inv, SentOk;
  }

  lemma WholeIsAppended(c: Config, st: State, st': State, data: seq<byte>, inOrder: bool)
    requires Inv(c, st) && data != [] && Accepted(c, st.snd, data) == data && Next(c, st, st', SendStep(data, inOrder))
    ensures c.payloadSize > 0
    ensures st'.accepted == st.accepted + Split(data, c.payloadSize, true, inOrder, st.snd.nextMsgNo)
    ensures st'.rcv == st.rcv && st'.delivered == st.delivered
  {
    hide Split, Flatten, BytesConserved, MessageOk, RcvOk;
  }

  /** Steps other than sending and receiving leave alone what messages are made of. */
  lemma OtherStays(c: Config, st: State, st': State, step: Step)
    requires Inv(c, st) && Next(c, st, st', step) && !step.SendStep? && !step.RecvStep?
    ensures st'.accepted == st.accepted && st'.delivered == st.delivered
    ensures st'.rcv.start == st.rcv.start && st'.rcv.notch == st.rcv.notch
    ensures !step.DataStep? ==> st'.rcv.slots == st.rcv.slots
    ensures !step.AckStep? ==> st'.rcv.lastAck == st.rcv.lastAck
    ensures st.rcv.lastAck <= st'.rcv.lastAck
    ensures step.DataStep? ==>
      var p := step.packet;
      st'.rcv.slots == if Storable(c, st.rcv, p.seqno) then st.rcv.slots[p.seqno := p.chunk] else st.rcv.slots
  {
    hide BytesConserved, SenderLinked, ReceiverLinked, WindowsAgree, MessageOk, SndOk, Covered, OnNak, OnFullAck;
  }

  /** A packet arrives: stored, or too far, or there already. */
  lemma ArrivalShown(c: Config, m: World, m': World, p: Packet)
    requires WorldInv(c, m) && Moves(c, m, m', Other(DataStep(p)))
    ensures M.MsgStateInv(c.isn, Shown(m')) && m'.marked <= m'.st.rcv.slots.Keys
    ensures forall x :: x in m'.st.rcv.slots ==> x - m'.st.rcv.lastAck <= m'.maxPos
  {
    hide BytesConserved, SenderLinked, ReceiverLinked, WindowsAgree, SndOk, RcvOk, M.MsgStateInv, SentOk, Flatten;
    OtherStays(c, m.st, m'.st, DataStep(p));
    assert MessageOk(c, m.st, DataMsg(p));
    if Storable(c, m.st.rcv, p.seqno) {
      CellStored(m.st.rcv.slots, m.marked, p.seqno, p.chunk);
      M.MsgNextInv(c.isn, Shown(m), Shown(m'), M.Arrive(p.seqno));
    } else {
      assert Shown(m') == Shown(m);
    }
  }

  lemma CellStored(slots: map<int, Chunk>, marked: set<int>, x: int, chunk: Chunk)
    requires marked <= slots.Keys && x !in slots
    ensures Cells(slots[x := chunk], marked) == Cells(slots, marked)[x := M.Cell(chunk, false)]
  {
    assert Cells(slots[x := chunk], marked).Keys == Cells(slots, marked)[x := M.Cell(chunk, false)].Keys;
  }

  lemma AckShown(c: Config, m: World, m': World, lite: bool, quiet: bool)
    requires WorldInv(c, m) && Inv(c, m'.st) && Moves(c, m, m', Other(AckStep(lite, quiet)))
    ensures M.MsgStateInv(c.isn, Shown(m'))
    ensures forall x :: x in m'.st.rcv.slots ==> x - m'.st.rcv.lastAck <= m'.maxPos
  {
    hide SenderLinked, ReceiverLinked, WindowsAgree, SndOk, MessageOk, M.MsgStateInv, SentOk, Flatten, Unread, Covered;
    OtherStays(c, m.st, m'.st, AckStep(lite, quiet));
    if m'.st.rcv.lastAck == m.st.rcv.lastAck {
      assert Shown(m') == Shown(m);
    } else {
      M.MsgNextInv(c.isn, Shown(m), Shown(m'), M.Acknowledge(m'.st.rcv.lastAck));
    }
  }

  lemma OtherKeepsInv(c: Config, m: World, m': World, step: Step)
    requires WorldInv(c, m) && Moves(c, m, m', Other(step))
    ensures WorldInv(c, m')
  {
    hide Inv, Next, Flatten, M.MsgStateInv, SentOk;
    NextInv(c, m.st, m'.st, step);
    OtherStays(c, m.st, m'.st, step);
    if step.DataStep? {
      ArrivalShown(c, m, m', step.packet);
    } else if step.AckStep? {
      AckShown(c, m, m', step.lite, step.quiet);
    } else {
      assert Shown(m') == Shown(m);
    }
  }

  // ---------- Runs ----------

  lemma StartInv(c: Config)
    requires ConfigOk(c)
    ensures WorldInv(c, Start(c))
  {
    hide Inv, M.MsgStateInv, M.MsgRun;
    InitInv(c);
    assert Cells(map[], {}) == map[];
    StartShown(c.isn);
  }

  lemma StartShown(isn: nat)
    ensures M.MsgStateInv(isn, M.MsgInit(isn))
  {
    hide M.MsgStateInv;
    M.MessagesWholeAndOnce(isn, [M.MsgInit(isn)], 0);
  }

  lemma MoveKeepsInv(c: Config, m: World, m': World, move: Move)
    requires WorldInv(c, m) && Moves(c, m, m', move)
    ensures WorldInv(c, m')
  {
    match move
    case SendMsg(data, inOrder) => SendMsgKeepsInv(c, m, m', data, inOrder);
    case RecvMsg(len) => RecvMsgKeepsInv(c, m, m', len);
    case Other(step) => OtherKeepsInv(c, m, m', step);
  }

  ghost predicate Follows(c: Config, m: World, m': World) {
    exists move :: Moves(c, m, m', move)
  }

  ghost predicate Run(c: Config, run: seq<World>) {
    && |run| > 0 && run[0] == Start(c)
    && forall i {:trigger Follows(c, run[i], run[i + 1])} | 0 <= i < |run| - 1 :: Follows(c, run[i], run[i + 1])
  }

  lemma StepOf(c: Config, run: seq<World>, i: nat)
    requires Run(c, run) && i + 1 < |run|
    ensures Follows(c, run[i], run[i + 1])
  {
    hide Follows;
  }

  lemma {:induction false} EveryRun(c: Config, run: seq<World>, i: nat)
    requires ConfigOk(c) && Run(c, run) && i < |run|
    ensures WorldInv(c, run[i])
  {
    hide WorldInv, Moves;
    if i == 0 {
      StartInv(c);
    } else {
      EveryRun(c, run, i - 1);
      StepOf(c, run, i - 1);
      var move :| Moves(c, run[i - 1], run[i], move);
      MoveKeepsInv(c, run[i - 1], run[i], move);
    }
  }

  /** What a receive call returned is one message that was sent, cut to the caller's length. */
  ghost predicate IsSent(sent: map<int, seq<byte>>, h: M.Handed) {
    h.p in sent && h.bytes == sent[h.p][..Min(h.len, |sent[h.p]|)]
  }

  lemma EntryIsSent(all: seq<Chunk>, isn: int, sent: map<int, seq<byte>>, h: M.Handed)
    requires SentOk(all, isn, sent) && M.EntryOk(all, isn, h)
    ensures IsSent(sent, h)
  {
    hide Flatten, M.IsMessage, SentAs;
    HeadIsSent(all, h.p - isn, h.q - isn);
    assert M.Sent(all, isn, h.p);
    var k := SameSpan(all, h.p - isn, h.q - isn, sent[h.p]);
  }

  lemma HeadIsSent(all: seq<Chunk>, i: int, j: int)
    requires M.IsMessage(all, i, j)
    ensures 0 <= i < |all| && all[i].msgNo.first
  {
  }

  /** A message ends in one place. */
  lemma SameSpan(all: seq<Chunk>, i: int, j: int, data: seq<byte>) returns (k: int)
    requires M.IsMessage(all, i, j) && SentAs(all, i, data)
    ensures 0 <= i <= j < |all| && Flatten(all[i..j + 1]) == data
  {
    hide Flatten;
    k :| Spans(all, i, k, data);
    assert k == j;
  }

  /** In every run of two parties over any such network, every receive call that returns data returns
      one message that was sent, whole or cut to the caller's length, and none is returned twice. */
  lemma MessagesArriveOnce(c: Config, run: seq<World>, i: nat)
    requires ConfigOk(c) && Run(c, run) && i < |run|
    ensures forall k :: 0 <= k < |run[i].log| ==> IsSent(run[i].sent, run[i].log[k])
    ensures forall j, k :: 0 <= j < k < |run[i].log| ==> run[i].log[j].p != run[i].log[k].p
    ensures !run[i].st.snd.broken
  {
    hide SentOk, IsSent, M.EntryOk, M.MsgInv, SenderLinked, ReceiverLinked, WindowsAgree, BytesConserved, MessageOk;
    EveryRun(c, run, i);
    var m := run[i];
    forall k | 0 <= k < |m.log|
      ensures IsSent(m.sent, m.log[k])
    {
      EntryIsSent(m.st.accepted, c.isn, m.sent, m.log[k]);
    }
  }

  /** Once the sender's buffer is empty and the receiver holds nothing, every message that was sent
      has been returned. */
  lemma AllMessagesArrive(c: Config, run: seq<World>, i: nat, p: int)
    requires ConfigOk(c) && Run(c, run) && i < |run|
    requires run[i].st.snd.unacked == [] && run[i].st.rcv.slots == map[] && p in run[i].sent
    ensures p in M.Heads(run[i].log)
  {
    hide SentOk, M.LogOk, ReceiverLinked, MessageOk, Flatten;
    EveryRun(c, run, i);
    var m := run[i];
    MessageStarts(m.st.accepted, c.isn, m.sent, p);
    AllHandedOut(c, m);
  }

  lemma MessageStarts(all: seq<Chunk>, isn: int, sent: map<int, seq<byte>>, p: int)
    requires SentOk(all, isn, sent) && p in sent
    ensures M.Sent(all, isn, p) && all[p - isn].msgNo.first
  {
    hide Flatten;
    assert SentAs(all, p - isn, sent[p]);
  }

  lemma FrontHeld(c: Config, r: Rcv)
    requires RcvOk(c, r) && r.start < r.lastAck
    ensures r.start in r.slots
  {
  }

  lemma AllHandedOut(c: Config, m: World)
    requires WorldInv(c, m) && m.st.snd.unacked == [] && m.st.rcv.slots == map[]
    ensures m.st.rcv.start == c.isn + |m.st.accepted|
  {
    hide SentOk, M.MsgStateInv, ReceiverLinked, MessageOk, BytesConserved, Covered;
    if m.st.rcv.start < m.st.rcv.lastAck {
      FrontHeld(c, m.st.rcv);
    }
  }

  // ---------- When a receive call returns a message ----------

  /** The largest offset follows the largest number received; once something was acknowledged it is
      never below 0. */
  ghost predicate MaxPosIs(c: Config, m: World) {
    var r := m.st.rcv;
    m.maxPos == if r.lastAck == c.isn then r.curr - r.lastAck else Max(r.curr - r.lastAck, 0)
  }

  lemma {:induction false} MaxPosExact(c: Config, run: seq<World>, i: nat)
    requires ConfigOk(c) && Run(c, run) && i < |run|
    ensures MaxPosIs(c, run[i])
  {
    hide WorldInv, Moves;
    if i > 0 {
      MaxPosExact(c, run, i - 1);
      EveryRun(c, run, i - 1);
      StepOf(c, run, i - 1);
      var move :| Moves(c, run[i - 1], run[i], move);
      MaxPosMoves(c, run[i - 1], run[i], move);
    }
  }

  lemma MaxPosMoves(c: Config, m: World, m': World, move: Move)
    requires WorldInv(c, m) && MaxPosIs(c, m) && Moves(c, m, m', move)
    ensures MaxPosIs(c, m')
  {
    hide SentOk, M.MsgStateInv, Inv, Next, Receives;
    match move
    case SendMsg(data, inOrder) => SendLeavesReceiver(c, m.st, m'.st, data, inOrder);
    case RecvMsg(len) => ReceiveLeavesPos(c, m, m', len);
    case Other(step) => PosFollows(c, m.st, m'.st, step);
  }

  lemma SendLeavesReceiver(c: Config, st: State, st': State, data: seq<byte>, inOrder: bool)
    requires Inv(c, st) && Next(c, st, st', SendStep(data, inOrder))
    ensures st'.rcv == st.rcv
  {
    hide SenderLinked, ReceiverLinked, BytesConserved, WindowsAgree, MessageOk, SndOk, RcvOk;
  }

  lemma ReceiveLeavesPos(c: Config, m: World, m': World, len: nat)
    requires WorldInv(c, m) && Receives(c, m, m', len)
    ensures m'.maxPos == m.maxPos && m'.st.rcv.lastAck == m.st.rcv.lastAck && m'.st.rcv.curr == m.st.rcv.curr
    ensures m'.st.accepted == m.st.accepted && m'.sent == m.sent
  {
    hide WorldInv, M.Scan, M.Take;
  }

  lemma PosFollows(c: Config, st: State, st': State, step: Step)
    requires Inv(c, st) && Next(c, st, st', step) && !step.SendStep? && !step.RecvStep?
    ensures st.rcv.lastAck <= st.rcv.curr + 1 && c.isn <= st.rcv.lastAck <= st'.rcv.lastAck
    ensures !step.AckStep? ==> st'.rcv.lastAck == st.rcv.lastAck
    ensures st'.rcv.curr == if step.DataStep? && 0 <= step.packet.seqno - st.rcv.lastAck < AvailBufSize(c, st.rcv)
      then Max(st.rcv.curr, step.packet.seqno) else st.rcv.curr
  {
    hide SenderLinked, ReceiverLinked, BytesConserved, WindowsAgree, MessageOk, SndOk, Covered, Send, OnNak, OnFullAck;
  }

  /** The whole message of packets p to q has arrived and was not returned yet, and it is acknowledged or
      was sent without the order flag. */
  ghost predicate Waits(c: Config, m: World, p: int, q: int) {
    && M.IsMessage(m.st.accepted, p - c.isn, q - c.isn) && p !in M.Heads(m.log)
    && (forall x :: p <= x <= q ==> x in m.st.rcv.slots)
    && (q < m.st.rcv.lastAck || !m.st.accepted[q - c.isn].msgNo.inOrder)
  }

  lemma WaitsIsAvailable(c: Config, m: World, p: int, q: int)
    requires WorldInv(c, m)
    ensures Waits(c, m, p, q) <==> M.Available(m.st.accepted, c.isn, Shown(m).r, p, q)
  {
    hide WorldInv, M.MsgInv, M.IsMessage, M.Unread;
    ShownInv(c, m);
    if M.IsMessage(m.st.accepted, p - c.isn, q - c.isn) {
      forall x | p <= x <= q
        ensures M.Unread(Shown(m).r.slots, x) <==> x in m.st.rcv.slots && p !in M.Heads(m.log)
      {
        M.UnreadMeans(m.st.accepted, c.isn, Shown(m).r, M.Heads(m.log), p, q, x);
      }
      SpanIsUp(m.st.accepted, p - c.isn, q - c.isn);
      AllUnread(Shown(m).r.slots, m.st.rcv.slots, p, q, p !in M.Heads(m.log));
      HeldIsInside(c, m, q);
    }
  }

  lemma AllUnread(cells: map<int, M.Cell>, slots: map<int, Chunk>, p: int, q: int, unseen: bool)
    requires p <= q && forall x :: p <= x <= q ==> (M.Unread(cells, x) <==> x in slots && unseen)
    ensures (forall x :: p <= x <= q ==> M.Unread(cells, x)) <==> unseen && forall x :: p <= x <= q ==> x in slots
    ensures (forall x :: p <= x <= q ==> x in slots) ==> q in slots
  {
    hide M.Unread;
    if forall x :: p <= x <= q ==> M.Unread(cells, x) {
      assert M.Unread(cells, p);
    }
  }

  lemma HeldIsInside(c: Config, m: World, q: int)
    requires WorldInv(c, m)
    ensures q in m.st.rcv.slots ==> q <= m.st.rcv.lastAck + m.maxPos
  {
    hide Inv, SentOk, M.MsgStateInv;
  }

  /** All the buffer holds is one packet at its front, not acknowledged yet. */
  ghost predicate OnlyFront(r: Rcv) {
    r.start == r.lastAck == r.curr
  }

  /** In every run a receive call returns a message exactly if one waits, acknowledged or allowed out of
      order, except that the code takes a buffer with a single unacknowledged packet for empty.  Of several
      waiting messages it returns the one that ends first, and frees everything up to its end if it is
      acknowledged. */
  lemma ReceiveExact(c: Config, run: seq<World>, i: nat, m': World, len: nat)
    requires ConfigOk(c) && Run(c, run) && i < |run| && Moves(c, run[i], m', RecvMsg(len))
    ensures m'.log == run[i].log <==> OnlyFront(run[i].st.rcv) || !exists p, q :: Waits(c, run[i], p, q)
    ensures m'.log != run[i].log ==> |m'.log| == |run[i].log| + 1 && m'.log[..|run[i].log|] == run[i].log
    ensures m'.log != run[i].log ==>
      var h := m'.log[|run[i].log|];
      && Waits(c, run[i], h.p, h.q) && (forall p, q :: Waits(c, run[i], p, q) ==> h.q <= q)
      && (h.q < run[i].st.rcv.lastAck ==> m'.st.rcv.start == h.q + 1)
  {
    hide WorldInv, M.Scan, M.Take, Waits, M.Available;
    var m := run[i];
    EveryRun(c, run, i);
    MaxPosExact(c, run, i);
    forall p, q
      ensures Waits(c, m, p, q) <==> M.Available(m.st.accepted, c.isn, Shown(m).r, p, q)
    {
      WaitsIsAvailable(c, m, p, q);
    }
    ShownInv(c, m);
    ScanStays(c, m, len);
    M.ScanExact(m.st.accepted, c.isn, Shown(m).r, M.Heads(m.log));
    EmptyMeans(c, m);
    InvIsBounded(c, m);
    ScanShrinks(Shown(m).r);
    var f := M.Scan(Shown(m).r).1;
    if f.Message? {
      TakenStart(M.Scan(Shown(m).r).0, f, len);
      LogGrows(m.log, M.Handed(f.p, f.q, len, M.Take(M.Scan(Shown(m).r).0, f, len).1));
    }
  }

  lemma LogGrows(log: seq<M.Handed>, h: M.Handed)
    ensures log + [h] != log && (log + [h])[..|log|] == log && (log + [h])[|log|] == h
  {
    assert |log + [h]| == |log| + 1;
  }

  lemma ShownInv(c: Config, m: World)
    requires WorldInv(c, m)
    ensures M.MsgInv(m.st.accepted, c.isn, Shown(m).r, M.Heads(m.log))
  {
    hide Inv, SentOk;
  }

  lemma TakenStart(s: M.MsgRcv, f: M.Found, len: nat)
    requires f.Message? && M.Whole(s.slots, f.p, f.q)
    ensures f.q < s.lastAck ==> M.Take(s, f, len).0.start == f.q + 1
  {
  }

  /** The test for an empty buffer, in terms of what was received. */
  lemma EmptyMeans(c: Config, m: World)
    requires WorldInv(c, m) && MaxPosIs(c, m)
    ensures OnlyFront(m.st.rcv) ==> M.IsEmpty(Shown(m).r)
    ensures M.IsEmpty(Shown(m).r) && !OnlyFront(m.st.rcv) ==> forall p, q :: !Waits(c, m, p, q)
  {
    hide SentOk, M.MsgStateInv, SenderLinked, ReceiverLinked, BytesConserved, WindowsAgree, MessageOk, SndOk, Covered;
    if M.IsEmpty(Shown(m).r) && !OnlyFront(m.st.rcv) {
      forall p, q
        ensures !Waits(c, m, p, q)
      {
        assert p !in m.st.rcv.slots;
        SpanIsUp(m.st.accepted, p - c.isn, q - c.isn);
      }
    }
  }

  lemma SpanIsUp(all: seq<Chunk>, p: int, q: int)
    ensures M.IsMessage(all, p, q) ==> p <= q
  {
  }
}
