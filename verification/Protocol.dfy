/** Both ends of a connection and the network between them, one direction of data.

    The network is the set of everything ever sent.  A step may deliver any member at any time and
    any number of times, or never: packets are dropped, duplicated and reordered at will.  */
module Protocol {
  import opened Options
  import opened Chunks
  import opened SeqNo
  import opened SenderSpec
  import opened ReceiverSpec

  datatype Message =
    | DataMsg(packet: Packet)
    | AckMsg(ack: Ack)
    | LossMsg(losses: seq<Loss>)
    | AckAckMsg(acked: int)

  datatype State = State(
    snd: Snd,
    rcv: Rcv,
    net: set<Message>,
    accepted: seq<Chunk>,     // every chunk send ever took, the first one numbered isn
    sent: seq<byte>,          // every byte send ever took
    delivered: seq<byte>)     // every byte recv ever returned

  datatype Step =
    | SendStep(data: seq<byte>, inOrder: bool)
    | PackStep(cwnd: int)
    | ExpireStep
    | DataStep(packet: Packet)
    | AckStep(lite: bool, quiet: bool)
    | ReportStep(losses: seq<Loss>)
    | RecvStep(len: nat)
    | LiteAckStep(ack: int)
    | FullAckStep(ack: int, avail: int)
    | LossStep(losses: seq<Loss>)
    | AckAckStep(acked: int)

  function Init(c: Config): State {
    State(SndInit(c), RcvInit(c), {}, [], [], [])
  }

  function Gap(out: Option<Loss>): set<Message> {
    if out.Some? then {LossMsg([out.value])} else {}
  }

  function AckOut(out: Ack): set<Message> {
    if out.NoAck? then {} else {AckMsg(out)}
  }

  ghost predicate NearSender(s: Snd, x: int) {
    Near(x, s.lastAck) && Near(x, s.lastDataAck) && Near(x, s.curr + 1) && Near(x, s.curr)
  }

  /** One atomic step.  A message is delivered only while its numbers are near those of the
      party that compares them: the one assumption 31-bit sequence numbers need. */
  ghost predicate Next(c: Config, st: State, st': State, step: Step)
    requires ConfigOk(c) && SndOk(c, st.snd) && RcvOk(c, st.rcv)
  {
    match step
    case SendStep(data, inOrder) =>
      var taken := Accepted(c, st.snd, data);
      var s' := Send(c, st.snd, data, inOrder);
      st' == st.(snd := s', sent := st.sent + taken,
                 accepted := st.accepted + s'.unacked[|st.snd.unacked|..])
    case PackStep(cwnd) =>
      exists out :: PackData(c, st.snd, cwnd, st'.snd, out)
        && st' == st.(snd := st'.snd, net := st.net + if out.Some? then {DataMsg(out.value)} else {})
    case ExpireStep =>
      st' == st.(snd := OnExpire(st.snd))
    case DataStep(p) =>
      && DataMsg(p) in st.net && Near(p.seqno, st.rcv.lastAck)
      && var (r', out) := OnData(c, st.rcv, p.seqno, p.chunk);
      st' == st.(rcv := r', net := st.net + Gap(out))
    case AckStep(lite, quiet) =>
      && Near(st.rcv.lastAckAck, st.rcv.curr + 1)
      && exists out ::
        && SendAck(c, st.rcv, lite, quiet, st'.rcv, out)
        && st' == st.(rcv := st'.rcv, net := st.net + AckOut(out))
    case ReportStep(losses) =>
      LossReport(st.rcv, losses) && st' == st.(net := st.net + {LossMsg(losses)})
    case RecvStep(len) =>
      var (r', bytes) := Read(st.rcv, len);
      st' == st.(rcv := r', delivered := st.delivered + bytes)
    case LiteAckStep(ack) =>
      && AckMsg(LiteAck(ack)) in st.net && NearSender(st.snd, ack)
      && st' == st.(snd := OnLiteAck(st.snd, ack))
    case FullAckStep(ack, avail) =>
      && AckMsg(FullAck(ack, avail)) in st.net && NearSender(st.snd, ack)
      && st' == st.(snd := OnFullAck(st.snd, ack, avail), net := st.net + {AckAckMsg(ack)})
    case LossStep(losses) =>
      && LossMsg(losses) in st.net
      && (forall i | 0 <= i < |losses| ::
            NearSender(st.snd, LossLo(losses[i])) && NearSender(st.snd, LossHi(losses[i])))
      && st' == st.(snd := OnNak(st.snd, losses))
    case AckAckStep(acked) =>
      && AckAckMsg(acked) in st.net && Near(acked, st.rcv.lastAckAck)
      && st' == st.(rcv := OnAckAck(st.rcv, acked))
  }

  /** ack is not beyond the first number the receiver is still missing. */
  ghost predicate Acknowledgeable(r: Rcv, ack: int) {
    ack <= r.curr + 1 && forall x :: x in r.lost ==> ack <= x
  }

  /** What is true of every message that was ever sent, at any later time. */
  ghost predicate MessageOk(c: Config, st: State, m: Message) {
    match m
    case DataMsg(p) =>
      c.isn <= p.seqno <= st.snd.curr && p.seqno - c.isn < |st.accepted|
      && p.chunk == st.accepted[p.seqno - c.isn]
    case AckMsg(NoAck) => true
    case AckMsg(LiteAck(ack)) => c.isn <= ack && Acknowledgeable(st.rcv, ack)
    case AckMsg(FullAck(ack, avail)) =>
      && c.isn <= ack <= st.rcv.lastAck
      && ack + avail <= st.rcv.start + c.rcvBufSize + 1
      && 2 <= avail <= Span(c)
    case LossMsg(losses) =>
      forall i | 0 <= i < |losses| :: c.isn <= LossLo(losses[i]) <= LossHi(losses[i]) <= st.rcv.curr
    case AckAckMsg(acked) => c.isn <= acked <= st.rcv.lastAck
  }

  /** The sender's buffer is the tail of everything accepted. */
  ghost predicate SenderLinked(c: Config, st: State) {
    && st.snd.lastDataAck - c.isn + |st.snd.unacked| == |st.accepted|
    && 0 <= st.snd.lastDataAck - c.isn
    && st.snd.unacked == st.accepted[st.snd.lastDataAck - c.isn..]
  }

  /** What the receiver holds under a number is what was accepted under it. */
  ghost predicate ReceiverLinked(c: Config, st: State) {
    forall x :: x in st.rcv.slots ==>
      0 <= x - c.isn < |st.accepted| && st.rcv.slots[x] == st.accepted[x - c.isn]
  }

  ghost predicate WindowsAgree(c: Config, s: Snd, r: Rcv) {
    && r.curr <= s.curr
    && s.lastDataAck <= r.lastAck
    && Acknowledgeable(r, s.lastAck)
    && s.lastAck + s.window <= r.start + c.rcvBufSize + 1
    && s.curr <= r.start + c.rcvBufSize
  }

  /** Every byte accepted up to the acknowledgement is either returned already or still held. */
  ghost predicate Conserved(all: seq<Chunk>, start: int, lastAck: int, notch: nat, delivered: seq<byte>) {
    && 0 <= start <= lastAck <= |all|
    && (notch == 0 || (start < lastAck && notch < |all[start].data|))
    && delivered + Unread(all[start..lastAck], notch) == Flatten(all[..lastAck])
  }

  ghost predicate BytesConserved(c: Config, st: State) {
    && Conserved(st.accepted, st.rcv.start - c.isn, st.rcv.lastAck - c.isn, st.rcv.notch, st.delivered)
    && Flatten(st.accepted) == st.sent
  }

  ghost predicate Inv(c: Config, st: State) {
    && ConfigOk(c) && SndOk(c, st.snd) && RcvOk(c, st.rcv) && !st.snd.broken
    && SenderLinked(c, st) && ReceiverLinked(c, st) && WindowsAgree(c, st.snd, st.rcv)
    && BytesConserved(c, st)
    && forall m :: m in st.net ==> MessageOk(c, st, m)
  }

  // ---------- What every step lets grow ----------

  ghost predicate Grows(st: State, st': State) {
    && st.snd.curr <= st'.snd.curr
    && st.accepted <= st'.accepted
    && st.rcv.lastAck <= st'.rcv.lastAck
    && st.rcv.start <= st'.rcv.start
    && st.rcv.curr <= st'.rcv.curr
    && (forall x :: x in st'.rcv.lost ==> x in st.rcv.lost || x > st.rcv.curr)
  }

  lemma MessageStaysOk(c: Config, st: State, st': State, m: Message)
    requires MessageOk(c, st, m) && Grows(st, st')
    ensures MessageOk(c, st', m)
  {
  }

  lemma NetStaysOk(c: Config, st: State, st': State)
    requires Grows(st, st')
    requires forall m :: m in st.net ==> MessageOk(c, st, m)
    requires forall m :: m in st'.net ==> m in st.net || MessageOk(c, st', m)
    ensures forall m :: m in st'.net ==> MessageOk(c, st', m)
  {
    forall m | m in st'.net ensures MessageOk(c, st', m) {
      if m in st.net {
        MessageStaysOk(c, st, st', m);
      }
    }
  }

  // ---------- The sender's steps ----------

  lemma SendKeepsInv(c: Config, st: State, st': State, data: seq<byte>, inOrder: bool)
    requires Inv(c, st) && Next(c, st, st', SendStep(data, inOrder))
    ensures Inv(c, st')
  {
    hide RcvOk, Flatten, Unread, MessageOk, Split;
    var taken := Accepted(c, st.snd, data);
    SendOk(c, st.snd, data, inOrder);
    SplitKeepsBytes(taken, c.payloadSize, true, inOrder, st.snd.nextMsgNo);
    var added := st'.snd.unacked[|st.snd.unacked|..];
    AcceptedGrows(c, st, st', added, taken);
    NetStaysOk(c, st, st');
  }

  lemma AcceptedGrows(c: Config, st: State, st': State, added: seq<Chunk>, taken: seq<byte>)
    requires SenderLinked(c, st) && ReceiverLinked(c, st) && BytesConserved(c, st) && Flatten(added) == taken
    requires st'.snd.lastDataAck == st.snd.lastDataAck && st'.rcv == st.rcv && st'.delivered == st.delivered
    requires st'.snd.unacked == st.snd.unacked + added
    requires st'.accepted == st.accepted + added && st'.sent == st.sent + taken
    ensures SenderLinked(c, st') && ReceiverLinked(c, st') && BytesConserved(c, st')
  {
    hide Flatten, Unread;
    AppendDrop(st.accepted, added, st.snd.lastDataAck - c.isn);
    ConservedGrows(st.accepted, added, st.rcv.start - c.isn, st.rcv.lastAck - c.isn, st.rcv.notch, st.delivered);
    FlattenAppend(st.accepted, added);
  }

  lemma ConservedGrows(all: seq<Chunk>, added: seq<Chunk>, start: int, lastAck: int, notch: nat, delivered: seq<byte>)
    requires Conserved(all, start, lastAck, notch, delivered)
    ensures Conserved(all + added, start, lastAck, notch, delivered)
  {
    hide Flatten, Unread;
    AppendTake(all, added, lastAck);
    AppendSlice(all, added, start, lastAck);
  }

  /** A step of the sender that accepts nothing leaves the receiver's side as it was. */
  lemma SenderOnly(c: Config, st: State, st': State)
    requires Inv(c, st) && st' == st.(snd := st'.snd, net := st'.net)
    requires SndOk(c, st'.snd) && !st'.snd.broken && st.snd.curr <= st'.snd.curr
    requires SenderLinked(c, st') && WindowsAgree(c, st'.snd, st'.rcv)
    requires forall m :: m in st'.net ==> m in st.net || MessageOk(c, st', m)
    ensures Inv(c, st')
  {
    hide Conserved, RcvOk, SndOk, SenderLinked, MessageOk;
    NetStaysOk(c, st, st');
  }

  lemma PackAgrees(c: Config, s: Snd, r: Rcv, cwnd: int, s': Snd, out: Option<Packet>)
    requires SndOk(c, s) && PackData(c, s, cwnd, s', out) && WindowsAgree(c, s, r)
    ensures WindowsAgree(c, s', r) && s.curr <= s'.curr
    ensures s' == s.(curr := s'.curr, lost := s'.lost)
  {
  }

  lemma PackKeepsInv(c: Config, st: State, st': State, cwnd: int)
    requires Inv(c, st) && Next(c, st, st', PackStep(cwnd))
    ensures Inv(c, st')
  {
    hide Conserved, RcvOk, ReceiverLinked, WindowsAgree, PackData;
    var out :| PackData(c, st.snd, cwnd, st'.snd, out)
      && st' == st.(snd := st'.snd, net := st.net + if out.Some? then {DataMsg(out.value)} else {});
    PackDataOk(c, st.snd, cwnd, st'.snd, out);
    PackAgrees(c, st.snd, st.rcv, cwnd, st'.snd, out);
    PackedIsAccepted(c, st, st', out);
    SenderOnly(c, st, st');
  }

  lemma PackedIsAccepted(c: Config, st: State, st': State, out: Option<Packet>)
    requires SenderLinked(c, st) && st'.accepted == st.accepted
    requires c.isn <= st.snd.lastDataAck && st'.snd.curr < st.snd.lastDataAck + |st.snd.unacked|
    requires out.Some? ==>
      && st.snd.lastDataAck <= out.value.seqno <= st'.snd.curr
      && out.value.chunk == st.snd.unacked[out.value.seqno - st.snd.lastDataAck]
    ensures out.Some? ==> MessageOk(c, st', DataMsg(out.value))
  {
  }

  lemma ExpireKeepsInv(c: Config, st: State, st': State)
    requires Inv(c, st) && Next(c, st, st', ExpireStep)
    ensures Inv(c, st')
  {
    hide Conserved, RcvOk, ReceiverLinked, SndOk;
    OnExpireOk(c, st.snd);
    SenderOnly(c, st, st');
  }

  lemma LiteAckAgrees(c: Config, s: Snd, r: Rcv, ack: int)
    requires WindowsAgree(c, s, r) && Acknowledgeable(r, ack)
    ensures WindowsAgree(c, OnLiteAck(s, ack), r) && ack <= s.curr + 1
  {
  }

  lemma LiteAckKeepsInv(c: Config, st: State, st': State, ack: int)
    requires Inv(c, st) && Next(c, st, st', LiteAckStep(ack))
    ensures Inv(c, st')
  {
    hide Conserved, RcvOk, ReceiverLinked, WindowsAgree, SndOk;
    assert MessageOk(c, st, AckMsg(LiteAck(ack)));
    LiteAckAgrees(c, st.snd, st.rcv, ack);
    OnLiteAckOk(c, st.snd, ack);
    SenderOnly(c, st, st');
  }

  lemma FullAckAgrees(c: Config, s: Snd, r: Rcv, ack: int, avail: int)
    requires WindowsAgree(c, s, r) && s.curr + 1 <= s.lastDataAck + |s.unacked|
    requires ack <= r.lastAck && ack + avail <= r.start + c.rcvBufSize + 1
    requires r.lastAck <= r.curr + 1 && forall x :: x in r.lost ==> r.lastAck <= x
    ensures ack <= s.curr + 1
    ensures WindowsAgree(c, OnFullAck(s, ack, avail), r)
  {
  }

  lemma FullAckLinked(c: Config, st: State, st': State, ack: int, avail: int)
    requires SenderLinked(c, st) && st.snd.curr + 1 <= st.snd.lastDataAck + |st.snd.unacked|
    requires ack <= st.snd.curr + 1
    requires st'.snd == OnFullAck(st.snd, ack, avail) && st'.accepted == st.accepted
    ensures SenderLinked(c, st')
  {
    if ack > st.snd.lastDataAck {
      DropDrop(st.accepted, st.snd.lastDataAck - c.isn, ack - st.snd.lastDataAck);
    }
  }

  lemma FullAckKeepsInv(c: Config, st: State, st': State, ack: int, avail: int)
    requires Inv(c, st) && Next(c, st, st', FullAckStep(ack, avail))
    ensures Inv(c, st')
  {
    hide Conserved, ReceiverLinked, WindowsAgree;
    assert MessageOk(c, st, AckMsg(FullAck(ack, avail)));
    FullAckAgrees(c, st.snd, st.rcv, ack, avail);
    OnFullAckOk(c, st.snd, ack, avail);
    FullAckLinked(c, st, st', ack, avail);
    assert MessageOk(c, st', AckAckMsg(ack));
    SenderOnly(c, st, st');
  }

  lemma LossKeepsInv(c: Config, st: State, st': State, losses: seq<Loss>)
    requires Inv(c, st) && Next(c, st, st', LossStep(losses))
    ensures Inv(c, st')
  {
    hide Conserved, RcvOk, ReceiverLinked, SndOk;
    assert MessageOk(c, st, LossMsg(losses));
    OnNakOk(c, st.snd, losses);
    HonestNakIsUnion(st.snd, losses);
    SenderOnly(c, st, st');
  }

  // ---------- The receiver's steps ----------

  /** A step of the receiver leaves the sender's side as it was. */
  lemma ReceiverOnly(c: Config, st: State, st': State)
    requires Inv(c, st) && st' == st.(rcv := st'.rcv, net := st'.net, delivered := st'.delivered)
    requires RcvOk(c, st'.rcv) && Grows(st, st')
    requires ReceiverLinked(c, st') && WindowsAgree(c, st'.snd, st'.rcv) && BytesConserved(c, st')
    requires forall m :: m in st'.net ==> m in st.net || MessageOk(c, st', m)
    ensures Inv(c, st')
  {
    hide Conserved, RcvOk, SndOk, ReceiverLinked, MessageOk;
    NetStaysOk(c, st, st');
  }

  lemma DataAgrees(c: Config, s: Snd, r: Rcv, x: int, chunk: Chunk)
    requires WindowsAgree(c, s, r) && x <= s.curr
    ensures WindowsAgree(c, s, OnData(c, r, x, chunk).0)
  {
  }

  lemma DataKeepsInv(c: Config, st: State, st': State, p: Packet)
    requires Inv(c, st) && Next(c, st, st', DataStep(p))
    ensures Inv(c, st')
  {
    hide Conserved, Bounded, Covered, SndOk, WindowsAgree, SenderLinked, Storable;
    assert MessageOk(c, st, DataMsg(p));
    OnDataOk(c, st.rcv, p.seqno, p.chunk);
    DataAgrees(c, st.snd, st.rcv, p.seqno, p.chunk);
    DataGrows(c, st, st', p);
    ReceiverOnly(c, st, st');
  }

  lemma DataGrows(c: Config, st: State, st': State, p: Packet)
    requires RcvOk(c, st.rcv) && MessageOk(c, st, DataMsg(p)) && ReceiverLinked(c, st)
    requires var (r', out) := OnData(c, st.rcv, p.seqno, p.chunk);
      st' == st.(rcv := r', net := st.net + Gap(out))
    ensures Grows(st, st') && ReceiverLinked(c, st')
    ensures forall m :: m in st'.net ==> m in st.net || MessageOk(c, st', m)
  {
    hide Interval, OnData, Covered;
    OnDataMoves(c, st.rcv, p.seqno, p.chunk);
    DataLinked(c, st, st', p);
  }

  /** A packet only adds its own slot, and only gaps below it. */
  lemma OnDataMoves(c: Config, r: Rcv, x: int, chunk: Chunk)
    requires RcvOk(c, r) && c.isn <= x
    ensures var (r', out) := OnData(c, r, x, chunk);
      && r' == r.(slots := r'.slots, lost := r'.lost, curr := r'.curr) && r.curr <= r'.curr
      && (r'.slots == r.slots || r'.slots == r.slots[x := chunk])
      && (forall y :: y in r'.lost ==> y in r.lost || y > r.curr)
      && (out.Some? ==> c.isn <= LossLo(out.value) <= LossHi(out.value) <= r'.curr)
  {
  }

  lemma DataLinked(c: Config, st: State, st': State, p: Packet)
    requires MessageOk(c, st, DataMsg(p)) && ReceiverLinked(c, st) && st'.accepted == st.accepted
    requires st'.rcv.slots == st.rcv.slots || st'.rcv.slots == st.rcv.slots[p.seqno := p.chunk]
    ensures ReceiverLinked(c, st')
  {
  }

  /** What can be read is what was accepted under the acknowledged, unread numbers. */
  lemma ReadableIsUnread(c: Config, st: State)
    requires RcvOk(c, st.rcv) && ReceiverLinked(c, st) && st.rcv.lastAck - c.isn <= |st.accepted|
    ensures st.rcv.notch == 0 ||
      (st.rcv.start < st.rcv.lastAck && st.rcv.notch < |st.accepted[st.rcv.start - c.isn].data|)
    ensures var acc := st.accepted[st.rcv.start - c.isn..st.rcv.lastAck - c.isn];
      (|acc| > 0 ==> st.rcv.notch <= |acc[0].data|) && Readable(st.rcv) == Unread(acc, st.rcv.notch)
  {
    hide Held, Unread, Flatten, Covered;
    var r := st.rcv;
    var held := Held(r.slots, r.start, r.lastAck);
    var acc := st.accepted[r.start - c.isn..r.lastAck - c.isn];
    assert forall i | 0 <= i < |held| :: r.start + i in r.slots && held[i] == acc[i];
    SameItems(held, acc);
  }

  /** An acknowledgement moves lastAck and nothing else. */
  lemma AckMoves(c: Config, r: Rcv, lite: bool, quiet: bool, r': Rcv, out: Ack)
    requires RcvOk(c, r) && SendAck(c, r, lite, quiet, r', out)
    ensures r' == r.(lastAck := r'.lastAck) && r.lastAck <= r'.lastAck
    ensures Acknowledgeable(r, r'.lastAck)
    ensures out.LiteAck? ==> c.isn <= out.ack && Acknowledgeable(r, out.ack)
    ensures out.FullAck? ==>
      && out.ack == r'.lastAck && out.ack + out.avail <= r.start + c.rcvBufSize + 1
      && 2 <= out.avail <= Span(c)
  {
  }

  /** More of the stream is acknowledged, and none of it lost. */
  lemma AckConserves(c: Config, st: State, st': State)
    requires BytesConserved(c, st) && ReceiverLinked(c, st) && RcvOk(c, st'.rcv)
    requires st' == st.(rcv := st.rcv.(lastAck := st'.rcv.lastAck), net := st'.net) && st.rcv.lastAck <= st'.rcv.lastAck
    ensures BytesConserved(c, st')
  {
    hide Covered, Unread, Flatten;
    LastAckIsAccepted(c, st');
    if st.rcv.lastAck < st'.rcv.lastAck {
      ConservedExtends(st.accepted, st.rcv.start - c.isn, st.rcv.lastAck - c.isn, st'.rcv.lastAck - c.isn,
                       st.rcv.notch, st.delivered);
    }
  }

  lemma AckKeepsInv(c: Config, st: State, st': State, lite: bool, quiet: bool)
    requires Inv(c, st) && Next(c, st, st', AckStep(lite, quiet))
    ensures Inv(c, st')
  {
    hide BytesConserved, SenderLinked, SndOk, SendAck, RcvOk;
    var out :| SendAck(c, st.rcv, lite, quiet, st'.rcv, out)
      && st' == st.(rcv := st'.rcv, net := st.net + AckOut(out));
    SendAckOk(c, st.rcv, lite, quiet, st'.rcv, out);
    AckMoves(c, st.rcv, lite, quiet, st'.rcv, out);
    AckConserves(c, st, st');
    ReceiverOnly(c, st, st');
  }

  lemma ConservedExtends(all: seq<Chunk>, start: int, lastAck: int, lastAck': int, notch: nat, delivered: seq<byte>)
    requires Conserved(all, start, lastAck, notch, delivered) && lastAck <= lastAck' <= |all|
    ensures Conserved(all, start, lastAck', notch, delivered)
  {
    UnreadExtends(all, start, lastAck, lastAck', notch);
    FlattenExtends(all, lastAck, lastAck');
    AppendAssoc(delivered, Unread(all[start..lastAck], notch), Flatten(all[lastAck..lastAck']));
  }

  lemma LastAckIsAccepted(c: Config, st: State)
    requires RcvOk(c, st.rcv) && ReceiverLinked(c, st)
    ensures st.rcv.lastAck - c.isn <= |st.accepted| || st.rcv.lastAck == st.rcv.start
  {
    if st.rcv.start < st.rcv.lastAck {
      assert st.rcv.lastAck - 1 in st.rcv.slots;
    }
  }

  lemma FlattenExtends(all: seq<Chunk>, mid: nat, hi: nat)
    requires mid <= hi <= |all|
    ensures Flatten(all[..hi]) == Flatten(all[..mid]) + Flatten(all[mid..hi])
  {
    TakeSplit(all, mid, hi);
    FlattenAppend(all[..mid], all[mid..hi]);
  }

  lemma UnreadExtends(all: seq<Chunk>, lo: nat, mid: nat, hi: nat, notch: nat)
    requires lo <= mid <= hi <= |all|
    requires notch == 0 || (lo < mid && notch < |all[lo].data|)
    ensures Unread(all[lo..hi], notch) == Unread(all[lo..mid], notch) + Flatten(all[mid..hi])
  {
    SliceSplit(all, lo, mid, hi);
    UnreadAppend(all[lo..mid], all[mid..hi], notch);
  }

  lemma UnreadAppend(a: seq<Chunk>, b: seq<Chunk>, notch: nat)
    requires notch == 0 || (|a| > 0 && notch < |a[0].data|)
    ensures Unread(a + b, notch) == Unread(a, notch) + Flatten(b)
  {
    hide Unread, Flatten;
    if |a| == 0 {
      assert a + b == b;
      UnreadWhole(b);
      UnreadWhole(a);
      NoBytes();
    } else {
      TailOfAppend(a, b);
      UnreadStep(a, notch);
      UnreadStep(a + b, notch);
      UnreadWhole(a[1..]);
      UnreadWhole(a[1..] + b);
      FlattenAppend(a[1..], b);
      AppendAssoc(a[0].data[notch..], Flatten(a[1..]), Flatten(b));
    }
  }

  lemma RecvConserves(c: Config, st: State, st': State, len: nat)
    requires RcvOk(c, st.rcv) && ReceiverLinked(c, st) && BytesConserved(c, st)
    requires RcvOk(c, st'.rcv) && ReceiverLinked(c, st')
    requires st' == st.(rcv := Read(st.rcv, len).0, delivered := st.delivered + Read(st.rcv, len).1)
    ensures BytesConserved(c, st')
  {
    hide Covered, ReceiverLinked, Readable, Unread, Flatten;
    ReadTakesPrefix(c, st.rcv, len);
    ReadableIsUnread(c, st);
    ReadableIsUnread(c, st');
    AppendAssoc(st.delivered, Read(st.rcv, len).1, Readable(st'.rcv));
  }

  lemma RecvKeepsInv(c: Config, st: State, st': State, len: nat)
    requires Inv(c, st) && Next(c, st, st', RecvStep(len))
    ensures Inv(c, st')
  {
    hide Conserved, SenderLinked, SndOk, MessageOk;
    ReadOk(c, st.rcv, len);
    RecvConserves(c, st, st', len);
    ReceiverOnly(c, st, st');
  }

  lemma ReportKeepsInv(c: Config, st: State, st': State, losses: seq<Loss>)
    requires Inv(c, st) && Next(c, st, st', ReportStep(losses))
    ensures Inv(c, st')
  {
    hide Conserved, SenderLinked, SndOk;
    forall i | 0 <= i < |losses|
      ensures c.isn <= LossLo(losses[i]) && LossHi(losses[i]) <= st.rcv.curr
    {
      assert LossLo(losses[i]) in Interval(LossLo(losses[i]), LossHi(losses[i]));
      assert LossHi(losses[i]) in Interval(LossLo(losses[i]), LossHi(losses[i]));
    }
    ReceiverOnly(c, st, st');
  }

  lemma AckAckKeepsInv(c: Config, st: State, st': State, acked: int)
    requires Inv(c, st) && Next(c, st, st', AckAckStep(acked))
    ensures Inv(c, st')
  {
    hide Conserved, SenderLinked, SndOk;
    assert MessageOk(c, st, AckAckMsg(acked));
    OnAckAckOk(c, st.rcv, acked);
    ReceiverOnly(c, st, st');
  }

  // ---------- Every run ----------

  lemma InitInv(c: Config)
    requires ConfigOk(c)
    ensures Inv(c, Init(c))
  {
    assert Readable(RcvInit(c)) == [];
  }

  lemma NextInv(c: Config, st: State, st': State, step: Step)
    requires Inv(c, st) && Next(c, st, st', step)
    ensures Inv(c, st')
  {
    match step
    case SendStep(data, inOrder) => SendKeepsInv(c, st, st', data, inOrder);
    case PackStep(cwnd) => PackKeepsInv(c, st, st', cwnd);
    case ExpireStep => ExpireKeepsInv(c, st, st');
    case DataStep(p) => DataKeepsInv(c, st, st', p);
    case AckStep(lite, quiet) => AckKeepsInv(c, st, st', lite, quiet);
    case ReportStep(losses) => ReportKeepsInv(c, st, st', losses);
    case RecvStep(len) => RecvKeepsInv(c, st, st', len);
    case LiteAckStep(ack) => LiteAckKeepsInv(c, st, st', ack);
    case FullAckStep(ack, avail) => FullAckKeepsInv(c, st, st', ack, avail);
    case LossStep(losses) => LossKeepsInv(c, st, st', losses);
    case AckAckStep(acked) => AckAckKeepsInv(c, st, st', acked);
  }

  lemma InvMeansPrefix(c: Config, st: State)
    requires Inv(c, st)
    ensures st.delivered <= st.sent
  {
    hide SndOk, RcvOk, SenderLinked, ReceiverLinked, WindowsAgree, MessageOk, Unread, Flatten;
    var n := st.rcv.lastAck - c.isn;
    FlattenExtends(st.accepted, n, |st.accepted|);
    TakeAll(st.accepted);
    var rest := Unread(st.accepted[st.rcv.start - c.isn..n], st.rcv.notch);
    PrefixOfAppend(st.delivered, rest, Flatten(st.accepted[n..]));
  }

  lemma NothingUnacked(c: Config, st: State)
    requires Inv(c, st) && st.snd.unacked == []
    ensures st.delivered + Readable(st.rcv) == st.sent
  {
    hide ReceiverLinked, MessageOk, Unread, Flatten, Readable, Covered, SndOk;
    TakeAll(st.accepted);
    ReadableIsUnread(c, st);
    LastAckIsAccepted(c, st);
  }

  lemma NextGrows(c: Config, st: State, st': State, step: Step)
    requires Inv(c, st) && Next(c, st, st', step)
    ensures st.net <= st'.net && st.accepted <= st'.accepted && st.delivered <= st'.delivered
  {
    hide Conserved, WindowsAgree, ReceiverLinked, SenderLinked, MessageOk, PackData, SendAck, OnData, Read, OnFullAck, OnNak;
  }

  lemma SameNumberSameChunk(c: Config, st: State, p: Packet, q: Packet)
    requires Inv(c, st) && DataMsg(p) in st.net && DataMsg(q) in st.net && p.seqno == q.seqno
    ensures p == q
  {
    hide SndOk, RcvOk, SenderLinked, ReceiverLinked, WindowsAgree, BytesConserved;
    assert MessageOk(c, st, DataMsg(p)) && MessageOk(c, st, DataMsg(q));
  }

  lemma FreedIsHeld(c: Config, st: State, x: int)
    requires Inv(c, st) && c.isn <= x < st.snd.lastDataAck
    ensures x < st.rcv.start || (x in st.rcv.slots && 0 <= x - c.isn < |st.accepted|
                                 && st.rcv.slots[x] == st.accepted[x - c.isn])
  {
    hide BytesConserved, MessageOk, SndOk, Covered;
    if x >= st.rcv.start {
      assert x in st.rcv.slots;
    }
  }
}
