/** Both endpoints of a connection together with the protocol state they stand for.  Every method
    lets one endpoint run one of its calls; the protocol invariant supplies what the call asks of
    its caller, and the pair takes exactly one step of the protocol. */
module Connection {
  import opened Options
  import opened Chunks
  import opened SeqNo
  import opened NakCodec
  import S = SenderSpec
  import R = ReceiverSpec
  import P = Protocol
  import opened Sender
  import opened Receiver
  import opened UnitQueue

  class CConnection {
    const snd: CSender
    const rcv: CReceiver
    ghost const config: S.Config
    ghost var st: P.State

    /** The endpoints share no storage. */
    ghost predicate Apart() {
      var a, b := snd.lossList, rcv.lossList;
      var mine, theirs: set<object> := {a.data1, a.data2, a.next}, {b.data1, b.data2, b.next, b.prior, rcv.buffer.units};
      mine !! theirs
    }

    ghost predicate Valid()
      reads this, snd, snd.buffer, snd.buffer.repr, snd.lossList, snd.lossList.data1, snd.lossList.data2, snd.lossList.next
      reads rcv, rcv.buffer, rcv.buffer.units, rcv.buffer.held
      reads rcv.lossList, rcv.lossList.data1, rcv.lossList.data2, rcv.lossList.next, rcv.lossList.prior
    {
      && Apart() && snd.Valid() && rcv.Valid() && snd.config == rcv.config == config
      && st.snd == snd.Abs() && st.rcv == rcv.Abs() && P.Inv(config, st)
    }

    constructor (c: S.Config, flightFlagSize: int, pool: CUnitQueue)
      requires S.ConfigOk(c) && c.rcvBufSize <= flightFlagSize <= 0x1000_0000
      ensures Valid() && st == P.Init(c) && config == c
    {
      hide CSender.Valid, CReceiver.Valid, P.Inv, CSender.Abs, CReceiver.Abs;
      P.InitInv(c);
      snd := new CSender(c);
      rcv := new CReceiver(c, flightFlagSize, pool);
      config := c;
      st := P.Init(c);
    }

    /** The protocol state shows the fields of the two objects. */
    lemma SenderFields()
      requires Valid()
      ensures snd.buffer.Valid() && snd.Abs() == st.snd && !snd.broken
      ensures st.snd.lastAck == snd.lastAck && st.snd.lastDataAck == snd.lastDataAck && st.snd.curr == snd.curr
    {
      hide CReceiver.Valid, CReceiver.Abs, P.BytesConserved, P.MessageOk, P.WindowsAgree, R.RcvOk, S.SndOk;
    }

    /** A valid sender has a valid buffer. */
    lemma ValidHasBuffer()
      requires snd.Valid()
      ensures snd.buffer.Valid()
    {
    }

    /** The application sends. */
    method Send(data: seq<byte>) returns (taken: int)
      requires Valid()
      modifies this`st, snd, snd.buffer, snd.buffer.repr
      modifies snd.lossList, snd.lossList.data1, snd.lossList.data2, snd.lossList.next
      ensures Valid() && P.Next(config, old(st), st, P.SendStep(data, false))
      ensures 0 <= taken <= |data| && st.sent == old(st).sent + data[..taken]
    {
      hide CSender.Valid, CReceiver.Valid, CSender.Abs, CReceiver.Abs, S.SndOk, R.RcvOk, P.SenderLinked, P.ReceiverLinked;
      hide P.WindowsAgree, P.BytesConserved, P.MessageOk, S.Send, S.Accepted;
      AcceptedIsPrefix(config, st.snd, data);
      taken := snd.Send(data);
      ghost var s := S.Send(config, st.snd, data, false);
      MoreUnacked(config, st.snd, data, false);
      ghost var was := st;
      st := st.(snd := s, sent := st.sent + S.Accepted(config, st.snd, data),
                accepted := st.accepted + s.unacked[|st.snd.unacked|..]);
      P.NextInv(config, was, st, P.SendStep(data, false));
    }

    /** The application sends a message. */
    method SendMsg(data: seq<byte>, inOrder: bool) returns (taken: int)
      requires Valid() && data != []
      modifies this`st, snd, snd.buffer, snd.buffer.repr
      modifies snd.lossList, snd.lossList.data1, snd.lossList.data2, snd.lossList.next
      ensures Valid()
      ensures taken == |data| <==> S.Accepted(config, old(st).snd, data) == data
      ensures taken == |data| ==> P.Next(config, old(st), st, P.SendStep(data, inOrder))
      ensures taken != |data| ==> st == old(st) && taken <= 0
    {
      hide CSender.Valid, CReceiver.Valid, CSender.Abs, CReceiver.Abs, S.SndOk, R.RcvOk, P.SenderLinked, P.ReceiverLinked;
      hide P.WindowsAgree, P.BytesConserved, P.MessageOk, S.Send, S.Accepted;
      taken := snd.SendMsg(data, inOrder);
      if taken == |data| {
        ghost var s := S.Send(config, st.snd, data, inOrder);
        MoreUnacked(config, st.snd, data, inOrder);
        ghost var was := st;
        st := st.(snd := s, sent := st.sent + S.Accepted(config, st.snd, data),
                  accepted := st.accepted + s.unacked[|st.snd.unacked|..]);
        P.NextInv(config, was, st, P.SendStep(data, inOrder));
      }
    }

    static lemma AcceptedIsPrefix(c: S.Config, s: S.Snd, data: seq<byte>)
      ensures var t := S.Accepted(c, s, data); |t| <= |data| && t == data[..|t|]
    {
    }

    static lemma MoreUnacked(c: S.Config, s: S.Snd, data: seq<byte>, inOrder: bool)
      requires c.payloadSize > 0
      ensures |s.unacked| <= |S.Send(c, s, data, inOrder).unacked|
    {
    }

    /** The sender's turn to transmit; whatever it packs is in the network from now on. */
    method Pack(cwnd: int) returns (seqno: int, chunk: Option<Chunk>, ghost out: Option<S.Packet>)
      requires Valid()
      modifies this`st, snd, snd.buffer, snd.buffer.repr
      modifies snd.lossList, snd.lossList.data1, snd.lossList.data2, snd.lossList.next
      ensures Valid() && P.Next(config, old(st), st, P.PackStep(cwnd))
      ensures S.PackData(config, old(st).snd, cwnd, st.snd, out)
      ensures chunk.Some? <==> out.Some?
      ensures out.Some? ==> seqno == Wrap(out.value.seqno) && chunk.value == out.value.chunk && P.DataMsg(out.value) in st.net
    {
      hide CSender.Valid, CReceiver.Valid, CSender.Abs, CReceiver.Abs, S.SndOk, R.RcvOk, P.SenderLinked, P.ReceiverLinked;
      hide P.WindowsAgree, P.BytesConserved, P.MessageOk, S.PackData, Wrap;
      SenderFields();
      seqno, chunk, out := snd.PackData(cwnd);
      ghost var was := st;
      ValidHasBuffer();
      st := st.(snd := snd.Abs(), net := st.net + if out.Some? then {P.DataMsg(out.value)} else {});
      assert P.Next(config, was, st, P.PackStep(cwnd));
      P.NextInv(config, was, st, P.PackStep(cwnd));
    }

    /** The expiration timer fires. */
    method Expire()
      requires Valid()
      modifies this`st, snd, snd.buffer, snd.buffer.repr
      modifies snd.lossList, snd.lossList.data1, snd.lossList.data2, snd.lossList.next
      ensures Valid() && P.Next(config, old(st), st, P.ExpireStep)
    {
      hide CSender.Valid, CReceiver.Valid, CSender.Abs, CReceiver.Abs, S.SndOk, R.RcvOk, P.SenderLinked, P.ReceiverLinked;
      hide P.WindowsAgree, P.BytesConserved, P.MessageOk, S.OnExpire;
      snd.OnExpire();
      ghost var was := st;
      st := st.(snd := S.OnExpire(st.snd));
      P.NextInv(config, was, st, P.ExpireStep);
    }

    /** A lite acknowledgement arrives. */
    method DeliverLiteAck(ack: int, ghost a: int)
      requires Valid() && ack == Wrap(a)
      requires P.AckMsg(R.LiteAck(a)) in st.net && P.NearSender(st.snd, a)
      modifies this`st, snd, snd.buffer, snd.buffer.repr
      modifies snd.lossList, snd.lossList.data1, snd.lossList.data2, snd.lossList.next
      ensures Valid() && P.Next(config, old(st), st, P.LiteAckStep(a))
    {
      hide CSender.Valid, CReceiver.Valid, CSender.Abs, CReceiver.Abs, S.SndOk, R.RcvOk, P.SenderLinked, P.ReceiverLinked;
      hide P.WindowsAgree, P.BytesConserved, Wrap, S.OnLiteAck;
      SenderFields();
      LiteAckFits(config, st, a);
      snd.OnLiteAck(ack, a);
      ghost var was := st;
      st := st.(snd := S.OnLiteAck(st.snd, a));
      P.NextInv(config, was, st, P.LiteAckStep(a));
    }

    /** The check the code leaves out for a lite acknowledgement: it never exceeds what was sent. */
    static lemma LiteAckFits(c: S.Config, st: P.State, a: int)
      requires P.Inv(c, st) && P.AckMsg(R.LiteAck(a)) in st.net
      ensures 0 <= a <= st.snd.curr + 1
    {
      assert P.MessageOk(c, st, P.AckMsg(R.LiteAck(a)));
    }

    /** A full acknowledgement arrives and is acknowledged in turn. */
    method DeliverFullAck(ack: int, avail: int, ghost a: int)
      requires Valid() && ack == Wrap(a)
      requires P.AckMsg(R.FullAck(a, avail)) in st.net && P.NearSender(st.snd, a)
      modifies this`st, snd, snd.buffer, snd.buffer.repr
      modifies snd.lossList, snd.lossList.data1, snd.lossList.data2, snd.lossList.next
      ensures Valid() && P.Next(config, old(st), st, P.FullAckStep(a, avail)) && !snd.broken
    {
      hide CSender.Valid, CReceiver.Valid, CSender.Abs, CReceiver.Abs, S.SndOk, R.RcvOk, P.SenderLinked, P.ReceiverLinked;
      hide P.WindowsAgree, P.BytesConserved, Wrap, S.OnFullAck;
      SenderFields();
      FullAckFits(config, st, a, avail);
      snd.OnFullAck(ack, avail, a);
      ghost var was := st;
      st := st.(snd := S.OnFullAck(st.snd, a, avail), net := st.net + {P.AckAckMsg(a)});
      P.NextInv(config, was, st, P.FullAckStep(a, avail));
      SenderFields();
    }

    static lemma FullAckFits(c: S.Config, st: P.State, a: int, avail: int)
      requires P.Inv(c, st) && P.AckMsg(R.FullAck(a, avail)) in st.net
      ensures 0 <= a && avail <= S.Span(c) && st.snd.curr + 1 <= st.snd.lastDataAck + |st.snd.unacked|
    {
      hide R.RcvOk, P.BytesConserved;
      assert P.MessageOk(c, st, P.AckMsg(R.FullAck(a, avail)));
    }

    /** A loss report arrives, in its coded form. */
    method DeliverReport(words: seq<int>, ghost losses: seq<S.Loss>)
      requires Valid() && words == Encode(losses) && P.LossMsg(losses) in st.net
      requires forall i | 0 <= i < |losses| ::
        P.NearSender(st.snd, S.LossLo(losses[i])) && P.NearSender(st.snd, S.LossHi(losses[i]))
      modifies this`st, snd, snd.buffer, snd.buffer.repr
      modifies snd.lossList, snd.lossList.data1, snd.lossList.data2, snd.lossList.next
      ensures Valid() && P.Next(config, old(st), st, P.LossStep(losses)) && !snd.broken
    {
      hide CSender.Valid, CReceiver.Valid, CSender.Abs, CReceiver.Abs, S.SndOk, R.RcvOk, P.SenderLinked, P.ReceiverLinked;
      hide P.WindowsAgree, P.BytesConserved, Encode, S.OnNak;
      SenderFields();
      ReportFits(config, st, losses);
      snd.OnLossReport(words, losses);
      ghost var was := st;
      st := st.(snd := S.OnNak(st.snd, losses));
      P.NextInv(config, was, st, P.LossStep(losses));
      SenderFields();
    }

    static lemma ReportFits(c: S.Config, st: P.State, losses: seq<S.Loss>)
      requires P.Inv(c, st) && P.LossMsg(losses) in st.net
      requires forall i | 0 <= i < |losses| ::
        P.NearSender(st.snd, S.LossLo(losses[i])) && P.NearSender(st.snd, S.LossHi(losses[i]))
      ensures forall i | 0 <= i < |losses| ::
        0 <= S.LossLo(losses[i]) <= S.LossHi(losses[i]) && Near(S.LossLo(losses[i]), S.LossHi(losses[i]))
    {
      hide R.RcvOk, S.SndOk, P.BytesConserved;
      assert P.MessageOk(c, st, P.LossMsg(losses));
    }

    /** The protocol state shows the fields of the receiver. */
    lemma ReceiverFields()
      requires Valid()
      ensures rcv.Abs() == st.rcv
      ensures st.rcv.lastAck == rcv.lastAck && st.rcv.lastAckAck == rcv.lastAckAck && st.rcv.curr == rcv.curr
    {
      hide CSender.Valid, CSender.Abs, P.BytesConserved, P.MessageOk, P.WindowsAgree, R.RcvOk, S.SndOk;
    }

    /** The words of the report that is sent at once for a gap. */
    static function GapWords(gap: Option<S.Loss>): seq<int> {
      if gap.Some? then Encode([gap.value]) else []
    }

    /** A data packet arrives, in a free unit of the pool. */
    method DeliverData(unit: CUnit, seqno: int, ghost p: S.Packet) returns (r: int, nak: seq<int>)
      requires Valid() && unit.flag == 0 && unit.chunk == p.chunk && seqno == Wrap(p.seqno)
      requires P.DataMsg(p) in st.net && Near(p.seqno, st.rcv.lastAck)
      modifies this`st, rcv`rcvCurrSeqNo, rcv`curr, rcv.buffer, rcv.buffer.units, unit`flag, rcv.buffer.queue`count
      modifies rcv.lossList, rcv.lossList.data1, rcv.lossList.data2, rcv.lossList.next, rcv.lossList.prior
      ensures Valid() && P.Next(config, old(st), st, P.DataStep(p))
      ensures nak == GapWords(R.OnData(config, old(st).rcv, p.seqno, p.chunk).1)
      ensures r == (if R.Storable(config, old(st).rcv, p.seqno) then 0 else -1)
      ensures r != 0 ==> unit.flag == 0
    {
      hide CSender.Valid, CReceiver.Valid, CSender.Abs, CReceiver.Abs, S.SndOk, R.RcvOk, P.SenderLinked, P.ReceiverLinked;
      hide P.WindowsAgree, P.BytesConserved, Wrap, R.OnData, Encode;
      ReceiverFields();
      DataFits(config, st, p);
      ghost var gap;
      r, nak, gap := rcv.ProcessData(unit, seqno, p.seqno);
      ghost var was := st;
      st := st.(rcv := rcv.Abs(), net := st.net + P.Gap(gap));
      P.NextInv(config, was, st, P.DataStep(p));
    }

    /** A packet arrives: it is put into a free unit of the pool, over whatever that held before, and
        dropped if there is none. */
    method Arrive(seqno: int, chunk: Chunk, ghost p: S.Packet) returns (dropped: bool, r: int, nak: seq<int>)
      requires Valid() && rcv.buffer.queue.Valid() && chunk == p.chunk && seqno == Wrap(p.seqno)
      requires P.DataMsg(p) in st.net && Near(p.seqno, st.rcv.lastAck)
      modifies this`st, rcv`rcvCurrSeqNo, rcv`curr, rcv.buffer, rcv.buffer.units, rcv.buffer.queue
      modifies rcv.lossList, rcv.lossList.data1, rcv.lossList.data2, rcv.lossList.next, rcv.lossList.prior
      modifies set u | u in rcv.buffer.queue.Units()
      ensures Valid() && rcv.buffer.queue.Valid()
      ensures dropped ==> st == old(st) && r == -1 && nak == []
      ensures dropped ==> rcv.buffer.queue.count == TakenUnits(rcv.buffer.queue.Units())
      ensures dropped ==> var q := rcv.buffer.queue; VisitedTaken(old(q.queues), old(q.currQueue), old(q.availUnit))
      ensures !dropped ==> P.Next(config, old(st), st, P.DataStep(p))
      ensures !dropped ==> nak == GapWords(R.OnData(config, old(st).rcv, p.seqno, p.chunk).1)
      ensures !dropped ==> r == (if R.Storable(config, old(st).rcv, p.seqno) then 0 else -1)
    {
      hide CSender.Valid, CReceiver.Valid, CSender.Abs, CReceiver.Abs, S.SndOk, R.RcvOk, P.Inv, P.Next;
      var unit := rcv.buffer.queue.GetNextAvailUnit();
      if unit == null {
        return true, -1, [];
      }
      rcv.FreeUnitIsNew(unit);
      unit.chunk := chunk;
      dropped := false;
      r, nak := DeliverData(unit, seqno, p);
    }

    static lemma DataFits(c: S.Config, st: P.State, p: S.Packet)
      requires P.Inv(c, st) && P.DataMsg(p) in st.net
      ensures 0 <= p.seqno
    {
      assert P.MessageOk(c, st, P.DataMsg(p));
    }

    /** The receiver acknowledges what it holds. */
    method Acknowledge(lite: bool, quiet: bool) returns (out: R.Ack, ghost sent: R.Ack)
      requires Valid() && Near(st.rcv.lastAckAck, st.rcv.curr + 1)
      modifies this`st, rcv`rcvLastAck, rcv`lastAck, rcv.buffer`lastAckPos, rcv.buffer`lastAck, rcv.buffer`maxPos
      ensures Valid() && P.Next(config, old(st), st, P.AckStep(lite, quiet))
      ensures out == CReceiver.WrapAck(sent) && R.SendAck(config, old(st).rcv, lite, quiet, st.rcv, sent)
      ensures st.net == old(st).net + P.AckOut(sent)
    {
      hide CSender.Valid, CReceiver.Valid, CSender.Abs, CReceiver.Abs, S.SndOk, R.RcvOk, P.SenderLinked, P.ReceiverLinked;
      hide P.WindowsAgree, P.BytesConserved, P.MessageOk, R.SendAck;
      ReceiverFields();
      out, sent := rcv.SendAck(lite, quiet);
      ghost var was := st;
      st := st.(rcv := rcv.Abs(), net := st.net + P.AckOut(sent));
      P.NextInv(config, was, st, P.AckStep(lite, quiet));
    }

    /** The receiver reports its losses, as far as they fit into words. */
    method Report(words: array<int>, limit: int, quiet: bool) returns (len: int, ghost report: seq<S.Loss>)
      requires Valid() && limit <= words.Length && Foreign(words)
      modifies this`st, words
      ensures Valid() && P.Next(config, old(st), st, P.ReportStep(report))
      ensures 0 <= len <= words.Length && words[..len] == Encode(report) && P.LossMsg(report) in st.net
      ensures if quiet then report == [] else report == Ordered(rcv.lossList.nodes) || len >= limit - 1
    {
      hide CSender.Valid, CReceiver.Valid, CSender.Abs, CReceiver.Abs, S.SndOk, R.RcvOk, P.SenderLinked, P.ReceiverLinked;
      hide P.WindowsAgree, P.BytesConserved, P.MessageOk, R.LossReport, Encode;
      ReceiverFields();
      len, report := rcv.ReportLosses(words, limit, quiet);
      ghost var was := st;
      st := st.(net := st.net + {P.LossMsg(report)});
      P.NextInv(config, was, st, P.ReportStep(report));
    }

    /** The array is not part of either endpoint. */
    ghost predicate Foreign(words: array<int>) {
      var a, b := snd.lossList, rcv.lossList;
      words !in {a.data1, a.data2, a.next, b.data1, b.data2, b.next, b.prior}
    }

    /** The application receives. */
    method Recv(len: nat) returns (data: seq<byte>)
      requires Valid()
      modifies this`st, rcv.buffer, rcv.buffer.units, rcv.buffer.held`flag, rcv.buffer.queue`count
      ensures Valid() && P.Next(config, old(st), st, P.RecvStep(len))
      ensures st.delivered == old(st).delivered + data && st.delivered <= st.sent
    {
      hide CSender.Valid, CReceiver.Valid, CSender.Abs, CReceiver.Abs, S.SndOk, R.RcvOk, P.SenderLinked, P.ReceiverLinked;
      hide P.WindowsAgree, P.BytesConserved, P.MessageOk, R.Read;
      ReceiverFields();
      data := rcv.Recv(len);
      ghost var was := st;
      st := st.(rcv := rcv.Abs(), delivered := st.delivered + data);
      P.NextInv(config, was, st, P.RecvStep(len));
      P.InvMeansPrefix(config, st);
    }

    /** The peer confirms that it has seen an acknowledgement. */
    method DeliverAckAck(ack: int, ghost a: int)
      requires Valid() && ack == Wrap(a) && P.AckAckMsg(a) in st.net && Near(a, st.rcv.lastAckAck)
      modifies this`st, rcv`rcvLastAckAck, rcv`lastAckAck
      ensures Valid() && P.Next(config, old(st), st, P.AckAckStep(a))
    {
      hide CSender.Valid, CReceiver.Valid, CSender.Abs, CReceiver.Abs, S.SndOk, R.RcvOk, P.SenderLinked, P.ReceiverLinked;
      hide P.WindowsAgree, P.BytesConserved, Wrap, R.OnAckAck;
      ReceiverFields();
      AckAckFits(config, st, a);
      rcv.OnAckAck(ack, a);
      ghost var was := st;
      st := st.(rcv := R.OnAckAck(st.rcv, a));
      P.NextInv(config, was, st, P.AckAckStep(a));
    }

    static lemma AckAckFits(c: S.Config, st: P.State, a: int)
      requires P.Inv(c, st) && P.AckAckMsg(a) in st.net
      ensures 0 <= a <= st.rcv.lastAck
    {
      assert P.MessageOk(c, st, P.AckAckMsg(a));
    }
  }
}
