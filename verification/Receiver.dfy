/** The receiving half of CUDT: wrapped counters, the receive buffer and the loss list.  Every
    method does to its unwrapped state exactly what ReceiverSpec says. */
module Receiver {
  import opened Options
  import opened Chunks
  import opened SeqNo
  import opened LossNodes
  import opened NakCodec
  import S = SenderSpec
  import R = ReceiverSpec
  import opened UnitQueue
  import opened RcvBuffer
  import opened RcvLossList

  class CReceiver {
    var rcvLastAck: int
    var rcvLastAckAck: int
    var rcvCurrSeqNo: int
    const buffer: CRcvBuffer
    const lossList: CRcvLossList

    ghost const config: S.Config
    ghost var lastAck: int
    ghost var lastAckAck: int
    ghost var curr: int

    ghost function Abs(): R.Rcv
      reads this, lossList, buffer
    {
      R.Rcv(lastAck, lastAckAck, curr, lossList.Lost(), buffer.slots, buffer.start,
            if buffer.notch < 0 then 0 else buffer.notch)
    }

    ghost predicate Wired()
      reads this, buffer
    {
      && S.ConfigOk(config)
      && buffer.size == config.rcvBufSize <= lossList.size && buffer.notch >= 0
      && buffer.lastAck == lastAck && buffer.marked == {}
      && rcvLastAck == Wrap(lastAck) && rcvLastAckAck == Wrap(lastAckAck) && rcvCurrSeqNo == Wrap(curr)
    }

    ghost predicate Valid()
      reads this, buffer, buffer.units, buffer.held
      reads lossList, lossList.data1, lossList.data2, lossList.next, lossList.prior
    {
      buffer.Valid() && lossList.Valid() && Wired() && R.RcvOk(config, Abs())
    }

    /** After the handshake; the receive buffer must not be larger than the flight window. */
    constructor (c: S.Config, flightFlagSize: int, pool: CUnitQueue)
      requires S.ConfigOk(c) && c.rcvBufSize <= flightFlagSize <= 0x1000_0000
      ensures Valid() && config == c && Abs() == R.RcvInit(c) && buffer.held == {} && buffer.queue == pool
      ensures fresh(buffer.units) && fresh(lossList.data1) && fresh(lossList.data2)
      ensures fresh(lossList.next) && fresh(lossList.prior)
    {
      hide R.RcvOk, CRcvBuffer.Valid, CRcvLossList.Valid, CRcvLossList.Lost;
      R.RcvInitOk(c);
      rcvLastAck, rcvLastAckAck, rcvCurrSeqNo := c.isn, c.isn, c.isn - 1;
      buffer := new CRcvBuffer(c.rcvBufSize, pool, c.isn);
      lossList := new CRcvLossList(flightFlagSize);
      config := c;
      lastAck, lastAckAck, curr := c.isn, c.isn, c.isn - 1;
    }

    /** processData: stores the packet in the unit, opens or closes gaps, and returns the loss
        report to send at once, if any.  On -1 the unit is still free for the next packet. */
    method ProcessData(unit: CUnit, seqno: int, ghost x: int)
      returns (r: int, nak: seq<int>, ghost gap: Option<S.Loss>)
      requires Valid() && unit.flag == 0 && 0 <= x && seqno == Wrap(x) && Near(x, lastAck)
      modifies this`rcvCurrSeqNo, this`curr, buffer, buffer.units, unit`flag, buffer.queue`count
      modifies lossList, lossList.data1, lossList.data2, lossList.next, lossList.prior
      ensures Valid() && (Abs(), gap) == R.OnData(config, old(Abs()), x, unit.chunk)
      ensures nak == if gap.Some? then Encode([gap.value]) else []
      ensures r == (if R.Storable(config, old(Abs()), x) then 0 else -1)
      ensures r != 0 ==> unit.flag == 0
    {
      hide R.RcvOk, R.OnData, R.Storable, CRcvBuffer.Valid, CRcvLossList.Valid, CRcvLossList.Lost, Wrap, SeqOff;
      ReceiverNumbers(config, Abs());
      SeqOffExact(lastAck, x);
      buffer.DataSizeExact();
      StorableCases(config, Abs(), x, unit.chunk);
      var offset := SeqOff(rcvLastAck, seqno);
      if offset < 0 || offset >= buffer.GetAvailBufSize() {
        r, nak, gap := -1, [], None;
      } else {
        r, nak, gap := StorePacket(unit, offset, seqno, x);
      }
    }

    static lemma StorableCases(c: S.Config, r: R.Rcv, x: int, chunk: Chunk)
      ensures R.Storable(c, r, x) <==> r.lastAck <= x < r.start + c.rcvBufSize - 1 && x !in r.slots
      ensures !R.Storable(c, r, x) ==> R.OnData(c, r, x, chunk) == (r, None)
    {
    }

    method StorePacket(unit: CUnit, offset: int, seqno: int, ghost x: int)
      returns (r: int, nak: seq<int>, ghost gap: Option<S.Loss>)
      requires Valid() && unit.flag == 0 && seqno == Wrap(x)
      requires 0 <= lastAck <= x == lastAck + offset < buffer.start + config.rcvBufSize - 1
      modifies this`rcvCurrSeqNo, this`curr, buffer, buffer.units, unit`flag, buffer.queue`count
      modifies lossList, lossList.data1, lossList.data2, lossList.next, lossList.prior
      ensures Valid() && (Abs(), gap) == R.OnData(config, old(Abs()), x, unit.chunk)
      ensures nak == if gap.Some? then Encode([gap.value]) else []
      ensures r == (if R.Storable(config, old(Abs()), x) then 0 else -1)
      ensures r != 0 ==> unit.flag == 0
    {
      hide R.RcvOk, R.OnData, R.Storable, CRcvBuffer.Valid, CRcvLossList.Valid, CRcvLossList.Lost, Wrap;
      nak, gap := [], None;
      ghost var was := Abs();
      StorableCases(config, was, x, unit.chunk);
      R.OnDataOk(config, was, x, unit.chunk);
      r := buffer.AddData(unit, offset, x);
      if r >= 0 {
        TrackCases(config, was, x, unit.chunk);
        nak, gap := Track(seqno, x, was, unit.chunk);
      }
    }

    static lemma ReceiverNumbers(c: S.Config, r: R.Rcv)
      requires S.ConfigOk(c) && R.RcvOk(c, r)
      ensures 0 <= r.start <= r.lastAck <= r.curr + 1 && Near(r.lastAck, r.curr + 1)
      ensures r.lastAck <= r.start + c.rcvBufSize - 1 && r.curr <= r.start + c.rcvBufSize - 2
      ensures 0 <= r.lastAckAck <= r.lastAck
      ensures forall y :: y in r.lost ==> r.lastAck <= y <= r.curr
    {
    }

    /** The packet of number x has been stored; updates the largest number and the loss list. */
    method Track(seqno: int, ghost x: int, ghost was: R.Rcv, ghost chunk: Chunk)
      returns (nak: seq<int>, ghost gap: Option<S.Loss>)
      requires buffer.Valid() && lossList.Valid() && Wired() && R.RcvOk(config, was) && R.Storable(config, was, x)
      requires Abs() == was.(slots := was.slots[x := chunk]) && seqno == Wrap(x)
      modifies this`rcvCurrSeqNo, this`curr
      modifies lossList, lossList.data1, lossList.data2, lossList.next, lossList.prior
      ensures lossList.Valid() && Wired()
      ensures var (r', g) := R.OnData(config, was, x, chunk); lossList.Lost() == r'.lost && curr == r'.curr && gap == g
      ensures nak == if gap.Some? then Encode([gap.value]) else []
    {
      hide R.RcvOk, R.OnData, CRcvBuffer.Valid, CRcvLossList.Valid, CRcvLossList.Lost, Wrap, SeqCmp, IncSeq, Encode, Interval;
      TrackCases(config, was, x, chunk);
      nak, gap := [], None;
      ReceiverNumbers(config, was);
      IncSeqExact(curr);
      SeqCmpOrder(x, curr + 1);
      SeqCmpOrder(x, curr);
      if SeqCmp(seqno, IncSeq(rcvCurrSeqNo)) > 0 {
        nak, gap := OpenGap(seqno, x);
      }
      if SeqCmp(seqno, rcvCurrSeqNo) > 0 {
        rcvCurrSeqNo := seqno;
        curr := x;
      } else {
        var found := lossList.Remove(seqno, x, lastAck);
      }
    }

    /** The numbers between the largest received and x are lost; they are reported at once. */
    method OpenGap(seqno: int, ghost x: int) returns (nak: seq<int>, ghost gap: Option<S.Loss>)
      requires lossList.Valid() && Wired() && seqno == Wrap(x) && 0 <= lastAck <= curr + 1 < x < lastAck + config.rcvBufSize
      requires forall y :: y in lossList.Lost() ==> lastAck <= y <= curr
      modifies lossList, lossList.data1, lossList.data2, lossList.next, lossList.prior
      ensures lossList.Valid() && lossList.Lost() == old(lossList.Lost()) + Interval(curr + 1, x - 1)
      ensures gap == Some(if curr + 1 == x - 1 then S.Single(x - 1) else S.Pair(curr + 1, x - 1))
      ensures nak == Encode([gap.value])
    {
      hide CRcvBuffer.Valid, CRcvLossList.Valid, CRcvLossList.Lost, Wrap, IncSeq, DecSeq, Encode, Interval, IsLeast;
      IncSeqExact(curr);
      DecSeqExact(x);
      WrapInjective(curr + 1, x - 1);
      lossList.Insert(IncSeq(rcvCurrSeqNo), DecSeq(seqno), curr + 1, x - 1, lastAck);
      if IncSeq(rcvCurrSeqNo) == DecSeq(seqno) {
        EncodeOne(S.Single(x - 1));
        nak, gap := [DecSeq(seqno)], Some(S.Single(x - 1));
      } else {
        EncodeOne(S.Pair(curr + 1, x - 1));
        nak, gap := [Mark(IncSeq(rcvCurrSeqNo)), DecSeq(seqno)], Some(S.Pair(curr + 1, x - 1));
      }
    }

    static lemma TrackCases(c: S.Config, r: R.Rcv, x: int, chunk: Chunk)
      requires R.Storable(c, r, x)
      ensures var (r', gap) := R.OnData(c, r, x, chunk);
        && r' == r.(slots := r.slots[x := chunk], lost := r'.lost, curr := r'.curr)
        && r'.curr == Max(r.curr, x)
        && (x > r.curr + 1 ==> r'.lost == r.lost + Interval(r.curr + 1, x - 1))
        && (x == r.curr + 1 ==> r'.lost == r.lost)
        && (x <= r.curr ==> r'.lost == r.lost - {x})
        && gap == if x <= r.curr + 1 then None
                  else Some(if r.curr + 1 == x - 1 then S.Single(x - 1) else S.Pair(r.curr + 1, x - 1))
    {
      hide Interval;
    }

    /** A free unit is not one of those that hold packets of this receiver. */
    lemma FreeUnitIsNew(unit: CUnit)
      requires Valid() && unit.flag == 0
      ensures unit !in buffer.held
    {
      hide CRcvLossList.Valid, R.RcvOk;
      buffer.HeldIsTaken(unit);
    }

    /** recv: everything up to len that can be read. */
    method Recv(len: int) returns (data: seq<byte>)
      requires Valid()
      modifies buffer, buffer.units, buffer.held`flag, buffer.queue`count
      ensures Valid() && (Abs(), data) == R.Read(old(Abs()), len)
    {
      hide CRcvBuffer.Valid, CRcvLossList.Valid, CRcvLossList.Lost, Wrap, R.Covered, Consume, R.Held, R.Above;
      R.ReadOk(config, Abs(), len);
      data := buffer.ReadBuffer(len);
    }

    /** What goes on the wire for an acknowledgement. */
    static function WrapAck(a: R.Ack): R.Ack {
      match a
      case NoAck => R.NoAck
      case LiteAck(ack) => R.LiteAck(Wrap(ack))
      case FullAck(ack, avail) => R.FullAck(Wrap(ack), avail)
    }

    /** sendCtrl case 2: computes the acknowledgement point and acknowledges it, fully or lite. */
    method SendAck(lite: bool, quiet: bool) returns (out: R.Ack, ghost sent: R.Ack)
      requires Valid() && Near(lastAckAck, curr + 1)
      modifies this`rcvLastAck, this`lastAck, buffer`lastAckPos, buffer`lastAck, buffer`maxPos
      ensures Valid() && R.SendAck(config, old(Abs()), lite, quiet, Abs(), sent)
      ensures out == WrapAck(sent)
    {
      hide R.RcvOk, R.SendAck, CRcvBuffer.Valid, CRcvLossList.Valid, CRcvLossList.Lost, Wrap, SeqCmp;
      ghost var was := Abs();
      ReceiverNumbers(config, was);
      var ack;
      ghost var a;
      ack, a := AckPoint();
      WrapInjective(a, lastAckAck);
      WrapInjective(a, lastAck);
      SeqCmpOrder(a, lastAck);
      SeqCmpOrder(a, lastAckAck);
      AckCases(config, was, lite, quiet, a);
      out, sent := R.NoAck, R.NoAck;
      if ack == rcvLastAckAck {
      } else if lite {
        out, sent := R.LiteAck(ack), R.LiteAck(a);
      } else if SeqCmp(ack, rcvLastAck) > 0 {
        Acknowledge(ack, a);
        out, sent := FullAck(a);
      } else if ack == rcvLastAck && !quiet {
        out, sent := FullAck(a);
      }
      R.SendAckOk(config, was, lite, quiet, Abs(), sent);
    }

    /** The first lost number, or the one after the largest received. */
    method AckPoint() returns (ack: int, ghost a: int)
      requires Valid()
      ensures R.IsAckPoint(Abs(), a) && ack == Wrap(a) && lastAck <= a <= curr + 1
    {
      hide R.RcvOk, CRcvBuffer.Valid, CRcvLossList.Valid, CRcvLossList.Lost, Wrap, IncSeq;
      ReceiverNumbers(config, Abs());
      IncSeqExact(curr);
      var n := lossList.GetLossLength();
      NoneMeansEmpty(lossList.Lost());
      if 0 == n {
        ack, a := IncSeq(rcvCurrSeqNo), curr + 1;
      } else {
        ack, a := lossList.GetFirstLostSeq();
      }
    }

    static lemma NoneMeansEmpty(s: set<int>)
      ensures |s| == 0 <==> s == {}
    {
    }

    method Acknowledge(ack: int, ghost a: int)
      requires Valid() && lastAck <= a <= curr + 1 && ack == Wrap(a)
      modifies this`rcvLastAck, this`lastAck, buffer`lastAckPos, buffer`lastAck, buffer`maxPos
      ensures buffer.Valid() && Wired() && Abs() == old(Abs()).(lastAck := a)
    {
      hide R.RcvOk, CRcvBuffer.Valid, CRcvLossList.Valid, CRcvLossList.Lost, Wrap, SeqOff;
      ReceiverNumbers(config, Abs());
      SeqOffExact(lastAck, a);
      var acksize := SeqOff(rcvLastAck, ack);
      rcvLastAck := ack;
      buffer.AckData(acksize);
      lastAck := a;
    }

    /** The acknowledgement with the free space, at least 2, unless the peer already has it. */
    method FullAck(ghost a: int) returns (out: R.Ack, ghost sent: R.Ack)
      requires buffer.Valid() && Wired() && a == lastAck && 0 <= lastAckAck && 0 <= a && Near(a, lastAckAck)
      ensures out == WrapAck(sent)
      ensures sent == if a > lastAckAck then R.FullAck(a, Max(R.AvailBufSize(config, Abs()), 2)) else R.NoAck
    {
      hide CRcvBuffer.Valid, CRcvLossList.Lost, Wrap, SeqCmp;
      SeqCmpOrder(a, lastAckAck);
      buffer.DataSizeExact();
      if SeqCmp(rcvLastAck, rcvLastAckAck) > 0 {
        var avail := buffer.GetAvailBufSize();
        if avail < 2 {
          avail := 2;
        }
        return R.FullAck(rcvLastAck, avail), R.FullAck(a, avail);
      }
      return R.NoAck, R.NoAck;
    }

    static lemma AckCases(c: S.Config, r: R.Rcv, lite: bool, quiet: bool, a: int)
      requires R.IsAckPoint(r, a)
      ensures a == r.lastAckAck ==> R.SendAck(c, r, lite, quiet, r, R.NoAck)
      ensures a != r.lastAckAck && lite ==> R.SendAck(c, r, lite, quiet, r, R.LiteAck(a))
      ensures a != r.lastAckAck && !lite && (a < r.lastAck || (a == r.lastAck && quiet)) ==>
        R.SendAck(c, r, lite, quiet, r, R.NoAck)
      ensures a != r.lastAckAck && !lite && (a > r.lastAck || (a == r.lastAck && !quiet)) ==>
        var r' := r.(lastAck := a);
        R.SendAck(c, r, lite, quiet, r',
                  if a > r.lastAckAck then R.FullAck(a, Max(R.AvailBufSize(c, r'), 2)) else R.NoAck)
    {
    }

    /** The periodic loss report: the coded list, as far as it fits. */
    method ReportLosses(words: array<int>, limit: int, quiet: bool) returns (len: int, ghost report: seq<S.Loss>)
      requires Valid() && limit <= words.Length
      requires words != lossList.data1 && words != lossList.data2 && words != lossList.next && words != lossList.prior
      modifies words
      ensures Valid() && 0 <= len <= words.Length && words[..len] == Encode(report) && R.LossReport(Abs(), report)
      ensures if quiet then report == [] else report == Ordered(lossList.nodes) || len >= limit - 1
    {
      hide R.RcvOk, CRcvBuffer.Valid, Encode, Ordered, Interval;
      len, report := lossList.GetLossArray(words, limit, quiet);
      ReportIsHonest(report);
    }

    /** Every prefix of the list names only lost numbers. */
    lemma ReportIsHonest(report: seq<S.Loss>)
      requires lossList.Valid() && report <= Ordered(lossList.nodes)
      ensures R.LossReport(Abs(), report)
    {
      hide Ordered, Elems, Interval, Stored, Linked, Headed;
      var m := lossList.nodes;
      OrderedAreNodes(m);
      RepFits(lossList.win, m, lossList.data1[..], lossList.data2[..], lossList.next[..]);
      forall i | 0 <= i < |report|
        ensures S.LossLo(report[i]) <= S.LossHi(report[i])
        ensures Interval(S.LossLo(report[i]), S.LossHi(report[i])) <= Abs().lost
      {
        assert report[i] == Ordered(m)[i];
        InsideElems(m, S.LossLo(report[i]), S.LossLo(report[i]), S.LossHi(report[i]));
      }
    }

    /** The peer has seen the acknowledgement of this number. */
    method OnAckAck(ack: int, ghost a: int)
      requires Valid() && 0 <= a <= lastAck && ack == Wrap(a) && Near(a, lastAckAck)
      modifies this`rcvLastAckAck, this`lastAckAck
      ensures Valid() && Abs() == R.OnAckAck(old(Abs()), a)
    {
      hide R.RcvOk, CRcvBuffer.Valid, CRcvLossList.Valid, CRcvLossList.Lost, Wrap, SeqCmp;
      ReceiverNumbers(config, Abs());
      SeqCmpOrder(a, lastAckAck);
      R.OnAckAckOk(config, Abs(), a);
      if SeqCmp(ack, rcvLastAckAck) > 0 {
        rcvLastAckAck := ack;
        lastAckAck := a;
      }
    }
  }
}
