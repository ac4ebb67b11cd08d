/** The sending half of CUDT: wrapped counters, the send buffer and the loss list.  Every method
    does to its unwrapped state exactly what SenderSpec says. */
module Sender {
  import opened Options
  import opened Chunks
  import opened SeqNo
  import opened NakCodec
  import S = SenderSpec
  import opened SndBuffer
  import opened SndLossList

  class CSender {
    var sndLastAck: int
    var sndLastDataAck: int
    var sndCurrSeqNo: int
    var flowWindowSize: int
    var broken: bool
    const sndBufSize: int
    const payloadSize: int
    const buffer: CSndBuffer
    const lossList: CSndLossList

    ghost const config: S.Config
    ghost var lastAck: int
    ghost var lastDataAck: int
    ghost var curr: int

    ghost function Abs(): S.Snd
      requires buffer.Valid()
      reads this, lossList, buffer, buffer.repr
    {
      S.Snd(lastAck, lastDataAck, curr, flowWindowSize, lossList.Lost(), buffer.Contents(), buffer.nextMsgNo, broken)
    }

    ghost predicate Wired()
      reads this, buffer
    {
      && S.ConfigOk(config)
      && lossList.size == 2 * config.rcvBufSize
      && sndBufSize == config.sndBufSize && payloadSize == config.payloadSize == buffer.mss
      && sndLastAck == Wrap(lastAck) && sndLastDataAck == Wrap(lastDataAck) && sndCurrSeqNo == Wrap(curr)
      && buffer.read == curr + 1 - lastDataAck
    }

    ghost predicate Valid()
      reads this, buffer, buffer.repr, lossList, lossList.data1, lossList.data2, lossList.next
    {
      && lossList.data1 != lossList.data2 && lossList.data1 != lossList.next && lossList.data2 != lossList.next
      && buffer.Valid() && lossList.Valid() && Wired() && S.SndOk(config, Abs())
    }

    /** After the handshake: the peer's buffer size is the first window, and the loss list is
        allocated twice as large. */
    constructor (c: S.Config)
      requires S.ConfigOk(c)
      ensures Valid() && config == c && Abs() == S.SndInit(c)
      ensures fresh(lossList.data1) && fresh(lossList.data2) && fresh(lossList.next)
    {
      hide S.SndOk, CSndBuffer.Valid, CSndLossList.Valid, CSndBuffer.Contents, CSndLossList.Lost;
      S.SndInitOk(c);
      sndLastAck, sndLastDataAck, sndCurrSeqNo := c.isn, c.isn, c.isn - 1;
      flowWindowSize, broken := c.rcvBufSize, false;
      sndBufSize, payloadSize := c.sndBufSize, c.payloadSize;
      buffer := new CSndBuffer(32, c.payloadSize);
      lossList := new CSndLossList(c.rcvBufSize * 2);
      config := c;
      lastAck, lastDataAck, curr := c.isn, c.isn, c.isn - 1;
    }

    static lemma RoomIsPositive(blocks: int, each: int)
      requires blocks >= 1 && each >= 1
      ensures blocks * each >= 1
    {
    }

    /** send, once there is room: takes what fits and returns how much. */
    method Send(data: seq<byte>) returns (taken: int)
      requires Valid()
      modifies this, buffer, buffer.repr
      ensures Valid() && Abs() == S.Send(config, old(Abs()), data, false)
      ensures taken == |S.Accepted(config, old(Abs()), data)|
    {
      hide S.SndOk, Split, CSndBuffer.Valid, CSndLossList.Valid, CSndBuffer.Contents, CSndLossList.Lost;
      if |data| <= 0 {
        return 0;
      }
      if sndBufSize <= buffer.count {
        return 0;
      }
      var size := (sndBufSize - buffer.count) * payloadSize;
      RoomIsPositive(sndBufSize - buffer.count, payloadSize);
      if size > |data| {
        size := |data|;
      }
      TakeAll(data);
      assert data[..size] == S.Accepted(config, Abs(), data) && data[..size] != [];
      S.SendOk(config, Abs(), data, false);
      buffer.AddBuffer(data[..size], false);
      return size;
    }

    /** sendmsg, without the waiting: a message is taken whole or not at all; -1 stands for the
        exception for one that can never fit. */
    method SendMsg(data: seq<byte>, inOrder: bool) returns (taken: int)
      requires Valid()
      modifies this, buffer, buffer.repr
      ensures Valid()
      ensures taken == |data| <==> S.Accepted(config, old(Abs()), data) == data
      ensures taken == |data| ==> Abs() == S.Send(config, old(Abs()), data, inOrder)
      ensures taken != |data| ==> Abs() == old(Abs()) && taken <= 0
      ensures taken == -1 <==> |data| > sndBufSize * payloadSize
    {
      hide S.SndOk, Split, CSndBuffer.Valid, CSndLossList.Valid, CSndBuffer.Contents, CSndLossList.Lost;
      if |data| <= 0 {
        NothingToSend(config, Abs(), inOrder);
        return 0;
      }
      WholeOnly(config, Abs(), data);
      if |data| > sndBufSize * payloadSize {
        return -1;
      }
      if (sndBufSize - buffer.count) * payloadSize < |data| {
        return 0;
      }
      WholeFits(sndBufSize - buffer.count, payloadSize, |data|);
      S.SendOk(config, Abs(), data, inOrder);
      buffer.AddBuffer(data, inOrder);
      return |data|;
    }

    static lemma NothingToSend(c: S.Config, s: S.Snd, inOrder: bool)
      requires c.payloadSize > 0
      ensures S.Accepted(c, s, []) == [] && S.Send(c, s, [], inOrder) == s
    {
    }

    /** send would take the whole message exactly if there is room for it. */
    static lemma WholeOnly(c: S.Config, s: S.Snd, data: seq<byte>)
      requires c.payloadSize > 0 && data != []
      ensures S.Accepted(c, s, data) == data <==> |data| <= (c.sndBufSize - |s.unacked|) * c.payloadSize
      ensures |data| > c.sndBufSize * c.payloadSize ==> |data| > (c.sndBufSize - |s.unacked|) * c.payloadSize
    {
      LessRoom(c.sndBufSize, |s.unacked|, c.payloadSize);
    }

    static lemma LessRoom(blocks: int, taken: nat, each: int)
      requires each > 0
      ensures (blocks - taken) * each <= blocks * each
      ensures blocks <= taken ==> (blocks - taken) * each <= 0
      ensures blocks > taken ==> (blocks - taken) * each > 0
    {
      assert taken * each >= 0;
      assert (blocks - taken) * each == blocks * each - taken * each;
    }

    static lemma WholeFits(blocks: int, size: int, n: int)
      requires size > 0 && blocks * size >= n > 0
      ensures blocks > 0
    {
    }

    /** packData: a lost packet if there is one, otherwise a new one as far as the flow and
        congestion windows reach. */
    method PackData(cwnd: int) returns (seqno: int, chunk: Option<Chunk>, ghost out: Option<S.Packet>)
      requires Valid()
      modifies this, buffer, lossList, lossList.data1, lossList.data2, lossList.next
      ensures Valid() && S.PackData(config, old(Abs()), cwnd, Abs(), out)
      ensures out.None? ==> chunk.None?
      ensures out.Some? ==> chunk == Some(out.value.chunk) && seqno == Wrap(out.value.seqno)
    {
      hide S.SndOk, CSndBuffer.Valid, CSndLossList.Valid, CSndBuffer.Contents, CSndLossList.Lost, Wrap, SeqLen, SeqOff, IncSeq;
      ghost var was := Abs();
      ghost var x;
      out := None;
      seqno, x := lossList.GetLostSeq();
      if was.lost != {} {
        WrapRange(x);
      } else {
        assert Abs() == was;
      }
      if seqno >= 0 {
        chunk, out := PackLost(seqno, was, x);
      } else {
        chunk, seqno, out := PackNew(cwnd);
      }
      S.PackDataOk(config, was, cwnd, Abs(), out);
    }

    /** The lost number x has just left the loss list. */
    method PackLost(seqno: int, ghost was: S.Snd, ghost x: int) returns (chunk: Option<Chunk>, ghost out: Option<S.Packet>)
      requires buffer.Valid() && lossList.Valid() && Wired() && S.SndOk(config, was) && IsLeast(x, was.lost)
      requires Abs() == was.(lost := was.lost - {x}) && seqno == Wrap(x)
      ensures out == Some(S.Packet(x, was.unacked[x - was.lastDataAck])) && chunk == Some(out.value.chunk)
      ensures S.PackData(config, was, 0, Abs(), out)
    {
      hide S.SndOk, CSndBuffer.Valid, CSndLossList.Valid, CSndBuffer.Contents, CSndLossList.Lost, Wrap, SeqOff;
      LostIsUnacked(config, was, x);
      SeqOffExact(lastDataAck, x);
      var offset := SeqOff(sndLastDataAck, seqno);
      if offset < 0 {
        assert false;
      }
      var c := buffer.ReadAt(offset);
      chunk := Some(c);
      out := Some(S.Packet(x, c));
    }

    method PackNew(cwnd: int) returns (chunk: Option<Chunk>, seqno: int, ghost out: Option<S.Packet>)
      requires Valid() && lossList.Lost() == {}
      modifies this`sndCurrSeqNo, this`curr, buffer`curr, buffer`read
      ensures buffer.Valid() && Wired() && S.PackData(config, old(Abs()), cwnd, Abs(), out)
      ensures out.None? ==> chunk.None?
      ensures out.Some? ==> chunk == Some(out.value.chunk) && seqno == Wrap(out.value.seqno)
    {
      hide S.SndOk, CSndBuffer.Valid, CSndLossList.Valid, CSndBuffer.Contents, CSndLossList.Lost, Wrap, SeqLen, IncSeq;
      chunk, seqno, out := None, -1, None;
      WindowNumbers(config, Abs());
      IncSeqExact(curr);
      SeqLenExact(lastAck, curr + 1);
      var limit := if flowWindowSize < cwnd then flowWindowSize else cwnd;
      if limit >= SeqLen(sndLastAck, IncSeq(sndCurrSeqNo)) {
        chunk := buffer.ReadData();
        if chunk.Some? {
          sndCurrSeqNo := IncSeq(sndCurrSeqNo);
          curr := curr + 1;
          seqno := sndCurrSeqNo;
          out := Some(S.Packet(curr, chunk.value));
        }
      }
    }

    /** What the invariant says about a lost number. */
    static lemma LostIsUnacked(c: S.Config, s: S.Snd, x: int)
      requires S.ConfigOk(c) && S.SndOk(c, s) && x in s.lost
      ensures 0 <= s.lastDataAck <= x <= s.curr && Near(s.lastDataAck, x) && x - s.lastDataAck < |s.unacked|
    {
    }

    /** The counters of the sender are close together. */
    static lemma WindowNumbers(c: S.Config, s: S.Snd)
      requires S.ConfigOk(c) && S.SndOk(c, s)
      ensures 0 <= s.lastDataAck <= s.lastAck <= s.curr + 1 && Near(s.lastAck, s.curr + 1)
      ensures s.curr + 1 <= s.lastDataAck + |s.unacked|
      ensures s.curr + 1 - s.lastDataAck <= 2 * c.rcvBufSize
    {
    }

    /** A lite acknowledgement moves the window without growing it. */
    method OnLiteAck(ack: int, ghost a: int)
      requires Valid() && 0 <= a <= curr + 1 && ack == Wrap(a) && Near(a, lastAck)
      modifies this`sndLastAck, this`lastAck, this`flowWindowSize
      ensures Valid() && Abs() == S.OnLiteAck(old(Abs()), a)
    {
      hide S.SndOk, CSndBuffer.Valid, CSndLossList.Valid, CSndBuffer.Contents, CSndLossList.Lost, Wrap, SeqCmp, SeqOff;
      WindowNumbers(config, Abs());
      SeqCmpOrder(a, lastAck);
      SeqOffExact(lastAck, a);
      S.OnLiteAckOk(config, Abs(), a);
      if SeqCmp(ack, sndLastAck) >= 0 {
        flowWindowSize := flowWindowSize - SeqOff(sndLastAck, ack);
        sndLastAck := ack;
        lastAck := a;
      }
    }

    /** A full acknowledgement also frees the buffer and the loss list up to its number. */
    method OnFullAck(ack: int, avail: int, ghost a: int)
      requires Valid() && 0 <= a && ack == Wrap(a) && avail <= S.Span(config)
      requires Near(a, lastAck) && Near(a, lastDataAck) && Near(a, curr + 1)
      modifies this, buffer`first, buffer`count, buffer`ring, buffer`read
      modifies lossList, lossList.data1, lossList.data2, lossList.next
      ensures Valid() && Abs() == S.OnFullAck(old(Abs()), a, avail)
    {
      hide S.SndOk, CSndBuffer.Valid, CSndLossList.Valid, CSndBuffer.Contents, CSndLossList.Lost;
      hide Wrap, SeqCmp, SeqOff, IncSeq, DecSeq;
      WindowNumbers(config, Abs());
      IncSeqExact(curr);
      SeqCmpOrder(a, curr + 1);
      SeqCmpOrder(a, lastAck);
      SeqOffExact(lastDataAck, a);
      LossesFit(config, Abs());
      S.OnFullAckOk(config, Abs(), a, avail);
      if SeqCmp(ack, IncSeq(sndCurrSeqNo)) > 0 {
        broken := true;
        return;
      }
      if SeqCmp(ack, sndLastAck) >= 0 {
        flowWindowSize := avail;
        sndLastAck := ack;
        lastAck := a;
      }
      var offset := SeqOff(sndLastDataAck, ack);
      if offset > 0 {
        FreeUpTo(ack, offset, a);
      }
    }

    method FreeUpTo(ack: int, offset: int, ghost a: int)
      requires buffer.Valid() && lossList.Valid() && Wired() && S.ConfigOk(config)
      requires 0 <= lastDataAck < a <= curr + 1 && ack == Wrap(a) && offset == a - lastDataAck
      requires curr + 1 - lastDataAck <= 2 * config.rcvBufSize
      requires forall x :: x in lossList.Lost() ==> lastDataAck <= x <= curr
      modifies this`sndLastDataAck, this`lastDataAck, buffer`first, buffer`count, buffer`ring, buffer`read
      modifies lossList, lossList.data1, lossList.data2, lossList.next
      ensures buffer.Valid() && lossList.Valid() && Wired()
      ensures Abs() == old(Abs()).(lastDataAck := a, unacked := old(Abs().unacked)[offset..],
                                   lost := set x | x in old(Abs().lost) && x >= a)
    {
      hide CSndBuffer.Valid, CSndLossList.Valid, CSndBuffer.Contents, CSndLossList.Lost, Wrap, DecSeq;
      DecSeqExact(a);
      buffer.AckData(offset);
      sndLastDataAck := ack;
      lastDataAck := a;
      lossList.Remove(DecSeq(sndLastDataAck), a - 1);
      SameTail(old(lossList.Lost()), a);
    }

    static lemma SameTail(s: set<int>, a: int)
      ensures (set x | x in s && x > a - 1) == (set x | x in s && x >= a)
    {
    }

    /** The expiration timer: everything in flight is reported lost. */
    method OnExpire()
      requires Valid()
      modifies lossList, lossList.data1, lossList.data2, lossList.next
      ensures Valid() && Abs() == S.OnExpire(old(Abs()))
    {
      hide S.SndOk, CSndBuffer.Valid, CSndLossList.Valid, CSndBuffer.Contents, CSndLossList.Lost, Wrap, IncSeq;
      WindowNumbers(config, Abs());
      LossesFit(config, Abs());
      IncSeqExact(curr);
      WrapInjective(curr + 1, lastAck);
      S.OnExpireOk(config, Abs());
      if IncSeq(sndCurrSeqNo) != sndLastAck {
        var added := lossList.Insert(sndLastAck, sndCurrSeqNo, lastAck, curr, lastDataAck);
      }
    }

    /** The loss list is large enough for every number it may have to hold. */
    static lemma LossesFit(c: S.Config, s: S.Snd)
      requires S.ConfigOk(c) && S.SndOk(c, s)
      ensures s.curr < s.lastDataAck + 2 * c.rcvBufSize
      ensures forall x :: x in s.lost ==> s.lastDataAck <= x <= s.curr
    {
    }

    ghost predicate Close(x: int)
      reads this`lastAck, this`curr
    {
      0 <= x && Near(x, lastAck) && Near(x, curr)
    }

    /** The numbers of a report are close to the sender's counters. */
    ghost predicate InReach(losses: seq<S.Loss>)
      reads this`lastAck, this`curr
    {
      forall i | 0 <= i < |losses| ::
        && Close(S.LossLo(losses[i])) && Close(S.LossHi(losses[i])) && Near(S.LossLo(losses[i]), S.LossHi(losses[i]))
    }

    /** A loss report: decoded word by word, up to its first invalid entry. */
    method OnLossReport(words: seq<int>, ghost losses: seq<S.Loss>)
      requires Valid() && !broken && words == Encode(losses) && InReach(losses)
      modifies this`broken, lossList, lossList.data1, lossList.data2, lossList.next
      ensures Valid() && Abs() == S.OnNak(old(Abs()), losses)
    {
      hide S.SndOk, CSndBuffer.Valid, CSndLossList.Valid, CSndBuffer.Contents, CSndLossList.Lost;
      hide Wrap, SeqCmp, S.OnNak, S.OnLoss, Encode;
      ghost var was := Abs();
      ghost var rest := losses;
      var secure := true;
      var i, n := 0, |words|;
      TakeFrom(words, words);
      S.OnNakOk(config, was, losses);
      while i < n
        invariant 0 <= i <= n && Valid() && secure && !broken
        invariant words[i..] == Encode(rest) && InReach(rest)
        invariant S.OnNak(Abs(), rest) == S.OnNak(was, losses)
        invariant unchanged(this)
        decreases n - i
      {
        EncodeStep(rest, words, i);
        NakStep(Abs(), rest);
        ghost var s0 := Abs();
        if words[i] < 0 {
          secure := OnPair(Unmark(words[i]), words[i + 1], S.LossLo(rest[0]), S.LossHi(rest[0]));
          i := i + 1;
        } else {
          secure := OnSingle(words[i], S.LossLo(rest[0]));
        }
        i := i + 1;
        if !secure {
          break;
        }
        rest := rest[1..];
      }
      if !secure {
        broken := true;
      } else {
        NakDone(Abs(), rest);
      }
    }

    static lemma NakDone(s: S.Snd, losses: seq<S.Loss>)
      requires Encode(losses) == []
      ensures S.OnNak(s, losses) == s
    {
    }

    method OnPair(lo: int, hi: int, ghost a: int, ghost b: int) returns (secure: bool)
      requires Valid() && !broken && Close(a) && Close(b) && Near(a, b) && lo == Wrap(a) && hi == Wrap(b)
      modifies lossList, lossList.data1, lossList.data2, lossList.next
      ensures Valid() && Abs().(broken := !secure) == S.OnLoss(old(Abs()), S.Pair(a, b))
    {
      hide S.SndOk, S.OnLoss, CSndBuffer.Valid, CSndLossList.Valid, CSndBuffer.Contents, CSndLossList.Lost, Wrap, SeqCmp;
      WindowNumbers(config, Abs());
      PairCases(Abs(), a, b);
      SeqCmpOrder(a, b);
      SeqCmpOrder(b, curr);
      SeqCmpOrder(a, lastAck);
      SeqCmpOrder(b, lastAck);
      if SeqCmp(lo, hi) > 0 || SeqCmp(hi, sndCurrSeqNo) > 0 {
        return false;
      }
      if SeqCmp(lo, sndLastAck) >= 0 {
        AddLosses(lo, hi, a, b);
      } else if SeqCmp(hi, sndLastAck) >= 0 {
        AddLosses(sndLastAck, hi, lastAck, b);
      }
      return true;
    }

    static lemma MoreLostOk(c: S.Config, s: S.Snd, a: int, b: int)
      requires S.SndOk(c, s) && s.lastAck <= a && b <= s.curr
      ensures S.SndOk(c, s.(lost := s.lost + Interval(a, b)))
    {
    }

    static lemma PairCases(s: S.Snd, a: int, b: int)
      requires !s.broken
      ensures a > b || b > s.curr ==> S.OnLoss(s, S.Pair(a, b)) == s.(broken := true)
      ensures a <= b <= s.curr && a >= s.lastAck ==> S.OnLoss(s, S.Pair(a, b)) == s.(lost := s.lost + Interval(a, b))
      ensures a <= b <= s.curr && a < s.lastAck <= b ==>
        S.OnLoss(s, S.Pair(a, b)) == s.(lost := s.lost + Interval(s.lastAck, b))
      ensures a <= b <= s.curr && b < s.lastAck ==> S.OnLoss(s, S.Pair(a, b)) == s
    {
    }

    method AddLosses(lo: int, hi: int, ghost a: int, ghost b: int)
      requires Valid() && lastAck <= a <= b <= curr && lo == Wrap(a) && hi == Wrap(b)
      modifies lossList, lossList.data1, lossList.data2, lossList.next
      ensures Valid() && Abs() == old(Abs()).(lost := old(Abs().lost) + Interval(a, b))
    {
      hide S.SndOk, CSndBuffer.Valid, CSndLossList.Valid, CSndBuffer.Contents, CSndLossList.Lost, Wrap;
      LossesFit(config, Abs());
      WindowNumbers(config, Abs());
      MoreLostOk(config, Abs(), a, b);
      var num := lossList.Insert(lo, hi, a, b, lastDataAck);
    }

    method OnSingle(seqno: int, ghost x: int) returns (secure: bool)
      requires Valid() && !broken && Close(x) && seqno == Wrap(x)
      modifies lossList, lossList.data1, lossList.data2, lossList.next
      ensures Valid() && Abs().(broken := !secure) == S.OnLoss(old(Abs()), S.Single(x))
    {
      hide S.SndOk, CSndBuffer.Valid, CSndLossList.Valid, CSndBuffer.Contents, CSndLossList.Lost, Wrap, SeqCmp;
      LossesFit(config, Abs());
      WindowNumbers(config, Abs());
      S.OnLossOk(config, Abs(), S.Single(x));
      SeqCmpOrder(x, lastAck);
      SeqCmpOrder(x, curr);
      if SeqCmp(seqno, sndLastAck) >= 0 {
        if SeqCmp(seqno, sndCurrSeqNo) > 0 {
          return false;
        }
        var num := lossList.Insert(seqno, seqno, x, x, lastDataAck);
        IntervalOne(x);
      }
      return true;
    }

    static lemma IntervalOne(x: int)
      ensures Interval(x, x) == {x}
    {
    }

    static lemma EncodeStep(losses: seq<S.Loss>, words: seq<int>, i: nat)
      requires i < |words| && words[i..] == Encode(losses)
      requires |losses| > 0 ==> 0 <= S.LossLo(losses[0])
      ensures |losses| > 0 && (words[i] < 0 <==> losses[0].Pair?)
      ensures losses[0].Pair? ==>
        && i + 1 < |words| && Unmark(words[i]) == Wrap(losses[0].lo) && words[i + 1] == Wrap(losses[0].hi)
        && words[i + 2..] == Encode(losses[1..])
      ensures losses[0].Single? ==> words[i] == Wrap(losses[0].x) && words[i + 1..] == Encode(losses[1..])
    {
      WrapRange(S.LossLo(losses[0]));
      var k := |EncodeLoss(losses[0])|;
      DropDrop(words, i, k);
      TailOfCode(EncodeLoss(losses[0]), Encode(losses[1..]));
    }

    static lemma TailOfCode<T>(a: seq<T>, b: seq<T>)
      ensures (a + b)[|a|..] == b
    {
    }

    static lemma NakStep(s: S.Snd, losses: seq<S.Loss>)
      requires |losses| > 0 && !s.broken
      ensures S.OnNak(s, losses) == S.OnNak(S.OnLoss(s, losses[0]), losses[1..])
      ensures S.OnLoss(s, losses[0]).broken ==> S.OnNak(s, losses) == S.OnLoss(s, losses[0])
    {
    }
  }
}
