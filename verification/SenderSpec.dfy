/** The sending half of a connection on unwrapped sequence numbers: what each call of the
    sender does to its state, and the local invariant every call keeps. */
module SenderSpec {
  import opened Options
  import opened Chunks

  /** Values fixed when the connection is set up. */
  datatype Config = Config(isn: nat, rcvBufSize: nat, payloadSize: nat, sndBufSize: nat)

  ghost predicate ConfigOk(c: Config) {
    && c.isn <= 0x7FFF_FFFF
    && 1 <= c.rcvBufSize <= 0x0800_0000
    && c.payloadSize > 0
  }

  /** The advertised window is never below 2, even for the smallest buffer. */
  function Span(c: Config): int {
    Max(c.rcvBufSize, 2)
  }

  datatype Snd = Snd(
    lastAck: int,             // m_iSndLastAck
    lastDataAck: int,         // m_iSndLastDataAck
    curr: int,                // m_iSndCurrSeqNo
    window: int,              // m_iFlowWindowSize
    lost: set<int>,           // m_pSndLossList
    unacked: seq<Chunk>,      // m_pSndBuffer, from the first block to the last
    nextMsgNo: nat,
    broken: bool)

  /** A data packet on the wire. */
  datatype Packet = Packet(seqno: int, chunk: Chunk)

  /** One entry of a loss report. */
  datatype Loss = Single(x: int) | Pair(lo: int, hi: int)

  function LossLo(l: Loss): int {
    match l case Single(x) => x case Pair(lo, _) => lo
  }

  function LossHi(l: Loss): int {
    match l case Single(x) => x case Pair(_, hi) => hi
  }

  ghost predicate SndOk(c: Config, s: Snd) {
    && c.isn <= s.lastDataAck <= s.lastAck <= s.curr + 1
    && s.curr + 1 <= s.lastDataAck + |s.unacked|
    && s.curr < s.lastDataAck + Span(c)
    && s.lastAck + s.window <= s.lastDataAck + Span(c)
    && (forall x :: x in s.lost ==> s.lastDataAck <= x <= s.curr)
    && (forall i | 0 <= i < |s.unacked| :: |s.unacked[i].data| > 0)
  }

  /** The state after the handshake: the window is the peer's receive buffer. */
  function SndInit(c: Config): Snd {
    Snd(c.isn, c.isn, c.isn - 1, c.rcvBufSize, {}, [], 1, false)
  }

  /** The part of an application buffer that send accepts. */
  function Accepted(c: Config, s: Snd, data: seq<byte>): seq<byte> {
    if c.sndBufSize <= |s.unacked| then []
    else
      var room := (c.sndBufSize - |s.unacked|) * c.payloadSize;
      if 0 <= room < |data| then data[..room] else data
  }

  function Send(c: Config, s: Snd, data: seq<byte>, inOrder: bool): Snd
    requires c.payloadSize > 0
  {
    var taken := Accepted(c, s, data);
    if taken == [] then s
    else s.(unacked := s.unacked + Split(taken, c.payloadSize, true, inOrder, s.nextMsgNo),
            nextMsgNo := s.nextMsgNo + 1)
  }

  /** send takes the longest front of the application buffer whose chunks fit the send buffer. */
  lemma AcceptedIsLongest(c: Config, s: Snd, data: seq<byte>, n: nat)
    requires c.payloadSize > 0 && n <= |data|
    ensures Accepted(c, s, data) <= data
    ensures n <= |Accepted(c, s, data)| <==>
      n == 0 || |s.unacked| + |Split(data[..n], c.payloadSize, true, false, s.nextMsgNo)| <= c.sndBufSize
  {
    hide Split;
    SplitKeepsBytes(data[..n], c.payloadSize, true, false, s.nextMsgNo);
    if c.sndBufSize <= |s.unacked| {
      CeilFits(n, c.payloadSize, 0);
    } else {
      CeilFits(n, c.payloadSize, c.sndBufSize - |s.unacked|);
    }
  }

  /** packData: lost packets first, then a new one if flow and congestion windows allow. */
  ghost predicate PackData(c: Config, s: Snd, cwnd: int, s': Snd, out: Option<Packet>)
    requires SndOk(c, s)
  {
    if s.lost != {} then
      exists x :: IsLeast(x, s.lost) && s' == s.(lost := s.lost - {x})
        && out == Some(Packet(x, s.unacked[x - s.lastDataAck]))
    else if Min(s.window, cwnd) >= s.curr + 1 - s.lastAck + 1
            && s.curr + 1 - s.lastDataAck < |s.unacked| then
      && s' == s.(curr := s.curr + 1)
      && out == Some(Packet(s.curr + 1, s.unacked[s.curr + 1 - s.lastDataAck]))
    else
      s' == s && out == None
  }

  function OnLiteAck(s: Snd, ack: int): Snd {
    if ack >= s.lastAck then s.(window := s.window - (ack - s.lastAck), lastAck := ack) else s
  }

  function OnFullAck(s: Snd, ack: int, avail: int): Snd
    requires s.curr + 1 <= s.lastDataAck + |s.unacked|
  {
    if ack > s.curr + 1 then s.(broken := true)
    else
      var s1 := if ack >= s.lastAck then s.(window := avail, lastAck := ack) else s;
      if ack <= s.lastDataAck then s1
      else s1.(lastDataAck := ack,
               unacked := s.unacked[ack - s.lastDataAck..],
               lost := set x | x in s.lost && x >= ack)
  }

  function OnLoss(s: Snd, l: Loss): Snd {
    match l
    case Pair(lo, hi) =>
      if lo > hi || hi > s.curr then s.(broken := true)
      else if lo >= s.lastAck then s.(lost := s.lost + Interval(lo, hi))
      else if hi >= s.lastAck then s.(lost := s.lost + Interval(s.lastAck, hi))
      else s
    case Single(x) =>
      if x < s.lastAck then s
      else if x > s.curr then s.(broken := true)
      else s.(lost := s.lost + {x})
  }

  /** A loss report stops at its first invalid entry. */
  function OnNak(s: Snd, losses: seq<Loss>): Snd
    decreases |losses|
  {
    if |losses| == 0 || s.broken then s else OnNak(OnLoss(s, losses[0]), losses[1..])
  }

  /** The expiration timer reports everything in flight as lost. */
  function OnExpire(s: Snd): Snd {
    if s.curr + 1 != s.lastAck then s.(lost := s.lost + Interval(s.lastAck, s.curr)) else s
  }

  lemma SndInitOk(c: Config)
    requires ConfigOk(c)
    ensures SndOk(c, SndInit(c))
  {
  }

  lemma SendOk(c: Config, s: Snd, data: seq<byte>, inOrder: bool)
    requires ConfigOk(c) && SndOk(c, s)
    ensures SndOk(c, Send(c, s, data, inOrder))
  {
    SplitKeepsBytes(Accepted(c, s, data), c.payloadSize, true, inOrder, s.nextMsgNo);
  }

  /** Sending keeps the invariant; what goes out carries the chunk its number stands for. */
  lemma PackDataOk(c: Config, s: Snd, cwnd: int, s': Snd, out: Option<Packet>)
    requires SndOk(c, s) && PackData(c, s, cwnd, s', out)
    ensures SndOk(c, s')
    ensures out.Some? ==>
      && s.lastDataAck <= out.value.seqno <= s'.curr
      && out.value.chunk == s.unacked[out.value.seqno - s.lastDataAck]
  {
  }

  lemma OnLiteAckOk(c: Config, s: Snd, ack: int)
    requires SndOk(c, s) && ack <= s.curr + 1
    ensures SndOk(c, OnLiteAck(s, ack))
  {
  }

  lemma OnFullAckOk(c: Config, s: Snd, ack: int, avail: int)
    requires SndOk(c, s) && avail <= Span(c)
    ensures SndOk(c, OnFullAck(s, ack, avail))
  {
  }

  lemma OnLossOk(c: Config, s: Snd, l: Loss)
    requires SndOk(c, s)
    ensures SndOk(c, OnLoss(s, l))
    ensures OnLoss(s, l) == s.(lost := OnLoss(s, l).lost, broken := OnLoss(s, l).broken)
  {
  }

  lemma {:induction false} OnNakOk(c: Config, s: Snd, losses: seq<Loss>)
    requires SndOk(c, s)
    ensures SndOk(c, OnNak(s, losses))
    ensures OnNak(s, losses) == s.(lost := OnNak(s, losses).lost, broken := OnNak(s, losses).broken)
    decreases |losses|
  {
    if |losses| != 0 && !s.broken {
      OnLossOk(c, s, losses[0]);
      OnNakOk(c, OnLoss(s, losses[0]), losses[1..]);
    }
  }

  lemma OnExpireOk(c: Config, s: Snd)
    requires SndOk(c, s)
    ensures SndOk(c, OnExpire(s))
  {
  }

  /** The numbers a report names and the sender still cares about. */
  ghost predicate Reported(losses: seq<Loss>, lastAck: int, x: int) {
    x >= lastAck && exists i :: 0 <= i < |losses| && LossLo(losses[i]) <= x <= LossHi(losses[i])
  }

  ghost predicate Honest(losses: seq<Loss>, curr: int) {
    forall i | 0 <= i < |losses| :: LossLo(losses[i]) <= LossHi(losses[i]) <= curr
  }

  /** A report breaks the connection exactly if some entry is not honest, and the numbers it adds are
      those of the entries before the first such entry. */
  lemma {:induction false} NakExact(s: Snd, losses: seq<Loss>, n: nat)
    requires !s.broken && s.lastAck <= s.curr + 1 && n <= |losses| && Honest(losses[..n], s.curr)
    requires n == |losses| || !Honest([losses[n]], s.curr)
    ensures OnNak(s, losses).broken <==> n < |losses|
    ensures forall x :: x in OnNak(s, losses).lost <==> x in s.lost || Reported(losses[..n], s.lastAck, x)
    decreases n
  {
    if n == |losses| {
      assert losses[..n] == losses;
      HonestNakIsUnion(s, losses);
    } else if n == 0 {
      assert !(LossLo(losses[0]) <= LossHi(losses[0]) <= s.curr);
    } else {
      var s1 := OnLoss(s, losses[0]);
      assert losses[..n][0] == losses[0];
      assert losses[1..][..n - 1] == losses[..n][1..];
      HonestNakIsUnion(s, losses[..1]);
      OnNakOne(s, losses[0]);
      NakExact(s1, losses[1..], n - 1);
      ReportedSplit(losses[..n], s.lastAck);
    }
  }

  lemma OnNakOne(s: Snd, l: Loss)
    ensures !s.broken ==> OnNak(s, [l]) == OnLoss(s, l)
  {
    assert [l][1..] == [];
  }

  lemma ReportedSplit(losses: seq<Loss>, lastAck: int)
    requires |losses| > 0
    ensures forall x :: Reported(losses, lastAck, x) <==> Reported(losses[..1], lastAck, x) || Reported(losses[1..], lastAck, x)
  {
    forall x
      ensures Reported(losses, lastAck, x) <==> Reported(losses[..1], lastAck, x) || Reported(losses[1..], lastAck, x)
    {
      if Reported(losses, lastAck, x) {
        var i :| 0 <= i < |losses| && LossLo(losses[i]) <= x <= LossHi(losses[i]);
        assert if i == 0 then losses[..1][0] == losses[i] else losses[1..][i - 1] == losses[i];
      }
      if Reported(losses[..1], lastAck, x) {
        assert losses[..1][0] == losses[0];
      }
      if Reported(losses[1..], lastAck, x) {
        var i :| 0 <= i < |losses[1..]| && LossLo(losses[1..][i]) <= x <= LossHi(losses[1..][i]);
        assert losses[1..][i] == losses[i + 1];
      }
    }
  }

  /** An acknowledgement breaks the connection exactly if it is beyond everything sent, and then it
      changes nothing else. */
  lemma FullAckBreaks(c: Config, s: Snd, ack: int, avail: int)
    requires SndOk(c, s) && !s.broken
    ensures OnFullAck(s, ack, avail).broken <==> ack > s.curr + 1
    ensures ack > s.curr + 1 ==> OnFullAck(s, ack, avail) == s.(broken := true)
  {
  }

  /** An honest report never breaks the connection and adds exactly the reported numbers that
      are not yet acknowledged. */
  lemma {:induction false} HonestNakIsUnion(s: Snd, losses: seq<Loss>)
    requires !s.broken && Honest(losses, s.curr)
    ensures !OnNak(s, losses).broken
    ensures forall x :: x in OnNak(s, losses).lost <==> x in s.lost || Reported(losses, s.lastAck, x)
    decreases |losses|
  {
    if |losses| != 0 {
      var s1 := OnLoss(s, losses[0]);
      assert Honest(losses[1..], s1.curr);
      HonestNakIsUnion(s1, losses[1..]);
      forall x
        ensures Reported(losses, s.lastAck, x) <==>
          (x >= s.lastAck && LossLo(losses[0]) <= x <= LossHi(losses[0])) || Reported(losses[1..], s.lastAck, x)
      {
        if Reported(losses[1..], s.lastAck, x) {
          var i :| 0 <= i < |losses[1..]| && LossLo(losses[1..][i]) <= x <= LossHi(losses[1..][i]);
          assert losses[1..][i] == losses[i + 1];
        }
        if Reported(losses, s.lastAck, x) {
          var i :| 0 <= i < |losses| && LossLo(losses[i]) <= x <= LossHi(losses[i]);
          if i > 0 {
            assert losses[1..][i - 1] == losses[i];
          }
        }
      }
    }
  }
}
