/** The sender's state explained by what happened: every counter, the window and the loss list are
    functions of the steps taken so far. */
module SenderHistory {
  import opened Options
  import opened Chunks
  import opened SenderSpec
  import opened ReceiverSpec
  import opened Protocol
  import opened Runs
  import opened History

  datatype Kind = AnyAck | WholeAck | Confirmation

  /** The number a step brings to the counter of that kind. */
  function Number(kind: Kind, step: Step): Option<int> {
    match step
    case LiteAckStep(ack) => if kind.AnyAck? then Some(ack) else None
    case FullAckStep(ack, _) => if kind.Confirmation? then None else Some(ack)
    case AckAckStep(acked) => if kind.Confirmation? then Some(acked) else None
    case _ => None
  }

  /** x is the greatest of isn and all the numbers brought by the first n steps. */
  ghost predicate Greatest(kind: Kind, isn: int, steps: seq<Step>, n: nat, x: int)
    requires n <= |steps|
  {
    && isn <= x
    && (x == isn || exists i :: 0 <= i < n && Number(kind, steps[i]) == Some(x))
    && forall i :: 0 <= i < n && Number(kind, steps[i]).Some? ==> Number(kind, steps[i]).value <= x
  }

  function Counter(kind: Kind, st: State): int {
    match kind
    case AnyAck => st.snd.lastAck
    case WholeAck => st.snd.lastDataAck
    case Confirmation => st.rcv.lastAckAck
  }

  lemma CounterMoves(c: Config, st: State, st': State, step: Step, kind: Kind)
    requires Inv(c, st) && Next(c, st, st', step)
    ensures Counter(kind, st') == match Number(kind, step)
      case None => Counter(kind, st)
      case Some(x) => Max(Counter(kind, st), x)
  {
    hide SenderLinked, ReceiverLinked, BytesConserved, RcvOk, Send, OnData, Read, OnNak;
    match step
    case SendStep(data, inOrder) => SendKeepsCounters(c, st.snd, data, inOrder);
    case FullAckStep(ack, avail) =>
      AckIsSent(c, st, ack, avail);
    case LossStep(losses) => OnNakOk(c, st.snd, losses);
    case DataStep(p) => DataKeepsAcks(c, st.rcv, p.seqno, p.chunk);
    case RecvStep(len) => ReadKeepsAcks(c, st.rcv, len);
    case _ =>
  }

  lemma AckIsSent(c: Config, st: State, ack: int, avail: int)
    requires Inv(c, st) && AckMsg(FullAck(ack, avail)) in st.net
    ensures ack <= st.snd.curr + 1
  {
    hide SenderLinked, ReceiverLinked, BytesConserved, SndOk;
    assert MessageOk(c, st, AckMsg(FullAck(ack, avail)));
  }

  lemma SendKeepsCounters(c: Config, s: Snd, data: seq<byte>, inOrder: bool)
    requires c.payloadSize > 0
    ensures var s' := Send(c, s, data, inOrder); s' == s.(unacked := s'.unacked, nextMsgNo := s'.nextMsgNo)
  {
  }

  lemma DataKeepsAcks(c: Config, r: Rcv, x: int, chunk: Chunk)
    ensures OnData(c, r, x, chunk).0.lastAckAck == r.lastAckAck && OnData(c, r, x, chunk).0.lastAck == r.lastAck
  {
  }

  lemma ReadKeepsAcks(c: Config, r: Rcv, len: int)
    requires RcvOk(c, r)
    ensures var r' := Read(r, len).0; r' == r.(slots := r'.slots, start := r'.start, notch := r'.notch)
  {
  }

  /** Each acknowledgement counter is the greatest number delivered to it so far. */
  lemma {:induction false} CounterExact(c: Config, run: seq<State>, steps: seq<Step>, j: nat, kind: Kind)
    requires ConfigOk(c) && Trace(c, run, steps) && j < |run|
    ensures Greatest(kind, c.isn, steps, j, Counter(kind, run[j]))
  {
    hide Inv, Next, Takes, Number;
    if j > 0 {
      CounterExact(c, run, steps, j - 1, kind);
      StepAt(c, run, steps, j - 1);
      CounterMoves(c, run[j - 1], run[j], steps[j - 1], kind);
    }
  }

  // ---------- The window ----------

  /** Step i is a full acknowledgement that the sender is not ahead of. */
  ghost predicate Honours(run: seq<State>, steps: seq<Step>, i: nat)
    requires i < |steps| < |run|
  {
    steps[i].FullAckStep? && steps[i].ack >= run[i].snd.lastAck
  }

  function Edge(s: Snd): int {
    s.lastAck + s.window
  }

  lemma EdgeMoves(c: Config, st: State, st': State, step: Step)
    requires Inv(c, st) && Next(c, st, st', step)
    ensures Edge(st'.snd) ==
      if step.FullAckStep? && step.ack >= st.snd.lastAck then step.ack + step.avail else Edge(st.snd)
  {
    hide SenderLinked, ReceiverLinked, BytesConserved, RcvOk, Send, OnData, Read, OnNak, SendAck;
    match step
    case SendStep(data, inOrder) => SendKeepsCounters(c, st.snd, data, inOrder);
    case FullAckStep(ack, avail) => AckIsSent(c, st, ack, avail);
    case LossStep(losses) => OnNakOk(c, st.snd, losses);
    case _ =>
  }

  ghost predicate NoneHonoured(run: seq<State>, steps: seq<Step>, j: nat)
    requires j < |run| == |steps| + 1
  {
    forall i :: 0 <= i < j ==> !Honours(run, steps, i)
  }

  ghost predicate LastHonoured(run: seq<State>, steps: seq<Step>, j: nat, i: nat)
    requires j < |run| == |steps| + 1
  {
    i < j && Honours(run, steps, i) && forall k :: i < k < j ==> !Honours(run, steps, k)
  }

  /** The right edge of the window is the one advertised by the last full acknowledgement that was
      not outdated when it arrived, and the receive buffer's size before the first. */
  lemma {:induction false} EdgeExact(c: Config, run: seq<State>, steps: seq<Step>, j: nat)
    requires ConfigOk(c) && Trace(c, run, steps) && j < |run|
    ensures NoneHonoured(run, steps, j) ==> Edge(run[j].snd) == c.isn + c.rcvBufSize
    ensures forall i: nat :: LastHonoured(run, steps, j, i) ==> Edge(run[j].snd) == steps[i].ack + steps[i].avail
  {
    hide Inv, Next, Takes, Honours;
    if j > 0 {
      EdgeExact(c, run, steps, j - 1);
      StepAt(c, run, steps, j - 1);
      EdgeMoves(c, run[j - 1], run[j], steps[j - 1]);
      HonoursIs(run, steps, j - 1);
      forall i: nat | LastHonoured(run, steps, j, i)
        ensures steps[i].FullAckStep? && Edge(run[j].snd) == steps[i].ack + steps[i].avail
      {
        HonoursIs(run, steps, i);
        assert i < j - 1 ==> LastHonoured(run, steps, j - 1, i);
      }
    }
  }

  lemma HonoursIs(run: seq<State>, steps: seq<Step>, i: nat)
    requires i < |steps| < |run|
    ensures Honours(run, steps, i) <==> steps[i].FullAckStep? && steps[i].ack >= run[i].snd.lastAck
  {
  }

  /** In every state of every run the window ends where the receive buffer ended at the start, or where
      some full acknowledgement says. */
  lemma {:induction false} EdgeIsAdvertised(c: Config, run: seq<State>, i: nat)
    requires ConfigOk(c) && Run(c, run) && i < |run|
    ensures Edge(run[i].snd) == c.isn + c.rcvBufSize
            || exists a, v :: AckMsg(FullAck(a, v)) in run[i].net && Edge(run[i].snd) == a + v
  {
    hide Inv, Next, Follows, Run;
    if i == 0 {
      assert run[0] == Init(c) by { StartOf(c, run); }
    } else {
      EdgeIsAdvertised(c, run, i - 1);
      Reachable(c, run, i - 1);
      StepOf(c, run, i - 1);
      var step := TakenStep(c, run[i - 1], run[i]);
      EdgeMoves(c, run[i - 1], run[i], step);
      NextGrows(c, run[i - 1], run[i], step);
      if step.FullAckStep? {
        Delivered(c, run[i - 1], run[i], step);
      }
    }
  }

  lemma StartOf(c: Config, run: seq<State>)
    requires Run(c, run)
    ensures run[0] == Init(c)
  {
  }

  lemma Delivered(c: Config, st: State, st': State, step: Step)
    requires Inv(c, st) && Next(c, st, st', step) && step.FullAckStep?
    ensures AckMsg(FullAck(step.ack, step.avail)) in st.net
  {
    hide Inv;
  }

  // ---------- What is sent ----------

  /** A step of packData with this congestion window puts out packet x. */
  ghost predicate Transmits(c: Config, st: State, st': State, step: Step, x: int) {
    && SndOk(c, st.snd) && step.PackStep? && 0 <= x - c.isn < |st.accepted|
    && PackData(c, st.snd, step.cwnd, st'.snd, Some(Packet(x, st.accepted[x - c.isn])))
  }

  /** packData on the sender alone. */
  lemma PackedIs(c: Config, s: Snd, cwnd: int, s': Snd, out: Option<Packet>)
    requires SndOk(c, s) && PackData(c, s, cwnd, s', out)
    ensures out.Some? <==>
      s.lost != {} || (s.curr + 1 < s.lastDataAck + |s.unacked| && s.curr + 1 - s.lastAck < Min(s.window, cwnd))
    ensures out.Some? ==>
      var x := out.value.seqno;
      && (if s.lost != {} then IsLeast(x, s.lost) else x == s.curr + 1)
      && out.value.chunk == s.unacked[x - s.lastDataAck]
      && s' == s.(curr := Max(s.curr, x), lost := s.lost - {x})
    ensures out.None? ==> s' == s
  {
    if out.Some? && s.lost == {} {
      assert s.lost - {out.value.seqno} == s.lost;
    }
  }

  /** packData sends the oldest lost number; without losses the next number, if a chunk is waiting and
      both windows have room for one more; and nothing else. */
  lemma TransmitsExact(c: Config, st: State, st': State, cwnd: int, x: int)
    requires Inv(c, st) && Next(c, st, st', PackStep(cwnd))
    ensures Transmits(c, st, st', PackStep(cwnd), x) <==>
      if st.snd.lost != {} then IsLeast(x, st.snd.lost)
      else && x == st.snd.curr + 1 && x < c.isn + |st.accepted|
           && x - st.snd.lastAck < st.snd.window && x - st.snd.lastAck < cwnd
    ensures Transmits(c, st, st', PackStep(cwnd), x) ==>
      && DataMsg(Packet(x, st.accepted[x - c.isn])) in st'.net
      && st'.snd == st.snd.(curr := Max(st.snd.curr, x), lost := st.snd.lost - {x})
    ensures (forall y :: !Transmits(c, st, st', PackStep(cwnd), y)) ==> st' == st
  {
    hide ReceiverLinked, BytesConserved, RcvOk, WindowsAgree, MessageOk, PackData;
    var out :| PackData(c, st.snd, cwnd, st'.snd, out)
      && st' == st.(snd := st'.snd, net := st.net + if out.Some? then {DataMsg(out.value)} else {});
    PackedIs(c, st.snd, cwnd, st'.snd, out);
    if out.Some? {
      PackDataOk(c, st.snd, cwnd, st'.snd, out);
      var y := out.value.seqno;
      assert out.value.chunk == st.accepted[y - c.isn];
      assert Transmits(c, st, st', PackStep(cwnd), y);
    }
    if Transmits(c, st, st', PackStep(cwnd), x) {
      PackedIs(c, st.snd, cwnd, st'.snd, Some(Packet(x, st.accepted[x - c.isn])));
    }
  }

  /** Whatever was sent is on the network, and nothing else: the numbers from isn to curr. */
  lemma {:induction false} SentExact(c: Config, run: seq<State>, i: nat, x: int)
    requires ConfigOk(c) && Run(c, run) && i < |run|
    ensures c.isn <= x <= run[i].snd.curr <==>
      0 <= x - c.isn < |run[i].accepted| && DataMsg(Packet(x, run[i].accepted[x - c.isn])) in run[i].net
  {
    hide Inv, Next, Follows, Run;
    if i == 0 {
      StartOf(c, run);
    } else {
      SentExact(c, run, i - 1, x);
      Reachable(c, run, i - 1);
      Reachable(c, run, i);
      StepOf(c, run, i - 1);
      var step := TakenStep(c, run[i - 1], run[i]);
      NextGrows(c, run[i - 1], run[i], step);
      if x > run[i - 1].snd.curr {
        SentMoves(c, run[i - 1], run[i], step, x);
      }
    }
    SentIsOk(c, run, i, x);
  }

  lemma SentIsOk(c: Config, run: seq<State>, i: nat, x: int)
    requires ConfigOk(c) && Run(c, run) && i < |run|
    ensures 0 <= x - c.isn < |run[i].accepted| && DataMsg(Packet(x, run[i].accepted[x - c.isn])) in run[i].net ==>
      c.isn <= x <= run[i].snd.curr
    ensures run[i].snd.curr < c.isn + |run[i].accepted|
  {
    hide SenderLinked, ReceiverLinked, BytesConserved, RcvOk, WindowsAgree, Run;
    Reachable(c, run, i);
    BufferedIsAccepted(c, run[i]);
    if 0 <= x - c.isn < |run[i].accepted| && DataMsg(Packet(x, run[i].accepted[x - c.isn])) in run[i].net {
      assert MessageOk(c, run[i], DataMsg(Packet(x, run[i].accepted[x - c.isn])));
    }
  }

  lemma BufferedIsAccepted(c: Config, st: State)
    requires Inv(c, st)
    ensures st.snd.curr < c.isn + |st.accepted| && c.isn <= st.snd.lastAck
  {
    hide ReceiverLinked, BytesConserved, RcvOk, WindowsAgree, MessageOk;
  }

  /** Only packData sends new numbers, one after the other. */
  lemma SentMoves(c: Config, st: State, st': State, step: Step, x: int)
    requires Inv(c, st) && Next(c, st, st', step) && x > st.snd.curr && st.accepted <= st'.accepted
    ensures c.isn <= x <= st'.snd.curr ==>
      0 <= x - c.isn < |st'.accepted| && DataMsg(Packet(x, st'.accepted[x - c.isn])) in st'.net
  {
    hide SenderLinked, ReceiverLinked, BytesConserved, WindowsAgree, MessageOk, RcvOk, PackData, Send, OnNak, SndOk;
    match step
    case PackStep(cwnd) =>
      PackSends(c, st, st', cwnd);
    case SendStep(data, inOrder) => SendKeepsCounters(c, st.snd, data, inOrder);
    case LossStep(losses) => OnNakOk(c, st.snd, losses);
    case _ =>
  }

  lemma PackSends(c: Config, st: State, st': State, cwnd: int)
    requires Inv(c, st) && Next(c, st, st', PackStep(cwnd))
    ensures st'.accepted == st.accepted && (st'.snd.curr == st.snd.curr || st'.snd.curr == st.snd.curr + 1)
    ensures st'.snd.curr == st.snd.curr + 1 ==>
      && 0 <= st'.snd.curr - c.isn < |st.accepted|
      && DataMsg(Packet(st'.snd.curr, st.accepted[st'.snd.curr - c.isn])) in st'.net
  {
    hide SenderLinked, ReceiverLinked, BytesConserved, WindowsAgree, MessageOk, RcvOk, PackData, Next;
    TransmitsExact(c, st, st', cwnd, st'.snd.curr);
    if x: int :| Transmits(c, st, st', PackStep(cwnd), x) {
      TransmitsExact(c, st, st', cwnd, x);
    }
    PackMovesOnly(c, st, st', cwnd);
  }

  lemma PackMovesOnly(c: Config, st: State, st': State, cwnd: int)
    requires Inv(c, st) && Next(c, st, st', PackStep(cwnd))
    ensures st' == st.(snd := st'.snd, net := st'.net)
  {
    hide Inv;
  }

  // ---------- Windows ----------

  /** If every packData step of a run saw a congestion window of at most w, there are never more than
      w packets in flight. */
  lemma {:induction false} CongestionBound(c: Config, run: seq<State>, steps: seq<Step>, j: nat, w: nat)
    requires ConfigOk(c) && Trace(c, run, steps) && j < |run|
    requires forall i :: 0 <= i < |steps| && steps[i].PackStep? ==> steps[i].cwnd <= w
    ensures run[j].snd.curr + 1 - run[j].snd.lastAck <= w
  {
    hide Inv, Next, Takes;
    if j > 0 {
      CongestionBound(c, run, steps, j - 1, w);
      StepAt(c, run, steps, j - 1);
      FlightMoves(c, run[j - 1], run[j], steps[j - 1]);
    }
  }

  function Flight(s: Snd): int {
    s.curr + 1 - s.lastAck
  }

  lemma FlightMoves(c: Config, st: State, st': State, step: Step)
    requires Inv(c, st) && Next(c, st, st', step)
    ensures Flight(st'.snd) <= Flight(st.snd) || (step.PackStep? && Flight(st'.snd) <= Min(step.cwnd, st.snd.window))
  {
    hide SenderLinked, ReceiverLinked, BytesConserved, RcvOk, WindowsAgree, MessageOk, PackData, Send, OnNak;
    match step
    case PackStep(cwnd) =>
      if x: int :| Transmits(c, st, st', step, x) {
        TransmitsExact(c, st, st', cwnd, x);
      } else {
        TransmitsExact(c, st, st', cwnd, 0);
      }
    case SendStep(data, inOrder) => SendKeepsCounters(c, st.snd, data, inOrder);
    case LossStep(losses) => OnNakOk(c, st.snd, losses);
    case _ =>
  }

  // ---------- The loss list ----------

  /** A step reports packet x lost. */
  ghost predicate Marks(s: Snd, step: Step, x: int) {
    || (step.ExpireStep? && s.lastAck <= x <= s.curr)
    || (step.LossStep? && Reported(step.losses, s.lastAck, x))
  }

  lemma LossesMove(c: Config, st: State, st': State, step: Step, x: int)
    requires Inv(c, st) && Next(c, st, st', step)
    ensures x in st'.snd.lost <==>
      x >= st'.snd.lastDataAck && (Marks(st.snd, step, x) || (x in st.snd.lost && !Transmits(c, st, st', step, x)))
  {
    hide SenderLinked, ReceiverLinked, BytesConserved, RcvOk, WindowsAgree, MessageOk, PackData, Send, OnNak;
    match step
    case PackStep(cwnd) => PackLosses(c, st, st', cwnd, x);
    case SendStep(data, inOrder) => SendKeepsCounters(c, st.snd, data, inOrder);
    case FullAckStep(ack, avail) => AckIsSent(c, st, ack, avail);
    case LossStep(losses) =>
      hide SndOk, Marks;
      OnNakOk(c, st.snd, losses);
      ReportIsHonest(c, st, losses);
      HonestNakIsUnion(st.snd, losses);
      ReportMarks(c, st, losses, x);
    case _ =>
  }

  lemma ReportMarks(c: Config, st: State, losses: seq<Loss>, x: int)
    requires Inv(c, st)
    ensures Marks(st.snd, LossStep(losses), x) <==> Reported(losses, st.snd.lastAck, x)
    ensures x in st.snd.lost || Reported(losses, st.snd.lastAck, x) ==> x >= st.snd.lastDataAck
  {
    hide SenderLinked, ReceiverLinked, BytesConserved, RcvOk, WindowsAgree, MessageOk;
  }

  lemma PackLosses(c: Config, st: State, st': State, cwnd: int, x: int)
    requires Inv(c, st) && Next(c, st, st', PackStep(cwnd))
    ensures st'.snd.lastDataAck == st.snd.lastDataAck && (x in st.snd.lost ==> x >= st.snd.lastDataAck)
    ensures x in st'.snd.lost <==> x in st.snd.lost && !Transmits(c, st, st', PackStep(cwnd), x)
  {
    hide SenderLinked, ReceiverLinked, BytesConserved, RcvOk, WindowsAgree, MessageOk, Transmits, Next;
    if y: int :| Transmits(c, st, st', PackStep(cwnd), y) {
      TransmitsExact(c, st, st', cwnd, y);
    }
    TransmitsExact(c, st, st', cwnd, x);
  }

  lemma ReportIsHonest(c: Config, st: State, losses: seq<Loss>)
    requires Inv(c, st) && LossMsg(losses) in st.net
    ensures Honest(losses, st.snd.curr)
  {
    hide SenderLinked, ReceiverLinked, BytesConserved, RcvOk, SndOk;
    assert MessageOk(c, st, LossMsg(losses));
  }

  ghost predicate MarkedAt(run: seq<State>, steps: seq<Step>, i: nat, x: int)
    requires i < |steps| < |run|
  {
    Marks(run[i].snd, steps[i], x)
  }

  ghost predicate SentAt(c: Config, run: seq<State>, steps: seq<Step>, i: nat, x: int)
    requires i < |steps| < |run|
  {
    Transmits(c, run[i], run[i + 1], steps[i], x)
  }

  /** Step i reported x lost and until step j it was not sent again. */
  ghost predicate Owed(c: Config, run: seq<State>, steps: seq<Step>, j: nat, i: nat, x: int)
    requires j < |run| == |steps| + 1
  {
    i < j && MarkedAt(run, steps, i, x) && forall k :: i < k < j ==> !SentAt(c, run, steps, k, x)
  }

  /** The loss list holds exactly what was reported lost, by a report or by the timer, and since then was
      neither sent again nor acknowledged. */
  lemma {:induction false} LostExact(c: Config, run: seq<State>, steps: seq<Step>, j: nat, x: int)
    requires ConfigOk(c) && Trace(c, run, steps) && j < |run|
    ensures x in run[j].snd.lost <==> x >= run[j].snd.lastDataAck && exists i: nat :: Owed(c, run, steps, j, i, x)
  {
    hide Inv, Next, Takes, MarkedAt, SentAt;
    if j > 0 {
      LostExact(c, run, steps, j - 1, x);
      StepAt(c, run, steps, j - 1);
      CounterMoves(c, run[j - 1], run[j], steps[j - 1], WholeAck);
      LostStep(c, run, steps, j - 1, x);
      if MarkedAt(run, steps, j - 1, x) {
        assert Owed(c, run, steps, j, j - 1, x);
      }
      forall i: nat
        ensures Owed(c, run, steps, j, i, x) <==>
          (i == j - 1 && MarkedAt(run, steps, i, x)) || (Owed(c, run, steps, j - 1, i, x) && !SentAt(c, run, steps, j - 1, x))
      {
      }
    }
  }

  lemma LostStep(c: Config, run: seq<State>, steps: seq<Step>, i: nat, x: int)
    requires ConfigOk(c) && Trace(c, run, steps) && i < |steps|
    ensures x in run[i + 1].snd.lost <==>
      x >= run[i + 1].snd.lastDataAck && (MarkedAt(run, steps, i, x) || (x in run[i].snd.lost && !SentAt(c, run, steps, i, x)))
  {
    hide Inv, Next, Takes, Marks, Transmits;
    StepAt(c, run, steps, i);
    LossesMove(c, run[i], run[i + 1], steps[i], x);
  }

  // ---------- The timer ----------

  /** A stretch of packData steps, each under any congestion window. */
  ghost predicate Packs(c: Config, path: seq<State>, cwnds: seq<int>) {
    && |path| == |cwnds| + 1
    && forall k {:trigger cwnds[k]} | 0 <= k < |cwnds| :: Takes(c, path[k], path[k + 1], PackStep(cwnds[k]))
  }

  /** However small the windows, packData sends every lost packet again before anything new, each once
      as many steps are taken as there are lost packets. */
  lemma {:induction false} AllLostGoOut(c: Config, path: seq<State>, cwnds: seq<int>, x: int) returns (k: nat)
    requires Packs(c, path, cwnds) && Inv(c, path[0]) && |path[0].snd.lost| <= |cwnds| && x in path[0].snd.lost
    ensures k < |path[0].snd.lost| && k < |cwnds| && Transmits(c, path[k], path[k + 1], PackStep(cwnds[k]), x)
    ensures path[k].accepted == path[0].accepted
    decreases |cwnds|
  {
    hide Inv, Next, Transmits, Takes;
    assert Takes(c, path[0], path[1], PackStep(cwnds[0]));
    PackLost(c, path[0], path[1], cwnds[0], x);
    if Transmits(c, path[0], path[1], PackStep(cwnds[0]), x) {
      k := 0;
    } else {
      assert Packs(c, path[1..], cwnds[1..]) by {
        forall k | 0 <= k < |cwnds[1..]|
          ensures Takes(c, path[1..][k], path[1..][k + 1], PackStep(cwnds[1..][k]))
        {
          assert Takes(c, path[k + 1], path[k + 2], PackStep(cwnds[k + 1]));
        }
      }
      var n := AllLostGoOut(c, path[1..], cwnds[1..], x);
      k := n + 1;
    }
  }

  lemma PackLost(c: Config, st: State, st': State, cwnd: int, x: int)
    requires Inv(c, st) && Takes(c, st, st', PackStep(cwnd)) && x in st.snd.lost
    ensures Inv(c, st') && |st'.snd.lost| < |st.snd.lost| && st'.accepted == st.accepted
    ensures Transmits(c, st, st', PackStep(cwnd), x) || x in st'.snd.lost
  {
    hide Inv, Next, Transmits;
    TakenIsNext(c, st, st', PackStep(cwnd));
    NextInv(c, st, st', PackStep(cwnd));
    var y := OldestOf(st.snd.lost, x);
    TransmitsExact(c, st, st', cwnd, y);
    PackMovesOnly(c, st, st', cwnd);
  }

  lemma {:induction false} OldestOf(s: set<int>, x: int) returns (y: int)
    requires x in s
    ensures IsLeast(y, s)
    decreases |s|
  {
    if z :| z in s && z < x {
      assert x !in s - {x};
      y := OldestOf(s - {x}, z);
      assert forall w :: w in s ==> w == x || w in s - {x};
    } else {
      y := x;
    }
  }

  /** One expiration of the timer is enough: after it packData alone, whatever the windows allow, sends
      every packet in flight again, with the chunk that was accepted under its number. */
  lemma TimeoutResendsAll(c: Config, run: seq<State>, i: nat, path: seq<State>, cwnds: seq<int>, x: int) returns (k: nat)
    requires ConfigOk(c) && Run(c, run) && i < |run|
    requires Packs(c, path, cwnds) && Takes(c, run[i], path[0], ExpireStep) && |cwnds| >= |path[0].snd.lost|
    requires run[i].snd.lastAck <= x <= run[i].snd.curr
    ensures k < |cwnds| && Transmits(c, path[k], path[k + 1], PackStep(cwnds[k]), x)
    ensures path[k].accepted == run[i].accepted
  {
    hide Run, Next, Transmits, SenderLinked, ReceiverLinked, BytesConserved, RcvOk, WindowsAgree, MessageOk;
    Reachable(c, run, i);
    TakenIsNext(c, run[i], path[0], ExpireStep);
    NextInv(c, run[i], path[0], ExpireStep);
    ExpiryMarks(c, run[i], path[0], x);
    k := AllLostGoOut(c, path, cwnds, x);
  }

  lemma ExpiryMarks(c: Config, st: State, st': State, x: int)
    requires Inv(c, st) && Next(c, st, st', ExpireStep) && st.snd.lastAck <= x <= st.snd.curr
    ensures x in st'.snd.lost && st'.accepted == st.accepted
  {
    hide Inv;
    InvIsOk(c, st);
    LossesMove(c, st, st', ExpireStep, x);
    CounterMoves(c, st, st', ExpireStep, WholeAck);
  }

  lemma InvIsOk(c: Config, st: State)
    requires Inv(c, st)
    ensures ConfigOk(c) && SndOk(c, st.snd) && RcvOk(c, st.rcv)
  {
  }

  /** Such steps can always be taken, and never run out. */
  lemma {:induction false} PacksExist(c: Config, st: State, cwnds: seq<int>) returns (path: seq<State>)
    requires Inv(c, st)
    ensures Packs(c, path, cwnds) && path[0] == st
    decreases |cwnds|
  {
    hide Inv, Next, Takes;
    if |cwnds| == 0 {
      path := [st];
    } else {
      var st' := PackOnce(c, st, cwnds[0]);
      var rest := PacksExist(c, st', cwnds[1..]);
      path := [st] + rest;
      forall k | 0 <= k < |cwnds|
        ensures Takes(c, path[k], path[k + 1], PackStep(cwnds[k]))
      {
        if k > 0 {
          assert cwnds[1..][k - 1] == cwnds[k];
        }
      }
    }
  }

  lemma PackOnce(c: Config, st: State, cwnd: int) returns (st': State)
    requires Inv(c, st)
    ensures Inv(c, st') && Takes(c, st, st', PackStep(cwnd))
  {
    hide SenderLinked, ReceiverLinked, BytesConserved, RcvOk, WindowsAgree, MessageOk;
    var s' := st.snd;
    var out: Option<Packet> := None;
    if st.snd.lost != {} {
      var y := Pick(st.snd.lost);
      var x := OldestOf(st.snd.lost, y);
      s' := st.snd.(lost := st.snd.lost - {x});
      out := Some(Packet(x, st.snd.unacked[x - st.snd.lastDataAck]));
    } else if Min(st.snd.window, cwnd) >= st.snd.curr + 1 - st.snd.lastAck + 1
              && st.snd.curr + 1 - st.snd.lastDataAck < |st.snd.unacked| {
      s' := st.snd.(curr := st.snd.curr + 1);
      out := Some(Packet(st.snd.curr + 1, st.snd.unacked[st.snd.curr + 1 - st.snd.lastDataAck]));
    }
    assert PackData(c, st.snd, cwnd, s', out);
    st' := st.(snd := s', net := st.net + if out.Some? then {DataMsg(out.value)} else {});
    assert st' == st.(snd := st'.snd, net := st.net + if out.Some? then {DataMsg(out.value)} else {});
    assert Next(c, st, st', PackStep(cwnd));
    NextInv(c, st, st', PackStep(cwnd));
  }

  // ---------- Sending ----------

  /** How many messages end in a row of chunks. */
  function Ends(chunks: seq<Chunk>): nat {
    if |chunks| == 0 then 0 else Ends(chunks[..|chunks| - 1]) + if chunks[|chunks| - 1].msgNo.last then 1 else 0
  }

  lemma {:induction false} EndsAppend(a: seq<Chunk>, b: seq<Chunk>)
    ensures Ends(a + b) == Ends(a) + Ends(b)
    decreases |b|
  {
    if |b| == 0 {
      assert a + b == a;
    } else {
      assert (a + b)[..|a + b| - 1] == a + b[..|b| - 1];
      EndsAppend(a, b[..|b| - 1]);
    }
  }

  lemma {:induction false} NoEnds(chunks: seq<Chunk>)
    requires forall i :: 0 <= i < |chunks| ==> !chunks[i].msgNo.last
    ensures Ends(chunks) == 0
    decreases |chunks|
  {
    if |chunks| > 0 {
      NoEnds(chunks[..|chunks| - 1]);
    }
  }

  /** The first message is number 1, and the number grows by one where a message ends. */
  ghost predicate Numbered(chunks: seq<Chunk>, next: nat) {
    && next == 1 + Ends(chunks)
    && forall k :: 0 <= k < |chunks| ==> chunks[k].msgNo.number == 1 + Ends(chunks[..k])
  }

  lemma NumberedMore(all: seq<Chunk>, next: nat, data: seq<byte>, mss: nat, inOrder: bool)
    requires Numbered(all, next) && mss > 0 && data != []
    ensures Numbered(all + Split(data, mss, true, inOrder, next), next + 1)
  {
    hide Ends, Split;
    var more := Split(data, mss, true, inOrder, next);
    SplitKeepsBytes(data, mss, true, inOrder, next);
    CeilFits(|data|, mss, 0);
    var n := |more|;
    forall i | 0 <= i < n
      ensures more[i].msgNo.number == next && (more[i].msgNo.last <==> i == n - 1)
    {
      SplitExact(data, mss, true, inOrder, next, i);
    }
    forall k | 0 <= k < |all + more|
      ensures (all + more)[k].msgNo.number == 1 + Ends((all + more)[..k])
    {
      if k < |all| {
        assert (all + more)[..k] == all[..k];
      } else {
        assert (all + more)[..k] == all + more[..k - |all|];
        EndsAppend(all, more[..k - |all|]);
        NoEnds(more[..k - |all|]);
      }
    }
    LastEnds(more);
    EndsAppend(all, more);
  }

  lemma LastEnds(chunks: seq<Chunk>)
    requires |chunks| > 0 && forall i :: 0 <= i < |chunks| ==> (chunks[i].msgNo.last <==> i == |chunks| - 1)
    ensures Ends(chunks) == 1
  {
    NoEnds(chunks[..|chunks| - 1]);
  }

  /** send appends the chunks of the longest front that fits, as one message with the next number. */
  lemma SendExact(c: Config, st: State, st': State, data: seq<byte>, inOrder: bool)
    requires Inv(c, st) && Next(c, st, st', SendStep(data, inOrder)) && Numbered(st.accepted, st.snd.nextMsgNo)
    requires |st.snd.unacked| <= c.sndBufSize
    ensures var taken := Accepted(c, st.snd, data);
      && taken <= data && st'.sent == st.sent + taken
      && st'.accepted == st.accepted + Split(taken, c.payloadSize, true, inOrder, 1 + Ends(st.accepted))
      && Numbered(st'.accepted, st'.snd.nextMsgNo) && |st'.snd.unacked| <= c.sndBufSize
  {
    hide SndOk, RcvOk, SenderLinked, ReceiverLinked, WindowsAgree, BytesConserved, MessageOk, Ends, Split;
    var taken := Accepted(c, st.snd, data);
    AcceptedIsLongest(c, st.snd, data, |taken|);
    SplitKeepsBytes(taken, c.payloadSize, true, inOrder, st.snd.nextMsgNo);
    SplitKeepsBytes(data[..|taken|], c.payloadSize, true, false, st.snd.nextMsgNo);
    if taken == [] {
      CeilFits(0, c.payloadSize, 0);
      assert st'.accepted == st.accepted + [] == st.accepted;
      assert Split(taken, c.payloadSize, true, inOrder, st.snd.nextMsgNo) == [];
      assert st.snd.unacked[|st.snd.unacked|..] == [];
    } else {
      assert data[..|taken|] == taken;
      var more := Split(taken, c.payloadSize, true, inOrder, st.snd.nextMsgNo);
      assert (st.snd.unacked + more)[|st.snd.unacked|..] == more;
      NumberedMore(st.accepted, st.snd.nextMsgNo, taken, c.payloadSize, inOrder);
    }
  }

  /** In every run messages are numbered from 1 in the order they were accepted, whatever was lost or
      repeated since, and the send buffer never holds more chunks than its limit. */
  lemma {:induction false} NumbersExact(c: Config, run: seq<State>, i: nat)
    requires ConfigOk(c) && Run(c, run) && i < |run|
    ensures Numbered(run[i].accepted, run[i].snd.nextMsgNo) && |run[i].snd.unacked| <= c.sndBufSize
  {
    hide Inv, Next, Follows, Run, Numbered;
    if i == 0 {
      StartOf(c, run);
      NumberedStart();
    } else {
      NumbersExact(c, run, i - 1);
      Reachable(c, run, i - 1);
      StepOf(c, run, i - 1);
      var step := TakenStep(c, run[i - 1], run[i]);
      if step.SendStep? {
        SendExact(c, run[i - 1], run[i], step.data, step.inOrder);
      } else {
        OthersAccept(c, run[i - 1], run[i], step);
      }
    }
  }

  lemma NumberedStart()
    ensures Numbered([], 1)
  {
  }

  lemma OthersAccept(c: Config, st: State, st': State, step: Step)
    requires Inv(c, st) && Next(c, st, st', step) && !step.SendStep?
    ensures st'.accepted == st.accepted && st'.sent == st.sent && st'.snd.nextMsgNo == st.snd.nextMsgNo
    ensures |st'.snd.unacked| <= |st.snd.unacked|
  {
    hide SenderLinked, ReceiverLinked, BytesConserved, RcvOk, WindowsAgree, MessageOk, OnNak;
    if step.LossStep? {
      OnNakOk(c, st.snd, step.losses);
    } else if step.FullAckStep? {
      AckIsSent(c, st, step.ack, step.avail);
    }
  }
}
