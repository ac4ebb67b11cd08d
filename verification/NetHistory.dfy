/** Every message on the network explained by the step that sent it. */
module NetHistory {
  import opened Options
  import opened Chunks
  import opened SenderSpec
  import opened ReceiverSpec
  import opened Protocol
  import opened Runs
  import opened History
  import opened SenderHistory
  import R = ReceiverHistory

  /** Packet x fits the buffer, is new, and leaves a gap behind the largest number received. */
  ghost predicate Opens(c: Config, st: State, step: Step, x: int) {
    R.Arrives(c, st, step, x) && x !in st.rcv.slots && x > st.rcv.curr + 1
  }

  /** A step sends a message:
      packets as packData chooses them;
      a full acknowledgement with what is free of the buffer, at least 2, for a number not confirmed yet
      and, if it is no news, not too early;
      a lite acknowledgement for any number but the confirmed one;
      a loss report on request, or at once for a gap, as a pair only if it is longer than one;
      and a confirmation for every full acknowledgement. */
  ghost predicate Emits(c: Config, st: State, st': State, step: Step, m: Message) {
    match m
    case DataMsg(p) =>
      Transmits(c, st, st', step, p.seqno) && p.chunk == st.accepted[p.seqno - c.isn]
    case AckMsg(NoAck) => false
    case AckMsg(LiteAck(a)) =>
      step.AckStep? && step.lite && IsAckPoint(st.rcv, a) && a != st.rcv.lastAckAck
    case AckMsg(FullAck(a, v)) =>
      && step.AckStep? && !step.lite && IsAckPoint(st.rcv, a) && a > st.rcv.lastAckAck
      && (a > st.rcv.lastAck || !step.quiet)
      && v == Max(st.rcv.start + c.rcvBufSize - 1 - a, 2)
    case LossMsg(losses) =>
      || (step.ReportStep? && losses == step.losses)
      || (exists x :: Opens(c, st, step, x)
           && losses == [if x == st.rcv.curr + 2 then Single(x - 1) else Pair(st.rcv.curr + 1, x - 1)])
    case AckAckMsg(a) => step.FullAckStep? && step.ack == a
  }

  lemma NetMoves(c: Config, st: State, st': State, step: Step, m: Message)
    requires Inv(c, st) && Next(c, st, st', step)
    ensures m in st'.net <==> m in st.net || Emits(c, st, st', step, m)
  {
    hide SenderLinked, ReceiverLinked, BytesConserved, WindowsAgree, MessageOk, SndOk, Covered;
    hide Send, OnNak, PackData, OnFullAck, Transmits, IsAckPoint;
    match step
    case PackStep(cwnd) => PackNet(c, st, st', cwnd, m);
    case DataStep(p) => DataNet(c, st, st', p, m);
    case AckStep(lite, quiet) => AckNet(c, st, st', lite, quiet, m);
    case _ => NoPacks(c, st, st', step, m);
  }

  lemma NoPacks(c: Config, st: State, st': State, step: Step, m: Message)
    ensures !step.PackStep? ==> !(m.DataMsg? && Transmits(c, st, st', step, m.packet.seqno))
  {
  }

  lemma PackNet(c: Config, st: State, st': State, cwnd: int, m: Message)
    requires Inv(c, st) && Next(c, st, st', PackStep(cwnd))
    ensures m in st'.net <==> m in st.net || Emits(c, st, st', PackStep(cwnd), m)
  {
    hide SenderLinked, ReceiverLinked, BytesConserved, WindowsAgree, MessageOk, RcvOk, PackData;
    var out :| PackData(c, st.snd, cwnd, st'.snd, out)
      && st' == st.(snd := st'.snd, net := st.net + if out.Some? then {DataMsg(out.value)} else {});
    PackedIs(c, st.snd, cwnd, st'.snd, out);
    if out.Some? {
      PacketIsAccepted(c, st, cwnd, st'.snd, out.value);
      assert Transmits(c, st, st', PackStep(cwnd), out.value.seqno);
    }
    if m.DataMsg? && Transmits(c, st, st', PackStep(cwnd), m.packet.seqno) {
      var x := m.packet.seqno;
      PackedIs(c, st.snd, cwnd, st'.snd, Some(Packet(x, st.accepted[x - c.isn])));
    }
  }

  lemma PacketIsAccepted(c: Config, st: State, cwnd: int, s': Snd, p: Packet)
    requires Inv(c, st) && PackData(c, st.snd, cwnd, s', Some(p))
    ensures 0 <= p.seqno - c.isn < |st.accepted| && p.chunk == st.accepted[p.seqno - c.isn]
  {
    hide ReceiverLinked, BytesConserved, WindowsAgree, MessageOk, RcvOk, PackData;
    PackedIs(c, st.snd, cwnd, s', Some(p));
    PackDataOk(c, st.snd, cwnd, s', Some(p));
  }

  lemma DataNet(c: Config, st: State, st': State, p: Packet, m: Message)
    requires Inv(c, st) && Next(c, st, st', DataStep(p))
    ensures m in st'.net <==> m in st.net || Emits(c, st, st', DataStep(p), m)
  {
    hide SenderLinked, ReceiverLinked, BytesConserved, WindowsAgree, MessageOk, SndOk, RcvOk, Transmits;
    NoPacks(c, st, st', DataStep(p), m);
    var (r', out) := OnData(c, st.rcv, p.seqno, p.chunk);
    assert out.Some? <==> Opens(c, st, DataStep(p), p.seqno);
  }

  lemma AckNet(c: Config, st: State, st': State, lite: bool, quiet: bool, m: Message)
    requires Inv(c, st) && Next(c, st, st', AckStep(lite, quiet))
    ensures m in st'.net <==> m in st.net || Emits(c, st, st', AckStep(lite, quiet), m)
  {
    hide SenderLinked, ReceiverLinked, BytesConserved, WindowsAgree, MessageOk, SndOk, RcvOk, Transmits, IsAckPoint, SendAck;
    NoPacks(c, st, st', AckStep(lite, quiet), m);
    var out :| SendAck(c, st.rcv, lite, quiet, st'.rcv, out)
      && st' == st.(rcv := st'.rcv, net := st.net + AckOut(out));
    var a := AckIs(c, st.rcv, lite, quiet, st'.rcv, out);
    OneAckPoint(st.rcv);
  }

  /** The acknowledgement sent, if any, is that of the acknowledgement point. */
  lemma AckIs(c: Config, r: Rcv, lite: bool, quiet: bool, r': Rcv, out: Ack) returns (a: int)
    requires RcvOk(c, r) && SendAck(c, r, lite, quiet, r', out)
    ensures IsAckPoint(r, a)
    ensures out == if a == r.lastAckAck then NoAck
                   else if lite then LiteAck(a)
                   else if a > r.lastAck || !quiet then FullAck(a, Max(r.start + c.rcvBufSize - 1 - a, 2))
                   else NoAck
    ensures r.lastAckAck <= a && r' == if lite then r else r.(lastAck := a)
  {
    a :| IsAckPoint(r, a) &&
      if a == r.lastAckAck then r' == r && out == NoAck
      else if lite then r' == r && out == LiteAck(a)
      else if a < r.lastAck || (a == r.lastAck && quiet) then r' == r && out == NoAck
      else
        && r' == r.(lastAck := a)
        && out == if a > r.lastAckAck then FullAck(a, Max(AvailBufSize(c, r'), 2)) else NoAck;
  }

  lemma OneAckPoint(r: Rcv)
    ensures forall a, b :: IsAckPoint(r, a) && IsAckPoint(r, b) ==> a == b
  {
  }

  ghost predicate EmitsAt(c: Config, run: seq<State>, steps: seq<Step>, i: nat, m: Message)
    requires i < |steps| < |run|
  {
    Emits(c, run[i], run[i + 1], steps[i], m)
  }

  ghost predicate Emitted(c: Config, run: seq<State>, steps: seq<Step>, j: nat, m: Message)
    requires j <= |steps| < |run|
  {
    exists i: nat :: i < j && EmitsAt(c, run, steps, i, m)
  }

  /** The network holds exactly the messages that steps sent: every packet, acknowledgement, report and
      confirmation that is due goes out, and no other. */
  lemma {:induction false} NetExact(c: Config, run: seq<State>, steps: seq<Step>, j: nat, m: Message)
    requires ConfigOk(c) && Trace(c, run, steps) && j < |run|
    ensures m in run[j].net <==> Emitted(c, run, steps, j, m)
  {
    hide Inv, Next, Takes, Emits;
    if j > 0 {
      NetExact(c, run, steps, j - 1, m);
      StepAt(c, run, steps, j - 1);
      NetMoves(c, run[j - 1], run[j], steps[j - 1], m);
      assert EmitsAt(c, run, steps, j - 1, m) <==> Emits(c, run[j - 1], run[j], steps[j - 1], m);
    }
  }

  /** Only a whole acknowledgement moves lastAck, to the first packet that did not arrive. */
  lemma LastAckExact(c: Config, run: seq<State>, steps: seq<Step>, i: nat)
    requires ConfigOk(c) && Trace(c, run, steps) && i < |steps|
    ensures if steps[i].AckStep? && !steps[i].lite then R.FirstMissing(c, run, steps, i, run[i + 1].rcv.lastAck)
            else run[i + 1].rcv.lastAck == run[i].rcv.lastAck
  {
    hide Next, Takes, SenderLinked, ReceiverLinked, BytesConserved, WindowsAgree, MessageOk, SndOk, RcvOk;
    hide R.FirstMissing, IsAckPoint, SendAck;
    StepAt(c, run, steps, i);
    if steps[i].AckStep? {
      var a := AckStepIs(c, run[i], run[i + 1], steps[i].lite, steps[i].quiet);
      R.AckPointExact(c, run, steps, i, a);
    } else {
      R.LastAckStays(c, run[i], run[i + 1], steps[i]);
    }
  }

  lemma AckStepIs(c: Config, st: State, st': State, lite: bool, quiet: bool) returns (a: int)
    requires Inv(c, st) && Next(c, st, st', AckStep(lite, quiet))
    ensures IsAckPoint(st.rcv, a) && st'.rcv.lastAck == if lite then st.rcv.lastAck else a
  {
    hide SenderLinked, ReceiverLinked, BytesConserved, WindowsAgree, MessageOk, SndOk, RcvOk, IsAckPoint, SendAck;
    var out :| SendAck(c, st.rcv, lite, quiet, st'.rcv, out)
      && st' == st.(rcv := st'.rcv, net := st.net + AckOut(out));
    a := AckIs(c, st.rcv, lite, quiet, st'.rcv, out);
  }

  // ---------- Loss reports ----------

  ghost predicate Names(losses: seq<Loss>, x: int) {
    exists i :: 0 <= i < |losses| && LossLo(losses[i]) <= x <= LossHi(losses[i])
  }

  /** Whatever the receiver is missing it has reported: in every state of every run every number in its
      loss list is named by a report on the network. */
  lemma {:induction false} EveryLossReported(c: Config, run: seq<State>, i: nat, x: int) returns (losses: seq<Loss>)
    requires ConfigOk(c) && Run(c, run) && i < |run| && x in run[i].rcv.lost
    ensures LossMsg(losses) in run[i].net && Names(losses, x)
  {
    hide Inv, Next, Follows, Run, Names;
    if i == 0 {
      StartOf(c, run);
      assert false;
    } else {
      Reachable(c, run, i - 1);
      StepOf(c, run, i - 1);
      var step := TakenStep(c, run[i - 1], run[i]);
      NextGrows(c, run[i - 1], run[i], step);
      if x in run[i - 1].rcv.lost {
        losses := EveryLossReported(c, run, i - 1, x);
      } else {
        losses := NewLossReported(c, run[i - 1], run[i], step, x);
      }
    }
  }

  lemma NewLossReported(c: Config, st: State, st': State, step: Step, x: int) returns (losses: seq<Loss>)
    requires Inv(c, st) && Next(c, st, st', step) && x in st'.rcv.lost && x !in st.rcv.lost
    ensures LossMsg(losses) in st'.net && Names(losses, x)
  {
    hide Inv, Next, Names;
    if step.DataStep? {
      losses := GapReported(c, st, st', step.packet, x);
    } else {
      OthersMissNothing(c, st, st', step);
      assert false;
    }
  }

  lemma OthersMissNothing(c: Config, st: State, st': State, step: Step)
    requires Inv(c, st) && Next(c, st, st', step) && !step.DataStep?
    ensures st'.rcv.lost == st.rcv.lost
  {
    hide SenderLinked, ReceiverLinked, BytesConserved, WindowsAgree, MessageOk, SndOk, Covered, Send, OnNak, PackData, OnFullAck;
    match step
    case AckStep(lite, quiet) => R.AckStepMoves(c, st, st', lite, quiet);
    case RecvStep(len) => R.ReadFrees(c, st.rcv, len);
    case _ =>
  }

  lemma GapReported(c: Config, st: State, st': State, p: Packet, x: int) returns (losses: seq<Loss>)
    requires Inv(c, st) && Next(c, st, st', DataStep(p)) && x in st'.rcv.lost && x !in st.rcv.lost
    ensures LossMsg(losses) in st'.net && Names(losses, x)
  {
    hide SenderLinked, ReceiverLinked, BytesConserved, WindowsAgree, MessageOk, SndOk, Covered;
    var (r', out) := OnData(c, st.rcv, p.seqno, p.chunk);
    losses := [out.value];
    assert LossLo(losses[0]) <= x <= LossHi(losses[0]);
  }

  /** Every report on the network was true when it was sent: all numbers it names were missing then. */
  lemma {:induction false} ReportsAreTrue(c: Config, run: seq<State>, i: nat, losses: seq<Loss>) returns (k: nat)
    requires ConfigOk(c) && Run(c, run) && i < |run| && LossMsg(losses) in run[i].net
    ensures k <= i && LossReport(run[k].rcv, losses)
  {
    hide Inv, Next, Follows, Run, LossReport, Emits;
    if i == 0 {
      StartOf(c, run);
      assert false;
    } else {
      Reachable(c, run, i - 1);
      StepOf(c, run, i - 1);
      var step := TakenStep(c, run[i - 1], run[i]);
      NetMoves(c, run[i - 1], run[i], step, LossMsg(losses));
      if LossMsg(losses) in run[i - 1].net {
        k := ReportsAreTrue(c, run, i - 1, losses);
      } else {
        k := i;
        SentReportIsTrue(c, run[i - 1], run[i], step, losses);
      }
    }
  }

  lemma SentReportIsTrue(c: Config, st: State, st': State, step: Step, losses: seq<Loss>)
    requires Inv(c, st) && Next(c, st, st', step) && Emits(c, st, st', step, LossMsg(losses))
    ensures LossReport(st'.rcv, losses)
  {
    hide Inv, Next, LossReport;
    if step.DataStep? {
      GapReportIsTrue(c, st, st', step.packet, losses);
    } else {
      PeriodicReportIsTrue(c, st, st', losses);
    }
  }

  lemma PeriodicReportIsTrue(c: Config, st: State, st': State, losses: seq<Loss>)
    requires Inv(c, st) && Next(c, st, st', ReportStep(losses))
    ensures LossReport(st'.rcv, losses)
  {
    hide LossReport, RcvOk, SndOk, SenderLinked, ReceiverLinked, BytesConserved, WindowsAgree, MessageOk;
  }

  lemma GapReportIsTrue(c: Config, st: State, st': State, p: Packet, losses: seq<Loss>)
    requires Inv(c, st) && Next(c, st, st', DataStep(p)) && Emits(c, st, st', DataStep(p), LossMsg(losses))
    ensures LossReport(st'.rcv, losses)
  {
    hide SenderLinked, ReceiverLinked, BytesConserved, WindowsAgree, MessageOk, SndOk, Covered, Interval;
    var x :| Opens(c, st, DataStep(p), x)
      && losses == [if x == st.rcv.curr + 2 then Single(x - 1) else Pair(st.rcv.curr + 1, x - 1)];
    assert st'.rcv.lost == st.rcv.lost + Interval(st.rcv.curr + 1, x - 1);
    assert LossLo(losses[0]) == st.rcv.curr + 1 && LossHi(losses[0]) == x - 1;
  }
}
