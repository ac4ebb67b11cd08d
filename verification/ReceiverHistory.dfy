/** The receiver's state explained by what happened: what it holds, misses, acknowledges and reports are
    functions of the packets that arrived. */
module ReceiverHistory {
  import opened Chunks
  import opened SenderSpec
  import opened ReceiverSpec
  import opened Protocol
  import opened Runs
  import opened History

  /** Packet x arrives and lies inside the buffer, whose last slot stays empty. */
  ghost predicate Arrives(c: Config, st: State, step: Step, x: int) {
    step.DataStep? && step.packet.seqno == x && st.rcv.lastAck <= x <= st.rcv.start + c.rcvBufSize - 2
  }

  ghost predicate ArrivesAt(c: Config, run: seq<State>, steps: seq<Step>, i: nat, x: int)
    requires i < |steps| < |run|
  {
    Arrives(c, run[i], steps[i], x)
  }

  /** Packet x arrived before step j. */
  ghost predicate Arrived(c: Config, run: seq<State>, steps: seq<Step>, j: nat, x: int)
    requires j <= |steps| < |run|
  {
    exists i: nat :: i < j && ArrivesAt(c, run, steps, i, x)
  }

  lemma ArrivedMore(c: Config, run: seq<State>, steps: seq<Step>, j: nat, x: int)
    requires j < |steps| < |run|
    ensures Arrived(c, run, steps, j + 1, x) <==> Arrived(c, run, steps, j, x) || ArrivesAt(c, run, steps, j, x)
  {
    hide ArrivesAt;
    if Arrived(c, run, steps, j + 1, x) {
      var i: nat :| i < j + 1 && ArrivesAt(c, run, steps, i, x);
      assert i < j ==> Arrived(c, run, steps, j, x);
    }
    if Arrived(c, run, steps, j, x) {
      var i: nat :| i < j && ArrivesAt(c, run, steps, i, x);
      assert i < j + 1;
    }
  }

  // ---------- What is held ----------

  lemma HeldMoves(c: Config, st: State, st': State, step: Step, x: int)
    requires Inv(c, st) && Next(c, st, st', step)
    ensures x in st'.rcv.slots <==> x >= st'.rcv.start && (x in st.rcv.slots || Arrives(c, st, step, x))
    ensures st'.rcv.curr ==
      if step.DataStep? && Arrives(c, st, step, step.packet.seqno) then Max(st.rcv.curr, step.packet.seqno) else st.rcv.curr
    ensures c.isn <= st.rcv.start <= st.rcv.lastAck && st.rcv.start <= st'.rcv.start <= st'.rcv.lastAck
    ensures Arrives(c, st, step, x) ==> x >= st.rcv.lastAck && x >= st'.rcv.start
  {
    hide Inv, Next;
    if step.DataStep? {
      DataHeld(c, st, st', step.packet, x);
    } else {
      OthersHeld(c, st, st', step, x);
    }
  }

  lemma DataHeld(c: Config, st: State, st': State, p: Packet, x: int)
    requires Inv(c, st) && Next(c, st, st', DataStep(p))
    ensures x in st'.rcv.slots <==> x >= st'.rcv.start && (x in st.rcv.slots || Arrives(c, st, DataStep(p), x))
    ensures st'.rcv.curr == if Arrives(c, st, DataStep(p), p.seqno) then Max(st.rcv.curr, p.seqno) else st.rcv.curr
    ensures c.isn <= st.rcv.start <= st.rcv.lastAck && st'.rcv.start == st.rcv.start && st'.rcv.lastAck == st.rcv.lastAck
  {
    hide SenderLinked, ReceiverLinked, BytesConserved, WindowsAgree, MessageOk, SndOk, Covered;
  }

  lemma OthersHeld(c: Config, st: State, st': State, step: Step, x: int)
    requires Inv(c, st) && Next(c, st, st', step) && !step.DataStep?
    ensures x in st'.rcv.slots <==> x >= st'.rcv.start && x in st.rcv.slots
    ensures st'.rcv.curr == st.rcv.curr && !Arrives(c, st, step, x)
    ensures c.isn <= st.rcv.start <= st.rcv.lastAck && st.rcv.start <= st'.rcv.start <= st'.rcv.lastAck
  {
    hide SenderLinked, ReceiverLinked, BytesConserved, WindowsAgree, MessageOk, SndOk, Covered, Send, OnNak, PackData, OnFullAck;
    hide Read, SendAck;
    match step
    case RecvStep(len) => ReadFrees(c, st.rcv, len);
    case AckStep(lite, quiet) => AckStepMoves(c, st, st', lite, quiet);
    case _ =>
  }

  lemma ReadFrees(c: Config, r: Rcv, len: int)
    requires RcvOk(c, r)
    ensures var r' := Read(r, len).0;
      && r' == r.(slots := Above(r.slots, r'.start), start := r'.start, notch := r'.notch)
      && r.start <= r'.start <= r.lastAck
  {
    hide Covered;
    ConsumeBounds(Held(r.slots, r.start, r.lastAck), r.notch, len);
  }

  lemma AckStepMoves(c: Config, st: State, st': State, lite: bool, quiet: bool)
    requires Inv(c, st) && Next(c, st, st', AckStep(lite, quiet))
    ensures st'.rcv == st.rcv.(lastAck := st'.rcv.lastAck) && st.rcv.lastAck <= st'.rcv.lastAck
  {
    hide SenderLinked, ReceiverLinked, BytesConserved, WindowsAgree, MessageOk, SndOk, SendAck;
    var out :| SendAck(c, st.rcv, lite, quiet, st'.rcv, out)
      && st' == st.(rcv := st'.rcv, net := st.net + AckOut(out));
    AckMoves(c, st.rcv, lite, quiet, st'.rcv, out);
  }

  /** The buffer holds exactly the packets that ever arrived inside it and are not read yet: nothing that
      fits is refused and nothing is kept twice. */
  lemma {:induction false} HeldExact(c: Config, run: seq<State>, steps: seq<Step>, j: nat, x: int)
    requires ConfigOk(c) && Trace(c, run, steps) && j < |run|
    ensures x in run[j].rcv.slots <==> x >= run[j].rcv.start && Arrived(c, run, steps, j, x)
  {
    hide Inv, Next, Takes, Arrives;
    if j > 0 {
      HeldExact(c, run, steps, j - 1, x);
      StepAt(c, run, steps, j - 1);
      ArrivedMore(c, run, steps, j - 1, x);
      HeldMoves(c, run[j - 1], run[j], steps[j - 1], x);
    }
  }

  /** The largest number received is that of some packet that arrived. */
  lemma {:induction false} CurrExact(c: Config, run: seq<State>, steps: seq<Step>, j: nat)
    requires ConfigOk(c) && Trace(c, run, steps) && j < |run|
    ensures run[j].rcv.curr == c.isn - 1 || Arrived(c, run, steps, j, run[j].rcv.curr)
    ensures forall x :: Arrived(c, run, steps, j, x) ==> c.isn <= x <= run[j].rcv.curr
  {
    hide Inv, Next, Takes, Arrives, Arrived;
    if j > 0 {
      CurrExact(c, run, steps, j - 1);
      StepAt(c, run, steps, j - 1);
      forall x
        ensures Arrived(c, run, steps, j, x) <==> Arrived(c, run, steps, j - 1, x) || Arrives(c, run[j - 1], steps[j - 1], x)
        ensures Arrives(c, run[j - 1], steps[j - 1], x) ==> x >= c.isn && steps[j - 1].DataStep? && steps[j - 1].packet.seqno == x
      {
        ArrivedMore(c, run, steps, j - 1, x);
        HeldMoves(c, run[j - 1], run[j], steps[j - 1], x);
        ArrivesIs(c, run[j - 1], steps[j - 1], x);
      }
      HeldMoves(c, run[j - 1], run[j], steps[j - 1], 0);
    } else {
      assert forall x :: !Arrived(c, run, steps, 0, x) by { NoneArrived(c, run, steps); }
    }
  }

  lemma NoneArrived(c: Config, run: seq<State>, steps: seq<Step>)
    requires |steps| < |run|
    ensures forall x :: !Arrived(c, run, steps, 0, x)
  {
  }

  lemma ArrivesIs(c: Config, st: State, step: Step, x: int)
    ensures Arrives(c, st, step, x) ==> step.DataStep? && step.packet.seqno == x
  {
  }

  /** Everything acknowledged arrived. */
  lemma {:induction false} AckedArrived(c: Config, run: seq<State>, steps: seq<Step>, j: nat, x: int)
    requires ConfigOk(c) && Trace(c, run, steps) && j < |run| && c.isn <= x < run[j].rcv.lastAck
    ensures Arrived(c, run, steps, j, x)
  {
    hide Inv, Next, Takes, Arrives, Arrived;
    if j > 0 {
      StepAt(c, run, steps, j - 1);
      if x < run[j - 1].rcv.lastAck {
        AckedArrived(c, run, steps, j - 1, x);
        ArrivedMore(c, run, steps, j - 1, x);
      } else {
        HeldExact(c, run, steps, j, x);
        NewlyAcked(c, run[j - 1], run[j], steps[j - 1], x);
      }
    }
  }

  lemma NewlyAcked(c: Config, st: State, st': State, step: Step, x: int)
    requires Inv(c, st) && Inv(c, st') && Next(c, st, st', step) && st.rcv.lastAck <= x < st'.rcv.lastAck
    ensures x in st'.rcv.slots
  {
    hide SenderLinked, ReceiverLinked, BytesConserved, WindowsAgree, MessageOk, SndOk, Covered, Next;
    HeldMoves(c, st, st', step, x);
    if !step.AckStep? {
      LastAckStays(c, st, st', step);
    } else {
      AckStepMoves(c, st, st', step.lite, step.quiet);
    }
  }

  lemma LastAckStays(c: Config, st: State, st': State, step: Step)
    requires Inv(c, st) && Next(c, st, st', step) && !step.AckStep?
    ensures st'.rcv.lastAck == st.rcv.lastAck
  {
    hide SenderLinked, ReceiverLinked, BytesConserved, WindowsAgree, MessageOk, SndOk, Covered, Send, OnNak, PackData, OnFullAck;
  }

  // ---------- What is missing, and acknowledged ----------

  /** The first packet of all that did not arrive yet. */
  ghost predicate FirstMissing(c: Config, run: seq<State>, steps: seq<Step>, j: nat, a: int)
    requires j <= |steps| < |run|
  {
    && c.isn <= a && !Arrived(c, run, steps, j, a)
    && forall y :: c.isn <= y < a ==> Arrived(c, run, steps, j, y)
  }

  /** The loss list holds exactly the numbers that never arrived although a larger one did. */
  lemma MissingExact(c: Config, run: seq<State>, steps: seq<Step>, j: nat, x: int)
    requires ConfigOk(c) && Trace(c, run, steps) && j < |run|
    ensures x in run[j].rcv.lost <==>
      c.isn <= x && !Arrived(c, run, steps, j, x) && exists y :: x < y && Arrived(c, run, steps, j, y)
  {
    hide SenderLinked, ReceiverLinked, BytesConserved, WindowsAgree, MessageOk, SndOk, Arrived, Run, Takes;
    HeldExact(c, run, steps, j, x);
    CurrExact(c, run, steps, j);
    TraceIsRun(c, run, steps);
    Reachable(c, run, j);
    if c.isn <= x < run[j].rcv.lastAck {
      AckedArrived(c, run, steps, j, x);
    }
    if x in run[j].rcv.lost {
      assert x < run[j].rcv.curr && Arrived(c, run, steps, j, run[j].rcv.curr);
    }
  }

  /** The acknowledgement point is the first packet that did not arrive. */
  lemma AckPointExact(c: Config, run: seq<State>, steps: seq<Step>, j: nat, a: int)
    requires ConfigOk(c) && Trace(c, run, steps) && j < |run|
    ensures IsAckPoint(run[j].rcv, a) <==> FirstMissing(c, run, steps, j, a)
  {
    hide Inv, Arrived, Run, Takes;
    TraceIsRun(c, run, steps);
    Reachable(c, run, j);
    var r := run[j].rcv;
    CurrExact(c, run, steps, j);
    LossesAbove(c, run[j]);
    forall y
      ensures y in r.lost <==>
        c.isn <= y && !Arrived(c, run, steps, j, y) && exists z :: y < z && Arrived(c, run, steps, j, z)
      ensures c.isn <= y <= r.curr && y !in r.lost ==> Arrived(c, run, steps, j, y)
    {
      MissingExact(c, run, steps, j, y);
      if c.isn <= y < r.curr && !Arrived(c, run, steps, j, y) {
        assert Arrived(c, run, steps, j, r.curr);
      }
    }
    assert !Arrived(c, run, steps, j, r.curr + 1);
    if FirstMissing(c, run, steps, j, a) {
      assert a <= r.curr + 1;
      if a <= r.curr {
        assert a in r.lost;
        forall y | y in r.lost
          ensures a <= y
        {
          assert !Arrived(c, run, steps, j, y);
        }
      } else {
        if r.lost != {} {
          var y := Pick(r.lost);
          assert false;
        }
      }
    }
  }

  lemma LossesAbove(c: Config, st: State)
    requires Inv(c, st)
    ensures c.isn <= st.rcv.curr + 1 && forall x :: x in st.rcv.lost ==> c.isn <= x <= st.rcv.curr
  {
    hide SenderLinked, ReceiverLinked, BytesConserved, WindowsAgree, MessageOk, SndOk;
  }
}
