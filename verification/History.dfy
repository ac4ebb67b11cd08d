/** Runs together with the steps they took: the ground on which the state of either side is explained
    by what happened so far. */
module History {
  import opened SenderSpec
  import opened ReceiverSpec
  import opened Protocol
  import opened Runs

  ghost predicate Takes(c: Config, st: State, st': State, step: Step) {
    ConfigOk(c) && SndOk(c, st.snd) && RcvOk(c, st.rcv) ==> Next(c, st, st', step)
  }

  ghost predicate Trace(c: Config, run: seq<State>, steps: seq<Step>) {
    && |run| == |steps| + 1 && run[0] == Init(c)
    && forall i {:trigger steps[i]} | 0 <= i < |steps| :: Takes(c, run[i], run[i + 1], steps[i])
  }

  /** Every run took some steps. */
  lemma {:induction false} StepsOf(c: Config, run: seq<State>) returns (steps: seq<Step>)
    requires ConfigOk(c) && Run(c, run)
    ensures Trace(c, run, steps)
    decreases |run|
  {
    hide Inv, Next, Follows, Takes;
    var n := |run| - 1;
    if n == 0 {
      steps := [];
    } else {
      var rest := run[..n];
      assert Run(c, rest) by {
        forall i | 0 <= i < |rest| - 1
          ensures Follows(c, rest[i], rest[i + 1])
        {
          StepOf(c, run, i);
        }
      }
      var before := StepsOf(c, rest);
      Reachable(c, run, n - 1);
      StepOf(c, run, n - 1);
      var step := TakenStep(c, run[n - 1], run[n]);
      steps := before + [step];
      NextIsTaken(c, run[n - 1], run[n], step);
      forall i | 0 <= i < |steps|
        ensures Takes(c, run[i], run[i + 1], steps[i])
      {
        if i < n - 1 {
          assert Takes(c, rest[i], rest[i + 1], before[i]);
        }
      }
    }
  }

  lemma NextIsTaken(c: Config, st: State, st': State, step: Step)
    requires Inv(c, st) && Next(c, st, st', step)
    ensures Takes(c, st, st', step)
  {
    hide Inv, Next;
  }

  lemma TakenIsNext(c: Config, st: State, st': State, step: Step)
    requires Inv(c, st) && Takes(c, st, st', step)
    ensures Next(c, st, st', step)
  {
    hide Next;
  }

  lemma TraceIsRun(c: Config, run: seq<State>, steps: seq<Step>)
    requires Trace(c, run, steps)
    ensures Run(c, run)
  {
    hide Next, SndOk, RcvOk;
    forall i | 0 <= i < |run| - 1
      ensures Follows(c, run[i], run[i + 1])
    {
      assert Takes(c, run[i], run[i + 1], steps[i]);
    }
  }

  /** In a trace every state has the invariant and every step is a step of the protocol. */
  lemma StepAt(c: Config, run: seq<State>, steps: seq<Step>, i: nat)
    requires ConfigOk(c) && Trace(c, run, steps) && i < |steps|
    ensures Inv(c, run[i]) && Inv(c, run[i + 1]) && Next(c, run[i], run[i + 1], steps[i])
  {
    hide Next, SndOk, RcvOk, SenderLinked, ReceiverLinked, WindowsAgree, BytesConserved, MessageOk, Run;
    TraceIsRun(c, run, steps);
    Reachable(c, run, i);
    Reachable(c, run, i + 1);
    assert Takes(c, run[i], run[i + 1], steps[i]);
  }
}
