/** What holds in every state of every run of a connection over a network that loses, repeats and
    reorders. */
module Runs {
  import opened SenderSpec
  import opened ReceiverSpec
  import opened Protocol

  /** Outside the local invariants the program would read memory it does not own, so anything may
      follow; Reachable shows that no run gets there. */
  ghost predicate Follows(c: Config, st: State, st': State) {
    ConfigOk(c) && SndOk(c, st.snd) && RcvOk(c, st.rcv) ==> exists step :: Next(c, st, st', step)
  }

  ghost predicate Run(c: Config, run: seq<State>) {
    && |run| > 0 && run[0] == Init(c)
    && forall i {:trigger Follows(c, run[i], run[i + 1])} | 0 <= i < |run| - 1 :: Follows(c, run[i], run[i + 1])
  }

  lemma StepOf(c: Config, run: seq<State>, i: nat)
    requires Run(c, run) && i + 1 < |run|
    ensures Follows(c, run[i], run[i + 1])
  {
    hide Follows;
  }

  /** From a state with the invariant every move is one of the steps. */
  lemma TakenStep(c: Config, st: State, st': State) returns (step: Step)
    requires Inv(c, st) && Follows(c, st, st')
    ensures Next(c, st, st', step)
  {
    hide Next, SenderLinked, ReceiverLinked, WindowsAgree, BytesConserved, MessageOk, SndOk, RcvOk;
    step :| Next(c, st, st', step);
  }

  lemma {:induction false} Reachable(c: Config, run: seq<State>, i: nat)
    requires ConfigOk(c) && Run(c, run) && i < |run|
    ensures Inv(c, run[i])
  {
    hide Inv, Next, Follows;
    if i == 0 {
      InitInv(c);
    } else {
      Reachable(c, run, i - 1);
      StepOf(c, run, i - 1);
      var step := TakenStep(c, run[i - 1], run[i]);
      NextInv(c, run[i - 1], run[i], step);
    }
  }

  /** The stream is delivered in order, without loss, duplication or invention: what recv has
      returned is a prefix of what send has taken, in every state of every run. */
  lemma StreamSafety(c: Config, run: seq<State>, i: nat)
    requires ConfigOk(c) && Run(c, run) && i < |run|
    ensures run[i].delivered <= run[i].sent
    ensures !run[i].snd.broken
  {
    Reachable(c, run, i);
    InvMeansPrefix(c, run[i]);
  }

  /** Once the sender's buffer is empty nothing is missing: every byte it took has been returned
      or can be read. */
  lemma NothingLost(c: Config, run: seq<State>, i: nat)
    requires ConfigOk(c) && Run(c, run) && i < |run|
    requires run[i].snd.unacked == []
    ensures RcvOk(c, run[i].rcv) && run[i].delivered + Readable(run[i].rcv) == run[i].sent
  {
    Reachable(c, run, i);
    NothingUnacked(c, run[i]);
  }

  lemma NetGrows(c: Config, run: seq<State>, i: nat, j: nat)
    requires ConfigOk(c) && Run(c, run) && i <= j < |run|
    ensures run[i].net <= run[j].net && run[i].accepted <= run[j].accepted && run[i].delivered <= run[j].delivered
    decreases j
  {
    hide Inv, Next, Follows, Run;
    if i < j {
      NetGrows(c, run, i, j - 1);
      Reachable(c, run, j - 1);
      StepOf(c, run, j - 1);
      var step := TakenStep(c, run[j - 1], run[j]);
      NextGrows(c, run[j - 1], run[j], step);
    }
  }

  /** Every transmission of a number, first or repeated, carries the same chunk. */
  lemma RetransmissionStable(c: Config, run: seq<State>, i: nat, j: nat, p: Packet, q: Packet)
    requires ConfigOk(c) && Run(c, run) && i < |run| && j < |run|
    requires DataMsg(p) in run[i].net && DataMsg(q) in run[j].net && p.seqno == q.seqno
    ensures p == q
  {
    var k := if i < j then j else i;
    NetGrows(c, run, i, k);
    NetGrows(c, run, j, k);
    Reachable(c, run, k);
    SameNumberSameChunk(c, run[k], p, q);
  }

  /** The sender frees only chunks the receiver has acknowledged, and the receiver acknowledges
      only what it holds or has handed to the reader. */
  lemma AckedMeansHeld(c: Config, run: seq<State>, i: nat, x: int)
    requires ConfigOk(c) && Run(c, run) && i < |run|
    requires c.isn <= x < run[i].snd.lastDataAck
    ensures x < run[i].rcv.start || (x in run[i].rcv.slots && 0 <= x - c.isn < |run[i].accepted|
                                     && run[i].rcv.slots[x] == run[i].accepted[x - c.isn])
  {
    Reachable(c, run, i);
    FreedIsHeld(c, run[i], x);
  }

  /** The flow-control bound: at most two packets in flight can fall outside the receive buffer. */
  lemma FlowControlBound(c: Config, run: seq<State>, i: nat)
    requires ConfigOk(c) && Run(c, run) && i < |run|
    ensures var s, r := run[i].snd, run[i].rcv;
      && s.lastAck + s.window <= r.start + c.rcvBufSize + 1
      && s.curr <= r.start + c.rcvBufSize
      && r.start + c.rcvBufSize - 2 == r.lastAck + AvailBufSize(c, r) - 1
  {
    Reachable(c, run, i);
    hide Conserved, MessageOk, SndOk, Covered;
  }

  /** Sender losses fit the list allocated for them, of twice the peer's buffer. */
  lemma SenderLossesFit(c: Config, run: seq<State>, i: nat)
    requires ConfigOk(c) && Run(c, run) && i < |run|
    ensures forall x :: x in run[i].snd.lost ==>
      run[i].snd.lastDataAck <= x <= run[i].snd.curr < run[i].snd.lastDataAck + 2 * c.rcvBufSize
  {
    Reachable(c, run, i);
    hide Conserved, MessageOk, RcvOk;
  }

  /** Receiver losses fit a list as large as the receive buffer. */
  lemma ReceiverLossesFit(c: Config, run: seq<State>, i: nat)
    requires ConfigOk(c) && Run(c, run) && i < |run|
    ensures forall x :: x in run[i].rcv.lost ==>
      run[i].rcv.lastAck <= x <= run[i].rcv.curr < run[i].rcv.lastAck + c.rcvBufSize
  {
    Reachable(c, run, i);
    hide Conserved, MessageOk, SndOk;
  }
}
