/** No reachable state is a dead end: from every state of every run the connection can still deliver
    everything that was accepted, by steps it may take. */
module Progress {
  import opened Options
  import opened Chunks
  import opened SeqNo
  import opened SenderSpec
  import opened ReceiverSpec
  import opened Protocol
  import opened Runs

  /** The sender has heard of a with a window that admits a packet, or of something later. */
  ghost predicate Refreshed(s: Snd, a: int) {
    s.lastAck > a || (s.lastAck == a && s.window >= 2)
  }

  /** Why the receiver may keep silent about a number the sender has confirmed: the sender's window
      is open there.  Without the advertised minimum of 2 this would not hold. */
  ghost predicate Live(c: Config, st: State) {
    && (st.rcv.lastAckAck == c.isn || AckAckMsg(st.rcv.lastAckAck) in st.net)
    && (forall a {:trigger AckAckMsg(a)} :: AckAckMsg(a) in st.net ==> Refreshed(st.snd, a))
    && Refreshed(st.snd, c.isn)
  }

  /** What the receiver has acknowledged it has told the sender, and its confirmation can arrive. */
  ghost predicate Confirmable(c: Config, st: State) {
    && Near(st.rcv.lastAck, st.rcv.lastAckAck)
    && (st.rcv.lastAck == c.isn || exists avail :: AckMsg(FullAck(st.rcv.lastAck, avail)) in st.net)
  }

  ghost predicate Good(c: Config, st: State) {
    c.rcvBufSize >= 2 && Inv(c, st) && Live(c, st) && Confirmable(c, st)
  }

  lemma InitLive(c: Config)
    requires ConfigOk(c) && c.rcvBufSize >= 2
    ensures Live(c, Init(c)) && Confirmable(c, Init(c))
  {
  }

  /** Only acknowledgements move lastAck, never back, and only a full one opens the window. */
  lemma SenderKeepsLive(c: Config, st: State, st': State)
    requires Live(c, st) && st'.rcv.lastAckAck == st.rcv.lastAckAck && st.net <= st'.net
    requires forall a {:trigger AckAckMsg(a)} :: AckAckMsg(a) in st'.net ==> AckAckMsg(a) in st.net || Refreshed(st'.snd, a)
    requires st'.snd.lastAck > st.snd.lastAck
             || (st'.snd.lastAck == st.snd.lastAck && (st'.snd.window >= 2 || st'.snd.window == st.snd.window))
    ensures Live(c, st')
  {
  }

  lemma NextLive(c: Config, st: State, st': State, step: Step)
    requires Inv(c, st) && Live(c, st) && Next(c, st, st', step)
    ensures Live(c, st')
  {
    hide SndOk, RcvOk, BytesConserved, SenderLinked, ReceiverLinked, WindowsAgree, MessageOk;
    hide Send, Accepted, OnData, Read, OnNak, PackData, SendAck;
    match step
    case SendStep(data, inOrder) => SendMoves(c, st.snd, data, inOrder); SenderKeepsLive(c, st, st');
    case PackStep(cwnd) => PackMoves(c, st, st', cwnd); SenderKeepsLive(c, st, st');
    case ExpireStep => SenderKeepsLive(c, st, st');
    case DataStep(p) => OnDataKeeps(c, st.rcv, p.seqno, p.chunk); SenderKeepsLive(c, st, st');
    case AckStep(lite, quiet) => AckMovesOnly(c, st, st', lite, quiet); SenderKeepsLive(c, st, st');
    case ReportStep(losses) => SenderKeepsLive(c, st, st');
    case RecvStep(len) => ReadKeeps(c, st.rcv, len); SenderKeepsLive(c, st, st');
    case LiteAckStep(ack) => SenderKeepsLive(c, st, st');
    case FullAckStep(ack, avail) => FullAckMoves(c, st, st', ack, avail); SenderKeepsLive(c, st, st');
    case LossStep(losses) => NakMoves(c, st, losses); SenderKeepsLive(c, st, st');
    case AckAckStep(acked) =>
  }

  lemma SendMoves(c: Config, s: Snd, data: seq<byte>, inOrder: bool)
    requires c.payloadSize > 0
    ensures Send(c, s, data, inOrder).lastAck == s.lastAck && Send(c, s, data, inOrder).window == s.window
  {
  }

  lemma PackMoves(c: Config, st: State, st': State, cwnd: int)
    requires SndOk(c, st.snd) && RcvOk(c, st.rcv) && ConfigOk(c) && Next(c, st, st', PackStep(cwnd))
    ensures st'.snd.lastAck == st.snd.lastAck && st'.snd.window == st.snd.window && st'.rcv == st.rcv && st.net <= st'.net
    ensures forall a {:trigger AckAckMsg(a)} :: AckAckMsg(a) in st'.net ==> AckAckMsg(a) in st.net
  {
  }

  lemma OnDataKeeps(c: Config, r: Rcv, x: int, chunk: Chunk)
    ensures OnData(c, r, x, chunk).0.lastAckAck == r.lastAckAck && OnData(c, r, x, chunk).0.lastAck == r.lastAck
  {
  }

  lemma ReadKeeps(c: Config, r: Rcv, len: int)
    requires RcvOk(c, r)
    ensures Read(r, len).0 == r.(slots := Read(r, len).0.slots, start := Read(r, len).0.start, notch := Read(r, len).0.notch)
  {
  }

  lemma AckMovesOnly(c: Config, st: State, st': State, lite: bool, quiet: bool)
    requires SndOk(c, st.snd) && RcvOk(c, st.rcv) && ConfigOk(c) && Next(c, st, st', AckStep(lite, quiet))
    ensures st'.snd == st.snd && st'.rcv.lastAckAck == st.rcv.lastAckAck && st.net <= st'.net
    ensures forall a {:trigger AckAckMsg(a)} :: AckAckMsg(a) in st'.net ==> AckAckMsg(a) in st.net
  {
  }

  lemma FullAckMoves(c: Config, st: State, st': State, ack: int, avail: int)
    requires Inv(c, st) && Next(c, st, st', FullAckStep(ack, avail))
    ensures st'.rcv == st.rcv && Refreshed(st'.snd, ack)
    ensures st'.snd.lastAck > st.snd.lastAck
            || (st'.snd.lastAck == st.snd.lastAck && (st'.snd.window >= 2 || st'.snd.window == st.snd.window))
  {
    hide BytesConserved, SenderLinked, ReceiverLinked;
    assert MessageOk(c, st, AckMsg(FullAck(ack, avail)));
    FullAckAgrees(c, st.snd, st.rcv, ack, avail);
  }

  lemma NakMoves(c: Config, st: State, losses: seq<Loss>)
    requires Inv(c, st)
    ensures OnNak(st.snd, losses).lastAck == st.snd.lastAck && OnNak(st.snd, losses).window == st.snd.window
  {
    hide BytesConserved, SenderLinked, ReceiverLinked, OnNak;
    OnNakOk(c, st.snd, losses);
  }

  lemma NextConfirmable(c: Config, st: State, st': State, step: Step)
    requires Inv(c, st) && Confirmable(c, st) && Next(c, st, st', step)
    ensures Confirmable(c, st')
  {
    hide BytesConserved, SenderLinked, ReceiverLinked, WindowsAgree, MessageOk, SndOk, RcvOk;
    hide Send, Accepted, OnData, Read, OnNak, PackData, SendAck;
    NextGrows(c, st, st', step);
    match step
    case DataStep(p) => OnDataKeeps(c, st.rcv, p.seqno, p.chunk);
    case AckStep(lite, quiet) => AckConfirmable(c, st, st', lite, quiet);
    case RecvStep(len) => ReadKeeps(c, st.rcv, len);
    case AckAckStep(acked) => AckAckConfirmable(c, st, st', acked);
    case _ =>
  }

  /** An acknowledgement that moves on is sent in full. */
  lemma AckConfirmable(c: Config, st: State, st': State, lite: bool, quiet: bool)
    requires Inv(c, st) && Confirmable(c, st) && Next(c, st, st', AckStep(lite, quiet))
    ensures Confirmable(c, st')
  {
    hide BytesConserved, SenderLinked, ReceiverLinked, WindowsAgree, MessageOk, SndOk;
    var out :| SendAck(c, st.rcv, lite, quiet, st'.rcv, out)
      && st' == st.(rcv := st'.rcv, net := st.net + AckOut(out));
    if st'.rcv != st.rcv {
      assert out.FullAck? && AckMsg(FullAck(st'.rcv.lastAck, out.avail)) in st'.net;
    } else if st.rcv.lastAck != c.isn {
      var avail :| AckMsg(FullAck(st.rcv.lastAck, avail)) in st.net;
      assert AckMsg(FullAck(st.rcv.lastAck, avail)) in st'.net;
    }
  }

  lemma AckAckConfirmable(c: Config, st: State, st': State, acked: int)
    requires Inv(c, st) && Confirmable(c, st) && Next(c, st, st', AckAckStep(acked))
    ensures Confirmable(c, st')
  {
    hide BytesConserved, SenderLinked, ReceiverLinked, WindowsAgree, SndOk, Covered;
    assert MessageOk(c, st, AckAckMsg(acked));
  }

  // ---------- Paths ----------

  ghost predicate Steps(c: Config, st: State, st': State) {
    Inv(c, st) && exists step :: Next(c, st, st', step)
  }

  ghost predicate Leads(c: Config, st: State, st': State) {
    exists run: seq<State> :: |run| > 0 && run[0] == st && run[|run| - 1] == st' && Path(c, run)
  }

  ghost predicate Path(c: Config, run: seq<State>) {
    forall i {:trigger Steps(c, run[i], run[i + 1])} | 0 <= i < |run| - 1 :: Steps(c, run[i], run[i + 1])
  }

  lemma LeadsNowhere(c: Config, st: State)
    ensures Leads(c, st, st)
  {
    assert Path(c, [st]);
  }

  lemma LeadsOn(c: Config, st: State, mid: State, st': State)
    requires Leads(c, st, mid) && Leads(c, mid, st')
    ensures Leads(c, st, st')
  {
    hide Steps;
    var a: seq<State> :| |a| > 0 && a[0] == st && a[|a| - 1] == mid && Path(c, a);
    var b: seq<State> :| |b| > 0 && b[0] == mid && b[|b| - 1] == st' && Path(c, b);
    var run := a + b[1..];
    forall i | 0 <= i < |run| - 1
      ensures Steps(c, run[i], run[i + 1])
    {
      if i < |a| - 1 {
        assert Steps(c, a[i], a[i + 1]);
      } else {
        var k := i - (|a| - 1);
        assert Steps(c, b[k], b[k + 1]);
      }
    }
    assert Path(c, run);
  }

  /** One step of a good state leads to a good state. */
  lemma OneStep(c: Config, st: State, st': State, step: Step)
    requires Good(c, st) && Next(c, st, st', step)
    ensures Leads(c, st, st') && Good(c, st')
  {
    hide Inv, Live, Confirmable, Next;
    NextInv(c, st, st', step);
    NextLive(c, st, st', step);
    NextConfirmable(c, st, st', step);
    assert Steps(c, st, st');
    assert Path(c, [st, st']);
  }

  // ---------- Both sides in step ----------

  /** Everything acknowledged is read, everything received in order is acknowledged, and the sender
      knows it and has an open window. */
  ghost predicate Synced(c: Config, st: State) {
    && Good(c, st)
    && st.rcv.start == st.rcv.lastAck == st.rcv.lastAckAck == st.snd.lastAck
    && IsAckPoint(st.rcv, st.rcv.lastAck) && st.snd.window >= 2
  }

  ghost predicate SameStream(st: State, st': State) {
    st'.accepted == st.accepted && st'.sent == st.sent
  }

  lemma {:induction false} ConsumeAll(held: seq<Chunk>, notch: nat, len: int)
    requires |held| > 0 ==> notch <= |held[0].data|
    requires len > |Unread(held, notch)|
    ensures Consume(held, notch, len).freed == |held|
    ensures Consume(held, notch, len).notch == if |held| > 0 then 0 else notch
    decreases |held|
  {
    hide Consume, Unread;
    ConsumeStep(held, notch, len);
    if |held| > 0 {
      UnreadStep(held, notch);
      ConsumeAll(held[1..], 0, len - |held[0].data[notch..]|);
    } else {
      ConsumeStep(held, notch, len);
    }
  }

  /** The application reads everything there is. */
  lemma ReadAll(c: Config, st: State) returns (st': State)
    requires Good(c, st)
    ensures Leads(c, st, st') && Good(c, st') && SameStream(st, st') && st'.snd == st.snd && st'.net == st.net
    ensures st'.rcv == st.rcv.(slots := st'.rcv.slots, start := st.rcv.lastAck, notch := 0)
  {
    hide Good, Leads, Next, Consume, Held, Unread;
    GoodParts(c, st);
    var r := st.rcv;
    var len := |Readable(r)| + 1;
    ConsumeAll(Held(r.slots, r.start, r.lastAck), r.notch, len);
    var (r', bytes) := Read(r, len);
    st' := st.(rcv := r', delivered := st.delivered + bytes);
    NextRecv(c, st, st', len);
    OneStep(c, st, st', RecvStep(len));
  }

  lemma GoodParts(c: Config, st: State)
    requires Good(c, st)
    ensures ConfigOk(c) && SndOk(c, st.snd) && RcvOk(c, st.rcv) && c.rcvBufSize >= 2 && !st.snd.broken
    ensures WindowsAgree(c, st.snd, st.rcv) && SenderLinked(c, st)
  {
  }

  lemma NextRecv(c: Config, st: State, st': State, len: nat)
    requires Good(c, st) && st' == st.(rcv := Read(st.rcv, len).0, delivered := st.delivered + Read(st.rcv, len).1)
    ensures Next(c, st, st', RecvStep(len))
  {
    hide Read;
  }

  /** The acknowledgement point of a state. */
  lemma AckPointOf(c: Config, r: Rcv) returns (a: int)
    requires RcvOk(c, r)
    ensures IsAckPoint(r, a) && r.lastAck <= a <= r.curr + 1
  {
    if r.lost == {} {
      a := r.curr + 1;
    } else {
      a := LeastOf(r.lost);
    }
  }

  lemma {:induction false} LeastOf(s: set<int>) returns (x: int)
    requires s != {}
    ensures IsLeast(x, s)
    decreases |s|
  {
    x := Pick(s);
    if s - {x} != {} {
      var y := LeastOf(s - {x});
      assert forall z :: z in s ==> z == x || z in s - {x};
      if y < x {
        x := y;
      }
    } else {
      assert forall z :: z in s ==> z == x || z in s - {x};
    }
  }

  /** The counters of both sides are close together. */
  lemma NearBy(c: Config, st: State, a: int)
    requires Good(c, st) && st.rcv.lastAck <= a <= st.rcv.curr + 1
    ensures NearSender(st.snd, a) && Near(a, st.rcv.lastAck)
  {
    hide BytesConserved, SenderLinked, ReceiverLinked, MessageOk, Covered, Live;
  }

  /** Acknowledgement, its delivery, and the confirmation of that, if the receiver has news. */
  lemma Exchange(c: Config, st: State) returns (st': State)
    requires Good(c, st) && Near(st.rcv.lastAckAck, st.rcv.curr + 1)
    ensures Leads(c, st, st') && Good(c, st') && SameStream(st, st')
    ensures st'.rcv == st.rcv.(lastAck := st'.rcv.lastAck, lastAckAck := st'.rcv.lastAck)
    ensures IsAckPoint(st.rcv, st'.rcv.lastAck) && st'.snd.curr == st.snd.curr
  {
    hide Good, Leads, Next, IsAckPoint, SndOk, Covered, SenderLinked, WindowsAgree;
    GoodParts(c, st);
    var a := AckPointOf(c, st.rcv);
    NearBy(c, st, a);
    if a == st.rcv.lastAckAck {
      LeadsNowhere(c, st);
      return st;
    }
    var avail := Max(AvailBufSize(c, st.rcv.(lastAck := a)), 2);
    var st1 := st.(rcv := st.rcv.(lastAck := a), net := st.net + {AckMsg(FullAck(a, avail))});
    NextAck(c, st, st1, a);
    OneStep(c, st, st1, AckStep(false, false));
    GoodParts(c, st1);
    var st2 := NextFullAck(c, st1, a, avail);
    GoodParts(c, st2);
    st' := st2.(rcv := OnAckAck(st2.rcv, a));
    NextAckAck(c, st2, st', a);
    OneStep(c, st2, st', AckAckStep(a));
    LeadsOn(c, st, st1, st2);
    LeadsOn(c, st, st2, st');
  }

  lemma NextAck(c: Config, st: State, st': State, a: int)
    requires Good(c, st) && Near(st.rcv.lastAckAck, st.rcv.curr + 1)
    requires IsAckPoint(st.rcv, a) && a > st.rcv.lastAckAck && a >= st.rcv.lastAck
    requires st' == st.(rcv := st.rcv.(lastAck := a),
                        net := st.net + {AckMsg(FullAck(a, Max(AvailBufSize(c, st.rcv.(lastAck := a)), 2)))})
    ensures Next(c, st, st', AckStep(false, false))
  {
    hide IsAckPoint, Live, BytesConserved, SenderLinked, ReceiverLinked, WindowsAgree, MessageOk, SndOk, RcvOk, Max;
    var out := FullAck(a, Max(AvailBufSize(c, st'.rcv), 2));
    assert SendAck(c, st.rcv, false, false, st'.rcv, out);
    assert st' == st.(rcv := st'.rcv, net := st.net + AckOut(out));
  }

  lemma NextFullAck(c: Config, st: State, a: int, avail: int) returns (st': State)
    requires Good(c, st) && AckMsg(FullAck(a, avail)) in st.net && a == st.rcv.lastAck
    ensures Leads(c, st, st') && Good(c, st') && st'.snd.curr == st.snd.curr && AckAckMsg(a) in st'.net
    ensures st' == st.(snd := st'.snd, net := st'.net)
  {
    hide Live, BytesConserved, ReceiverLinked, WindowsAgree, Leads;
    NearBy(c, st, a);
    assert MessageOk(c, st, AckMsg(FullAck(a, avail)));
    st' := st.(snd := OnFullAck(st.snd, a, avail), net := st.net + {AckAckMsg(a)});
    OneStep(c, st, st', FullAckStep(a, avail));
  }

  lemma NextAckAck(c: Config, st: State, st': State, a: int)
    requires Good(c, st) && AckAckMsg(a) in st.net && Near(a, st.rcv.lastAckAck)
    requires st' == st.(rcv := OnAckAck(st.rcv, a))
    ensures Next(c, st, st', AckAckStep(a))
  {
  }

  /** From any state both sides can get in step, without losing ground. */
  lemma Sync(c: Config, st: State) returns (st': State)
    requires Good(c, st) && Near(st.rcv.lastAckAck, st.rcv.curr + 1)
    ensures Leads(c, st, st') && Synced(c, st') && SameStream(st, st')
    ensures IsAckPoint(st.rcv, st'.rcv.lastAck)
  {
    hide Good, Leads, IsAckPoint;
    var st1 := Exchange(c, st);
    st' := ReadAll(c, st1);
    LeadsOn(c, st, st1, st');
    SameAckPoint(st.rcv, st'.rcv, st'.rcv.lastAck);
    InStep(c, st');
  }

  lemma SameAckPoint(r: Rcv, r': Rcv, a: int)
    requires IsAckPoint(r, a) && r'.lost == r.lost && r'.curr == r.curr
    ensures IsAckPoint(r', a)
  {
  }

  /** A number the receiver knows to be confirmed is where the sender stands, with an open window. */
  lemma InStep(c: Config, st: State)
    requires Good(c, st) && IsAckPoint(st.rcv, st.rcv.lastAck) && st.rcv.lastAckAck == st.rcv.lastAck
    ensures st.snd.lastAck == st.rcv.lastAck && st.snd.window >= 2
  {
    hide BytesConserved, SenderLinked, ReceiverLinked, MessageOk, SndOk;
  }

  /** The sender transmits what the receiver waits for: it is lost, or the next new number. */
  lemma {:induction false} Transmit(c: Config, st: State, a: int) returns (st': State)
    requires Good(c, st) && st.snd.lastAck == a == st.rcv.lastAck && st.snd.window >= 2
    requires c.isn <= a < c.isn + |st.accepted| && (a in st.snd.lost || a == st.snd.curr + 1)
    ensures Leads(c, st, st') && Good(c, st') && SameStream(st, st') && st'.rcv == st.rcv
    ensures DataMsg(Packet(a, st.accepted[a - c.isn])) in st'.net
    decreases |st.snd.lost|
  {
    hide Good, Leads, Next, SndOk, RcvOk, WindowsAgree;
    GoodParts(c, st);
    if st.snd.lost != {} {
      var x := LeastOf(st.snd.lost);
      var st1 := PackOldest(c, st, x);
      if x == a {
        st' := st1;
      } else {
        st' := Transmit(c, st1, a);
        LeadsOn(c, st, st1, st');
      }
    } else {
      st' := PackNext(c, st, a);
    }
  }

  lemma PackOldest(c: Config, st: State, x: int) returns (st': State)
    requires Good(c, st) && IsLeast(x, st.snd.lost)
    ensures Leads(c, st, st') && Good(c, st') && SameStream(st, st') && st'.rcv == st.rcv
    ensures st'.snd == st.snd.(lost := st.snd.lost - {x}) && |st'.snd.lost| < |st.snd.lost|
    ensures 0 <= x - c.isn < |st.accepted| && DataMsg(Packet(x, st.accepted[x - c.isn])) in st'.net
  {
    hide Live, BytesConserved, ReceiverLinked, WindowsAgree, MessageOk, Leads, RcvOk;
    var s := st.snd;
    var out := Some(Packet(x, s.unacked[x - s.lastDataAck]));
    st' := st.(snd := s.(lost := s.lost - {x}), net := st.net + {DataMsg(out.value)});
    PackStepIs(c, st, st', out);
    OneStep(c, st, st', PackStep(2));
  }

  lemma PackNext(c: Config, st: State, a: int) returns (st': State)
    requires Good(c, st) && st.snd.lost == {} && st.snd.lastAck == a == st.snd.curr + 1 && st.snd.window >= 2
    requires c.isn <= a < c.isn + |st.accepted|
    ensures Leads(c, st, st') && Good(c, st') && SameStream(st, st') && st'.rcv == st.rcv
    ensures DataMsg(Packet(a, st.accepted[a - c.isn])) in st'.net
  {
    hide Live, BytesConserved, ReceiverLinked, WindowsAgree, MessageOk, Leads, RcvOk;
    var s := st.snd;
    var out := Some(Packet(a, s.unacked[a - s.lastDataAck]));
    st' := st.(snd := s.(curr := a), net := st.net + {DataMsg(out.value)});
    PackStepIs(c, st, st', out);
    OneStep(c, st, st', PackStep(2));
  }

  lemma PackStepIs(c: Config, st: State, st': State, out: Option<Packet>)
    requires ConfigOk(c) && SndOk(c, st.snd) && RcvOk(c, st.rcv) && out.Some?
    requires PackData(c, st.snd, 2, st'.snd, out)
    requires st' == st.(snd := st'.snd, net := st.net + {DataMsg(out.value)})
    ensures Next(c, st, st', PackStep(2))
  {
    hide SndOk, RcvOk, PackData;
    assert st' == st.(snd := st'.snd, net := st.net + if out.Some? then {DataMsg(out.value)} else {});
  }

  /** Whatever the receiver waits for can be brought onto the network. */
  lemma Obtain(c: Config, st: State) returns (st': State)
    requires Synced(c, st) && st.rcv.lastAck - c.isn < |st.accepted|
    ensures Leads(c, st, st') && Good(c, st') && SameStream(st, st') && st'.rcv == st.rcv
    ensures 0 <= st.rcv.lastAck - c.isn
    ensures DataMsg(Packet(st.rcv.lastAck, st.accepted[st.rcv.lastAck - c.isn])) in st'.net
  {
    hide Good, Leads, Next, RcvOk, WindowsAgree;
    GoodParts(c, st);
    var a := st.rcv.lastAck;
    if a == st.snd.curr + 1 {
      st' := Transmit(c, st, a);
    } else {
      var st1 := st.(snd := OnExpire(st.snd));
      NextExpire(c, st, st1);
      OneStep(c, st, st1, ExpireStep);
      st' := Transmit(c, st1, a);
      LeadsOn(c, st, st1, st');
    }
  }

  lemma NextExpire(c: Config, st: State, st': State)
    requires Good(c, st) && st' == st.(snd := OnExpire(st.snd))
    ensures Next(c, st, st', ExpireStep)
  {
    hide OnExpire;
  }

  /** The packet arrives, and from then on more can be acknowledged. */
  lemma Arrive(c: Config, st: State, chunk: Chunk) returns (st': State)
    requires Good(c, st) && st.rcv.start == st.rcv.lastAck == st.rcv.lastAckAck && IsAckPoint(st.rcv, st.rcv.lastAck)
    requires DataMsg(Packet(st.rcv.lastAck, chunk)) in st.net
    ensures Leads(c, st, st') && Good(c, st') && SameStream(st, st')
    ensures Near(st'.rcv.lastAckAck, st'.rcv.curr + 1)
    ensures forall a :: IsAckPoint(st'.rcv, a) ==> a > st.rcv.lastAck
  {
    hide Live, BytesConserved, SenderLinked, ReceiverLinked, WindowsAgree, MessageOk, Leads, SndOk;
    var a := st.rcv.lastAck;
    var (r', out) := OnData(c, st.rcv, a, chunk);
    st' := st.(rcv := r', net := st.net + Gap(out));
    NextData(c, st, st', Packet(a, chunk));
    OneStep(c, st, st', DataStep(Packet(a, chunk)));
    Stored(c, st.rcv, chunk);
    GoodParts(c, st');
  }

  lemma NextData(c: Config, st: State, st': State, p: Packet)
    requires Good(c, st) && DataMsg(p) in st.net && Near(p.seqno, st.rcv.lastAck)
    requires var (r', out) := OnData(c, st.rcv, p.seqno, p.chunk); st' == st.(rcv := r', net := st.net + Gap(out))
    ensures Next(c, st, st', DataStep(p))
  {
    hide OnData;
  }

  lemma Stored(c: Config, r: Rcv, chunk: Chunk)
    requires RcvOk(c, r) && c.rcvBufSize >= 2 && r.start == r.lastAck && IsAckPoint(r, r.lastAck)
    ensures var r' := OnData(c, r, r.lastAck, chunk).0;
      && r'.lastAck == r.lastAck && r'.lastAckAck == r.lastAckAck && r'.start == r.start
      && forall a :: IsAckPoint(r', a) ==> a > r.lastAck
  {
    assert r.lastAck !in r.slots;
    assert Storable(c, r, r.lastAck);
  }

  /** In step, the connection can deliver chunk after chunk until nothing is left. */
  lemma {:induction false} DeliverRest(c: Config, st: State) returns (st': State)
    requires Synced(c, st)
    ensures Leads(c, st, st') && Good(c, st') && st'.sent == st.sent && st'.delivered == st.sent
    decreases c.isn + |st.accepted| - st.rcv.lastAck
  {
    hide Leads, Inv, Live, IsAckPoint;
    AckedIsAccepted(c, st);
    if st.rcv.lastAck - c.isn == |st.accepted| {
      LeadsNowhere(c, st);
      st' := st;
    } else {
      var st1 := Obtain(c, st);
      var st2 := Arrive(c, st1, st.accepted[st.rcv.lastAck - c.isn]);
      var st3 := Sync(c, st2);
      AckedIsAccepted(c, st3);
      st' := DeliverRest(c, st3);
      LeadsOn(c, st, st1, st2);
      LeadsOn(c, st, st2, st3);
      LeadsOn(c, st, st3, st');
    }
  }

  lemma AckedIsAccepted(c: Config, st: State)
    requires Synced(c, st)
    ensures c.isn <= st.rcv.lastAck <= c.isn + |st.accepted|
    ensures st.rcv.lastAck == c.isn + |st.accepted| ==> st.delivered == st.sent
  {
    hide SndOk, SenderLinked, ReceiverLinked, WindowsAgree, MessageOk, Covered, Live, Flatten;
    TakeAll(st.accepted);
    assert st.accepted[st.rcv.start - c.isn..st.rcv.lastAck - c.isn] == [];
    assert st.delivered + [] == st.delivered;
  }

  /** However long confirmations were lost, the last one can still arrive: after it the receiver
      compares numbers that are close together. */
  lemma Confirm(c: Config, st: State) returns (st': State)
    requires Good(c, st)
    ensures Leads(c, st, st') && Good(c, st') && SameStream(st, st') && Near(st'.rcv.lastAckAck, st'.rcv.curr + 1)
  {
    hide Live, Leads, Next, Inv, SndOk, WindowsAgree, SenderLinked;
    GoodParts(c, st);
    if st.rcv.lastAck == c.isn {
      LeadsNowhere(c, st);
      st' := st;
    } else {
      var a := st.rcv.lastAck;
      var avail :| AckMsg(FullAck(a, avail)) in st.net;
      var st1 := NextFullAck(c, st, a, avail);
      st' := st1.(rcv := OnAckAck(st1.rcv, a));
      NextAckAck(c, st1, st', a);
      OneStep(c, st1, st', AckAckStep(a));
      LeadsOn(c, st, st1, st');
    }
  }

  /** From every state of every run everything that was accepted can still be delivered, if the
      receive buffer has two slots. */
  lemma NoDeadlock(c: Config, run: seq<State>, i: nat) returns (st': State)
    requires ConfigOk(c) && c.rcvBufSize >= 2 && Run(c, run) && i < |run|
    ensures Leads(c, run[i], st') && st'.sent == run[i].sent && st'.delivered == run[i].sent
  {
    hide Leads, Inv, Live, Confirmable;
    RunIsGood(c, run, i);
    var st0 := Confirm(c, run[i]);
    var st1 := Sync(c, st0);
    st' := DeliverRest(c, st1);
    LeadsOn(c, run[i], st0, st1);
    LeadsOn(c, run[i], st1, st');
  }

  lemma {:induction false} RunIsGood(c: Config, run: seq<State>, i: nat)
    requires ConfigOk(c) && c.rcvBufSize >= 2 && Run(c, run) && i < |run|
    ensures Good(c, run[i])
  {
    hide Inv, Live, Confirmable;
    Reachable(c, run, i);
    if i == 0 {
      InitLive(c);
    } else {
      RunIsGood(c, run, i - 1);
      GoodParts(c, run[i - 1]);
      StepOf(c, run, i - 1);
      var step := TakenStep(c, run[i - 1], run[i]);
      NextLive(c, run[i - 1], run[i], step);
      NextConfirmable(c, run[i - 1], run[i], step);
    }
  }

  /** With a receive buffer of one slot, which must stay empty, nothing is ever delivered. */
  lemma OneSlotIsStuck(c: Config, run: seq<State>, i: nat)
    requires ConfigOk(c) && c.rcvBufSize == 1 && Run(c, run) && i < |run|
    ensures run[i].delivered == []
  {
    hide Inv, Flatten, Unread;
    OneSlotStays(c, run, i);
    Reachable(c, run, i);
    NothingHeld(c, run[i]);
  }

  lemma {:induction false} OneSlotStays(c: Config, run: seq<State>, i: nat)
    requires ConfigOk(c) && c.rcvBufSize == 1 && Run(c, run) && i < |run|
    ensures run[i].rcv.start == c.isn
  {
    hide Inv, Next;
    if i > 0 {
      OneSlotStays(c, run, i - 1);
      Reachable(c, run, i - 1);
      InvIsOk(c, run[i - 1]);
      StepOf(c, run, i - 1);
      var step := TakenStep(c, run[i - 1], run[i]);
      StartStays(c, run[i - 1], run[i], step);
    }
  }

  lemma InvIsOk(c: Config, st: State)
    requires Inv(c, st)
    ensures ConfigOk(c) && SndOk(c, st.snd) && RcvOk(c, st.rcv)
  {
  }

  lemma StartStays(c: Config, st: State, st': State, step: Step)
    requires Inv(c, st) && c.rcvBufSize == 1 && Next(c, st, st', step)
    ensures st'.rcv.start == st.rcv.start
  {
    hide BytesConserved, SenderLinked, ReceiverLinked, WindowsAgree, MessageOk, SndOk, Covered, OnNak, Send, PackData;
    match step
    case RecvStep(len) =>
      assert Held(st.rcv.slots, st.rcv.start, st.rcv.lastAck) == [];
    case _ =>
  }

  lemma NothingHeld(c: Config, st: State)
    requires Inv(c, st) && c.rcvBufSize == 1 && st.rcv.start == c.isn
    ensures st.delivered == []
  {
    hide SenderLinked, ReceiverLinked, WindowsAgree, MessageOk, SndOk, Covered;
    assert st.accepted[0..0] == [] && st.accepted[..0] == [];
    assert st.delivered + [] == st.delivered;
  }
}
