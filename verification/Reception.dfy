// What every reception of a run does, in every mode: no frame that the peer
// sends is ignored.
module Reception {
  import opened Bytes
  import opened Numbers
  import opened Peer
  import opened Session

  // --- Addresses on the line ------------------------------------------------------

  // The address a station puts on its frames: its own on a response, the peer's
  // on a command; outside balanced mode only the primary sends commands.
  ghost predicate AddressedBy(c: Config, q: seq<Flight>) {
    forall i :: 0 <= i < |q| ==>
      && (q[i].wire.addr == c.addr || q[i].wire.addr == c.peerAddr)
      && (!c.abm ==> q[i].wire.addr == if c.primary then c.peerAddr else c.addr)
  }

  ghost predicate LineInv(s: System) {
    Inv(s) && AddressedBy(s.x.cfg, s.xy) && AddressedBy(s.y.cfg, s.yx)
  }

  lemma SentAddress(c: Config, p: State, env: TxEnv)
    requires c.modulus > 0
    ensures p.tx.transQ != [] ==> AddressedBy(c, [Flight(SendI(c, p).1, 0, 0, 0, 0)])
    ensures SupervisoryToSend(c, p, env).Some? ==> AddressedBy(c, [Flight(SendS(c, p, env).1, 0, 0, 0, 0)])
  {
    hide Advance;
    hide SFramePF;
    hide IFramePF;
    hide MarkPF;
    hide EmittedNS;
    if p.tx.transQ != [] {
      assert SendI(c, p).1.addr == TxAddr(c, SendsCommands(c, p.fl));
    }
    if SupervisoryToSend(c, p, env).Some? {
      assert SendS(c, p, env).1.addr == TxAddr(c, SendsCommands(c, p.fl));
    }
  }

  lemma AppendAddressed(c: Config, q: seq<Flight>, f: Flight)
    requires AddressedBy(c, q) && AddressedBy(c, [Flight(f.wire, 0, 0, 0, 0)])
    ensures AddressedBy(c, q + [f])
  {
    assert [Flight(f.wire, 0, 0, 0, 0)][0].wire == f.wire;
  }

  lemma ActKeepsAddresses(s: System, act: Action)
    requires s.x.cfg.modulus > 0 && AddressedBy(s.x.cfg, s.xy) && AddressedBy(s.y.cfg, s.yx)
    ensures AddressedBy(s.x.cfg, Act(s, act).xy) && AddressedBy(s.y.cfg, Act(s, act).yx)
  {
    hide SendI;
    hide SendS;
    hide CanSendI;
    hide SupervisoryToSend;
    hide Receive;
    hide AddressedBy;
    var c, p, t := s.x.cfg, s.x.st, Act(s, act);
    match act
    case TxI(idle) =>
      if CanSendI(c, p, idle) {
        assert p.tx.transQ != [] by { NeedsFrame(c, p, idle); }
        SentAddress(c, p, TxEnv(false, false, false, false, false, false));
        AppendAddressed(c, s.xy, t.xy[|s.xy|]);
      }
    case TxS(env) =>
      if SupervisoryToSend(c, p, env).Some? {
        SentAddress(c, p, env);
        AppendAddressed(c, s.xy, t.xy[|s.xy|]);
      }
    case Receipt(env) => if s.yx != [] { FewerAddressed(s.y.cfg, s.yx, 0); }
    case Lose(i) => if i < |s.yx| { FewerAddressed(s.y.cfg, s.yx, i); }
    case _ =>
  }

  lemma NeedsFrame(c: Config, p: State, lineIdle: bool)
    requires c.modulus > 0 && CanSendI(c, p, lineIdle)
    ensures p.tx.transQ != [] && WindowOpen(c, p.tx)
  {
    hide WindowOpen;
  }

  lemma FewerAddressed(c: Config, q: seq<Flight>, i: nat)
    requires AddressedBy(c, q) && i < |q|
    ensures AddressedBy(c, Without(q, i)) && AddressedBy(c, q[1..])
  {
    var u := Without(q, i);
    assert forall j :: 0 <= j < |u| ==> u[j] == q[if j < i then j else j + 1];
  }

  lemma ExecKeepsLineInv(s: System, step: Step)
    requires LineInv(s)
    ensures LineInv(Exec(s, step))
  {
    hide Flow;
    hide Act;
    hide AddressedBy;
    ExecKeepsInv(s, step);
    match step
    case AtX(act) => ActKeepsAddresses(s, act);
    case AtY(act) => ActKeepsAddresses(s.Swap(), act);
  }

  lemma {:induction false} RunKeepsLineInv(s: System, steps: seq<Step>)
    requires LineInv(s)
    ensures LineInv(Run(s, steps))
    decreases |steps|
  {
    hide Flow;
    hide Exec;
    hide AddressedBy;
    if steps != [] {
      ExecKeepsLineInv(s, steps[0]);
      RunKeepsLineInv(Exec(s, steps[0]), steps[1..]);
    }
  }

  lemma StartLineInv(s: System)
    requires Init(s)
    ensures LineInv(s)
  {
    InitInv(s);
  }

  // --- One reception --------------------------------------------------------------------

  ghost predicate Taken(n: Node, f: Flight, env: RxEnv) {
    f.wire.Info? && f.num == R(n) && env.endpointTakes
  }

  // Node `n` became `m` by receiving `f` from `peer`: the payload is taken exactly
  // when it is the next one and the endpoint takes it, and everything sent below
  // the acknowledgment is retired.
  ghost predicate TookHead(n: Node, m: Node, f: Flight, peer: Node, env: RxEnv) {
    && m.cfg == n.cfg && m.log == n.log
    && (if Taken(n, f, env) then
      && 0 <= f.num < |peer.log|
      && m.st.rx.delivered == n.st.rx.delivered + [peer.log[f.num]]
    else m.st.rx.delivered == n.st.rx.delivered)
    && A(m.st.tx, m.log) == Min(f.ack, V(n.st.tx, n.log))
    && H(m.st.tx, m.log) == H(n.st.tx, n.log)
  }

  // What the frame says about the peer and the turn, and what taking it does to
  // the receiver's own flags.
  ghost predicate FlagsHeard(c: Config, was: Flags, now: Flags, w: Wire, env: RxEnv, taken: bool) {
    var command := w.addr == c.addr;
    && now.pRcved == (was.pRcved || (w.pf && command))
    && now.fRcved == (was.fRcved || (w.pf && !command))
    && now.retryCount == (if w.pf && !command then 0 else was.retryCount)
    && now.peerBusy ==
      (if w.Supervisory? then w.fun == RNR || (w.fun != RR && was.peerBusy) else was.peerBusy && !(w.pf && taken))
    && now.localBusy == (was.localBusy || (taken && env.poolLow))
    && now.needP == (was.needP || (taken && !c.abm && c.primary))
    && !now.frmr
  }

  ghost predicate HeardFlags(n: Node, m: Node, f: Flight, env: RxEnv) {
    FlagsHeard(n.cfg, n.st.fl, m.st.fl, f.wire, env, Taken(n, f, env))
  }

  // In every mode, the peer's frames pass the address filter.
  lemma HeadIsForX(s: System)
    requires LineInv(s) && s.yx != []
    ensures AddressAccepted(s.x.cfg, s.yx[0].wire.addr)
  {
    hide Flow;
  }

  lemma TakesHead(s: System, env: RxEnv)
    requires LineInv(s) && s.yx != []
    ensures
      var t := Act(s, Receipt(env));
      TookHead(s.x, t.x, s.yx[0], s.y, env) && t.yx == s.yx[1..] && t.xy == s.xy
  {
    hide Inv;
    hide AddressedBy;
    hide AddressAccepted;
    hide Receive;
    hide IsNRValid;
    hide Window;
    hide Config.Mod;
    hide NumberedPrefix;
    hide Tx.Held;
    hide SendI;
    hide SendS;
    hide CanSendI;
    hide SupervisoryToSend;
    HeadIsForX(s);
    HeadIsValid(s);
    var c, p, f := s.x.cfg, s.x.st, s.yx[0];
    ReceiveSender(c, p, s.x.log, f.wire, f.ack, env);
    ReceiveReceiver(c, p, f.wire, env);
    if f.wire.Info? {
      HeadIsExpected(s);
    }
  }

  lemma IFrameFlags(c: Config, q: State, w: Wire, env: RxEnv)
    requires c.Valid() && w.Info?
    ensures
      var r := HandleIFrame(c, q, w.ns, w.pf, w.payload, env);
      var taken := w.ns == q.rx.vr && env.endpointTakes;
      && r.fl.peerBusy == (q.fl.peerBusy && !(w.pf && taken))
      && r.fl.localBusy == (q.fl.localBusy || (taken && env.poolLow))
      && r.fl == q.fl.(peerBusy := r.fl.peerBusy, localBusy := r.fl.localBusy)
  {
    hide Config.Next;
  }

  lemma FlagsAfterInfo(c: Config, p: State, w: Wire, env: RxEnv)
    requires c.Valid() && !p.fl.frmr && IsNRValid(c, p.tx, w.nr) && AddressAccepted(c, w.addr) && w.Info?
    ensures
      FlagsHeard(c, p.fl, Receive(c, p, w, env).fl, w, env, w.ns == p.rx.vr && env.endpointTakes)
  {
    hide CheckpointAndAckTx;
    hide HandleIFrame;
    hide IsNRValid;
    hide AddressAccepted;
    var q := HandleCheckpointAndAck(c, p, w.nr, w.pf, w.addr == c.addr).value;
    IFrameFlags(c, q, w, env);
  }

  lemma FlagsAfterSupervisory(c: Config, p: State, w: Wire, env: RxEnv)
    requires c.Valid() && !p.fl.frmr && IsNRValid(c, p.tx, w.nr) && AddressAccepted(c, w.addr) && w.Supervisory?
    ensures FlagsHeard(c, p.fl, Receive(c, p, w, env).fl, w, env, false)
  {
    hide CheckpointAndAckTx;
    hide RejRetransmit;
    hide IsNRValid;
    hide AddressAccepted;
  }

  lemma HearsHead(s: System, env: RxEnv)
    requires LineInv(s) && s.yx != []
    ensures HeardFlags(s.x, Act(s, Receipt(env)).x, s.yx[0], env)
  {
    hide Inv;
    hide AddressedBy;
    hide AddressAccepted;
    hide Receive;
    hide IsNRValid;
    hide Window;
    hide SendI;
    hide SendS;
    hide CanSendI;
    hide SupervisoryToSend;
    HeadIsForX(s);
    HeadIsValid(s);
    if s.yx[0].wire.Info? {
      HeadIsExpected(s);
      FlagsAfterInfo(s.x.cfg, s.x.st, s.yx[0].wire, env);
    } else {
      FlagsAfterSupervisory(s.x.cfg, s.x.st, s.yx[0].wire, env);
    }
  }

  // --- The two stations are alike ----------------------------------------------------------

  function Mirror(step: Step): Step {
    match step
    case AtX(act) => AtY(act)
    case AtY(act) => AtX(act)
  }

  function Mirrored(steps: seq<Step>): seq<Step> {
    if steps == [] then [] else [Mirror(steps[0])] + Mirrored(steps[1..])
  }

  // What is said of `x` in every run is said of `y` in every run.
  lemma {:induction false} RunMirrored(s: System, steps: seq<Step>)
    requires s.x.cfg.modulus > 0 && s.y.cfg.modulus > 0
    ensures Run(s.Swap(), Mirrored(steps)) == Run(s, steps).Swap()
    ensures Init(s) ==> Init(s.Swap())
    decreases |steps|
  {
    hide Act;
    if steps != [] {
      assert Exec(s.Swap(), Mirror(steps[0])) == Exec(s, steps[0]).Swap();
      assert Mirrored(steps)[0] == Mirror(steps[0]) && Mirrored(steps)[1..] == Mirrored(steps[1..]);
      RunMirrored(Exec(s, steps[0]), steps[1..]);
    }
  }

  // --- Theorem ---------------------------------------------------------------------------------

  lemma SwapLineInv(s: System)
    requires LineInv(s)
    ensures LineInv(s.Swap())
  {
    hide Flow;
    hide AddressedBy;
  }

  // In every run and every mode, at both stations: the frame at the head of a
  // channel is never ignored.
  lemma EveryReceiptTakes(s: System, steps: seq<Step>, env: RxEnv)
    requires Init(s)
    ensures
      var e := Run(s, steps);
      && (e.yx != [] ==>
        var t := Exec(e, AtX(Receipt(env)));
        TookHead(e.x, t.x, e.yx[0], e.y, env) && HeardFlags(e.x, t.x, e.yx[0], env))
      && (e.xy != [] ==>
        var t := Exec(e, AtY(Receipt(env)));
        TookHead(e.y, t.y, e.xy[0], e.x, env) && HeardFlags(e.y, t.y, e.xy[0], env))
  {
    hide LineInv;
    hide Act;
    hide TookHead;
    hide HeardFlags;
    StartLineInv(s);
    RunKeepsLineInv(s, steps);
    var e := Run(s, steps);
    SwapLineInv(e);
    if e.yx != [] {
      TakesHead(e, env);
      HearsHead(e, env);
    }
    if e.xy != [] {
      TakesHead(e.Swap(), env);
      HearsHead(e.Swap(), env);
    }
  }

  // --- Frames that are not the peer's, or whose N(R) is none ---------------------------------

  lemma DistanceBack(c: Config, a: int, n: nat)
    requires c.Valid() && n < c.modulus
    ensures c.Mod(a + c.Distance(c.Mod(a), n)) == n
  {
    if c.modulus == 8 { Back8(a, n); } else { Back128(a, n); }
  }

  lemma Back8(a: int, n: nat)
    requires n < 8
    ensures (a + (n - a % 8) % 8) % 8 == n
  {
  }

  lemma Back128(a: int, n: nat)
    requires n < 128
    ensures (a + (n - a % 128) % 128) % 128 == n
  {
  }

  // The test passes exactly the numbers between the oldest unacknowledged frame
  // and the high-water mark.
  lemma ValidNRIff(c: Config, t: Tx, log: seq<Octets>, nr: nat)
    requires c.Valid() && Window(c, t, log) && nr < c.modulus
    ensures IsNRValid(c, t, nr) <==> exists r :: A(t, log) <= r <= H(t, log) && c.Mod(r) == nr
  {
    hide Window;
    hide Config.Mod;
    hide Config.Distance;
    hide NumberedPrefix;
    hide IsNRValid;
    WindowBasics(c, t, log);
    forall r | A(t, log) <= r <= H(t, log) && c.Mod(r) == nr ensures IsNRValid(c, t, nr) {
      ProcessNRWindow(c, t, log, r);
    }
    if IsNRValid(c, t, nr) {
      DistanceBack(c, A(t, log), nr);
      ValidDistance(c, t, log, nr);
      assert c.Mod(A(t, log) + c.Distance(t.nr, nr)) == nr;
    }
  }

  lemma ValidDistance(c: Config, t: Tx, log: seq<Octets>, nr: nat)
    requires c.Valid() && Window(c, t, log) && IsNRValid(c, t, nr)
    ensures c.Distance(t.nr, nr) <= H(t, log) - A(t, log)
  {
    hide Window;
    hide Config.Mod;
    hide Config.Distance;
    hide NumberedPrefix;
    WindowBasics(c, t, log);
    DistanceMod(c, A(t, log), H(t, log));
  }

  // What any frame at all does in any reachable state: for another station,
  // nothing; with an N(R) outside the window, the reject condition and nothing
  // else, after which no I- or S-frame does anything.
  lemma StrangeFramesAreRefused(s: System, steps: seq<Step>, w: Wire, env: RxEnv)
    requires Init(s) && w.nr < s.x.cfg.modulus
    ensures
      var e := Run(s, steps);
      var c, p, q := e.x.cfg, e.x.st, Receive(e.x.cfg, e.x.st, w, env);
      var ours := w.addr == c.peerAddr || w.addr == c.addr;
      var fits := if c.abm then ours else w.addr == (if c.primary then c.peerAddr else c.addr);
      var known := exists r :: A(p.tx, e.x.log) <= r <= H(p.tx, e.x.log) && c.Mod(r) == w.nr;
      && (!fits ==> q == p)
      && (fits && !known ==> q == p.(fl := p.fl.(frmr := true)) && forall v, next :: Receive(c, q, v, next) == q)
      && (fits && known ==> !q.fl.frmr)
  {
    hide LineInv;
    hide Window;
    hide Config.Mod;
    hide IsNRValid;
    hide CheckpointAndAckTx;
    hide RejRetransmit;
    hide HandleIFrame;
    hide NumberedPrefix;
    hide V;
    hide A;
    StartLineInv(s);
    RunKeepsLineInv(s, steps);
    var e := Run(s, steps);
    SenderWindow(e);
    ValidNRIff(e.x.cfg, e.x.st.tx, e.x.log, w.nr);
    var q := Receive(e.x.cfg, e.x.st, w, env);
    if AddressAccepted(e.x.cfg, w.addr) && IsNRValid(e.x.cfg, e.x.st.tx, w.nr) {
      ReceiveTx(e.x.cfg, e.x.st, w, env);
    } else if AddressAccepted(e.x.cfg, w.addr) {
      forall v, next ensures Receive(e.x.cfg, q, v, next) == q {
        RejectingIgnores(e.x.cfg, q, v, next);
      }
    }
  }

  lemma SenderWindow(s: System)
    requires LineInv(s)
    ensures s.x.cfg.Valid() && Window(s.x.cfg, s.x.st.tx, s.x.log) && !s.x.st.fl.frmr
  {
    hide Window;
    hide DataOk;
    hide AcksOk;
    hide AddressedBy;
  }

  lemma RejectingIgnores(c: Config, p: State, w: Wire, env: RxEnv)
    requires c.modulus > 0 && p.fl.frmr
    ensures Receive(c, p, w, env) == p
  {
  }
}
