// In normal response mode, two-way alternate, a session can be completed from
// every state a run reaches, exactly when its turn is not lost for good or what
// is on the line acknowledges all that is held.
module Progress {
  import opened Bytes
  import opened Wrappers
  import opened Numbers
  import opened Peer
  import opened Session
  import opened TurnToken

  // --- Continuations -------------------------------------------------------------

  ghost predicate Reaches(s: System, t: System) {
    && s.x.cfg.modulus > 0 && s.y.cfg.modulus > 0
    && exists steps :: TimelyRun(s, steps) && Run(s, steps) == t
  }

  lemma ReachSelf(s: System)
    requires TokenInv(s)
    ensures Reaches(s, s)
  {
    hide TokenRules;
    hide NeverBehind;
    hide Flow;
    assert TimelyRun(s, []) && Run(s, []) == s;
  }

  lemma ReachStep(s: System, step: Step)
    requires TokenInv(s) && Timely(s, step)
    ensures Reaches(s, Exec(s, step)) && TokenInv(Exec(s, step))
  {
    hide TokenRules;
    hide NeverBehind;
    hide Flow;
    hide Act;
    assert [step][1..] == [] && [step][0] == step;
    assert TimelyRun(Exec(s, step), []) && Run(Exec(s, step), []) == Exec(s, step);
    assert TimelyRun(s, [step]) && Run(s, [step]) == Exec(s, step);
    RunKeepsTokenInv(s, [step]);
  }

  lemma {:induction false} RunConcat(s: System, a: seq<Step>, b: seq<Step>)
    requires s.x.cfg.modulus > 0 && s.y.cfg.modulus > 0
    ensures Run(s, a + b) == Run(Run(s, a), b)
    ensures TimelyRun(s, a) && TimelyRun(Run(s, a), b) ==> TimelyRun(s, a + b)
    decreases |a|
  {
    hide Exec;
    hide Timely;
    if a == [] {
      assert a + b == b;
    } else {
      assert (a + b)[1..] == a[1..] + b && (a + b)[0] == a[0];
      ExecConfigs(s, a[0]);
      RunConcat(Exec(s, a[0]), a[1..], b);
    }
  }

  lemma ExecConfigs(s: System, step: Step)
    requires s.x.cfg.modulus > 0 && s.y.cfg.modulus > 0
    ensures Exec(s, step).x.cfg == s.x.cfg && Exec(s, step).y.cfg == s.y.cfg
  {
  }

  lemma ReachOn(s: System, t: System, u: System)
    requires Reaches(s, t) && Reaches(t, u)
    ensures Reaches(s, u)
  {
    hide Run;
    hide TimelyRun;
    var a :| TimelyRun(s, a) && Run(s, a) == t;
    var b :| TimelyRun(t, b) && Run(t, b) == u;
    RunConcat(s, a, b);
  }

  // --- What the environment does in a continuation ------------------------------------

  const Ready := TxEnv(true, false, true, false, true, true)
  const Takes := RxEnv(true, false)

  // An S-frame that ends local busy, or polls, or answers.
  lemma SendsReady(c: Config, p: State)
    requires c.Valid() && !c.abm && c.twa && SendOpportunity(c, p.fl, true)
    requires p.fl.localBusy || p.fl.pRcved || (p.fl.fRcved && p.fl.needP)
    ensures SupervisoryToSend(c, p, Ready) == Some(RR)
    ensures
      var (q, w) := SendS(c, p, Ready);
      && w.Supervisory? && w.fun == RR && w.pf == SFramePF(c, p, SendsCommands(c, p.fl))
      && q.rx == p.rx && !q.fl.localBusy && q.fl.peerBusy == p.fl.peerBusy && q.fl.frmr == p.fl.frmr
      && q.fl.retryCount == p.fl.retryCount
      && q.tx == p.tx.(vsAtLastPf := if w.pf then p.tx.vs else p.tx.vsAtLastPf)
  {
    hide SFramePF;
  }

  lemma ReceiveBusy(c: Config, p: State, w: Wire, env: RxEnv)
    requires c.Valid() && !c.abm && !p.fl.frmr && AddressAccepted(c, w.addr) && IsNRValid(c, p.tx, w.nr)
    requires !env.poolLow
    ensures
      var q := Receive(c, p, w, env);
      && q.fl.localBusy == p.fl.localBusy
      && (w.Supervisory? && w.fun == RR ==> !q.fl.peerBusy)
      && (w.Info? && !p.fl.peerBusy ==> !q.fl.peerBusy)
  {
    hide CheckpointAndAckTx;
    hide RejRetransmit;
    hide IsNRValid;
  }

  // --- Single moves on an otherwise empty line --------------------------------------------

  ghost predicate XTurn(s: System) {
    TokenInv(s) && s.xy == [] && s.yx == [] && s.x.st.fl.fRcved
  }

  ghost predicate YTurn(s: System) {
    TokenInv(s) && s.xy == [] && s.yx == [] && s.y.st.fl.pRcved
  }

  function VX(s: System): int { V(s.x.st.tx, s.x.log) }

  function VY(s: System): int { V(s.y.st.tx, s.y.log) }

  // What an S-frame that the station `before` sends leaves of it.
  ghost predicate SentReady(before: Node, after: Node, w: Wire) {
    && after.cfg == before.cfg && after.log == before.log
    && w.Supervisory? && w.fun == RR
    && after.st.rx == before.st.rx && !after.st.fl.localBusy && after.st.fl.peerBusy == before.st.fl.peerBusy
    && after.st.tx == before.st.tx.(vsAtLastPf := if w.pf then before.st.tx.vs else before.st.tx.vsAtLastPf)
  }

  lemma XSendsS(s: System) returns (t: System)
    requires XTurn(s) && (s.x.st.fl.localBusy || s.x.st.fl.needP)
    ensures Reaches(s, t) && TokenInv(t) && t.y == s.y && t.yx == [] && |t.xy| == 1
    ensures SentReady(s.x, t.x, t.xy[0].wire) && t.x.st.fl.fRcved == !t.xy[0].wire.pf && t.xy[0].ack == R(s.x)
    ensures t.xy[0].wire.pf == SFramePF(s.x.cfg, s.x.st, true)
  {
    hide Inv;
    hide TokenRules;
    hide NeverBehind;
    hide SendS;
    hide SFramePF;
    hide SupervisoryToSend;
    Roles(s);
    SendsReady(s.x.cfg, s.x.st);
    PrimarySends(s.x.cfg, s.x.st, true, Ready);
    t := Exec(s, AtX(TxS(Ready)));
    ReachStep(s, AtX(TxS(Ready)));
  }

  lemma YSendsS(s: System) returns (t: System)
    requires YTurn(s)
    ensures Reaches(s, t) && TokenInv(t) && t.x == s.x && t.xy == [] && |t.yx| == 1
    ensures SentReady(s.y, t.y, t.yx[0].wire) && t.yx[0].wire.pf
  {
    hide Inv;
    hide TokenRules;
    hide NeverBehind;
    hide SendS;
    hide SupervisoryToSend;
    Roles(s);
    SendsReady(s.y.cfg, s.y.st);
    t := Exec(s, AtY(TxS(Ready)));
    ReachStep(s, AtY(TxS(Ready)));
  }

  // What receiving the only frame on the line leaves of the receiver.
  ghost predicate Received(before: Node, after: Node, w: Wire) {
    && after.cfg == before.cfg && after.log == before.log
    && after.st.fl.localBusy == before.st.fl.localBusy
    && (w.Supervisory? && w.fun == RR ==> !after.st.fl.peerBusy && after.st.rx.delivered == before.st.rx.delivered)
    && (w.Info? && !before.st.fl.peerBusy ==> !after.st.fl.peerBusy)
  }

  lemma YReceives(s: System) returns (t: System)
    requires TokenInv(s) && |s.xy| == 1 && s.yx == []
    ensures Reaches(s, t) && TokenInv(t) && t.x == s.x && t.xy == [] && t.yx == []
    ensures t.y.st == Receive(s.y.cfg, s.y.st, s.xy[0].wire, Takes) && Received(s.y, t.y, s.xy[0].wire)
    ensures t.y.st.fl.pRcved == (s.y.st.fl.pRcved || s.xy[0].wire.pf)
    ensures R(t.y) == if s.xy[0].wire.Info? && s.xy[0].num == R(s.y) then R(s.y) + 1 else R(s.y)
  {
    hide Inv;
    hide TokenRules;
    hide NeverBehind;
    hide Receive;
    hide IsNRValid;
    hide Window;
    Roles(s);
    SwapInv(s);
    HeadIsValid(s.Swap());
    ReceiveFlags(s.y.cfg, s.y.st, s.xy[0].wire, Takes);
    ReceiveBusy(s.y.cfg, s.y.st, s.xy[0].wire, Takes);
    ReceiveReceiver(s.y.cfg, s.y.st, s.xy[0].wire, Takes);
    if s.xy[0].wire.Info? {
      HeadIsExpected(s.Swap());
    }
    t := Exec(s, AtY(Receipt(Takes)));
    ReachStep(s, AtY(Receipt(Takes)));
  }

  lemma XReceives(s: System) returns (t: System)
    requires TokenInv(s) && |s.yx| == 1 && s.xy == []
    ensures Reaches(s, t) && TokenInv(t) && t.y == s.y && t.xy == [] && t.yx == []
    ensures t.x.st == Receive(s.x.cfg, s.x.st, s.yx[0].wire, Takes) && Received(s.x, t.x, s.yx[0].wire)
    ensures t.x.st.fl.fRcved == (s.x.st.fl.fRcved || s.yx[0].wire.pf)
    ensures R(t.x) == if s.yx[0].wire.Info? && s.yx[0].num == R(s.x) then R(s.x) + 1 else R(s.x)
  {
    hide Inv;
    hide TokenRules;
    hide NeverBehind;
    hide Receive;
    hide IsNRValid;
    hide Window;
    Roles(s);
    HeadIsValid(s);
    ReceiveFlags(s.x.cfg, s.x.st, s.yx[0].wire, Takes);
    ReceiveBusy(s.x.cfg, s.x.st, s.yx[0].wire, Takes);
    ReceiveReceiver(s.x.cfg, s.x.st, s.yx[0].wire, Takes);
    if s.yx[0].wire.Info? {
      HeadIsExpected(s);
    }
    t := Exec(s, AtX(Receipt(Takes)));
    ReachStep(s, AtX(Receipt(Takes)));
  }

  // --- I-frames -------------------------------------------------------------------------------

  // What an I-frame that the station `before` sends leaves of it; without the P/F
  // bit it may send another one.
  ghost predicate SentInfo(before: Node, after: Node, f: Flight)
    requires before.cfg.modulus > 0 && after.cfg.modulus > 0
  {
    && after.cfg == before.cfg && after.log == before.log
    && f.wire.Info? && f.num == V(before.st.tx, before.log)
    && after.st.rx == before.st.rx
    && after.st.fl.localBusy == before.st.fl.localBusy && after.st.fl.peerBusy == before.st.fl.peerBusy
    && before.st.tx.transQ != [] && after.st.tx.transQ == before.st.tx.transQ[1..]
    && V(after.st.tx, after.log) == V(before.st.tx, before.log) + 1
    && A(after.st.tx, after.log) == A(before.st.tx, before.log)
    && (f.wire.pf ==> after.st.tx.vsAtLastPf == after.st.tx.vs)
    && (!f.wire.pf && !before.st.fl.localBusy ==> CanSendI(after.cfg, after.st, true))
  }

  lemma SendsInfo(c: Config, p: State, log: seq<Octets>)
    requires c.Valid() && !c.abm && c.twa && Window(c, p.tx, log) && CanSendI(c, p, true)
    ensures p.tx.transQ != []
    ensures
      var (q, w) := SendI(c, p);
      && w.Info? && w.pf == IFramePF(c, p)
      && q.rx == p.rx && q.fl.localBusy == p.fl.localBusy && q.fl.peerBusy == p.fl.peerBusy
      && q.fl.frmr == p.fl.frmr
      && q.tx.transQ == p.tx.transQ[1..]
      && V(q.tx, log) == V(p.tx, log) + 1 && A(q.tx, log) == A(p.tx, log)
      && (w.pf ==> q.tx.vsAtLastPf == q.tx.vs)
      && (!w.pf && !p.fl.localBusy ==> CanSendI(c, q, true))
  {
    hide Window;
    hide Config.Mod;
    hide Config.Next;
    hide Config.Distance;
    hide NumberedPrefix;
    AdvanceWindow(c, p.tx, log);
    WindowBasics(c, p.tx, log);
    var u := Advance(c, p.tx);
    WindowBasics(c, u, log);
    DistanceMod(c, A(p.tx, log), V(p.tx, log));
    DistanceMod(c, A(u, log), V(u, log));
  }

  lemma XSendsI(s: System) returns (t: System)
    requires XTurn(s) && s.x.cfg.modulus > 0 && CanSendI(s.x.cfg, s.x.st, true)
    ensures Reaches(s, t) && TokenInv(t) && t.y == s.y && t.yx == [] && |t.xy| == 1
    ensures t.x.cfg.modulus > 0 && SentInfo(s.x, t.x, t.xy[0]) && t.x.st.fl.fRcved == !t.xy[0].wire.pf
  {
    hide TokenRules;
    hide NeverBehind;
    hide SendI;
    hide CanSendI;
    hide Window;
    hide DataOk;
    hide AcksOk;
    Roles(s);
    SendsInfo(s.x.cfg, s.x.st, s.x.log);
    PrimarySends(s.x.cfg, s.x.st, true, Ready);
    t := Exec(s, AtX(TxI(true)));
    ReachStep(s, AtX(TxI(true)));
  }

  lemma YSendsI(s: System) returns (t: System)
    requires YTurn(s) && s.y.cfg.modulus > 0 && CanSendI(s.y.cfg, s.y.st, true)
    ensures Reaches(s, t) && TokenInv(t) && t.x == s.x && t.xy == [] && |t.yx| == 1
    ensures t.y.cfg.modulus > 0 && SentInfo(s.y, t.y, t.yx[0]) && t.y.st.fl.pRcved == !t.yx[0].wire.pf
  {
    hide TokenRules;
    hide NeverBehind;
    hide SendI;
    hide CanSendI;
    hide Window;
    hide DataOk;
    hide AcksOk;
    Roles(s);
    SendsInfo(s.y.cfg, s.y.st, s.y.log);
    SecondarySends(s.y.cfg, s.y.st, true, Ready);
    t := Exec(s, AtY(TxI(true)));
    ReachStep(s, AtY(TxI(true)));
  }

  // --- Turns ------------------------------------------------------------------------------------

  ghost predicate SameLogs(s: System, t: System) { t.x.log == s.x.log && t.y.log == s.y.log }

  // The secondary gives the turn back at once: that resynchronises the primary.
  lemma Answer(s: System) returns (u: System)
    requires YTurn(s)
    ensures Reaches(s, u) && XTurn(u) && SameLogs(s, u)
    ensures u.x.st.fl.localBusy == s.x.st.fl.localBusy && !u.x.st.fl.peerBusy
    ensures !u.y.st.fl.localBusy && u.y.st.fl.peerBusy == s.y.st.fl.peerBusy
    ensures u.x.st.tx.retransQ == [] && VX(u) == R(u.y) == R(s.y) && R(u.x) == R(s.x)
    ensures u.y.st.tx == s.y.st.tx.(vsAtLastPf := s.y.st.tx.vs)
  {
    hide TokenInv;
    hide Receive;
    var t := YSendsS(s);
    u := XReceives(t);
    FinalResynchronises(t, Takes);
    ReachOn(s, t, u);
  }

  // I-frames until the poll goes out with the last of them.
  lemma {:induction false} BurstX(s: System) returns (u: System)
    requires XTurn(s) && !s.x.st.fl.localBusy && s.x.cfg.modulus > 0 && CanSendI(s.x.cfg, s.x.st, true)
    ensures Reaches(s, u) && YTurn(u) && SameLogs(s, u)
    ensures !u.x.st.fl.localBusy && u.y.st.fl.localBusy == s.y.st.fl.localBusy
    ensures R(u.y) >= R(s.y) && (VX(s) <= R(s.y) ==> R(u.y) > R(s.y)) && R(u.x) == R(s.x)
    decreases |s.x.st.tx.transQ|
  {
    hide TokenInv;
    hide Receive;
    hide CanSendI;
    hide V;
    hide A;
    var t := XSendsI(s);
    var m := YReceives(t);
    ReachOn(s, t, m);
    BelowReceiver(s);
    if t.xy[0].wire.pf {
      u := m;
    } else {
      u := BurstX(m);
      ReachOn(s, m, u);
    }
  }

  lemma BelowReceiver(s: System)
    requires TokenInv(s)
    ensures R(s.y) <= VX(s)
  {
    hide Inv;
    hide TokenRules;
    hide V;
  }

  // Nothing that may be sent: the primary polls.
  lemma PollX(s: System) returns (u: System)
    requires XTurn(s) && s.x.cfg.modulus > 0 && !CanSendI(s.x.cfg, s.x.st, true)
    ensures Reaches(s, u) && YTurn(u) && SameLogs(s, u)
    ensures !u.x.st.fl.localBusy && u.x.st.fl.peerBusy == s.x.st.fl.peerBusy
    ensures u.y.st.fl.localBusy == s.y.st.fl.localBusy && !u.y.st.fl.peerBusy
    ensures R(u.y) == R(s.y) && R(u.x) == R(s.x)
    ensures u.x.st.tx.retransQ == s.x.st.tx.retransQ && u.x.st.tx.transQ == s.x.st.tx.transQ
    ensures s.y.st.tx.vsAtLastPf == s.y.st.tx.vs ==> u.y.st.tx.retransQ == [] && VY(u) == Min(R(s.x), VY(s))
  {
    hide TokenInv;
    hide Receive;
    hide V;
    hide A;
    hide WindowOpen;
    var n := NeedsPoll(s);
    var t := XSendsS(n);
    u := YReceives(t);
    ReachOn(s, n, t);
    ReachOn(s, t, u);
    if t.y.st.tx.vsAtLastPf == t.y.st.tx.vs {
      PollAcknowledges(t);
    }
  }

  // The idle poll timer.
  lemma NeedsPoll(s: System) returns (t: System)
    requires XTurn(s) && s.x.cfg.modulus > 0 && !CanSendI(s.x.cfg, s.x.st, true)
    ensures Reaches(s, t) && XTurn(t) && t.y == s.y
    ensures t.x == s.x.(st := s.x.st.(fl := s.x.st.fl.(needP := true)))
    ensures t.x.cfg.modulus > 0 && SFramePF(t.x.cfg, t.x.st, true)
  {
    hide Inv;
    hide TokenRules;
    hide NeverBehind;
    hide WindowOpen;
    Roles(s);
    NotRejecting(s);
    t := Exec(s, AtX(T3));
    ReachStep(s, AtX(T3));
  }

  lemma NotRejecting(s: System)
    requires TokenInv(s)
    ensures !s.x.st.fl.frmr && !s.y.st.fl.frmr
  {
    hide TokenRules;
    hide NeverBehind;
    hide Flow;
  }

  lemma PollAcknowledges(t: System)
    requires TokenInv(t) && |t.xy| == 1 && t.xy[0].wire.pf && t.xy[0].ack == R(t.x)
    requires t.y.st.tx.vsAtLastPf == t.y.st.tx.vs
    ensures t.y.cfg.modulus > 0
    ensures
      var u := Receive(t.y.cfg, t.y.st, t.xy[0].wire, Takes).tx;
      u.retransQ == [] && V(u, t.y.log) == Min(R(t.x), VY(t))
  {
    hide Inv;
    hide TokenRules;
    hide NeverBehind;
    hide Receive;
    hide IsNRValid;
    hide Window;
    hide Tx.Held;
    Roles(t);
    SwapInv(t);
    HeadIsValid(t.Swap());
    FinalWindow(t.y.cfg, t.y.st, t.y.log, t.xy[0].wire, t.xy[0].ack, Takes);
  }

  // The primary gives the turn away, one way or the other.
  lemma Cede(s: System) returns (u: System)
    requires XTurn(s) && !s.x.st.fl.localBusy
    ensures Reaches(s, u) && YTurn(u) && SameLogs(s, u) && !u.x.st.fl.localBusy
  {
    hide Inv;
    hide TokenRules;
    hide NeverBehind;
    hide CanSendI;
    Roles(s);
    if CanSendI(s.x.cfg, s.x.st, true) {
      u := BurstX(s);
    } else {
      u := PollX(s);
    }
  }

  lemma ClearBusy(s: System) returns (u: System)
    requires XTurn(s)
    ensures Reaches(s, u) && XTurn(u) && SameLogs(s, u) && !u.x.st.fl.localBusy
  {
    hide TokenInv;
    hide Receive;
    if s.x.st.fl.localBusy {
      var t := XSendsS(s);
      var m := YReceives(t);
      ReachOn(s, t, m);
      if t.xy[0].wire.pf {
        u := Answer(m);
        ReachOn(s, m, u);
      } else {
        u := m;
      }
    } else {
      u := s;
      ReachSelf(s);
    }
  }

  // --- Everything the primary has ---------------------------------------------------------------

  // The primary is synchronised, and nobody is busy.
  ghost predicate XReady(s: System) {
    && XTurn(s) && s.x.st.tx.retransQ == [] && VX(s) <= R(s.y)
    && !s.x.st.fl.localBusy && !s.x.st.fl.peerBusy && !s.y.st.fl.localBusy
    && s.y.st.tx.vsAtLastPf == s.y.st.tx.vs
  }

  lemma Prepare(s: System) returns (u: System)
    requires XTurn(s)
    ensures Reaches(s, u) && XReady(u) && SameLogs(s, u)
  {
    hide TokenInv;
    hide V;
    var a := ClearBusy(s);
    var b := Cede(a);
    u := Answer(b);
    ReachOn(s, a, b);
    ReachOn(s, b, u);
  }

  lemma MaySendAll(s: System)
    requires XReady(s) && s.x.st.tx.transQ != []
    ensures s.x.cfg.modulus > 0 && CanSendI(s.x.cfg, s.x.st, true)
  {
    hide TokenRules;
    hide NeverBehind;
    hide DataOk;
    hide AcksOk;
    hide Frames;
    hide Config.Mod;
    Roles(s);
    NotRejecting(s);
    DistanceMod(s.x.cfg, A(s.x.st.tx, s.x.log), VX(s));
  }

  lemma {:induction false} SendAllX(s: System) returns (u: System)
    requires XReady(s)
    ensures Reaches(s, u) && XReady(u) && SameLogs(s, u) && u.x.st.tx.Held() == []
    decreases |s.x.log| - R(s.y)
  {
    hide TokenInv;
    hide CanSendI;
    if s.x.st.tx.transQ == [] {
      u := s;
      ReachSelf(s);
    } else {
      MaySendAll(s);
      BelowReceiver(s);
      var a := BurstX(s);
      var b := Answer(a);
      ReachOn(s, a, b);
      BelowReceiver(b);
      u := SendAllX(b);
      ReachOn(s, b, u);
    }
  }

  // --- Everything the secondary has -------------------------------------------------------------

  // The secondary is synchronised, nobody is busy, and the primary has nothing left.
  ghost predicate YReady(s: System) {
    && YTurn(s) && s.y.st.tx.retransQ == [] && VY(s) <= R(s.x)
    && !s.x.st.fl.localBusy && !s.y.st.fl.localBusy && !s.x.st.fl.peerBusy && !s.y.st.fl.peerBusy
    && s.x.st.tx.Held() == []
  }

  // A sender that holds nothing holds nothing after any receipt.
  lemma EmptyStays(c: Config, p: State, w: Wire, env: RxEnv)
    requires c.Valid() && p.tx.Held() == []
    ensures Receive(c, p, w, env).tx.Held() == []
  {
    hide IsNRValid;
  }

  // I-frames until the turn goes back with the last of them.
  lemma {:induction false} BurstY(s: System) returns (u: System)
    requires YTurn(s) && VY(s) <= R(s.x) && s.x.st.tx.Held() == [] && !s.x.st.fl.peerBusy
    requires !s.y.st.fl.localBusy && !s.y.st.fl.peerBusy && s.y.cfg.modulus > 0 && CanSendI(s.y.cfg, s.y.st, true)
    ensures Reaches(s, u) && XTurn(u) && SameLogs(s, u) && u.x.st.tx.Held() == []
    ensures u.x.st.fl.localBusy == s.x.st.fl.localBusy && !u.x.st.fl.peerBusy
    ensures !u.y.st.fl.localBusy && u.y.st.tx.vsAtLastPf == u.y.st.tx.vs
    ensures VY(s) < VY(u) <= R(u.x)
    decreases |s.y.st.tx.transQ|
  {
    hide TokenInv;
    hide Receive;
    hide CanSendI;
    hide V;
    hide A;
    hide Tx.Held;
    var t := YSendsI(s);
    var m := XReceives(t);
    ReachOn(s, t, m);
    PrimaryValid(t);
    EmptyStays(t.x.cfg, t.x.st, t.yx[0].wire, Takes);
    if t.yx[0].wire.pf {
      u := m;
    } else {
      u := BurstY(m);
      ReachOn(s, m, u);
    }
  }

  lemma PrimaryValid(s: System)
    requires TokenInv(s)
    ensures s.x.cfg.Valid() && s.y.cfg.Valid()
  {
    hide Flow;
    hide TokenRules;
    hide NeverBehind;
  }

  lemma MayAnswerAll(s: System)
    requires YReady(s) && s.y.st.tx.transQ != []
    ensures s.y.cfg.modulus > 0 && CanSendI(s.y.cfg, s.y.st, true) && VY(s) < |s.y.log|
  {
    hide TokenRules;
    hide NeverBehind;
    hide DataOk;
    hide AcksOk;
    hide Frames;
    hide Config.Mod;
    Roles(s);
    NotRejecting(s);
    DistanceMod(s.y.cfg, A(s.y.st.tx, s.y.log), VY(s));
  }

  lemma PollForY(s: System) returns (u: System)
    requires XTurn(s) && s.x.st.tx.Held() == [] && s.y.st.tx.vsAtLastPf == s.y.st.tx.vs
    requires !s.x.st.fl.peerBusy && !s.y.st.fl.localBusy
    ensures Reaches(s, u) && YReady(u) && SameLogs(s, u) && VY(u) == Min(R(s.x), VY(s))
  {
    hide TokenInv;
    hide V;
    hide A;
    hide WindowOpen;
    PrimaryValid(s);
    u := PollX(s);
  }

  lemma {:induction false} SendAllY(s: System) returns (u: System)
    requires YReady(s)
    ensures Reaches(s, u) && TokenInv(u) && SameLogs(s, u) && Drained(u)
    decreases |s.y.log| - VY(s)
  {
    hide TokenInv;
    hide CanSendI;
    hide V;
    hide A;
    if s.y.st.tx.transQ == [] {
      u := s;
      ReachSelf(s);
    } else {
      MayAnswerAll(s);
      var a := BurstY(s);
      var b := PollForY(a);
      ReachOn(s, a, b);
      u := SendAllY(b);
      ReachOn(s, b, u);
    }
  }

  // Nothing left to send or to acknowledge at either station.
  ghost predicate Drained(s: System) { s.x.st.tx.Held() == [] && s.y.st.tx.Held() == [] }

  lemma DrainFromTurn(s: System) returns (u: System)
    requires XTurn(s)
    ensures Reaches(s, u) && TokenInv(u) && SameLogs(s, u) && Drained(u)
  {
    hide TokenInv;
    hide V;
    hide A;
    hide Tx.Held;
    var a := Prepare(s);
    var b := SendAllX(a);
    var d := PollForY(b);
    u := SendAllY(d);
    ReachOn(s, a, b);
    ReachOn(s, b, d);
    ReachOn(s, d, u);
  }

  // --- Getting the turn to the primary ------------------------------------------------------------

  lemma {:induction false} LoseTowardsX(s: System, n: nat) returns (t: System)
    requires TokenInv(s) && n <= |s.yx|
    ensures Reaches(s, t) && TokenInv(t) && t == s.(yx := s.yx[n..])
    decreases n
  {
    hide TokenInv;
    if n == 0 {
      t := s;
      ReachSelf(s);
    } else {
      PrimaryValid(s);
      var m := Exec(s, AtX(Lose(0)));
      ReachStep(s, AtX(Lose(0)));
      assert Without(s.yx, 0) == s.yx[1..];
      t := LoseTowardsX(m, n - 1);
      ReachOn(s, m, t);
    }
  }

  lemma {:induction false} LoseTowardsY(s: System, n: nat) returns (t: System)
    requires TokenInv(s) && n <= |s.xy|
    ensures Reaches(s, t) && TokenInv(t) && t == s.(xy := s.xy[n..])
    decreases n
  {
    hide TokenInv;
    if n == 0 {
      t := s;
      ReachSelf(s);
    } else {
      PrimaryValid(s);
      var m := Exec(s, AtY(Lose(0)));
      ReachStep(s, AtY(Lose(0)));
      assert Without(s.xy, 0) == s.xy[1..];
      t := LoseTowardsY(m, n - 1);
      ReachOn(s, m, t);
    }
  }

  lemma LoseAll(s: System, i: nat, j: nat) returns (t: System)
    requires TokenInv(s) && i <= |s.xy| && j <= |s.yx|
    ensures Reaches(s, t) && TokenInv(t) && t == s.(xy := s.xy[i..], yx := s.yx[j..])
  {
    hide TokenInv;
    var m := LoseTowardsY(s, i);
    t := LoseTowardsX(m, j);
    ReachOn(s, m, t);
  }

  // Where a poll or final bit can be: at most in the last frame of one line.
  lemma TokenPlaces(s: System)
    requires TokenInv(s)
    ensures s.x.st.fl.fRcved ==> Tokens(s) == 1
    ensures s.y.st.fl.pRcved ==> Tokens(s) == 1
    ensures HasPF(s.xy) ==> Tokens(s) == 1
    ensures HasPF(s.yx) ==> Tokens(s) == 1
    ensures Tokens(s) == 1 ==> s.x.st.fl.fRcved || s.y.st.fl.pRcved || HasPF(s.xy) || HasPF(s.yx)
    ensures Tokens(s) <= 1
  {
    hide Inv;
    hide NeverBehind;
    hide Addressed;
    hide CountPF;
    PFCounted(s.xy);
    PFCounted(s.yx);
  }

  lemma {:induction false} PFCounted(q: seq<Flight>)
    requires PFIsLast(q)
    ensures CountPF(q) == One(HasPF(q))
  {
    if |q| > 0 {
      PFCounted(q[1..]);
    }
  }

  lemma AnswerPoll(s: System) returns (u: System)
    requires TokenInv(s) && |s.xy| == 1 && s.yx == [] && s.xy[0].wire.pf
    ensures Reaches(s, u) && XTurn(u) && SameLogs(s, u)
  {
    hide TokenInv;
    hide Receive;
    var m := YReceives(s);
    u := Answer(m);
    ReachOn(s, m, u);
  }

  // The reply timer starts the exchange over, as long as it may.
  lemma Retry(s: System) returns (t: System)
    requires TokenInv(s) && s.xy == [] && s.yx == [] && Tokens(s) == 0 && CanRetry(s.x.cfg, s.x.st.fl)
    ensures Reaches(s, t) && XTurn(t) && SameLogs(s, t)
  {
    hide TokenInv;
    hide Tokens;
    PrimaryValid(s);
    t := Exec(s, AtX(T1));
    ReachStep(s, AtX(T1));
  }

  // The session is still alive: the turn is somewhere, or can be taken again.
  ghost predicate Alive(s: System) { Tokens(s) == 1 || CanRetry(s.x.cfg, s.x.st.fl) }

  lemma TakeTurn(s: System) returns (u: System)
    requires TokenInv(s) && Alive(s)
    ensures Reaches(s, u) && XTurn(u) && SameLogs(s, u)
  {
    hide TokenInv;
    hide Tokens;
    TokenPlaces(s);
    var t: System;
    if HasPF(s.xy) && !s.x.st.fl.fRcved && !s.y.st.fl.pRcved {
      t := LoseAll(s, |s.xy| - 1, |s.yx|);
      u := AnswerPoll(t);
    } else if HasPF(s.yx) && !s.x.st.fl.fRcved && !s.y.st.fl.pRcved {
      t := LoseAll(s, |s.xy|, |s.yx| - 1);
      u := XReceives(t);
    } else {
      t := LoseAll(s, |s.xy|, |s.yx|);
      TokenPlaces(t);
      if t.x.st.fl.fRcved {
        u := t;
        ReachSelf(t);
      } else if t.y.st.fl.pRcved {
        u := Answer(t);
      } else {
        u := Retry(t);
      }
    }
    ReachOn(s, t, u);
  }

  // --- When the turn is lost for good -----------------------------------------------------------

  ghost predicate NoPF(q: seq<Flight>) { forall i :: 0 <= i < |q| ==> !q[i].wire.pf }

  // The station can neither send nor get the right to send from a timer.
  ghost predicate Mute(n: Node) {
    && !n.cfg.abm && n.cfg.twa
    && (if n.cfg.primary then !n.st.fl.fRcved && !CanRetry(n.cfg, n.st.fl) else !n.st.fl.pRcved)
  }

  // The station holds nothing, or nothing it has yet to send, and the newest
  // frame on its way in acknowledges everything it was given.
  ghost predicate Settled(n: Node, back: seq<Flight>) {
    && n.st.tx.transQ == []
    && (n.st.tx.retransQ == [] || (back != [] && back[|back| - 1].ack == |n.log|))
  }

  ghost predicate Dead(s: System) {
    && Inv(s) && Mute(s.x) && Mute(s.y) && NoPF(s.xy) && NoPF(s.yx)
    && !(Settled(s.x, s.yx) && Settled(s.y, s.xy))
  }

  lemma MuteReceives(c: Config, p: State, w: Wire, env: RxEnv)
    requires c.Valid() && !c.abm && !p.fl.frmr && IsNRValid(c, p.tx, w.nr) && !w.pf
    ensures
      var fl := Receive(c, p, w, env).fl;
      fl.pRcved == p.fl.pRcved && fl.fRcved == p.fl.fRcved && fl.retryCount == p.fl.retryCount
  {
    hide CheckpointAndAckTx;
    hide RejRetransmit;
    hide IsNRValid;
  }

  // In two-way alternate and without P/F, receiving is acknowledging.
  lemma MuteAcknowledges(c: Config, p: State, log: seq<Octets>, w: Wire, r: int, env: RxEnv)
    requires c.Valid() && !c.abm && c.twa && Window(c, p.tx, log) && !p.fl.frmr && !w.pf
    requires A(p.tx, log) <= r <= H(p.tx, log) && w.nr == c.Mod(r)
    ensures
      var u := Receive(c, p, w, env).tx;
      && |u.transQ| == |p.tx.transQ|
      && (u.retransQ == [] ==> p.tx.retransQ == [] || V(p.tx, log) <= r)
      && (AddressAccepted(c, w.addr) && V(p.tx, log) <= r ==> u.retransQ == [])
  {
    hide Window;
    hide Receive;
    hide Config.Mod;
    hide IsNRValid;
    hide ProcessNR;
    hide NumberedPrefix;
    ProcessNRWindow(c, p.tx, log, r);
    if AddressAccepted(c, w.addr) {
      ReceiveTx(c, p, w, env);
    } else {
      IgnoredReceive(c, p, w, env);
    }
  }

  // Acknowledgments on a line come in order, and none exceeds the log.
  lemma LastAck(s: System)
    requires Inv(s) && s.yx != []
    ensures s.yx[0].ack <= s.yx[|s.yx| - 1].ack <= |s.x.log|
    ensures forall i :: 0 <= i < |s.yx| ==> s.yx[i].ack <= s.yx[|s.yx| - 1].ack
    ensures s.x.cfg.Valid() && s.x.st.tx.transQ == [] ==> V(s.x.st.tx, s.x.log) == |s.x.log|
  {
    hide Window;
    hide DataOk;
    hide Delivery;
    HeadIsValid(s);
    WindowBasics(s.x.cfg, s.x.st.tx, s.x.log);
  }

  lemma DeadReceives(s: System, env: RxEnv)
    requires Inv(s) && Mute(s.x) && NoPF(s.yx) && s.yx != []
    ensures
      var n := s.x.(st := Receive(s.x.cfg, s.x.st, s.yx[0].wire, env));
      Mute(n) && (Settled(n, s.yx[1..]) ==> Settled(s.x, s.yx))
  {
    hide Inv;
    hide Receive;
    hide IsNRValid;
    hide Window;
    hide Config.Mod;
    HeadIsValid(s);
    LastAck(s);
    MuteReceives(s.x.cfg, s.x.st, s.yx[0].wire, env);
    MuteAcknowledges(s.x.cfg, s.x.st, s.x.log, s.yx[0].wire, s.yx[0].ack, env);
  }

  lemma DeadLoses(s: System, i: nat)
    requires Inv(s) && NoPF(s.yx) && i < |s.yx|
    ensures NoPF(Without(s.yx, i)) && (Settled(s.x, Without(s.yx, i)) ==> Settled(s.x, s.yx))
  {
    hide Inv;
    LastAck(s);
    var q := Without(s.yx, i);
    assert forall j :: 0 <= j < |q| ==> q[j] == s.yx[if j < i then j else j + 1];
  }

  lemma MuteCannotSend(n: Node, lineIdle: bool, env: TxEnv)
    requires n.cfg.modulus > 0 && Mute(n)
    ensures !CanSendI(n.cfg, n.st, lineIdle) && SupervisoryToSend(n.cfg, n.st, env).None?
  {
  }

  lemma DeadAct(s: System, act: Action)
    requires Dead(s)
    ensures Dead(Act(s, act))
  {
    hide Inv;
    hide SendI;
    hide SendS;
    hide CanSendI;
    hide SupervisoryToSend;
    hide Receive;
    ActKeepsInv(s, act);
    SenderFacts(s);
    match act
    case Write(_) =>
    case TxI(idle) => MuteCannotSend(s.x, idle, Ready);
    case TxS(env) => MuteCannotSend(s.x, true, env);
    case Receipt(env) => if s.yx != [] { DeadReceives(s, env); }
    case Lose(i) => if i < |s.yx| { DeadLoses(s, i); }
    case T1 =>
    case T3 =>
  }

  lemma DeadSwap(s: System)
    requires Dead(s)
    ensures Dead(s.Swap())
  {
    hide Inv;
    SwapInv(s);
  }

  // Then no run at all, timely or not, gets rid of what is held.
  lemma {:induction false} DeadForEver(s: System, steps: seq<Step>)
    requires Dead(s) && s.x.cfg.modulus > 0 && s.y.cfg.modulus > 0
    ensures !Drained(Run(s, steps))
    decreases |steps|
  {
    hide Dead;
    hide Act;
    if steps == [] {
      DeadHolds(s);
    } else {
      match steps[0] {
        case AtX(act) => DeadAct(s, act);
        case AtY(act) =>
          DeadSwap(s);
          DeadAct(s.Swap(), act);
          DeadSwap(Act(s.Swap(), act));
      }
      DeadForEver(Exec(s, steps[0]), steps[1..]);
    }
  }

  lemma DeadHolds(s: System)
    requires Dead(s)
    ensures !Drained(s)
  {
    hide Inv;
    hide Mute;
  }

  lemma NotAliveIsDead(s: System)
    requires TokenInv(s) && !Alive(s) && !(Settled(s.x, s.yx) && Settled(s.y, s.xy))
    ensures Dead(s)
  {
    hide Inv;
    hide Rules;
    hide CountPF;
    hide Settled;
    Roles(s);
    NoToken(s);
  }

  lemma NoToken(s: System)
    requires TokenInv(s) && !Alive(s)
    ensures NoPF(s.xy) && NoPF(s.yx) && !s.x.st.fl.fRcved && !s.y.st.fl.pRcved
  {
    hide TokenInv;
    hide CountPF;
    TokenPlaces(s);
    CountPFZero(s.xy);
    CountPFZero(s.yx);
  }

  // --- When acknowledgments in flight are enough -----------------------------------------------

  lemma SettlingReceipt(s: System)
    requires Inv(s) && !s.x.cfg.abm && s.x.cfg.twa && s.yx != [] && !s.yx[0].wire.pf
    requires AddressAccepted(s.x.cfg, s.yx[0].wire.addr)
    requires s.x.st.tx.transQ == [] && s.yx[0].ack == |s.x.log|
    ensures Receive(s.x.cfg, s.x.st, s.yx[0].wire, Takes).tx.Held() == []
  {
    hide Inv;
    hide Receive;
    hide IsNRValid;
    hide Window;
    hide Config.Mod;
    HeadIsValid(s);
    LastAck(s);
    MuteAcknowledges(s.x.cfg, s.x.st, s.x.log, s.yx[0].wire, s.yx[0].ack, Takes);
  }

  lemma SettleX(s: System) returns (t: System)
    requires TokenInv(s) && NoPF(s.yx) && Settled(s.x, s.yx)
    ensures Reaches(s, t) && TokenInv(t) && t.y == s.y && t.xy == s.xy && SameLogs(s, t)
    ensures t.x.st.tx.Held() == []
  {
    hide Inv;
    hide TokenRules;
    hide NeverBehind;
    hide Receive;
    if s.x.st.tx.retransQ == [] {
      t := s;
      ReachSelf(s);
    } else {
      var m := LoseTowardsX(s, |s.yx| - 1);
      Roles(m);
      SettlingReceipt(m);
      t := Exec(m, AtX(Receipt(Takes)));
      ReachStep(m, AtX(Receipt(Takes)));
      ReachOn(s, m, t);
    }
  }

  lemma SettleY(s: System) returns (t: System)
    requires TokenInv(s) && NoPF(s.xy) && Settled(s.y, s.xy)
    ensures Reaches(s, t) && TokenInv(t) && t.x == s.x && t.yx == s.yx && SameLogs(s, t)
    ensures t.y.st.tx.Held() == []
  {
    hide Inv;
    hide TokenRules;
    hide NeverBehind;
    hide Receive;
    if s.y.st.tx.retransQ == [] {
      t := s;
      ReachSelf(s);
    } else {
      var m := LoseTowardsY(s, |s.xy| - 1);
      Roles(m);
      SwapInv(m);
      SettlingReceipt(m.Swap());
      t := Exec(m, AtY(Receipt(Takes)));
      ReachStep(m, AtY(Receipt(Takes)));
      ReachOn(s, m, t);
    }
  }

  // --- Theorem -------------------------------------------------------------------------------------

  // What a caller can look at to see whether the session can still be completed.
  ghost predicate CanFinish(s: System) {
    Alive(s) || (Settled(s.x, s.yx) && Settled(s.y, s.xy))
  }

  // Everything written before is delivered and acknowledged.
  ghost predicate Finished(s: System, t: System) {
    && Drained(t) && SameLogs(s, t)
    && t.y.st.rx.delivered == s.x.log && t.x.st.rx.delivered == s.y.log
  }

  lemma Finish(s: System) returns (t: System)
    requires TokenInv(s) && CanFinish(s)
    ensures Reaches(s, t) && TokenInv(t) && SameLogs(s, t) && Drained(t)
  {
    hide TokenInv;
    hide Tx.Held;
    if Alive(s) {
      var m := TakeTurn(s);
      t := DrainFromTurn(m);
      ReachOn(s, m, t);
    } else {
      NoToken(s);
      var m := SettleX(s);
      t := SettleY(m);
      ReachOn(s, m, t);
    }
  }

  lemma DrainedIsDelivered(s: System, t: System)
    requires TokenInv(t) && SameLogs(s, t) && Drained(t)
    ensures Finished(s, t)
  {
    hide Window;
    hide DataOk;
    hide AcksOk;
    hide TokenRules;
    hide NeverBehind;
  }

  // From every state that a run reaches, whatever it lost and whoever is busy,
  // some continuation delivers and acknowledges everything written so far
  // exactly when the turn is held, on the line, or can be retaken by a retry, or
  // the acknowledgments on the line are enough.  Otherwise no continuation ever
  // leaves both stations with nothing.
  lemma ProgressIff(s: System, steps: seq<Step>)
    requires Init(s) && NrmTwa(s) && !s.y.st.fl.pRcved && TimelyRun(s, steps)
    ensures
      var e := Run(s, steps);
      && (CanFinish(e) <==> exists more :: TimelyRun(e, more) && Finished(e, Run(e, more)))
      && (CanFinish(e) <==> exists more :: Drained(Run(e, more)))
  {
    hide TokenInv;
    hide CanFinish;
    hide Finished;
    hide Drained;
    hide Run;
    hide TimelyRun;
    StartTokenInv(s);
    RunKeepsTokenInv(s, steps);
    var e := Run(s, steps);
    if CanFinish(e) {
      CompletionExists(e);
    } else {
      forall more ensures !Drained(Run(e, more)) && !Finished(e, Run(e, more)) {
        StuckForEver(e, more);
      }
    }
  }

  lemma CompletionExists(e: System)
    requires TokenInv(e) && CanFinish(e)
    ensures e.x.cfg.modulus > 0 && e.y.cfg.modulus > 0
    ensures exists more :: TimelyRun(e, more) && Finished(e, Run(e, more)) && Drained(Run(e, more))
  {
    hide TokenInv;
    hide CanFinish;
    hide Drained;
    hide SameLogs;
    hide Run;
    hide TimelyRun;
    var t := Finish(e);
    DrainedIsDelivered(e, t);
    var more :| TimelyRun(e, more) && Run(e, more) == t;
    assert TimelyRun(e, more) && Finished(e, Run(e, more)) && Drained(Run(e, more));
  }

  lemma StuckForEver(e: System, more: seq<Step>)
    requires TokenInv(e) && !CanFinish(e)
    ensures e.x.cfg.modulus > 0 && e.y.cfg.modulus > 0
    ensures !Drained(Run(e, more)) && !Finished(e, Run(e, more))
  {
    hide TokenInv;
    hide Settled;
    hide Drained;
    PrimaryValid(e);
    NotAliveIsDead(e);
    DeadForEver(e, more);
  }
}
