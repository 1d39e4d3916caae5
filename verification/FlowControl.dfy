// Who may send what in every run and every mode: the peer's busy condition, the
// turn, polls and their answers, and how many retries a silent peer gets.
module FlowControl {
  import opened Bytes
  import opened Peer
  import opened Session
  import opened Reception
  import opened Recovery

  // --- What the line has told `x` -----------------------------------------------------

  // Balanced two-way alternate waits for an idle line, a normal-mode primary for
  // the final bit, a secondary for the poll; otherwise everybody may send.
  ghost predicate HasTurn(n: Node, lineIdle: bool) {
    if n.cfg.abm then !n.cfg.twa || lineIdle
    else if n.cfg.primary then !n.cfg.twa || n.st.fl.fRcved
    else n.st.fl.pRcved
  }

  // The peer's busy condition as its frames report it: an RNR starts it, an RR or
  // an I-frame with P/F that is taken ends it.
  ghost function HearsBusy(s: System, step: Step, busy: bool): bool {
    if step.AtX? && step.act.Receipt? && s.yx != [] then
      var w := s.yx[0].wire;
      if w.Supervisory? then w.fun == RNR || (w.fun != RR && busy)
      else busy && !(w.pf && Taken(s.x, s.yx[0], step.act.rxEnv))
    else busy
  }

  ghost function HeardBusy(s: System, steps: seq<Step>, busy: bool): bool
    requires s.x.cfg.modulus > 0 && s.y.cfg.modulus > 0
    decreases |steps|
  {
    if steps == [] then busy
    else HeardBusy(Exec(s, steps[0]), steps[1..], HearsBusy(s, steps[0], busy))
  }

  // Expiries of the reply timer since the last F: T1, and in balanced mode T3
  // while frames await acknowledgment.
  ghost predicate Expires(n: Node, act: Action) {
    act.T1? || (act.T3? && n.cfg.abm && n.st.tx.retransQ != [])
  }

  ghost predicate HearsFinal(s: System, step: Step) {
    step.AtX? && step.act.Receipt? && s.yx != [] && s.yx[0].wire.pf && s.yx[0].wire.addr != s.x.cfg.addr
  }

  ghost function ExpiriesSinceF(s: System, steps: seq<Step>, n: nat): nat
    requires s.x.cfg.modulus > 0 && s.y.cfg.modulus > 0
    decreases |steps|
  {
    if steps == [] then n
    else
      ExpiriesSinceF(Exec(s, steps[0]), steps[1..],
        if HearsFinal(s, steps[0]) then 0
        else if steps[0].AtX? && Expires(s.x, steps[0].act) then n + 1 else n)
  }

  // --- What a station puts on the line --------------------------------------------------

  ghost predicate Adds(s: System, t: System) { |t.xy| > |s.xy| }

  ghost function Added(s: System, t: System): Flight
    requires Adds(s, t)
  {
    t.xy[|t.xy| - 1]
  }

  ghost predicate WindowFree(n: Node) {
    n.st.tx.transQ != [] && V(n.st.tx, n.log) - A(n.st.tx, n.log) < n.cfg.ks
  }

  // Sending a frame in `n` leaves `m`.  A station sends responses when it is
  // polled, in normal mode by its role.  P goes out only while no poll is
  // outstanding, F only in answer to P.
  ghost predicate SentMark(n: Node, m: Node, w: Wire)
    requires n.cfg.modulus > 0
  {
    var was, now, command := n.st.fl, m.st.fl, w.addr == n.cfg.peerAddr;
    && w.nr == n.st.rx.vr
    && command == (if n.cfg.abm then !was.pRcved else n.cfg.primary)
    && now.fRcved == (was.fRcved && !(command && w.pf))
    && now.needP == (was.needP && !(command && w.pf))
    && now.pRcved == (was.pRcved && !(!command && w.pf))
    && now.peerBusy == was.peerBusy && now.retryCount == was.retryCount && !now.frmr
    && m.st.tx.vsAtLastPf ==
      (if w.pf && (command || !n.cfg.abm || was.fRcved) then m.st.tx.vs else n.st.tx.vsAtLastPf)
  }

  // The P/F bit of an I-frame: in two-way alternate it waits for the last one.
  ghost predicate InfoMark(n: Node, w: Wire) {
    var fl, command := n.st.fl, w.addr == n.cfg.peerAddr;
    var last := V(n.st.tx, n.log) - A(n.st.tx, n.log) + 1 >= n.cfg.ks || |n.st.tx.transQ| == 1;
    w.pf <==>
      && !fl.localBusy
      && (if command then (if n.cfg.twa then last else fl.fRcved) else fl.pRcved && (n.cfg.abm || last))
  }

  // The P/F bit of an S-frame: an answer always has it.
  ghost predicate SupervisoryMark(n: Node, w: Wire) {
    var fl := n.st.fl;
    w.pf <==>
      if w.addr == n.cfg.peerAddr
      then fl.fRcved && (!n.cfg.twa || !WindowFree(n) || (fl.peerBusy && fl.needP))
      else fl.pRcved
  }

  lemma OpenWindow(c: Config, t: Tx, log: seq<Octets>)
    requires c.Valid() && Window(c, t, log)
    ensures c.Distance(t.nr, t.vs) == V(t, log) - A(t, log)
  {
    hide Config.Mod;
    hide Config.Distance;
    hide Window;
    WindowBasics(c, t, log);
    DistanceMod(c, A(t, log), V(t, log));
  }

  lemma MayIffTurn(n: Node, lineIdle: bool)
    requires n.cfg.Valid() && Window(n.cfg, n.st.tx, n.log) && !n.st.fl.frmr
    ensures CanSendI(n.cfg, n.st, lineIdle) <==> WindowFree(n) && HasTurn(n, lineIdle) && !n.st.fl.peerBusy
  {
    hide Config.Mod;
    hide Config.Distance;
    hide Window;
    OpenWindow(n.cfg, n.st.tx, n.log);
  }

  lemma InfoMarks(c: Config, p: State, log: seq<Octets>)
    requires c.Valid() && Window(c, p.tx, log) && !p.fl.frmr && p.tx.transQ != []
    ensures
      var (q, w) := SendI(c, p);
      InfoMark(Node(c, p, log), w) && SentMark(Node(c, p, log), Node(c, q, log), w)
      && q.fl.localBusy == p.fl.localBusy
  {
    hide Config.Mod;
    hide Config.Next;
    hide Config.Distance;
    hide Window;
    OpenWindow(c, p.tx, log);
  }

  lemma SupervisoryMarks(c: Config, p: State, log: seq<Octets>, env: TxEnv)
    requires c.Valid() && Window(c, p.tx, log) && !p.fl.frmr && SupervisoryToSend(c, p, env).Some?
    ensures
      var (q, w) := SendS(c, p, env);
      SupervisoryMark(Node(c, p, log), w) && SentMark(Node(c, p, log), Node(c, q, log), w)
  {
    hide Config.Mod;
    hide Config.Distance;
    hide Window;
    hide SupervisoryToSend;
    OpenWindow(c, p.tx, log);
  }

  // Which S-frame: a pending REJ, else the RR that ends local busy, else RR or
  // RNR in answer to a poll or as a poll.
  ghost predicate Chosen(n: Node, w: Wire, m: Node, env: TxEnv) {
    var rej := n.st.rx.rejPend && env.frameForRej;
    var ready := !rej && n.st.fl.localBusy && env.poolNormal && env.frameForReady;
    && w.Supervisory?
    && w.fun == (if rej then REJ else if n.st.fl.localBusy && !ready then RNR else RR)
    && m.st.fl.localBusy == (n.st.fl.localBusy && (rej || !ready))
    && m.st.rx == n.st.rx.(rejPend := n.st.rx.rejPend && !rej)
  }

  ghost predicate HasReason(n: Node, env: TxEnv) {
    || (n.st.rx.rejPend && env.frameForRej)
    || (n.st.fl.localBusy && env.poolNormal && env.frameForReady)
    || (!env.iFrameSent && (n.st.fl.pRcved || (n.st.fl.fRcved && n.st.fl.needP)) && env.frameForPoll)
  }

  lemma SupervisoryIff(n: Node, env: TxEnv)
    requires n.cfg.modulus > 0
    ensures SupervisoryToSend(n.cfg, n.st, env).Some? <==> HasTurn(n, env.lineIdle) && HasReason(n, env)
    ensures SupervisoryToSend(n.cfg, n.st, env).Some? ==>
      var (q, w) := SendS(n.cfg, n.st, env);
      Chosen(n, w, n.(st := q), env)
  {
    hide SFramePF;
  }

  // --- One step -----------------------------------------------------------------------------

  // With the turn, frames to send, a free window and a peer that is not busy, an
  // I-frame goes out: number and payload V of the log.
  ghost predicate InfoSent(s: System, t: System)
    requires s.x.cfg.modulus > 0
  {
    var n, m, v := s.x, t.x, V(s.x.st.tx, s.x.log);
    && Adds(s, t) && t.xy == s.xy + [Added(s, t)] && t.yx == s.yx && t.y == s.y && m.log == n.log
    && var f := Added(s, t);
    && f.wire.Info? && f.num == v && 0 <= v < |n.log|
    && f.wire.ns == n.cfg.Mod(v) && f.wire.payload == n.log[v]
    && InfoMark(n, f.wire) && SentMark(n, m, f.wire)
    && A(m.st.tx, m.log) == A(n.st.tx, n.log) && V(m.st.tx, m.log) == v + 1
    && m.st.rx == n.st.rx && m.st.fl.localBusy == n.st.fl.localBusy
  }

  ghost predicate SupervisorySent(s: System, t: System, env: TxEnv)
    requires s.x.cfg.modulus > 0
  {
    var n, m := s.x, t.x;
    && Adds(s, t) && t.xy == s.xy + [Added(s, t)] && t.yx == s.yx && t.y == s.y && m.log == n.log
    && var w := Added(s, t).wire;
    && Chosen(n, w, m, env) && SupervisoryMark(n, w) && SentMark(n, m, w)
    && m.st.tx == n.st.tx.(vsAtLastPf := m.st.tx.vsAtLastPf)
  }

  lemma SendsInfo(s: System, lineIdle: bool)
    requires LineInv(s)
    ensures s.x.cfg.modulus > 0
    ensures
      var t := Act(s, TxI(lineIdle));
      if WindowFree(s.x) && HasTurn(s.x, lineIdle) && !s.x.st.fl.peerBusy then InfoSent(s, t) else t == s
  {
    hide LineInv;
    hide SendI;
    hide CanSendI;
    hide WindowOpen;
    hide Window;
    hide WindowFree;
    hide HasTurn;
    hide InfoMark;
    hide SentMark;
    hide Config.Mod;
    hide Advance;
    SenderWindow(s);
    MayIffTurn(s.x, lineIdle);
    if CanSendI(s.x.cfg, s.x.st, lineIdle) {
      NeedsFrame(s.x.cfg, s.x.st, lineIdle);
      AdvanceWindow(s.x.cfg, s.x.st.tx, s.x.log);
      WindowBasics(s.x.cfg, s.x.st.tx, s.x.log);
      SendIFacts(s.x.cfg, s.x.st);
      InfoMarks(s.x.cfg, s.x.st, s.x.log);
      BookkeepingWindow(s.x.cfg, Advance(s.x.cfg, s.x.st.tx), s.x.log, SendI(s.x.cfg, s.x.st).0.tx);
    }
  }

  lemma SendsSupervisory(s: System, env: TxEnv)
    requires LineInv(s)
    ensures s.x.cfg.modulus > 0
    ensures
      var t := Act(s, TxS(env));
      if HasTurn(s.x, env.lineIdle) && HasReason(s.x, env) then SupervisorySent(s, t, env) else t == s
  {
    hide LineInv;
    hide SendS;
    hide SupervisoryToSend;
    hide Window;
    hide HasTurn;
    hide HasReason;
    hide SupervisoryMark;
    hide SentMark;
    hide Chosen;
    SenderWindow(s);
    SupervisoryIff(s.x, env);
    if SupervisoryToSend(s.x.cfg, s.x.st, env).Some? {
      SendSFacts(s.x.cfg, s.x.st, env);
      SupervisoryMarks(s.x.cfg, s.x.st, s.x.log, env);
    }
  }

  lemma QuietActs(s: System, act: Action)
    requires s.x.cfg.modulus > 0 && !act.TxI? && !act.TxS?
    ensures Act(s, act).xy == s.xy
  {
    hide Receive;
  }

  // An expiry is a retry while the peer has some left; T3 of a normal-mode primary
  // only asks for a poll.
  ghost predicate Timed(n: Node, m: Node, act: Action, k: nat) {
    var was, now := n.st.fl, m.st.fl;
    && m.cfg == n.cfg && m.log == n.log && m.st.tx == n.st.tx
    && (if Expires(n, act) && k < n.cfg.retryMax then
      && now == was.(retryCount := k + 1, needP := true, fRcved := true)
      && m.st.rx == n.st.rx.(rejActioned := 0)
    else
      && now == was.(needP := was.needP || (act.T3? && !n.cfg.abm && n.cfg.primary))
      && m.st.rx == n.st.rx)
  }

  lemma TimerActs(s: System, act: Action)
    requires s.x.cfg.modulus > 0 && (act.T1? || act.T3?)
    ensures Timed(s.x, Act(s, act).x, act, s.x.st.fl.retryCount)
  {
  }

  // --- Histories and flags agree -----------------------------------------------------------

  lemma StepFlags(s: System, step: Step)
    requires LineInv(s)
    ensures s.x.cfg.modulus > 0 && s.y.cfg.modulus > 0
    ensures
      var fl, now, c := s.x.st.fl, Exec(s, step).x.st.fl, s.x.cfg;
      && now.peerBusy == HearsBusy(s, step, fl.peerBusy)
      && now.retryCount ==
        (if HearsFinal(s, step) then 0
         else if step.AtX? && Expires(s.x, step.act) && fl.retryCount < c.retryMax then fl.retryCount + 1
         else fl.retryCount)
  {
    hide LineInv;
    hide SendI;
    hide SendS;
    hide CanSendI;
    hide SupervisoryToSend;
    hide Receive;
    hide HasTurn;
    hide HasReason;
    hide WindowFree;
    hide InfoMark;
    hide SupervisoryMark;
    hide Chosen;
    Moduli(s);
    if step.AtX? {
      match step.act
      case TxI(idle) => SendsInfo(s, idle);
      case TxS(env) => SendsSupervisory(s, env);
      case Receipt(env) => if s.yx != [] { HearsHead(s, env); }
      case _ =>
    }
  }

  lemma {:induction false} RunFlags(s: System, steps: seq<Step>, n: nat)
    requires LineInv(s)
    requires if n < s.x.cfg.retryMax then s.x.st.fl.retryCount == n else s.x.st.fl.retryCount >= s.x.cfg.retryMax
    ensures s.x.cfg.modulus > 0 && s.y.cfg.modulus > 0
    ensures
      var e, k := Run(s, steps), ExpiriesSinceF(s, steps, n);
      && e.x.st.fl.peerBusy == HeardBusy(s, steps, s.x.st.fl.peerBusy)
      && (if k < e.x.cfg.retryMax then e.x.st.fl.retryCount == k else e.x.st.fl.retryCount >= e.x.cfg.retryMax)
    decreases |steps|
  {
    hide LineInv;
    hide Exec;
    hide HearsBusy;
    hide HearsFinal;
    hide Expires;
    Moduli(s);
    if steps != [] {
      StepFlags(s, steps[0]);
      ExecKeepsLineInv(s, steps[0]);
      RunFlags(Exec(s, steps[0]), steps[1..],
        if HearsFinal(s, steps[0]) then 0
        else if steps[0].AtX? && Expires(s.x, steps[0].act) then n + 1 else n);
    }
  }

  // --- Theorems ---------------------------------------------------------------------------------

  // Flow control: between an RNR heard and the RR or the I-frame with P/F that
  // ends it no step of the station puts an I-frame on the line; otherwise one
  // goes out exactly when there is one, the window is free and the turn is there.
  lemma BusyPeerGetsNoInfo(s: System, steps: seq<Step>, act: Action)
    requires Init(s)
    ensures
      var e, busy := Run(s, steps), HeardBusy(s, steps, s.x.st.fl.peerBusy);
      var t := Exec(e, AtX(act));
      && (Adds(e, t) && Added(e, t).wire.Info? ==> act.TxI? && !busy)
      && (act.TxI? ==>
        if WindowFree(e.x) && HasTurn(e.x, act.lineIdle) && !busy then InfoSent(e, t) else t == e)
  {
    hide LineInv;
    hide Act;
    hide InfoSent;
    hide SupervisorySent;
    hide WindowFree;
    hide HasTurn;
    hide HasReason;
    StartLineInv(s);
    RunKeepsLineInv(s, steps);
    RunFlags(s, steps, s.x.st.fl.retryCount);
    var e := Run(s, steps);
    Moduli(e);
    match act
    case TxI(idle) => SendsInfo(e, idle);
    case TxS(env) =>
      SendsSupervisory(e, env);
      SupervisoryIsNotInfo(e, Act(e, act), env);
    case _ => QuietActs(e, act);
  }

  lemma SupervisoryIsNotInfo(s: System, t: System, env: TxEnv)
    requires s.x.cfg.modulus > 0 && (t == s || SupervisorySent(s, t, env))
    ensures Adds(s, t) ==> !Added(s, t).wire.Info?
  {
  }

  // A poll is answered, local busy is reported and ended, a gap is rejected: with
  // the turn an S-frame goes out exactly when there is a reason.
  lemma SupervisoryGoesOut(s: System, steps: seq<Step>, env: TxEnv)
    requires Init(s)
    ensures
      var e := Run(s, steps);
      var t := Exec(e, AtX(TxS(env)));
      if HasTurn(e.x, env.lineIdle) && HasReason(e.x, env) then SupervisorySent(e, t, env) else t == e
  {
    hide LineInv;
    hide Act;
    hide SupervisorySent;
    hide HasTurn;
    hide HasReason;
    StartLineInv(s);
    RunKeepsLineInv(s, steps);
    SendsSupervisory(Run(s, steps), env);
  }

  // The k-th expiry since the last F is a retry exactly when k is below the limit,
  // so that the link goes down after the limit and one more, and not before.
  lemma SilentPeerGetsAllRetries(s: System, steps: seq<Step>, act: Action)
    requires Init(s) && (act.T1? || act.T3?)
    ensures
      var e, k := Run(s, steps), ExpiriesSinceF(s, steps, s.x.st.fl.retryCount);
      && (e.x.st.fl.retryCount < e.x.cfg.retryMax <==> k < e.x.cfg.retryMax)
      && Timed(e.x, Exec(e, AtX(act)).x, act, k)
  {
    hide LineInv;
    hide Act;
    hide Expires;
    StartLineInv(s);
    RunKeepsLineInv(s, steps);
    RunFlags(s, steps, s.x.st.fl.retryCount);
    var e := Run(s, steps);
    Moduli(e);
    TimerActs(e, act);
  }

  // --- Polls and their answers ----------------------------------------------------------------

  ghost predicate PutsMark(s: System, step: Step, command: bool)
    requires s.x.cfg.modulus > 0 && s.y.cfg.modulus > 0
  {
    var t := Exec(s, step);
    step.AtX? && Adds(s, t) && Added(s, t).wire.pf && (Added(s, t).wire.addr == s.x.cfg.peerAddr) == command
  }

  // Whether a poll of `x` is outstanding: from sending P until F or a retry.
  ghost function Outstanding(s: System, steps: seq<Step>, was: bool): bool
    requires s.x.cfg.modulus > 0 && s.y.cfg.modulus > 0
    decreases |steps|
  {
    if steps == [] then was
    else
      var step := steps[0];
      var retry := step.AtX? && Expires(s.x, step.act) && s.x.st.fl.retryCount < s.x.cfg.retryMax;
      Outstanding(Exec(s, step), steps[1..],
        !HearsFinal(s, step) && !retry && (was || PutsMark(s, step, true)))
  }

  ghost predicate HearsPoll(s: System, step: Step) {
    step.AtX? && step.act.Receipt? && s.yx != [] && s.yx[0].wire.pf && s.yx[0].wire.addr == s.x.cfg.addr
  }

  // Whether `x` owes an answer: from hearing P until it has sent F.
  ghost function Owed(s: System, steps: seq<Step>, was: bool): bool
    requires s.x.cfg.modulus > 0 && s.y.cfg.modulus > 0
    decreases |steps|
  {
    if steps == [] then was
    else
      var step := steps[0];
      Owed(Exec(s, step), steps[1..], HearsPoll(s, step) || (was && !PutsMark(s, step, false)))
  }

  lemma StepPolls(s: System, step: Step)
    requires LineInv(s)
    ensures s.x.cfg.modulus > 0 && s.y.cfg.modulus > 0
    ensures
      var fl, now := s.x.st.fl, Exec(s, step).x.st.fl;
      var retry := step.AtX? && Expires(s.x, step.act) && fl.retryCount < s.x.cfg.retryMax;
      && now.fRcved == (HearsFinal(s, step) || retry || (fl.fRcved && !PutsMark(s, step, true)))
      && now.pRcved == (HearsPoll(s, step) || (fl.pRcved && !PutsMark(s, step, false)))
  {
    hide LineInv;
    hide SendI;
    hide SendS;
    hide CanSendI;
    hide SupervisoryToSend;
    hide Receive;
    hide HasTurn;
    hide HasReason;
    hide WindowFree;
    hide InfoMark;
    hide SupervisoryMark;
    hide Chosen;
    Moduli(s);
    if step.AtX? {
      match step.act
      case TxI(idle) => SendsInfo(s, idle);
      case TxS(env) => SendsSupervisory(s, env);
      case Receipt(env) => if s.yx != [] { HearsHead(s, env); }
      case _ =>
    }
  }

  lemma {:induction false} RunPolls(s: System, steps: seq<Step>)
    requires LineInv(s)
    ensures s.x.cfg.modulus > 0 && s.y.cfg.modulus > 0
    ensures
      var e := Run(s, steps);
      && e.x.st.fl.fRcved == !Outstanding(s, steps, !s.x.st.fl.fRcved)
      && e.x.st.fl.pRcved == Owed(s, steps, s.x.st.fl.pRcved)
    decreases |steps|
  {
    hide LineInv;
    hide Exec;
    hide HearsFinal;
    hide HearsPoll;
    hide PutsMark;
    hide Expires;
    Moduli(s);
    if steps != [] {
      StepPolls(s, steps[0]);
      ExecKeepsLineInv(s, steps[0]);
      RunPolls(Exec(s, steps[0]), steps[1..]);
    }
  }

  // No second poll while one is outstanding (an I-frame in balanced two-way
  // alternate excepted), no F that was not asked for, and a combined station that
  // owes an answer sends nothing but answers, with F unless it is busy.
  ghost predicate Disciplined(n: Node, w: Wire, outstanding: bool, owed: bool) {
    var command := w.addr == n.cfg.peerAddr;
    && (w.pf && command ==> !outstanding || (n.cfg.abm && n.cfg.twa && w.Info?))
    && (w.pf && !command ==> owed)
    && (n.cfg.abm && owed ==> !command && (w.pf || (w.Info? && n.st.fl.localBusy)))
    && (n.cfg.abm && !owed ==> command)
    && (!n.cfg.twa && command && !outstanding ==> w.pf || (w.Info? && n.st.fl.localBusy))
  }

  lemma MarksAreDisciplined(n: Node, m: Node, w: Wire)
    requires n.cfg.Valid() && SentMark(n, m, w)
    requires if w.Info? then InfoMark(n, w) && exists idle :: HasTurn(n, idle) else SupervisoryMark(n, w)
    ensures Disciplined(n, w, !n.st.fl.fRcved, n.st.fl.pRcved)
  {
    hide WindowFree;
    hide V;
    hide A;
  }

  lemma PollsAlternate(s: System, steps: seq<Step>, act: Action)
    requires Init(s)
    ensures
      var e, t := Run(s, steps), Exec(Run(s, steps), AtX(act));
      Adds(e, t) ==>
        Disciplined(e.x, Added(e, t).wire, Outstanding(s, steps, !s.x.st.fl.fRcved), Owed(s, steps, s.x.st.fl.pRcved))
  {
    hide LineInv;
    hide Act;
    hide Disciplined;
    hide HasTurn;
    hide HasReason;
    hide WindowFree;
    hide InfoMark;
    hide SupervisoryMark;
    hide SentMark;
    StartLineInv(s);
    RunKeepsLineInv(s, steps);
    RunPolls(s, steps);
    var e := Run(s, steps);
    var t := Act(e, act);
    Moduli(e);
    match act
    case TxI(idle) =>
      SendsInfo(e, idle);
      if Adds(e, t) { MarksAreDisciplined(e.x, t.x, Added(e, t).wire); }
    case TxS(env) =>
      SendsSupervisory(e, env);
      if Adds(e, t) { MarksAreDisciplined(e.x, t.x, Added(e, t).wire); }
    case _ => QuietActs(e, act);
  }
}
