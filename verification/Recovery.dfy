// Retransmission in every run and every mode: what a checkpoint and a REJ send
// back to the transmit queue, and when a receiver asks for it.
module Recovery {
  import opened Bytes
  import opened Numbers
  import opened Peer
  import opened Session
  import opened Reception

  // --- The checkpoint reference during acknowledgment -----------------------------

  ghost predicate Among(c: Config, ref: nat, a: int, b: int)
    requires c.modulus > 0
  {
    exists i :: a <= i < b && c.Mod(i) == ref
  }

  // The loop carries the reference along from the frame it belongs to.
  lemma {:induction false} AckReference(c: Config, t: Tx, a: nat, r: nat)
    requires c.Valid() && a <= r < a + c.modulus && t.nr == c.Mod(a)
    requires forall i :: 0 <= i < |t.retransQ| ==> t.retransQ[i].ns == c.Mod(a + i)
    ensures
      var b := a + Min(r - a, |t.retransQ|);
      var u := ProcessNR(c, t, c.Mod(r));
      && u.vsAtLastPf == (if Among(c, t.vsAtLastPf, a, b) then c.Mod(b) else t.vsAtLastPf)
      && u.chkptActioned == t.chkptActioned
    decreases |t.retransQ|
  {
    hide Config.Mod;
    hide Config.Next;
    ModInjective(c, a, r);
    if a != r && t.retransQ != [] {
      NextMod(c, a);
      var t1 := AckOne(c, t);
      assert forall i :: 0 <= i < |t1.retransQ| ==> t1.retransQ[i] == t.retransQ[i + 1];
      forall i | 0 <= i < |t1.retransQ| ensures t1.retransQ[i].ns == c.Mod(a + 1 + i) {
        assert a + 1 + i == a + (i + 1);
      }
      AckReference(c, t1, a + 1, r);
      var b := a + Min(r - a, |t.retransQ|);
      assert t.retransQ[0].ns == c.Mod(a + 0);
      if t.vsAtLastPf == c.Mod(a) {
        assert Among(c, t.vsAtLastPf, a, b);
      } else {
        assert Among(c, t.vsAtLastPf, a, b) <==> Among(c, t.vsAtLastPf, a + 1, b);
      }
    }
  }

  // --- What a reception leaves of the sender ------------------------------------------

  // Reference, checkpoint mark and V(S) after receiving `w` with N(R) = r.  What
  // is still unacknowledged goes back when a response with F (any frame with P/F
  // outside balanced mode) shows that the oldest frame was sent before the
  // reference, or when a REJ asks for it and no checkpoint has just done so.
  ghost predicate Recovered(c: Config, t: Tx, u: Tx, log: seq<Octets>, w: Wire, r: int)
    requires c.modulus > 0
  {
    var b := Min(r, V(t, log));
    var reference := if Among(c, t.vsAtLastPf, A(t, log), b) then c.Mod(b) else t.vsAtLastPf;
    var behind := b < V(t, log);
    var checked := w.pf && !(c.abm && w.addr == c.addr) && behind && reference != c.Mod(b);
    var rejected := w.Supervisory? && w.fun == REJ && !c.twa;
    var resent := behind && rejected && !checked && t.chkptActioned == 0;
    && A(u, log) == b && V(u, log) == (if checked || resent then b else V(t, log))
    && u.vsAtLastPf == (if resent then c.Mod(b) else reference)
    && u.chkptActioned == (if rejected then 0 else if checked then c.Mod(b) + 1 else t.chkptActioned)
    && 0 <= b - A(t, log) <= |t.Held()| && u.Held() == t.Held()[b - A(t, log)..]
  }

  lemma HeadNumber(c: Config, t: Tx, log: seq<Octets>)
    requires c.Valid() && Window(c, t, log)
    ensures t.retransQ != [] <==> A(t, log) < V(t, log)
    ensures t.retransQ != [] ==> t.retransQ[0].ns == c.Mod(A(t, log))
  {
    hide Config.Mod;
    hide Window;
    hide NumberedPrefix;
    if t.retransQ != [] {
      HeldNumbers(c, t, log, 0);
    }
  }

  lemma RetransNumbers(c: Config, t: Tx, log: seq<Octets>)
    requires c.Valid() && Window(c, t, log)
    ensures A(t, log) >= 0
    ensures forall i :: 0 <= i < |t.retransQ| ==> t.retransQ[i].ns == c.Mod(A(t, log) + i)
  {
    hide Config.Mod;
    hide Window;
    hide NumberedPrefix;
    WindowBasics(c, t, log);
    forall i | 0 <= i < |t.retransQ| ensures t.retransQ[i].ns == c.Mod(A(t, log) + i) {
      HeldNumbers(c, t, log, i);
    }
  }

  lemma CheckpointMoves(c: Config, t: Tx, log: seq<Octets>)
    requires c.Valid() && Window(c, t, log)
    ensures
      var u := CheckpointRetransmit(t);
      var moved := A(t, log) < V(t, log) && t.vsAtLastPf != c.Mod(A(t, log));
      && u.Held() == t.Held() && u.vsAtLastPf == t.vsAtLastPf
      && V(u, log) == (if moved then A(t, log) else V(t, log))
      && u.chkptActioned == (if moved then c.Mod(A(t, log)) + 1 else t.chkptActioned)
  {
    hide Window;
    hide Config.Mod;
    hide NumberedPrefix;
    hide Tx.Held;
    hide Rewind;
    HeadNumber(c, t, log);
    if t.retransQ != [] {
      RewoundWindow(c, t, log);
      RewindFields(t);
      RewindMarks(t);
      SameHeld(Rewind(t), CheckpointRetransmit(t).chkptActioned, t.vsAtLastPf);
    }
  }

  lemma RejMoves(c: Config, t: Tx, log: seq<Octets>)
    requires c.Valid() && Window(c, t, log)
    ensures
      var u := RejRetransmit(t);
      var moved := A(t, log) < V(t, log) && t.chkptActioned == 0;
      && u.Held() == t.Held() && u.chkptActioned == 0
      && V(u, log) == (if moved then A(t, log) else V(t, log))
      && u.vsAtLastPf == (if moved then c.Mod(A(t, log)) else t.vsAtLastPf)
  {
    hide Window;
    hide Config.Mod;
    hide NumberedPrefix;
    hide Tx.Held;
    hide Rewind;
    HeadNumber(c, t, log);
    SameHeld(t, 0, t.vsAtLastPf);
    if t.retransQ != [] {
      RewoundWindow(c, t, log);
      RewindFields(t);
      RewindMarks(t);
      SameHeld(Rewind(t), t.chkptActioned, t.retransQ[0].ns);
    }
  }

  lemma RewindMarks(t: Tx)
    requires t.retransQ != []
    ensures Rewind(t).chkptActioned == t.chkptActioned && Rewind(t).vsAtLastPf == t.vsAtLastPf
  {
  }

  lemma SameHeld(t: Tx, mark: nat, reference: nat)
    ensures t.(chkptActioned := mark, vsAtLastPf := reference).Held() == t.Held()
    ensures t.(chkptActioned := mark).Held() == t.Held() && t.(vsAtLastPf := reference).Held() == t.Held()
  {
  }

  lemma ReceiptRecovers(c: Config, p: State, log: seq<Octets>, w: Wire, r: int, env: RxEnv)
    requires c.Valid() && Window(c, p.tx, log) && !p.fl.frmr
    requires A(p.tx, log) <= r <= H(p.tx, log) && w.nr == c.Mod(r) && AddressAccepted(c, w.addr)
    ensures Recovered(c, p.tx, Receive(c, p, w, env).tx, log, w, r)
  {
    hide Window;
    hide IsNRValid;
    hide Config.Mod;
    hide Receive;
    hide ProcessNR;
    hide NumberedPrefix;
    hide Among;
    hide AddressAccepted;
    hide Tx.Held;
    hide CheckpointRetransmit;
    hide RejRetransmit;
    WindowBasics(c, p.tx, log);
    RetransNumbers(c, p.tx, log);
    ProcessNRWindow(c, p.tx, log, r);
    AckReference(c, p.tx, A(p.tx, log), r);
    ReceiveTx(c, p, w, env);
    var u := ProcessNR(c, p.tx, w.nr);
    CheckpointMoves(c, u, log);
    RetransmitWindow(c, u, log);
    RejMoves(c, u, log);
    RejMoves(c, CheckpointRetransmit(u), log);
  }

  // --- What a reception leaves of the receiver --------------------------------------------

  // An I-frame that is not the next one starts an exception, unless one is active;
  // taking the frame asked for ends it.
  ghost predicate Noted(n: Node, m: Node, f: Flight, env: RxEnv)
    requires n.cfg.modulus > 0
  {
    var rx, next := n.st.rx, n.cfg.Mod(R(n));
    var gap := f.wire.Info? && f.num != R(n) && !n.cfg.twa && n.cfg.useRej && rx.rejActioned == 0;
    && m.st.rx.rejPend == (rx.rejPend || gap)
    && m.st.rx.rejActioned ==
      (if gap then next + 1 else if Taken(n, f, env) && rx.rejActioned == next + 1 then 0 else rx.rejActioned)
  }

  lemma ExceptionAfter(c: Config, p: State, w: Wire, env: RxEnv)
    requires c.Valid() && !p.fl.frmr && IsNRValid(c, p.tx, w.nr) && AddressAccepted(c, w.addr)
    ensures
      var q := Receive(c, p, w, env).rx;
      var gap := w.Info? && w.ns != p.rx.vr && !c.twa && c.useRej && p.rx.rejActioned == 0;
      var taken := w.Info? && w.ns == p.rx.vr && env.endpointTakes;
      && q.rejPend == (p.rx.rejPend || gap)
      && q.rejActioned ==
        (if gap then p.rx.vr + 1 else if taken && p.rx.rejActioned == p.rx.vr + 1 then 0 else p.rx.rejActioned)
  {
    hide CheckpointAndAckTx;
    hide RejRetransmit;
    hide IsNRValid;
    hide AddressAccepted;
    hide Config.Next;
  }

  // --- Every run --------------------------------------------------------------------------------

  lemma HeadRecovers(s: System, env: RxEnv)
    requires LineInv(s) && s.yx != []
    ensures s.x.cfg.modulus > 0
    ensures
      var t := Act(s, Receipt(env));
      && Recovered(s.x.cfg, s.x.st.tx, t.x.st.tx, s.x.log, s.yx[0].wire, s.yx[0].ack)
      && Noted(s.x, t.x, s.yx[0], env)
      && t.x.log == s.x.log
  {
    hide Inv;
    hide AddressedBy;
    hide AddressAccepted;
    hide Receive;
    hide IsNRValid;
    hide Window;
    hide Config.Mod;
    hide Recovered;
    hide NumberedPrefix;
    hide SendI;
    hide SendS;
    hide CanSendI;
    hide SupervisoryToSend;
    HeadIsForX(s);
    HeadIsValid(s);
    VRIsR(s);
    if s.yx[0].wire.Info? {
      HeadIsExpected(s);
    }
    ReceiptRecovers(s.x.cfg, s.x.st, s.x.log, s.yx[0].wire, s.yx[0].ack, env);
    ExceptionAfter(s.x.cfg, s.x.st, s.yx[0].wire, env);
  }

  lemma VRIsR(s: System)
    requires Inv(s)
    ensures s.x.cfg.Valid() && s.x.st.rx.vr == s.x.cfg.Mod(R(s.x))
  {
    hide Window;
    hide DataOk;
    hide AcksOk;
  }

  lemma EveryReceiptRecovers(s: System, steps: seq<Step>, env: RxEnv)
    requires Init(s) && Run(s, steps).yx != []
    ensures
      var e := Run(s, steps);
      var t := Exec(e, AtX(Receipt(env)));
      && Recovered(e.x.cfg, e.x.st.tx, t.x.st.tx, e.x.log, e.yx[0].wire, e.yx[0].ack)
      && Noted(e.x, t.x, e.yx[0], env)
  {
    hide LineInv;
    hide Act;
    hide Recovered;
    hide Noted;
    StartLineInv(s);
    RunKeepsLineInv(s, steps);
    HeadRecovers(Run(s, steps), env);
  }

  // A REJ in two-way simultaneous: everything unacknowledged is sent again, unless
  // a checkpoint has already seen to that, and then the next REJ counts.
  lemma RejRecovers(s: System, steps: seq<Step>, env: RxEnv)
    requires Init(s) && Run(s, steps).yx != [] && !s.x.cfg.twa
    requires
      var w := Run(s, steps).yx[0].wire;
      w.Supervisory? && w.fun == REJ && !w.pf
    ensures
      var e := Run(s, steps);
      var n, m, r := e.x, Exec(e, AtX(Receipt(env))).x, e.yx[0].ack;
      var t, u := n.st.tx, m.st.tx;
      if t.chkptActioned == 0 then
        && A(u, m.log) == V(u, m.log) == Min(r, V(t, n.log))
        && u.retransQ == [] && u.vs == u.nr
        && 0 <= A(u, m.log) - A(t, n.log) <= |t.Held()| && u.transQ == t.Held()[A(u, m.log) - A(t, n.log)..]
        && (r < V(t, n.log) ==> u.vsAtLastPf == u.vs)
      else V(u, m.log) == V(t, n.log) && u.chkptActioned == 0
  {
    hide LineInv;
    hide Act;
    hide Window;
    hide Config.Mod;
    StartLineInv(s);
    RunKeepsLineInv(s, steps);
    var e := Run(s, steps);
    var t := Exec(e, AtX(Receipt(env)));
    HeadRecovers(e, env);
    ExecKeepsLineInv(e, AtX(Receipt(env)));
    assert Window(t.x.cfg, t.x.st.tx, t.x.log) by { SenderWindow(t); }
    WindowBasics(t.x.cfg, t.x.st.tx, t.x.log);
  }

  // --- Asking for a retransmission ----------------------------------------------------------------

  // Whether the step puts a REJ of `x` on the line.
  ghost predicate SendsRej(s: System, step: Step)
    requires s.x.cfg.modulus > 0 && s.y.cfg.modulus > 0
  {
    var q := Exec(s, step).xy;
    |q| > |s.xy| && q[|q| - 1].wire.Supervisory? && q[|q| - 1].wire.fun == REJ
  }

  ghost function RejsSent(s: System, steps: seq<Step>): nat
    requires s.x.cfg.modulus > 0 && s.y.cfg.modulus > 0
    decreases |steps|
  {
    if steps == [] then 0
    else (if SendsRej(s, steps[0]) then 1 else 0) + RejsSent(Exec(s, steps[0]), steps[1..])
  }

  // Two-way simultaneous: a secondary needs the poll, everybody else may send.
  ghost predicate MaySendNow(n: Node) { n.cfg.abm || n.cfg.primary || n.st.fl.pRcved }

  ghost predicate NoExpiry(steps: seq<Step>) {
    forall i :: 0 <= i < |steps| ==> steps[i] != AtX(T1) && steps[i] != AtX(T3)
  }

  // What a step leaves of the exception.
  ghost predicate ExceptionKept(s: System, t: System, sends: bool, expiry: bool) {
    var rx, rx' := s.x.st.rx, t.x.st.rx;
    && R(t.x) >= R(s.x)
    && (if sends then rx.rejPend && !rx'.rejPend else rx.rejPend ==> rx'.rejPend)
    && (rx.rejActioned != 0 && rx'.rejPend ==> rx.rejPend)
    && (rx.rejActioned != 0 && !expiry && R(t.x) == R(s.x) ==> rx'.rejActioned == rx.rejActioned)
  }

  lemma OwnException(s: System, act: Action)
    requires s.x.cfg.Valid() && s.y.cfg.modulus > 0 && !act.Receipt?
    ensures ExceptionKept(s, Act(s, act), SendsRej(s, AtX(act)), act.T1? || act.T3?)
  {
    hide SendI;
    hide SendS;
    hide CanSendI;
    hide SupervisoryToSend;
    hide Receive;
    var c, p := s.x.cfg, s.x.st;
    match act
    case TxI(idle) =>
      if CanSendI(c, p, idle) {
        NeedsFrame(c, p, idle);
        SendIFacts(c, p);
      }
    case TxS(env) =>
      if SupervisoryToSend(c, p, env).Some? { RejWhenPending(c, p, env); }
    case _ =>
  }

  lemma ReceiptException(s: System, env: RxEnv)
    requires LineInv(s) && !s.x.cfg.twa
    ensures s.x.cfg.modulus > 0 && s.y.cfg.modulus > 0
    ensures !SendsRej(s, AtX(Receipt(env))) && ExceptionKept(s, Act(s, Receipt(env)), false, false)
  {
    hide LineInv;
    hide SendI;
    hide SendS;
    hide CanSendI;
    hide SupervisoryToSend;
    hide Receive;
    hide Recovered;
    Moduli(s);
    if s.yx != [] {
      HeadRecovers(s, env);
      TakesHead(s, env);
    }
  }

  lemma Moduli(s: System)
    requires LineInv(s)
    ensures s.x.cfg.Valid() && s.y.cfg.Valid()
  {
    hide Flow;
    hide AddressedBy;
  }

  lemma PeerActs(s: System, act: Action)
    requires s.y.cfg.modulus > 0 && s.x.cfg.modulus > 0
    ensures Exec(s, AtY(act)).x == s.x && !SendsRej(s, AtY(act))
  {
    hide SendI;
    hide SendS;
    hide CanSendI;
    hide SupervisoryToSend;
    hide Receive;
  }

  lemma StepException(s: System, step: Step)
    requires LineInv(s) && !s.x.cfg.twa
    ensures s.x.cfg.modulus > 0 && s.y.cfg.modulus > 0
    ensures ExceptionKept(s, Exec(s, step), SendsRej(s, step), step == AtX(T1) || step == AtX(T3))
  {
    hide LineInv;
    hide Act;
    hide SendsRej;
    Moduli(s);
    match step
    case AtX(act) =>
      if act.Receipt? { ReceiptException(s, act.rxEnv); } else { OwnException(s, act); }
    case AtY(act) => PeerActs(s, act);
  }

  // A REJ leaves only when it is pending, and then nothing else does.
  lemma RejWhenPending(c: Config, p: State, env: TxEnv)
    requires c.modulus > 0 && SupervisoryToSend(c, p, env).Some?
    ensures
      var (q, w) := SendS(c, p, env);
      && w.Supervisory? && q.rx == p.rx.(rejPend := q.rx.rejPend)
      && (w.fun == REJ <==> p.rx.rejPend && env.frameForRej)
      && q.rx.rejPend == (p.rx.rejPend && w.fun != REJ)
  {
    hide SFramePF;
    hide SendOpportunity;
  }

  lemma {:induction false} PendingUntilSent(s: System, steps: seq<Step>)
    requires LineInv(s) && !s.x.cfg.twa && s.x.st.rx.rejPend
    requires s.x.cfg.modulus > 0 && s.y.cfg.modulus > 0 && RejsSent(s, steps) == 0
    ensures Run(s, steps).x.st.rx.rejPend
    decreases |steps|
  {
    hide LineInv;
    hide Exec;
    hide SendsRej;
    if steps != [] {
      StepException(s, steps[0]);
      ExecKeepsLineInv(s, steps[0]);
      PendingUntilSent(Exec(s, steps[0]), steps[1..]);
    }
  }

  lemma {:induction false} DeliveredGrows(s: System, steps: seq<Step>)
    requires LineInv(s) && !s.x.cfg.twa && s.x.cfg.modulus > 0 && s.y.cfg.modulus > 0
    ensures R(Run(s, steps).x) >= R(s.x)
    decreases |steps|
  {
    hide LineInv;
    hide Exec;
    hide SendsRej;
    if steps != [] {
      StepException(s, steps[0]);
      ExecKeepsLineInv(s, steps[0]);
      DeliveredGrows(Exec(s, steps[0]), steps[1..]);
    }
  }

  lemma {:induction false} AskedOnce(s: System, steps: seq<Step>)
    requires LineInv(s) && !s.x.cfg.twa && s.x.st.rx.rejActioned != 0 && NoExpiry(steps)
    requires s.x.cfg.modulus > 0 && s.y.cfg.modulus > 0 && R(Run(s, steps).x) == R(s.x)
    ensures RejsSent(s, steps) <= if s.x.st.rx.rejPend then 1 else 0
    decreases |steps|
  {
    hide LineInv;
    hide Exec;
    hide SendsRej;
    if steps != [] {
      var t := Exec(s, steps[0]);
      StepException(s, steps[0]);
      ExecKeepsLineInv(s, steps[0]);
      DeliveredGrows(t, steps[1..]);
      assert forall i :: 0 <= i < |steps| - 1 ==> steps[1..][i] == steps[i + 1];
      AskedOnce(t, steps[1..]);
    }
  }

  lemma SendsPendingRej(s: System, env: TxEnv)
    requires LineInv(s) && !s.x.cfg.twa && s.x.st.rx.rejPend && env.frameForRej && MaySendNow(s.x)
    ensures s.x.cfg.modulus > 0 && s.y.cfg.modulus > 0
    ensures
      var t := Exec(s, AtX(TxS(env)));
      SendsRej(s, AtX(TxS(env))) && t.xy[|s.xy|].wire.nr == s.x.cfg.Mod(R(s.x)) && !t.x.st.rx.rejPend
  {
    hide AddressedBy;
    hide Flow;
    hide SendS;
    hide SFramePF;
    hide Config.Mod;
    VRIsR(s);
    SendSFacts(s.x.cfg, s.x.st, env);
    RejWhenPending(s.x.cfg, s.x.st, env);
  }

  // In two-way simultaneous with REJ in use and no exception active, an I-frame
  // out of sequence makes the next S-frame sent a REJ for the number expected;
  // there is only one until that number arrives or a timer expires.
  lemma GapIsRejected(s: System, steps: seq<Step>, env: RxEnv, more: seq<Step>, out: TxEnv)
    requires Init(s) && !s.x.cfg.twa && s.x.cfg.useRej
    requires
      var e := Run(s, steps);
      e.yx != [] && e.yx[0].wire.Info? && e.yx[0].num != R(e.x) && e.x.st.rx.rejActioned == 0
    ensures
      var t := Exec(Run(s, steps), AtX(Receipt(env)));
      var u := Run(t, more);
      && (RejsSent(t, more) == 0 && out.frameForRej && MaySendNow(u.x) ==>
        var z := Exec(u, AtX(TxS(out)));
        && SendsRej(u, AtX(TxS(out)))
        && z.xy[|u.xy|].wire.nr == u.x.cfg.Mod(R(u.x)) && !z.x.st.rx.rejPend)
      && (NoExpiry(more) && R(u.x) == R(t.x) ==> RejsSent(t, more) <= 1)
  {
    hide LineInv;
    hide Act;
    hide Recovered;
    hide SendsRej;
    StartLineInv(s);
    RunKeepsLineInv(s, steps);
    var e := Run(s, steps);
    var t := Exec(e, AtX(Receipt(env)));
    HeadRecovers(e, env);
    ExecKeepsLineInv(e, AtX(Receipt(env)));
    RunKeepsLineInv(t, more);
    if RejsSent(t, more) == 0 {
      PendingUntilSent(t, more);
      if out.frameForRej && MaySendNow(Run(t, more).x) { SendsPendingRej(Run(t, more), out); }
    }
    if NoExpiry(more) && R(Run(t, more).x) == R(t.x) { AskedOnce(t, more); }
  }
}
