// Normal response mode, two-way alternate: the right to transmit is a single
// token that travels as the poll and final bits, and each final bit leaves the
// primary resynchronised with the secondary.
module TurnToken {
  import opened Bytes
  import opened Wrappers
  import opened Peer
  import opened Numbers
  import opened Session

  function CountPF(q: seq<Flight>): nat {
    if q == [] then 0 else One(q[0].wire.pf) + CountPF(q[1..])
  }

  function One(b: bool): nat { if b then 1 else 0 }

  // Primary may send + P in flight + secondary may send + F in flight.
  function Tokens(s: System): nat {
    One(s.x.st.fl.fRcved) + CountPF(s.xy) + One(s.y.st.fl.pRcved) + CountPF(s.yx)
  }

  // `x` is the primary and `y` the secondary of an NRM/TWA link.
  ghost predicate NrmTwa(s: System) {
    !s.x.cfg.abm && s.x.cfg.twa && s.x.cfg.primary
  }

  // The reply timer of the primary expires only after the token was lost.
  ghost predicate Timely(s: System, step: Step) {
    step == AtX(T1) ==> Tokens(s) == 0
  }

  ghost predicate TimelyRun(s: System, steps: seq<Step>)
    requires s.x.cfg.modulus > 0 && s.y.cfg.modulus > 0
    decreases |steps|
  {
    steps == [] || (Timely(s, steps[0]) && TimelyRun(Exec(s, steps[0]), steps[1..]))
  }

  ghost predicate Addressed(q: seq<Flight>, addr: nat) {
    forall i :: 0 <= i < |q| ==> q[i].wire.addr == addr
  }

  // Only the last frame on the line may carry the poll or final bit.
  ghost predicate PFIsLast(q: seq<Flight>) {
    forall i :: 0 <= i < |q| && q[i].wire.pf ==> i == |q| - 1
  }

  ghost predicate HasPF(q: seq<Flight>) {
    q != [] && q[|q| - 1].wire.pf
  }

  // The turn rules, for the primary's right to send `mayPoll`, the secondary's
  // right `mayAnswer`, the two lines, the secondary's address and V(R), and
  // whether the primary's checkpoint reference is its V(S).
  ghost predicate Rules(mayPoll: bool, mayAnswer: bool, xy: seq<Flight>, yx: seq<Flight>,
                        addr: nat, r: int, reference: bool)
  {
    && One(mayPoll) + CountPF(xy) + One(mayAnswer) + CountPF(yx) <= 1
    && Addressed(xy, addr) && Addressed(yx, addr)
    // Nothing follows a poll until the turn is back or lost.
    && PFIsLast(xy)
    && (mayAnswer ==> xy == [])
    // The final bit closes the secondary's turn and reports its current V(R).
    && PFIsLast(yx)
    && (HasPF(yx) ==> xy == [] && yx[|yx| - 1].ack == r)
    // While the turn is away the reference stays at V(S).
    && (CountPF(xy) + One(mayAnswer) + CountPF(yx) == 1 ==> reference)
  }

  ghost predicate TokenRules(s: System) {
    && NrmTwa(s)
    && Rules(s.x.st.fl.fRcved, s.y.st.fl.pRcved, s.xy, s.yx, s.y.cfg.addr, R(s.y),
             s.x.st.tx.vsAtLastPf == s.x.st.tx.vs)
  }

  // The numbers delivered, r of them, and those on the line lie below V(S) = v.
  ghost predicate Below(v: int, r: int, xy: seq<Flight>) {
    r <= v && forall i :: 0 <= i < |xy| && xy[i].wire.Info? ==> xy[i].num < v
  }

  // In two-way alternate V(S) is never behind what was sent: only a final bit
  // rewinds it, and that one reports everything sent before.
  ghost predicate NeverBehind(s: System) {
    Below(V(s.x.st.tx, s.x.log), R(s.y), s.xy)
  }

  ghost predicate TokenInv(s: System) {
    Inv(s) && TokenRules(s) && NeverBehind(s)
  }

  // --- Counting ----------------------------------------------------------------

  lemma {:induction false} CountPFAppend(q: seq<Flight>, f: Flight)
    ensures CountPF(q + [f]) == CountPF(q) + One(f.wire.pf)
  {
    if q == [] {
      assert q + [f] == [f];
    } else {
      assert (q + [f])[1..] == q[1..] + [f];
      CountPFAppend(q[1..], f);
    }
  }

  lemma {:induction false} CountPFWithout(q: seq<Flight>, i: nat)
    requires i < |q|
    ensures CountPF(q) == CountPF(Without(q, i)) + One(q[i].wire.pf)
  {
    if i == 0 {
      assert Without(q, 0) == q[1..];
    } else {
      assert Without(q, i)[0] == q[0] && Without(q, i)[1..] == Without(q[1..], i - 1);
      CountPFWithout(q[1..], i - 1);
    }
  }

  lemma CountPFZero(q: seq<Flight>)
    requires CountPF(q) == 0
    ensures forall i :: 0 <= i < |q| ==> !q[i].wire.pf
  {
    forall i | 0 <= i < |q| ensures !q[i].wire.pf { CountPFWithout(q, i); }
  }

  lemma TailRules(q: seq<Flight>, addr: nat)
    requires q != [] && Addressed(q, addr) && PFIsLast(q)
    ensures Addressed(q[1..], addr) && PFIsLast(q[1..]) && q[0].wire.addr == addr
    ensures CountPF(q) == One(q[0].wire.pf) + CountPF(q[1..])
    ensures q[0].wire.pf ==> |q| == 1 && HasPF(q)
    ensures HasPF(q[1..]) ==> HasPF(q) && q[1..][|q| - 2] == q[|q| - 1]
  {
  }

  lemma WithoutRules(q: seq<Flight>, addr: nat, i: nat)
    requires i < |q| && Addressed(q, addr) && PFIsLast(q)
    ensures Addressed(Without(q, i), addr) && PFIsLast(Without(q, i))
    ensures HasPF(Without(q, i)) ==> HasPF(q) && Without(q, i)[|q| - 2] == q[|q| - 1]
  {
    var q' := Without(q, i);
    forall j | 0 <= j < |q'| ensures q'[j].wire.addr == addr && (q'[j].wire.pf ==> j == |q'| - 1) {
      assert q'[j] == q[if j < i then j else j + 1];
    }
  }

  // Appending to a line that carries no P/F.
  lemma AppendRules(q: seq<Flight>, addr: nat, f: Flight)
    requires CountPF(q) == 0 && Addressed(q, addr) && f.wire.addr == addr
    ensures Addressed(q + [f], addr) && PFIsLast(q + [f]) && CountPF(q + [f]) == One(f.wire.pf)
  {
    hide CountPF;
    CountPFAppend(q, f);
    CountPFZero(q);
  }

  // --- What sending and receiving do to the flags ----------------------------------

  lemma ReceiveFlags(c: Config, p: State, w: Wire, env: RxEnv)
    requires c.Valid() && !c.abm && !p.fl.frmr && AddressAccepted(c, w.addr) && IsNRValid(c, p.tx, w.nr)
    ensures
      var q := Receive(c, p, w, env);
      && q.fl.pRcved == (p.fl.pRcved || (w.pf && w.addr == c.addr))
      && q.fl.fRcved == (p.fl.fRcved || (w.pf && w.addr != c.addr))
  {
    hide CheckpointAndAckTx;
    hide RejRetransmit;
    hide IsNRValid;
  }

  // None of the frames an acknowledgment can retire carries N(S) = V(S).
  lemma UnacknowledgedBelowVS(c: Config, t: Tx, log: seq<Octets>)
    requires c.Valid() && Window(c, t, log)
    ensures forall i :: 0 <= i < |t.retransQ| ==> t.retransQ[i].ns != t.vs
  {
    hide Config.Mod;
    hide Window;
    hide NumberedPrefix;
    WindowBasics(c, t, log);
    forall i | 0 <= i < |t.retransQ| ensures t.retransQ[i].ns != t.vs {
      HeldNumbers(c, t, log, i);
      ModInjective(c, A(t, log) + i, V(t, log));
    }
  }

  lemma ReferenceSurvivesAck(c: Config, t: Tx, log: seq<Octets>, r: int)
    requires c.Valid() && Window(c, t, log) && A(t, log) <= r <= H(t, log) && t.vsAtLastPf == t.vs
    ensures
      var u := ProcessNR(c, t, c.Mod(r));
      u.vsAtLastPf == t.vs && u.vs == t.vs
  {
    hide Config.Mod;
    hide Window;
    WindowBasics(c, t, log);
    UnacknowledgedBelowVS(c, t, log);
    ProcessNRClosedForm(c, t, A(t, log), r);
  }

  // Without P/F, and without REJ, nothing moves V(S) or the checkpoint reference.
  lemma ReceiveKeepsReference(c: Config, p: State, log: seq<Octets>, w: Wire, r: int, env: RxEnv)
    requires c.Valid() && !c.abm && c.twa && Window(c, p.tx, log) && !p.fl.frmr
    requires A(p.tx, log) <= r <= H(p.tx, log) && w.nr == c.Mod(r) && AddressAccepted(c, w.addr)
    requires p.tx.vsAtLastPf == p.tx.vs && !w.pf
    ensures Receive(c, p, w, env).tx.vs == Receive(c, p, w, env).tx.vsAtLastPf
  {
    hide Config.Mod;
    hide Window;
    hide ProcessNR;
    hide IsNRValid;
    hide Receive;
    ProcessNRWindow(c, p.tx, log, r);
    ReferenceSurvivesAck(c, p.tx, log, r);
    ReceiveTx(c, p, w, env);
  }

  // How a frame sent under the rules relates the flags before and after.
  ghost predicate PrimarySent(p: State, q: State, w: Wire, addr: nat) {
    && p.fl.fRcved && q.fl.fRcved == !w.pf && w.addr == addr
    && (w.pf ==> q.tx.vsAtLastPf == q.tx.vs)
  }

  lemma PrimarySends(c: Config, p: State, lineIdle: bool, env: TxEnv)
    requires c.Valid() && !c.abm && c.twa && c.primary
    ensures CanSendI(c, p, lineIdle) ==>
      var (q, w) := SendI(c, p);
      PrimarySent(p, q, w, c.peerAddr)
    ensures SupervisoryToSend(c, p, env).Some? ==>
      var (q, w) := SendS(c, p, env);
      PrimarySent(p, q, w, c.peerAddr)
  {
    hide Advance;
    hide WindowOpen;
  }

  lemma CanSendNeedsFrame(c: Config, p: State, lineIdle: bool)
    requires c.modulus > 0 && CanSendI(c, p, lineIdle)
    ensures p.tx.transQ != []
  {
  }

  ghost predicate SecondarySent(p: State, q: State, w: Wire, addr: nat) {
    && p.fl.pRcved && q.fl.pRcved == !w.pf && w.addr == addr
    && q.rx.delivered == p.rx.delivered
  }

  lemma SecondarySends(c: Config, p: State, lineIdle: bool, env: TxEnv)
    requires c.Valid() && !c.abm && !c.primary
    ensures CanSendI(c, p, lineIdle) ==>
      var (q, w) := SendI(c, p);
      SecondarySent(p, q, w, c.addr)
    ensures SupervisoryToSend(c, p, env).Some? ==>
      var (q, w) := SendS(c, p, env);
      SecondarySent(p, q, w, c.addr)
  {
    hide Advance;
    hide WindowOpen;
  }

  lemma TimerFlags(c: Config, p: State)
    ensures
      var q := T1Expired(c, p);
      && q.tx == p.tx && q.fl.pRcved == p.fl.pRcved && q.rx.delivered == p.rx.delivered
      && q.fl.fRcved == (p.fl.fRcved || CanRetry(c, p.fl))
    ensures
      var q := T3Expired(c, p);
      && q.tx == p.tx && q.fl.pRcved == p.fl.pRcved && q.rx.delivered == p.rx.delivered
      && (!c.abm ==> q.fl.fRcved == p.fl.fRcved)
  {
  }

  // --- Steps keep the rules ------------------------------------------------------

  lemma PrimarySendsRules(xy: seq<Flight>, yx: seq<Flight>, addr: nat, r: int, was: bool, f: Flight, reference: bool)
    requires Rules(true, false, xy, yx, addr, r, was) && f.wire.addr == addr && (f.wire.pf ==> reference)
    ensures Rules(!f.wire.pf, false, xy + [f], yx, addr, r, reference)
  {
    hide CountPF;
    hide Addressed;
    AppendRules(xy, addr, f);
    CountPFZero(yx);
  }

  lemma SecondarySendsRules(xy: seq<Flight>, yx: seq<Flight>, addr: nat, r: int, f: Flight, reference: bool)
    requires Rules(false, true, xy, yx, addr, r, reference) && f.wire.addr == addr && f.ack == r
    ensures Rules(false, !f.wire.pf, xy, yx + [f], addr, r, reference)
  {
    hide CountPF;
    hide Addressed;
    hide PFIsLast;
    AppendRules(yx, addr, f);
  }

  lemma PrimaryReceivesRules(mayPoll: bool, mayAnswer: bool, xy: seq<Flight>, yx: seq<Flight>, addr: nat, r: int,
                             was: bool, reference: bool)
    requires Rules(mayPoll, mayAnswer, xy, yx, addr, r, was) && yx != []
    requires !yx[0].wire.pf && was ==> reference
    ensures Rules(mayPoll || yx[0].wire.pf, mayAnswer, xy, yx[1..], addr, r, reference)
  {
    hide CountPF;
    hide Addressed;
    hide PFIsLast;
    TailRules(yx, addr);
  }

  lemma SecondaryReceivesRules(mayPoll: bool, mayAnswer: bool, xy: seq<Flight>, yx: seq<Flight>, addr: nat, r: int,
                               reference: bool, r': int)
    requires Rules(mayPoll, mayAnswer, xy, yx, addr, r, reference) && xy != []
    ensures Rules(mayPoll, mayAnswer || xy[0].wire.pf, xy[1..], yx, addr, r', reference)
  {
    hide CountPF;
    hide Addressed;
    hide PFIsLast;
    TailRules(xy, addr);
  }

  lemma LoseRules(mayPoll: bool, mayAnswer: bool, xy: seq<Flight>, yx: seq<Flight>, addr: nat, r: int,
                  reference: bool, i: nat)
    requires Rules(mayPoll, mayAnswer, xy, yx, addr, r, reference)
    ensures i < |yx| ==> Rules(mayPoll, mayAnswer, xy, Without(yx, i), addr, r, reference)
    ensures i < |xy| ==> Rules(mayPoll, mayAnswer, Without(xy, i), yx, addr, r, reference)
  {
    hide CountPF;
    hide Addressed;
    hide PFIsLast;
    if i < |yx| {
      WithoutRules(yx, addr, i);
      CountPFWithout(yx, i);
    }
    if i < |xy| {
      WithoutRules(xy, addr, i);
      CountPFWithout(xy, i);
    }
  }

  lemma RestoreRules(xy: seq<Flight>, yx: seq<Flight>, addr: nat, r: int, reference: bool)
    requires Rules(false, false, xy, yx, addr, r, reference) && CountPF(xy) + CountPF(yx) == 0
    ensures Rules(true, false, xy, yx, addr, r, reference)
  {
    hide CountPF;
    hide Addressed;
    CountPFZero(yx);
  }

  // The token excludes the two rights from each other.
  lemma TokenExcludes(s: System)
    requires TokenRules(s)
    ensures !(s.x.st.fl.fRcved && s.y.st.fl.pRcved)
  {
    hide Addressed;
    hide PFIsLast;
    hide CountPF;
  }

  // The roles of the two stations and the address on the lines.
  lemma Roles(s: System)
    requires Inv(s) && TokenRules(s)
    ensures s.x.cfg.Valid() && !s.x.cfg.abm && s.x.cfg.twa && s.x.cfg.primary
    ensures s.y.cfg.Valid() && !s.y.cfg.abm && s.y.cfg.twa && !s.y.cfg.primary
    ensures s.x.cfg.addr != s.x.cfg.peerAddr == s.y.cfg.addr
    ensures s.xy != [] ==> s.xy[0].wire.addr == s.y.cfg.addr
    ensures s.yx != [] ==> s.yx[0].wire.addr == s.y.cfg.addr
  {
    hide Flow;
    hide CountPF;
    hide PFIsLast;
  }

  lemma PrimaryLaunch(s: System, q: State, w: Wire, num: int)
    requires TokenRules(s) && PrimarySent(s.x.st, q, w, s.y.cfg.addr)
    ensures TokenRules(Launch(s, q, w, num))
  {
    hide Rules;
    TokenExcludes(s);
    var f := Launch(s, q, w, num).xy[|s.xy|];
    PrimarySendsRules(s.xy, s.yx, s.y.cfg.addr, R(s.y), s.x.st.tx.vsAtLastPf == s.x.st.tx.vs,
      f, q.tx.vsAtLastPf == q.tx.vs);
  }

  lemma SwapInv(s: System)
    requires Inv(s)
    ensures Inv(s.Swap())
  {
    hide Flow;
  }

  lemma PrimaryReceives(s: System, env: RxEnv)
    requires TokenInv(s) && s.yx != []
    ensures
      TokenRules(s.(x := s.x.(st := Receive(s.x.cfg, s.x.st, s.yx[0].wire, env)), yx := s.yx[1..]))
  {
    hide Inv;
    hide CountPF;
    hide Config.Mod;
    hide IsNRValid;
    hide Window;
    hide Receive;
    hide Rules;
    var c, p, f := s.x.cfg, s.x.st, s.yx[0];
    HeadIsValid(s);
    Roles(s);
    ReceiveFlags(c, p, f.wire, env);
    if !f.wire.pf && p.tx.vsAtLastPf == p.tx.vs {
      ReceiveKeepsReference(c, p, s.x.log, f.wire, f.ack, env);
    }
    var q := Receive(c, p, f.wire, env);
    PrimaryReceivesRules(p.fl.fRcved, s.y.st.fl.pRcved, s.xy, s.yx, s.y.cfg.addr, R(s.y),
      p.tx.vsAtLastPf == p.tx.vs, q.tx.vsAtLastPf == q.tx.vs);
  }

  lemma PrimaryActs(s: System, act: Action)
    requires TokenInv(s) && Timely(s, AtX(act))
    ensures TokenRules(Act(s, act))
  {
    hide Inv;
    hide Rules;
    hide SendI;
    hide SendS;
    hide CanSendI;
    hide SupervisoryToSend;
    hide Receive;
    hide T1Expired;
    hide T3Expired;
    var c, p := s.x.cfg, s.x.st;
    Roles(s);
    TimerFlags(c, p);
    match act
    case TxI(idle) =>
      if CanSendI(c, p, idle) {
        PrimarySends(c, p, idle, TxEnv(false, false, false, false, false, false));
        assert p.tx.transQ != [] by { CanSendNeedsFrame(c, p, idle); }
        PrimaryLaunch(s, SendI(c, p).0, SendI(c, p).1, V(p.tx, s.x.log));
      }
    case TxS(env) =>
      if SupervisoryToSend(c, p, env).Some? {
        PrimarySends(c, p, false, env);
        PrimaryLaunch(s, SendS(c, p, env).0, SendS(c, p, env).1, 0);
      }
    case Receipt(env) => if s.yx != [] { PrimaryReceives(s, env); }
    case Lose(i) =>
      LoseRules(p.fl.fRcved, s.y.st.fl.pRcved, s.xy, s.yx, s.y.cfg.addr, R(s.y), p.tx.vsAtLastPf == p.tx.vs, i);
    case T1 =>
      if CanRetry(c, p.fl) {
        RestoreRules(s.xy, s.yx, s.y.cfg.addr, R(s.y), p.tx.vsAtLastPf == p.tx.vs);
      }
    case _ =>
  }

  lemma SecondaryLaunch(s: System, q: State, w: Wire, num: int)
    requires TokenRules(s) && SecondarySent(s.y.st, q, w, s.y.cfg.addr)
    ensures TokenRules(Launch(s.Swap(), q, w, num).Swap())
  {
    hide Rules;
    TokenExcludes(s);
    var f := Launch(s.Swap(), q, w, num).xy[|s.yx|];
    SecondarySendsRules(s.xy, s.yx, s.y.cfg.addr, R(s.y), f, s.x.st.tx.vsAtLastPf == s.x.st.tx.vs);
  }

  lemma SecondaryReceives(s: System, env: RxEnv)
    requires TokenInv(s) && s.xy != []
    ensures
      TokenRules(s.(y := s.y.(st := Receive(s.y.cfg, s.y.st, s.xy[0].wire, env)), xy := s.xy[1..]))
  {
    hide Inv;
    hide CountPF;
    hide Config.Mod;
    hide IsNRValid;
    hide Window;
    hide Receive;
    hide Rules;
    var c, p, f := s.y.cfg, s.y.st, s.xy[0];
    SwapInv(s);
    HeadIsValid(s.Swap());
    Roles(s);
    ReceiveFlags(c, p, f.wire, env);
    SecondaryReceivesRules(s.x.st.fl.fRcved, p.fl.pRcved, s.xy, s.yx, s.y.cfg.addr, R(s.y),
      s.x.st.tx.vsAtLastPf == s.x.st.tx.vs, |Receive(c, p, f.wire, env).rx.delivered|);
  }

  lemma SecondaryActs(s: System, act: Action)
    requires TokenInv(s)
    ensures TokenRules(Exec(s, AtY(act)))
  {
    hide Inv;
    hide Rules;
    hide SendI;
    hide SendS;
    hide CanSendI;
    hide SupervisoryToSend;
    hide Receive;
    hide T1Expired;
    hide T3Expired;
    var c, p := s.y.cfg, s.y.st;
    Roles(s);
    TimerFlags(c, p);
    match act
    case TxI(idle) =>
      if CanSendI(c, p, idle) {
        SecondarySends(c, p, idle, TxEnv(false, false, false, false, false, false));
        assert p.tx.transQ != [] by { CanSendNeedsFrame(c, p, idle); }
        SecondaryLaunch(s, SendI(c, p).0, SendI(c, p).1, V(p.tx, s.y.log));
      }
    case TxS(env) =>
      if SupervisoryToSend(c, p, env).Some? {
        SecondarySends(c, p, false, env);
        SecondaryLaunch(s, SendS(c, p, env).0, SendS(c, p, env).1, 0);
      }
    case Receipt(env) => if s.xy != [] { SecondaryReceives(s, env); }
    case Lose(i) =>
      LoseRules(s.x.st.fl.fRcved, p.fl.pRcved, s.xy, s.yx, s.y.cfg.addr, R(s.y),
        s.x.st.tx.vsAtLastPf == s.x.st.tx.vs, i);
    case _ =>
  }

  // --- V(S) is never behind ----------------------------------------------------------

  lemma BelowChange(v: int, r: int, xy: seq<Flight>, i: nat)
    requires Below(v, r, xy) && i < |xy|
    ensures Below(v, r, Without(xy, i)) && Below(v, r, xy[1..])
    ensures xy[0].wire.Info? && xy[0].num == r ==> Below(v, r + 1, xy[1..])
  {
    var q := Without(xy, i);
    forall j | 0 <= j < |q| && q[j].wire.Info? ensures q[j].num < v {
      assert q[j] == xy[if j < i then j else j + 1];
    }
  }

  lemma BelowSent(v: int, r: int, xy: seq<Flight>, f: Flight, v': int)
    requires Below(v, r, xy) && v <= v' && (f.wire.Info? ==> f.num < v')
    ensures Below(v', r, xy + [f])
  {
  }

  lemma PrimarySendsBelow(s: System, act: Action)
    requires TokenInv(s) && (act.TxI? || act.TxS?)
    ensures NeverBehind(Act(s, act))
  {
    hide CanSendI;
    hide SupervisoryToSend;
    hide SendI;
    hide SendS;
    hide Advance;
    hide Window;
    hide WindowOpen;
    hide TokenRules;
    hide Config.Mod;
    hide NumberedPrefix;
    hide DataOk;
    hide AcksOk;
    hide Below;
    var c, p, v := s.x.cfg, s.x.st, V(s.x.st.tx, s.x.log);
    if act.TxI? && CanSendI(c, p, act.lineIdle) {
      MaySend(c, p, act.lineIdle);
      AdvanceWindow(c, p.tx, s.x.log);
      SendIFacts(c, p);
      var f := Act(s, act).xy[|s.xy|];
      BelowSent(v, R(s.y), s.xy, f, v + 1);
    } else if act.TxS? && SupervisoryToSend(c, p, act.txEnv).Some? {
      SendSFacts(c, p, act.txEnv);
      var f := Act(s, act).xy[|s.xy|];
      BelowSent(v, R(s.y), s.xy, f, v);
    }
  }

  lemma MaySend(c: Config, p: State, lineIdle: bool)
    requires c.modulus > 0 && CanSendI(c, p, lineIdle)
    ensures p.tx.transQ != [] && WindowOpen(c, p.tx)
  {
    hide WindowOpen;
  }

  // A frame without F leaves V(S) where it is; one with F brings it to V(R).
  lemma PrimaryReceivesBelow(s: System, env: RxEnv)
    requires TokenInv(s) && s.yx != []
    ensures NeverBehind(s.(x := s.x.(st := Receive(s.x.cfg, s.x.st, s.yx[0].wire, env)), yx := s.yx[1..]))
  {
    hide Receive;
    hide IsNRValid;
    hide Window;
    hide Config.Mod;
    hide DataOk;
    hide NumberedPrefix;
    hide Tx.Held;
    hide ProcessNR;
    hide Rules;
    var c, p, f := s.x.cfg, s.x.st, s.yx[0];
    HeadIsValid(s);
    Roles(s);
    if f.wire.pf {
      FinalFrameFacts(s);
      FinalWindow(c, p, s.x.log, f.wire, f.ack, env);
    } else {
      ProcessNRWindow(c, p.tx, s.x.log, f.ack);
      ReceiveTx(c, p, f.wire, env);
    }
  }

  lemma PrimaryNeverBehind(s: System, act: Action)
    requires TokenInv(s)
    ensures NeverBehind(Act(s, act))
  {
    hide CanSendI;
    hide SupervisoryToSend;
    hide SendI;
    hide SendS;
    hide Receive;
    hide T1Expired;
    hide T3Expired;
    hide TokenRules;
    hide Window;
    hide DataOk;
    hide AcksOk;
    hide Below;
    match act
    case Write(d) => EnqueueWindow(s.x.cfg, s.x.st.tx, s.x.log, d);
    case TxI(_) => PrimarySendsBelow(s, act);
    case TxS(_) => PrimarySendsBelow(s, act);
    case Receipt(env) => if s.yx != [] { PrimaryReceivesBelow(s, env); }
    case Lose(_) =>
    case _ => TimerFlags(s.x.cfg, s.x.st);
  }

  lemma SecondaryReceivesBelow(s: System, env: RxEnv)
    requires TokenInv(s) && s.xy != []
    ensures NeverBehind(s.(y := s.y.(st := Receive(s.y.cfg, s.y.st, s.xy[0].wire, env)), xy := s.xy[1..]))
  {
    hide Inv;
    hide Receive;
    hide Rules;
    hide Delivery;
    hide Below;
    hide V;
    hide A;
    SwapInv(s);
    Roles(s);
    ReceivedRx(s.Swap(), env);
    BelowChange(V(s.x.st.tx, s.x.log), R(s.y), s.xy, 0);
  }

  lemma SecondaryNeverBehind(s: System, act: Action)
    requires TokenInv(s)
    ensures NeverBehind(Exec(s, AtY(act)))
  {
    hide Inv;
    hide CanSendI;
    hide SupervisoryToSend;
    hide SendI;
    hide SendS;
    hide Receive;
    hide T1Expired;
    hide T3Expired;
    hide Rules;
    hide Below;
    hide V;
    hide A;
    var c, p := s.y.cfg, s.y.st;
    Roles(s);
    match act
    case TxI(idle) =>
      if CanSendI(c, p, idle) {
        CanSendNeedsFrame(c, p, idle);
        SendIFacts(c, p);
      }
    case TxS(env) =>
      if SupervisoryToSend(c, p, env).Some? {
        SendSFacts(c, p, env);
      }
    case Receipt(env) => if s.xy != [] { SecondaryReceivesBelow(s, env); }
    case Lose(i) => if i < |s.xy| { BelowChange(V(s.x.st.tx, s.x.log), R(s.y), s.xy, i); }
    case Write(_) =>
    case _ => TimerFlags(c, p);
  }

  lemma {:induction false} RunKeepsTokenInv(s: System, steps: seq<Step>)
    requires TokenInv(s) && TimelyRun(s, steps)
    ensures TokenInv(Run(s, steps))
    decreases |steps|
  {
    hide TokenRules;
    hide NeverBehind;
    hide Flow;
    hide Act;
    if steps != [] {
      ExecKeepsInv(s, steps[0]);
      match steps[0] {
        case AtX(act) =>
          PrimaryActs(s, act);
          PrimaryNeverBehind(s, act);
        case AtY(act) =>
          SecondaryActs(s, act);
          SecondaryNeverBehind(s, act);
      }
      RunKeepsTokenInv(Exec(s, steps[0]), steps[1..]);
    }
  }

  // The secondary has answered the mode-setting command, so it holds no poll.
  lemma StartTokenInv(s: System)
    requires Init(s) && NrmTwa(s) && !s.y.st.fl.pRcved
    ensures TokenInv(s)
  {
    InitInv(s);
  }

  // --- Theorems ------------------------------------------------------------------------

  // At most one of the two stations may transmit, and the turn is never both
  // held and in flight.
  lemma TurnIsUnique(s: System, steps: seq<Step>)
    requires Init(s) && NrmTwa(s) && !s.y.st.fl.pRcved && TimelyRun(s, steps)
    ensures Tokens(Run(s, steps)) <= 1
  {
    hide Inv;
    StartTokenInv(s);
    RunKeepsTokenInv(s, steps);
  }

  // Every final bit empties the primary's retransmission queue and brings V(S)
  // and N(R) together at the secondary's V(R).
  lemma CheckpointResynchronises(s: System, steps: seq<Step>, env: RxEnv)
    requires Init(s) && NrmTwa(s) && !s.y.st.fl.pRcved && TimelyRun(s, steps)
    requires Run(s, steps).yx != [] && Run(s, steps).yx[0].wire.pf
    ensures
      var e := Run(s, steps);
      var t := Act(e, Receipt(env)).x.st.tx;
      && t.retransQ == [] && t.vs == t.nr == e.y.st.rx.vr
      && A(t, e.x.log) == R(e.y)
  {
    hide TokenInv;
    StartTokenInv(s);
    RunKeepsTokenInv(s, steps);
    FinalResynchronises(Run(s, steps), env);
  }

  lemma FinalFrameFacts(e: System)
    requires Inv(e) && TokenRules(e) && e.yx != [] && e.yx[0].wire.pf
    ensures e.xy == [] && e.yx[0].ack == R(e.y) && e.x.st.tx.vsAtLastPf == e.x.st.tx.vs
    ensures !e.x.cfg.abm && e.x.cfg.twa && AddressAccepted(e.x.cfg, e.yx[0].wire.addr)
  {
    hide Inv;
    hide CountPF;
    hide Addressed;
    hide PFIsLast;
    Roles(e);
    TailRules(e.yx, e.y.cfg.addr);
  }

  lemma FinalResynchronises(e: System, env: RxEnv)
    requires TokenInv(e) && e.yx != [] && e.yx[0].wire.pf
    ensures
      var t := Act(e, Receipt(env)).x.st.tx;
      && t.retransQ == [] && t.vs == t.nr == e.y.st.rx.vr
      && A(t, e.x.log) == R(e.y)
  {
    hide SendI;
    hide SendS;
    hide CanSendI;
    hide SupervisoryToSend;
    hide T1Expired;
    hide T3Expired;
    hide TokenRules;
    hide Receive;
    hide IsNRValid;
    hide Config.Mod;
    hide Window;
    hide NumberedPrefix;
    hide Tx.Held;
    FinalFrameFacts(e);
    HeadIsValid(e);
    FinalWindow(e.x.cfg, e.x.st, e.x.log, e.yx[0].wire, e.yx[0].ack, env);
  }

  lemma FinalWindow(c: Config, p: State, log: seq<Octets>, w: Wire, r: int, env: RxEnv)
    requires c.Valid() && !c.abm && c.twa && !p.fl.frmr && AddressAccepted(c, w.addr) && w.pf
    requires Window(c, p.tx, log) && A(p.tx, log) <= r <= H(p.tx, log) && w.nr == c.Mod(r)
    requires p.tx.vsAtLastPf == p.tx.vs
    ensures
      var u := Receive(c, p, w, env).tx;
      && u.retransQ == [] && u.vs == u.nr && A(u, log) == Min(r, V(p.tx, log))
      && (u.nr == c.Mod(r) <==> r <= V(p.tx, log))
      && (p.tx.vs == p.tx.vsHighest ==> r <= V(p.tx, log))
  {
    hide Receive;
    hide IsNRValid;
    hide Config.Mod;
    hide Window;
    hide NumberedPrefix;
    hide Tx.Held;
    FinalEmptiesQueue(c, p, log, w, r, env);
    ReceiveSender(c, p, log, w, r, env);
    var u := Receive(c, p, w, env).tx;
    WindowBasics(c, p.tx, log);
    WindowBasics(c, u, log);
    ModInjective(c, A(u, log), r);
    ModInjective(c, V(p.tx, log), H(p.tx, log));
  }

  lemma FinalEmptiesQueue(c: Config, p: State, log: seq<Octets>, w: Wire, r: int, env: RxEnv)
    requires c.Valid() && !c.abm && c.twa && !p.fl.frmr && AddressAccepted(c, w.addr) && w.pf
    requires Window(c, p.tx, log) && A(p.tx, log) <= r <= H(p.tx, log) && w.nr == c.Mod(r)
    requires p.tx.vsAtLastPf == p.tx.vs
    ensures Receive(c, p, w, env).tx.retransQ == []
  {
    hide Config.Mod;
    hide Window;
    hide NumberedPrefix;
    hide Tx.Held;
    hide ProcessNR;
    hide IsNRValid;
    hide Receive;
    ProcessNRWindow(c, p.tx, log, r);
    ReferenceSurvivesAck(c, p.tx, log, r);
    UnacknowledgedBelowVS(c, ProcessNR(c, p.tx, w.nr), log);
    ReceiveTx(c, p, w, env);
  }
}
