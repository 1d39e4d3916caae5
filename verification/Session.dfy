// Two stations joined by two lossy first-in first-out channels, in one
// connected session: every run delivers exactly once and in order, and no
// station ever rejects a frame for its N(R).
module Session {
  import opened Bytes
  import opened Wrappers
  import opened Peer
  import opened Numbers

  // A frame in flight.  Only `wire` can be seen by the receiver.  The rest
  // records the moment of sending, in absolute (never wrapping) counts: the
  // number of the payload carried, the sender's window [lo, hi) and how many
  // payloads the sender had itself received.
  datatype Flight = Flight(wire: Wire, num: int, lo: int, hi: int, ack: int)

  // A station together with everything its writers ever enqueued.
  datatype Node = Node(cfg: Config, st: State, log: seq<Octets>)

  // Absolute counters: first unacknowledged, next to send, next never sent,
  // next expected from the peer.
  function A(t: Tx, log: seq<Octets>): int { |log| - |t.Held()| }
  function V(t: Tx, log: seq<Octets>): int { A(t, log) + |t.retransQ| }
  function H(t: Tx, log: seq<Octets>): int { A(t, log) + NumberedPrefix(t.Held()) }
  function R(n: Node): nat { |n.st.rx.delivered| }

  // `x` sends into `xy` and receives from `yx`.
  datatype System = System(x: Node, y: Node, xy: seq<Flight>, yx: seq<Flight>)
  {
    function Swap(): System { System(y, x, yx, xy) }
  }

  function NumberedPrefix(q: seq<IFrame>): (k: nat)
    ensures k <= |q|
    ensures forall i :: 0 <= i < k ==> q[i].numbered
    ensures k < |q| ==> !q[k].numbered
  {
    if q == [] || !q[0].numbered then 0 else 1 + NumberedPrefix(q[1..])
  }

  lemma {:induction false} NumberedPrefixUnique(q: seq<IFrame>, k: nat)
    requires k <= |q|
    requires forall i :: 0 <= i < k ==> q[i].numbered
    requires k < |q| ==> !q[k].numbered
    ensures NumberedPrefix(q) == k
  {
    if k > 0 { NumberedPrefixUnique(q[1..], k - 1); }
  }

  // --- Steps ----------------------------------------------------------------

  datatype Action =
    | Write(payload: Octets)
    | TxI(lineIdle: bool)
    | TxS(txEnv: TxEnv)
    | Receipt(rxEnv: RxEnv)
    | Lose(index: nat)      // the channel towards the acting station loses a frame
    | T1
    | T3

  // An action taken by station `x` of the system, or by station `y`.
  datatype Step = AtX(act: Action) | AtY(act: Action)

  function Without<T>(s: seq<T>, i: nat): seq<T>
    requires i < |s|
  {
    s[..i] + s[i + 1..]
  }

  // `x` changes its state and puts a frame on the line; `num` matters only for
  // an I-frame.
  function Launch(s: System, q: State, w: Wire, num: int): System {
    s.(x := s.x.(st := q), xy := s.xy + [Flight(w, num, A(q.tx, s.x.log), H(q.tx, s.x.log), R(s.x))])
  }

  function Act(s: System, act: Action): (t: System)
    requires s.x.cfg.modulus > 0
    ensures t.x.cfg == s.x.cfg && t.y == s.y
  {
    var c, p := s.x.cfg, s.x.st;
    match act
    case Write(d) => s.(x := s.x.(st := p.(tx := Enqueue(p.tx, d)), log := s.x.log + [d]))
    case TxI(idle) =>
      if CanSendI(c, p, idle) then
        var (q, w) := SendI(c, p);
        Launch(s, q, w, V(p.tx, s.x.log))
      else s
    case TxS(env) =>
      if SupervisoryToSend(c, p, env).Some? then
        var (q, w) := SendS(c, p, env);
        Launch(s, q, w, 0)
      else s
    case Receipt(env) =>
      if s.yx == [] then s
      else s.(x := s.x.(st := Receive(c, p, s.yx[0].wire, env)), yx := s.yx[1..])
    case Lose(i) => if i < |s.yx| then s.(yx := Without(s.yx, i)) else s
    case T1 => s.(x := s.x.(st := T1Expired(c, p)))
    case T3 => s.(x := s.x.(st := T3Expired(c, p)))
  }

  function Exec(s: System, step: Step): (e: System)
    requires s.x.cfg.modulus > 0 && s.y.cfg.modulus > 0
    ensures e.x.cfg == s.x.cfg && e.y.cfg == s.y.cfg
  {
    match step
    case AtX(act) => Act(s, act)
    case AtY(act) => Act(s.Swap(), act).Swap()
  }

  function Run(s: System, steps: seq<Step>): (e: System)
    requires s.x.cfg.modulus > 0 && s.y.cfg.modulus > 0
    ensures e.x.cfg == s.x.cfg && e.y.cfg == s.y.cfg
    decreases |steps|
  {
    if steps == [] then s else Run(Exec(s, steps[0]), steps[1..])
  }

  // The start of a session: sequence variables zero, queues and channels
  // empty.  Everything link-up does not reset is left arbitrary.
  ghost predicate FreshNode(n: Node) {
    && n.log == [] && n.st.rx.delivered == []
    && n.st.tx.vs == n.st.tx.nr == n.st.tx.vsHighest == n.st.rx.vr == 0
    && n.st.tx.retransQ == [] && n.st.tx.transQ == [] && n.st.tx.pending == 0
    && !n.st.fl.frmr
  }

  ghost predicate Compatible(cx: Config, cy: Config) {
    && cx.Valid() && cy.Valid()
    && cx.modulus == cy.modulus && cx.abm == cy.abm && cx.twa == cy.twa
    && cx.addr == cy.peerAddr && cx.peerAddr == cy.addr
    && (!cx.abm ==> cx.primary != cy.primary)
  }

  ghost predicate Init(s: System) {
    && Compatible(s.x.cfg, s.y.cfg)
    && FreshNode(s.x) && FreshNode(s.y) && s.xy == [] && s.yx == []
  }

  // --- The invariant ---------------------------------------------------------

  // The frames q hold payloads a, a+1, ... of the log; the first k of them, and
  // only those, are numbered, consecutively from a.
  ghost predicate Frames(c: Config, q: seq<IFrame>, a: int, k: int, log: seq<Octets>)
    requires c.modulus > 0
  {
    && 0 <= a && a + |q| == |log| && 0 <= k <= |q|
    && (forall i :: 0 <= i < |q| ==> q[i].payload == log[a + i])
    && (forall i :: 0 <= i < |q| ==> (q[i].numbered <==> i < k))
    && (forall i :: 0 <= i < k ==> q[i].ns == c.Mod(a + i))
  }

  // The sender's window: i_retrans_q holds N(S) = A..V-1, i_trans_q starts with
  // the numbered frames V..H-1, and no more than ks numbers are in use.
  ghost predicate Window(c: Config, t: Tx, log: seq<Octets>)
    requires c.modulus > 0
  {
    && Frames(c, t.Held(), A(t, log), NumberedPrefix(t.Held()), log)
    && |t.retransQ| <= NumberedPrefix(t.Held()) <= c.ks
    && t.nr == c.Mod(A(t, log))
    && t.vs == c.Mod(V(t, log))
    && t.vsHighest == c.Mod(H(t, log))
    && t.pending == |t.Held()|
  }

  ghost predicate FlightOk(c: Config, high: int, log: seq<Octets>, r: int, f: Flight)
    requires c.modulus > 0
  {
    && f.lo <= r <= f.hi <= high <= |log|
    && 0 <= f.lo && f.hi - f.lo <= c.ks
    && (f.wire.Info? ==>
      && f.lo <= f.num < f.hi
      && f.wire.ns == c.Mod(f.num)
      && f.wire.payload == log[f.num])
  }

  // The frames on the way from a sender whose high-water mark is `high` to a
  // receiver that expects number r.
  ghost predicate DataOk(c: Config, high: int, log: seq<Octets>, r: int, fwd: seq<Flight>)
    requires c.modulus > 0
  {
    && (forall i :: 0 <= i < |fwd| ==> FlightOk(c, high, log, r, fwd[i]))
    && (forall i, j :: 0 <= i < j < |fwd| ==> fwd[i].hi <= fwd[j].hi)
  }

  // The N(R) values on the way back to a sender whose first unacknowledged
  // number is a.
  ghost predicate AcksOk(c: Config, a: int, r: int, back: seq<Flight>)
    requires c.modulus > 0
  {
    && (forall i :: 0 <= i < |back| ==> a <= back[i].ack <= r && back[i].wire.nr == c.Mod(back[i].ack))
    && (forall i, j :: 0 <= i < j < |back| ==> back[i].ack <= back[j].ack)
  }

  ghost predicate Delivery(c: Config, log: seq<Octets>, rx: Rx)
    requires c.modulus > 0
  {
    rx.delivered <= log && rx.vr == c.Mod(|rx.delivered|)
  }

  // Data from `snd` to `rcv` over `fwd`, acknowledged over `back`.
  ghost predicate Flow(snd: Node, rcv: Node, fwd: seq<Flight>, back: seq<Flight>)
    requires snd.cfg.modulus > 0
  {
    var c, t, log := snd.cfg, snd.st.tx, snd.log;
    && Window(c, t, log)
    && A(t, log) <= R(rcv) <= H(t, log)
    && Delivery(c, log, rcv.st.rx)
    && DataOk(c, H(t, log), log, R(rcv), fwd)
    && AcksOk(c, A(t, log), R(rcv), back)
  }

  ghost predicate Inv(s: System) {
    && Compatible(s.x.cfg, s.y.cfg)
    && Flow(s.x, s.y, s.xy, s.yx) && Flow(s.y, s.x, s.yx, s.xy)
    && !s.x.st.fl.frmr && !s.y.st.fl.frmr
  }

  // --- Modular arithmetic ----------------------------------------------------

  lemma Remainder8(n: int, q: int, r: int)
    requires 0 <= r < 8 && n == 8 * q + r
    ensures n % 8 == r
  {
  }

  lemma Remainder128(n: int, q: int, r: int)
    requires 0 <= r < 128 && n == 128 * q + r
    ensures n % 128 == r
  {
  }

  lemma ModShift(c: Config, a: int, i: nat)
    requires c.Valid()
    ensures c.Mod(a + i) == c.Mod(c.Mod(a) + i)
  {
    var b := c.Mod(a) + i;
    if c.modulus == 8 { Remainder8(a + i, a / 8 + b / 8, b % 8); }
    else { Remainder128(a + i, a / 128 + b / 128, b % 128); }
  }

  lemma NextMod(c: Config, a: int)
    requires c.Valid()
    ensures c.Next(c.Mod(a)) == c.Mod(a + 1)
  {
    ModShift(c, a, 1);
  }

  lemma DistanceMod(c: Config, a: int, b: int)
    requires c.Valid() && a <= b < a + c.modulus
    ensures c.Distance(c.Mod(a), c.Mod(b)) == b - a
  {
    if c.modulus == 8 { Remainder8(b % 8 - a % 8, a / 8 - b / 8, b - a); }
    else { Remainder128(b % 128 - a % 128, a / 128 - b / 128, b - a); }
  }

  lemma ModInjective(c: Config, a: int, b: int)
    requires c.Valid() && a - c.modulus < b < a + c.modulus
    ensures c.Mod(a) == c.Mod(b) <==> a == b
  {
    if c.modulus == 8 {} else {}
  }

  // --- The sender's side ------------------------------------------------------

  lemma FramesDrop(c: Config, q: seq<IFrame>, a: int, k: int, log: seq<Octets>, j: nat)
    requires c.modulus > 0 && Frames(c, q, a, k, log) && j <= k
    ensures Frames(c, q[j..], a + j, k - j, log) && NumberedPrefix(q[j..]) == k - j
  {
    hide Config.Mod;
    NumberedPrefixUnique(q[j..], k - j);
  }

  lemma FramesSend(c: Config, q: seq<IFrame>, a: int, k: int, log: seq<Octets>, v: nat, f: IFrame)
    requires c.modulus > 0 && Frames(c, q, a, k, log) && v <= k && v < |q|
    requires f == IFrame(log[a + v], true, c.Mod(a + v))
    ensures
      var k' := if v == k then k + 1 else k;
      Frames(c, q[v := f], a, k', log) && NumberedPrefix(q[v := f]) == k'
  {
    hide Config.Mod;
    NumberedPrefixUnique(q[v := f], if v == k then k + 1 else k);
  }

  lemma FramesAppend(c: Config, q: seq<IFrame>, a: int, k: int, log: seq<Octets>, d: Octets)
    requires c.modulus > 0 && Frames(c, q, a, k, log)
    ensures
      var q' := q + [IFrame(d, false, 0)];
      Frames(c, q', a, k, log + [d]) && NumberedPrefix(q') == k
  {
    hide Config.Mod;
    NumberedPrefixUnique(q + [IFrame(d, false, 0)], k);
  }

  lemma WindowBasics(c: Config, t: Tx, log: seq<Octets>)
    requires c.Valid() && Window(c, t, log)
    ensures 0 <= A(t, log) <= V(t, log) <= H(t, log) <= A(t, log) + c.ks
    ensures H(t, log) <= |log|
    ensures t.nr == c.Mod(A(t, log)) && t.vs == c.Mod(V(t, log)) && t.vsHighest == c.Mod(H(t, log))
  {
  }

  // The number and the payload of the i-th frame held.
  lemma HeldNumbers(c: Config, t: Tx, log: seq<Octets>, i: nat)
    requires c.Valid() && Window(c, t, log) && i < |t.Held()|
    ensures A(t, log) + i < |log| && t.Held()[i].payload == log[A(t, log) + i]
    ensures t.Held()[i].numbered <==> A(t, log) + i < H(t, log)
    ensures t.Held()[i].numbered ==> t.Held()[i].ns == c.Mod(A(t, log) + i)
    ensures i < |t.retransQ| ==> t.retransQ[i] == t.Held()[i] && t.Held()[i].numbered
    ensures i >= |t.retransQ| ==> t.transQ[i - |t.retransQ|] == t.Held()[i]
  {
    hide Config.Mod;
    hide NumberedPrefix;
  }

  // Closed form of the acknowledgment loop.  Only a frame whose N(S) is the
  // checkpoint reference moves the reference.
  lemma {:induction false} ProcessNRClosedForm(c: Config, t: Tx, a: nat, r: nat)
    requires c.Valid() && a <= r < a + c.modulus && t.nr == c.Mod(a)
    ensures
      var j := Min(r - a, |t.retransQ|);
      var u := ProcessNR(c, t, c.Mod(r));
      && u == t.(retransQ := t.retransQ[j..], pending := t.pending - j, nr := c.Mod(a + j), vsAtLastPf := u.vsAtLastPf)
      && ((forall i :: 0 <= i < j ==> t.retransQ[i].ns != t.vsAtLastPf) ==> u.vsAtLastPf == t.vsAtLastPf)
    decreases |t.retransQ|
  {
    hide Config.Mod;
    hide Config.Next;
    ModInjective(c, a, r);
    if a != r && t.retransQ != [] {
      NextMod(c, a);
      var t1 := AckOne(c, t);
      ProcessNRClosedForm(c, t1, a + 1, r);
      var j := Min(r - a, |t.retransQ|);
      assert t1.retransQ[j - 1..] == t.retransQ[j..];
      assert forall i :: 0 <= i < j - 1 ==> t1.retransQ[i] == t.retransQ[i + 1];
    } else {
      assert t.retransQ[0..] == t.retransQ;
    }
  }

  // Dropping the first j frames moves A by j and leaves V and H where they are.
  lemma AcknowledgedWindow(c: Config, t: Tx, log: seq<Octets>, j: nat, u: Tx)
    requires c.Valid() && Window(c, t, log) && j <= |t.retransQ|
    requires u == t.(retransQ := t.retransQ[j..], pending := t.pending - j, nr := c.Mod(A(t, log) + j),
                     vsAtLastPf := u.vsAtLastPf)
    ensures Window(c, u, log)
    ensures A(u, log) == A(t, log) + j && V(u, log) == V(t, log) && H(u, log) == H(t, log)
    ensures u.Held() == t.Held()[j..]
  {
    hide Config.Mod;
    hide Frames;
    hide NumberedPrefix;
    assert u.Held() == t.Held()[j..];
    FramesDrop(c, t.Held(), A(t, log), NumberedPrefix(t.Held()), log, j);
  }

  // N(R) = r passes validation and retires exactly the frames below min(r, V).
  lemma ProcessNRWindow(c: Config, t: Tx, log: seq<Octets>, r: int)
    requires c.Valid() && Window(c, t, log) && A(t, log) <= r <= H(t, log)
    ensures IsNRValid(c, t, c.Mod(r))
    ensures
      var u := ProcessNR(c, t, c.Mod(r));
      && Window(c, u, log)
      && A(u, log) == Min(r, V(t, log)) && V(u, log) == V(t, log) && H(u, log) == H(t, log)
      && u.Held() == t.Held()[A(u, log) - A(t, log)..]
  {
    hide Window;
    hide Config.Mod;
    hide Config.Distance;
    hide ProcessNR;
    hide NumberedPrefix;
    hide Tx.Held;
    WindowBasics(c, t, log);
    var a := A(t, log);
    DistanceMod(c, a, r);
    DistanceMod(c, a, H(t, log));
    ProcessNRClosedForm(c, t, a, r);
    AcknowledgedWindow(c, t, log, Min(r - a, |t.retransQ|), ProcessNR(c, t, c.Mod(r)));
  }

  // A rewind moves V back to A and touches neither A nor H.
  lemma RewoundWindow(c: Config, t: Tx, log: seq<Octets>)
    requires c.Valid() && Window(c, t, log) && t.retransQ != []
    ensures
      var u := Rewind(t);
      && Window(c, u, log) && u.Held() == t.Held()
      && V(u, log) == A(u, log) == A(t, log) && H(u, log) == H(t, log) && u.vs == t.nr
  {
    hide Config.Mod;
    hide Frames;
    hide NumberedPrefix;
    hide Tx.Held;
    hide Rewind;
    RewindFields(t);
    HeldNumbers(c, t, log, 0);
  }

  lemma RewindFields(t: Tx)
    requires t.retransQ != []
    ensures
      var u := Rewind(t);
      && u.Held() == t.Held() && t.Held() != [] && t.Held()[0] == t.retransQ[0]
      && u.retransQ == [] && u.vs == t.retransQ[0].ns && u.nr == t.nr && u.vsHighest == t.vsHighest
      && u.pending == t.pending
  {
    assert Rewind(t).Held() == t.Held();
  }

  // The window does not depend on the checkpoint bookkeeping.
  lemma BookkeepingWindow(c: Config, t: Tx, log: seq<Octets>, u: Tx)
    requires c.Valid() && Window(c, t, log)
    requires u == t.(vsAtLastPf := u.vsAtLastPf, chkptActioned := u.chkptActioned)
    ensures Window(c, u, log)
    ensures A(u, log) == A(t, log) && V(u, log) == V(t, log) && H(u, log) == H(t, log) && u.Held() == t.Held()
  {
    hide Config.Mod;
    hide Frames;
    hide NumberedPrefix;
    assert u.Held() == t.Held();
  }

  // `u` is `t` after at most a rewind.
  ghost predicate AtMostRewound(c: Config, t: Tx, u: Tx, log: seq<Octets>)
    requires c.modulus > 0
  {
    && Window(c, u, log)
    && A(u, log) == A(t, log) && H(u, log) == H(t, log) && u.Held() == t.Held()
    && (V(u, log) == V(t, log) || V(u, log) == A(t, log))
  }

  lemma RetransmitWindow(c: Config, t: Tx, log: seq<Octets>)
    requires c.Valid() && Window(c, t, log)
    ensures AtMostRewound(c, t, CheckpointRetransmit(t), log)
    ensures AtMostRewound(c, t, RejRetransmit(t), log)
    ensures AtMostRewound(c, t, t, log)
  {
    hide Window;
    hide Tx.Held;
    hide NumberedPrefix;
    if t.retransQ != [] {
      RewoundWindow(c, t, log);
      BookkeepingWindow(c, Rewind(t), log, Rewind(t).(chkptActioned := t.retransQ[0].ns + 1));
      BookkeepingWindow(c, Rewind(t), log, Rewind(t).(vsAtLastPf := t.retransQ[0].ns));
    }
    BookkeepingWindow(c, t, log, t.(chkptActioned := 0));
  }

  // The transmit side of receiving any frame is acknowledgment, then the
  // checkpoint, then possibly a REJ.
  lemma ReceiveTx(c: Config, p: State, w: Wire, env: RxEnv)
    requires c.Valid() && !p.fl.frmr && AddressAccepted(c, w.addr) && IsNRValid(c, p.tx, w.nr)
    ensures
      var u := CheckpointAndAckTx(c, p.tx, w.nr, w.pf, w.addr == c.addr);
      var q := Receive(c, p, w, env);
      && q.tx == (if w.Supervisory? && w.fun == REJ && !c.twa then RejRetransmit(u) else u)
      && !q.fl.frmr
  {
    hide CheckpointAndAckTx;
    hide RejRetransmit;
    hide IsNRValid;
  }

  lemma RewoundTwice(c: Config, t: Tx, u: Tx, z: Tx, log: seq<Octets>)
    requires c.modulus > 0 && AtMostRewound(c, t, u, log) && AtMostRewound(c, u, z, log)
    ensures AtMostRewound(c, t, z, log)
  {
    hide Window;
    hide Tx.Held;
    hide NumberedPrefix;
  }

  // After the acknowledgment loop, receiving does at most a rewind.
  lemma AfterAckRewound(c: Config, p: State, log: seq<Octets>, w: Wire, env: RxEnv)
    requires c.Valid() && !p.fl.frmr && AddressAccepted(c, w.addr) && IsNRValid(c, p.tx, w.nr)
    requires Window(c, ProcessNR(c, p.tx, w.nr), log)
    ensures AtMostRewound(c, ProcessNR(c, p.tx, w.nr), Receive(c, p, w, env).tx, log)
  {
    hide Receive;
    hide IsNRValid;
    hide Window;
    hide Tx.Held;
    hide NumberedPrefix;
    hide ProcessNR;
    hide CheckpointRetransmit;
    hide RejRetransmit;
    ReceiveTx(c, p, w, env);
    var t1 := ProcessNR(c, p.tx, w.nr);
    var u := CheckpointAndAckTx(c, p.tx, w.nr, w.pf, w.addr == c.addr);
    assert u == t1 || u == CheckpointRetransmit(t1);
    RetransmitWindow(c, t1, log);
    RetransmitWindow(c, u, log);
    RewoundTwice(c, t1, u, Receive(c, p, w, env).tx, log);
  }

  // The sender's half of receiving a frame whose N(R) is r: it is accepted,
  // exactly the frames below min(r, V) are retired, and at most a rewind follows.
  lemma ReceiveSender(c: Config, p: State, log: seq<Octets>, w: Wire, r: int, env: RxEnv)
    requires c.Valid() && Window(c, p.tx, log) && !p.fl.frmr
    requires A(p.tx, log) <= r <= H(p.tx, log) && w.nr == c.Mod(r)
    requires AddressAccepted(c, w.addr)
    ensures IsNRValid(c, p.tx, w.nr)
    ensures
      var u := Receive(c, p, w, env).tx;
      && Window(c, u, log) && H(u, log) == H(p.tx, log)
      && A(u, log) == Min(r, V(p.tx, log)) && (V(u, log) == V(p.tx, log) || V(u, log) == A(u, log))
      && u.Held() == p.tx.Held()[A(u, log) - A(p.tx, log)..]
  {
    hide Window;
    hide IsNRValid;
    hide Config.Mod;
    hide Receive;
    hide ProcessNR;
    hide NumberedPrefix;
    hide Tx.Held;
    ProcessNRWindow(c, p.tx, log, r);
    AfterAckRewound(c, p, log, w, env);
  }

  // The receiver's half: a payload is taken exactly when N(S) matches V(R).
  lemma ReceiveReceiver(c: Config, p: State, w: Wire, env: RxEnv)
    requires c.Valid() && !p.fl.frmr && IsNRValid(c, p.tx, w.nr) && AddressAccepted(c, w.addr)
    ensures
      var q := Receive(c, p, w, env);
      if w.Info? && Accepts(p, w.ns, env) then
        q.rx.delivered == p.rx.delivered + [w.payload] && q.rx.vr == c.Next(p.rx.vr)
      else q.rx.delivered == p.rx.delivered && q.rx.vr == p.rx.vr
  {
    hide CheckpointAndAckTx;
    hide RejRetransmit;
    hide IsNRValid;
    hide Config.Next;
  }

  // Sending an I-frame: the N(S) emitted is V(S), the payload is number V of
  // the log, and only V (and H when V had caught up with it) moves.
  lemma AdvanceWindow(c: Config, t: Tx, log: seq<Octets>)
    requires c.Valid() && Window(c, t, log) && t.transQ != [] && WindowOpen(c, t)
    ensures V(t, log) < |log| && EmittedNS(t) == t.vs && t.transQ[0].payload == log[V(t, log)]
    ensures
      var u := Advance(c, t);
      && Window(c, u, log) && A(u, log) == A(t, log) && V(u, log) == V(t, log) + 1
      && H(u, log) == (if V(t, log) == H(t, log) then H(t, log) + 1 else H(t, log))
      && u.Held() == t.Held()[|t.retransQ| := u.retransQ[|t.retransQ|]]
  {
    hide Config.Mod;
    hide Config.Next;
    hide Config.Distance;
    hide Frames;
    hide NumberedPrefix;
    var u, a, k, v := Advance(c, t), A(t, log), NumberedPrefix(t.Held()), |t.retransQ|;
    DistanceMod(c, a, V(t, log));
    ModInjective(c, V(t, log), H(t, log));
    NextMod(c, V(t, log));
    HeldNumbers(c, t, log, v);
    FramesSend(c, t.Held(), a, k, log, v, u.retransQ[v]);
    assert u.Held() == t.Held()[v := u.retransQ[v]];
  }

  lemma SendIFacts(c: Config, p: State)
    requires c.Valid() && p.tx.transQ != []
    ensures
      var (q, w) := SendI(c, p);
      && q.tx == Advance(c, p.tx).(vsAtLastPf := q.tx.vsAtLastPf)
      && w.Info? && w.ns == EmittedNS(p.tx) && w.payload == p.tx.transQ[0].payload && w.nr == p.rx.vr
      && q.rx == p.rx && q.fl.frmr == p.fl.frmr
  {
    hide IFramePF;
    hide Advance;
    hide EmittedNS;
  }

  lemma SendSFacts(c: Config, p: State, env: TxEnv)
    requires c.Valid() && SupervisoryToSend(c, p, env).Some?
    ensures
      var (q, w) := SendS(c, p, env);
      && q.tx == p.tx.(vsAtLastPf := q.tx.vsAtLastPf)
      && w.Supervisory? && w.nr == p.rx.vr
      && q.rx == p.rx.(rejPend := q.rx.rejPend) && q.fl.frmr == p.fl.frmr
  {
    hide SFramePF;
  }

  lemma EnqueueWindow(c: Config, t: Tx, log: seq<Octets>, d: Octets)
    requires c.Valid() && Window(c, t, log)
    ensures
      var u, log' := Enqueue(t, d), log + [d];
      && Window(c, u, log') && A(u, log') == A(t, log) && V(u, log') == V(t, log) && H(u, log') == H(t, log)
      && u.Held() == t.Held() + [IFrame(d, false, 0)]
  {
    hide Config.Mod;
    hide Frames;
    hide NumberedPrefix;
    var u := Enqueue(t, d);
    assert u.Held() == t.Held() + [IFrame(d, false, 0)];
    FramesAppend(c, t.Held(), A(t, log), NumberedPrefix(t.Held()), log, d);
  }

  // --- Every step keeps the invariant -------------------------------------------

  lemma LongerLog(c: Config, high: int, log: seq<Octets>, d: Octets, r: int, fwd: seq<Flight>)
    requires c.Valid() && DataOk(c, high, log, r, fwd)
    ensures DataOk(c, high, log + [d], r, fwd)
  {
    hide Config.Mod;
    forall i | 0 <= i < |fwd| ensures FlightOk(c, high, log + [d], r, fwd[i]) {
      assert FlightOk(c, high, log, r, fwd[i]);
    }
  }

  lemma WriteKeepsInv(s: System, d: Octets)
    requires Inv(s)
    ensures Inv(Act(s, Write(d)))
  {
    hide Window;
    hide DataOk;
    hide AcksOk;
    hide Config.Mod;
    EnqueueWindow(s.x.cfg, s.x.st.tx, s.x.log, d);
    LongerLog(s.x.cfg, H(s.x.st.tx, s.x.log), s.x.log, d, R(s.y), s.xy);
  }

  lemma LaunchedData(c: Config, high: int, high': int, log: seq<Octets>, r: int, fwd: seq<Flight>, f: Flight)
    requires c.Valid() && DataOk(c, high, log, r, fwd) && FlightOk(c, high', log, r, f)
    requires high <= high' == f.hi
    ensures DataOk(c, high', log, r, fwd + [f])
  {
    hide Config.Mod;
    var q := fwd + [f];
    forall i | 0 <= i < |q| ensures FlightOk(c, high', log, r, q[i]) && q[i].hi <= high' {
      if i < |fwd| { assert FlightOk(c, high, log, r, fwd[i]); }
    }
  }

  lemma LaunchedAck(c: Config, a: int, r: int, back: seq<Flight>, f: Flight)
    requires c.Valid() && AcksOk(c, a, r, back)
    requires a <= f.ack == r && f.wire.nr == c.Mod(r)
    ensures AcksOk(c, a, r, back + [f])
  {
    hide Config.Mod;
  }

  lemma LaunchKeepsInv(s: System, q: State, w: Wire, num: int)
    requires Inv(s)
    requires
      var c, u, log := s.x.cfg, q.tx, s.x.log;
      && Window(c, u, log) && A(u, log) == A(s.x.st.tx, log) && H(s.x.st.tx, log) <= H(u, log)
      && w.nr == s.x.st.rx.vr && q.rx == s.x.st.rx.(rejPend := q.rx.rejPend) && !q.fl.frmr
      && (w.Info? ==> A(u, log) <= num < H(u, log) && w.ns == c.Mod(num) && w.payload == log[num])
    ensures Inv(Launch(s, q, w, num))
  {
    hide Window;
    hide Config.Mod;
    hide DataOk;
    hide AcksOk;
    var c, u, log := s.x.cfg, q.tx, s.x.log;
    WindowBasics(c, u, log);
    var f := Flight(w, num, A(u, log), H(u, log), R(s.x));
    LaunchedData(c, H(s.x.st.tx, log), H(u, log), log, R(s.y), s.xy, f);
    LaunchedAck(s.y.cfg, A(s.y.st.tx, s.y.log), R(s.x), s.xy, f);
    assert Flow(Launch(s, q, w, num).x, s.y, s.xy + [f], s.yx);
    assert Flow(s.y, Launch(s, q, w, num).x, s.yx, s.xy + [f]);
  }

  lemma SendKeepsInv(s: System, act: Action)
    requires Inv(s) && (act.TxI? || act.TxS?)
    ensures Inv(Act(s, act))
  {
    hide Window;
    hide Config.Mod;
    var c, p, log := s.x.cfg, s.x.st, s.x.log;
    WindowBasics(c, p.tx, log);
    match act
    case TxI(idle) =>
      if CanSendI(c, p, idle) {
        AdvanceWindow(c, p.tx, log);
        SendIFacts(c, p);
        BookkeepingWindow(c, Advance(c, p.tx), log, SendI(c, p).0.tx);
        LaunchKeepsInv(s, SendI(c, p).0, SendI(c, p).1, V(p.tx, log));
      }
    case TxS(env) =>
      if SupervisoryToSend(c, p, env).Some? {
        SendSFacts(c, p, env);
        BookkeepingWindow(c, p.tx, log, SendS(c, p, env).0.tx);
        LaunchKeepsInv(s, SendS(c, p, env).0, SendS(c, p, env).1, 0);
      }
  }

  lemma LoseKeepsInv(s: System, i: nat)
    requires Inv(s) && i < |s.yx|
    ensures Inv(s.(yx := Without(s.yx, i)))
  {
    hide Window;
    hide FlightOk;
    hide Config.Mod;
    var q := Without(s.yx, i);
    assert forall j :: 0 <= j < |q| ==> q[j] == s.yx[if j < i then j else j + 1];
  }

  // The number carried by the frame at the head of the channel is the one the
  // receiver expects exactly when the two agree modulo the modulus; then its
  // payload is the next one of the sender's log.
  lemma HeadIsExpected(s: System)
    requires Inv(s) && s.yx != [] && s.yx[0].wire.Info?
    ensures s.yx[0].wire.ns == s.x.st.rx.vr <==> s.yx[0].num == R(s.x)
    ensures s.yx[0].num == R(s.x) ==> R(s.x) < |s.y.log| && s.yx[0].wire.payload == s.y.log[R(s.x)]
  {
    hide Window;
    hide Config.Mod;
    hide AcksOk;
    assert FlightOk(s.y.cfg, H(s.y.st.tx, s.y.log), s.y.log, R(s.x), s.yx[0]);
    ModInjective(s.y.cfg, R(s.x), s.yx[0].num);
  }

  // The N(R) at the head of the channel lies in the receiver's own window.
  lemma HeadIsValid(s: System)
    requires Inv(s) && s.yx != []
    ensures
      var c, t, log, f := s.x.cfg, s.x.st.tx, s.x.log, s.yx[0];
      && c.Valid() && !s.x.st.fl.frmr && Window(c, t, log)
      && A(t, log) <= f.ack <= H(t, log) && f.ack <= R(s.y)
      && f.wire.nr == c.Mod(f.ack) && IsNRValid(c, t, f.wire.nr)
      && s.y.st.rx.vr == c.Mod(R(s.y)) && R(s.y) <= H(t, log)
  {
    hide Window;
    hide DataOk;
    hide Config.Mod;
    ProcessNRWindow(s.x.cfg, s.x.st.tx, s.x.log, s.yx[0].ack);
  }

  lemma ReceivedAcks(c: Config, a: int, r: int, back: seq<Flight>, a': int)
    requires c.modulus > 0 && AcksOk(c, a, r, back) && back != [] && a' <= back[0].ack
    ensures AcksOk(c, a', r, back[1..])
  {
  }

  // Taking the head frame moves R past it; not taking it leaves R alone.
  lemma ReceivedData(c: Config, high: int, log: seq<Octets>, r: int, fwd: seq<Flight>, r': int)
    requires c.Valid() && DataOk(c, high, log, r, fwd) && fwd != []
    requires r' == r || (r' == r + 1 && fwd[0].wire.Info? && fwd[0].num == r)
    ensures DataOk(c, high, log, r', fwd[1..])
    ensures r' != r ==> r' <= high
  {
    hide Config.Mod;
    assert FlightOk(c, high, log, r, fwd[0]);
    forall i | 0 <= i < |fwd| - 1 ensures FlightOk(c, high, log, r', fwd[1..][i]) {
      assert FlightOk(c, high, log, r, fwd[i + 1]);
      assert fwd[0].hi <= fwd[i + 1].hi;
    }
  }

  // Receiving keeps the flow in which the receiving station is the sender ...
  lemma ReceiveKeepsOwnFlow(s: System, env: RxEnv)
    requires Inv(s) && s.yx != [] && AddressAccepted(s.x.cfg, s.yx[0].wire.addr)
    ensures
      var q := Receive(s.x.cfg, s.x.st, s.yx[0].wire, env);
      Flow(s.x.(st := q), s.y, s.xy, s.yx[1..]) && !q.fl.frmr
  {
    hide Receive;
    hide IsNRValid;
    hide Window;
    hide Config.Mod;
    hide DataOk;
    hide NumberedPrefix;
    hide Tx.Held;
    hide AcksOk;
    var c, p, f, log := s.x.cfg, s.x.st, s.yx[0], s.x.log;
    HeadIsValid(s);
    ReceiveSender(c, p, log, f.wire, f.ack, env);
    ReceiveTx(c, p, f.wire, env);
    ReceivedAcks(c, A(p.tx, log), R(s.y), s.yx, A(Receive(c, p, f.wire, env).tx, log));
  }

  lemma DeliveredNext(c: Config, log: seq<Octets>, rx: Rx, rx': Rx, payload: Octets)
    requires c.Valid() && Delivery(c, log, rx) && |rx.delivered| < |log| && payload == log[|rx.delivered|]
    requires rx'.delivered == rx.delivered + [payload] && rx'.vr == c.Next(rx.vr)
    ensures Delivery(c, log, rx')
  {
    hide Config.Mod;
    hide Config.Next;
    NextMod(c, |rx.delivered|);
  }

  lemma LaterAcks(c: Config, a: int, r: int, r': int, back: seq<Flight>)
    requires c.Valid() && AcksOk(c, a, r, back) && r <= r'
    ensures AcksOk(c, a, r', back)
  {
    hide Config.Mod;
  }

  // What the receiver's variables become: unchanged, or one payload further.
  lemma ReceivedRx(s: System, env: RxEnv)
    requires Inv(s) && s.yx != [] && AddressAccepted(s.x.cfg, s.yx[0].wire.addr)
    ensures
      var q, f := Receive(s.x.cfg, s.x.st, s.yx[0].wire, env), s.yx[0];
      && Delivery(s.y.cfg, s.y.log, q.rx)
      && (|q.rx.delivered| == R(s.x) || (|q.rx.delivered| == R(s.x) + 1 && f.wire.Info? && f.num == R(s.x)))
  {
    hide Receive;
    hide IsNRValid;
    hide Window;
    hide DataOk;
    hide AcksOk;
    hide Config.Mod;
    var c, p, f := s.x.cfg, s.x.st, s.yx[0];
    HeadIsValid(s);
    ReceiveReceiver(c, p, f.wire, env);
    if f.wire.Info? {
      HeadIsExpected(s);
      if Accepts(p, f.wire.ns, env) {
        DeliveredNext(s.y.cfg, s.y.log, p.rx, Receive(c, p, f.wire, env).rx, f.wire.payload);
      }
    }
  }

  // ... and the flow it receives.
  lemma ReceiveKeepsPeerFlow(s: System, env: RxEnv)
    requires Inv(s) && s.yx != [] && AddressAccepted(s.x.cfg, s.yx[0].wire.addr)
    ensures
      var q := Receive(s.x.cfg, s.x.st, s.yx[0].wire, env);
      Flow(s.y, s.x.(st := q), s.yx[1..], s.xy)
  {
    hide Receive;
    hide Window;
    hide DataOk;
    hide AcksOk;
    hide Delivery;
    hide Config.Mod;
    hide NumberedPrefix;
    hide Tx.Held;
    ReceivedRx(s, env);
    var r' := |Receive(s.x.cfg, s.x.st, s.yx[0].wire, env).rx.delivered|;
    ReceivedData(s.y.cfg, H(s.y.st.tx, s.y.log), s.y.log, R(s.x), s.yx, r');
    LaterAcks(s.y.cfg, A(s.y.st.tx, s.y.log), R(s.x), r', s.xy);
  }

  lemma ReceiveKeepsInv(s: System, env: RxEnv)
    requires Inv(s) && s.yx != [] && AddressAccepted(s.x.cfg, s.yx[0].wire.addr)
    ensures Inv(Act(s, Receipt(env)))
  {
    hide Flow;
    hide Receive;
    hide SendI;
    hide SendS;
    hide CanSendI;
    hide SupervisoryToSend;
    hide Enqueue;
    hide T1Expired;
    hide T3Expired;
    ReceiveKeepsOwnFlow(s, env);
    ReceiveKeepsPeerFlow(s, env);
  }

  lemma TimerKeepsInv(s: System, q: State)
    requires Inv(s) && q.tx == s.x.st.tx && q.fl.frmr == s.x.st.fl.frmr
    requires q.rx == s.x.st.rx.(rejActioned := q.rx.rejActioned)
    ensures Inv(s.(x := s.x.(st := q)))
  {
    hide Window;
    hide DataOk;
    hide AcksOk;
    hide Config.Mod;
  }

  lemma ActKeepsInv(s: System, act: Action)
    requires Inv(s)
    ensures Inv(Act(s, act))
  {
    hide Inv;
    match act
    case Write(d) => WriteKeepsInv(s, d);
    case TxI(_) => SendKeepsInv(s, act);
    case TxS(_) => SendKeepsInv(s, act);
    case Lose(i) => if i < |s.yx| { LoseKeepsInv(s, i); }
    case Receipt(env) =>
      if s.yx != [] {
        if AddressAccepted(s.x.cfg, s.yx[0].wire.addr) { ReceiveKeepsInv(s, env); }
        else {
          LoseKeepsInv(s, 0);
          assert Without(s.yx, 0) == s.yx[1..];
        }
      }
    case T1 => TimerKeepsInv(s, T1Expired(s.x.cfg, s.x.st));
    case T3 => TimerKeepsInv(s, T3Expired(s.x.cfg, s.x.st));
  }

  lemma ExecKeepsInv(s: System, step: Step)
    requires Inv(s)
    ensures Inv(Exec(s, step))
  {
    hide Flow;
    hide Act;
    match step
    case AtX(act) => ActKeepsInv(s, act);
    case AtY(act) => ActKeepsInv(s.Swap(), act);
  }

  lemma {:induction false} RunKeepsInv(s: System, steps: seq<Step>)
    requires Inv(s)
    ensures Inv(Run(s, steps))
    decreases |steps|
  {
    hide Flow;
    hide Exec;
    if steps != [] {
      ExecKeepsInv(s, steps[0]);
      RunKeepsInv(Exec(s, steps[0]), steps[1..]);
    }
  }

  lemma InitInv(s: System)
    requires Init(s)
    ensures Inv(s)
  {
    var c := s.x.cfg;
    if c.modulus == 8 {} else {}
  }

  // --- What every run guarantees ----------------------------------------------------

  // Exactly-once, in-order delivery in both directions; everything the sender no
  // longer holds has been delivered.
  lemma ExactlyOnceInOrder(s: System, steps: seq<Step>)
    requires Init(s)
    ensures
      var e := Run(s, steps);
      && e.y.st.rx.delivered <= e.x.log
      && e.x.st.rx.delivered <= e.y.log
      && |e.x.log| - |e.x.st.tx.Held()| <= |e.y.st.rx.delivered|
      && |e.y.log| - |e.y.st.tx.Held()| <= |e.x.st.rx.delivered|
      && (e.x.st.tx.Held() == [] ==> e.y.st.rx.delivered == e.x.log)
      && (e.y.st.tx.Held() == [] ==> e.x.st.rx.delivered == e.y.log)
  {
    hide Window;
    hide DataOk;
    hide AcksOk;
    InitInv(s);
    RunKeepsInv(s, steps);
  }

  // No run ever raises the frame-reject condition, and whatever frame arrives
  // next carries an N(R) that passes validation.
  lemma NeverRejectsNR(s: System, steps: seq<Step>)
    requires Init(s)
    ensures
      var e := Run(s, steps);
      && !e.x.st.fl.frmr && !e.y.st.fl.frmr
      && (e.yx != [] ==> IsNRValid(e.x.cfg, e.x.st.tx, e.yx[0].wire.nr))
      && (e.xy != [] ==> IsNRValid(e.y.cfg, e.y.st.tx, e.xy[0].wire.nr))
  {
    hide Window;
    hide Config.Mod;
    hide DataOk;
    InitInv(s);
    RunKeepsInv(s, steps);
    var e := Run(s, steps);
    if e.yx != [] { HeadIsValid(e); }
    if e.xy != [] { HeadIsValid(e.Swap()); }
  }

  // The documented queue invariant: V(S) - N(R) is the length of the
  // retransmission queue, V(S)high - N(R) never exceeds ks, the pending count
  // is the number of frames held, the numbered frames come first and are
  // numbered consecutively from N(R).
  ghost predicate QueueInvariant(c: Config, t: Tx)
    requires c.modulus > 0
  {
    var q, k := t.Held(), NumberedPrefix(t.Held());
    && c.Distance(t.nr, t.vs) == |t.retransQ| <= k
    && c.Distance(t.nr, t.vsHighest) == k <= c.ks
    && t.pending == |t.retransQ| + |t.transQ|
    && (forall i :: 0 <= i < |q| ==> (q[i].numbered <==> i < k))
    && (forall i :: 0 <= i < k ==> q[i].ns == c.Mod(t.nr + i))
  }

  lemma WindowMeaning(c: Config, t: Tx, log: seq<Octets>)
    requires c.Valid() && Window(c, t, log)
    ensures QueueInvariant(c, t)
  {
    hide Config.Mod;
    hide Config.Distance;
    var q, k := t.Held(), NumberedPrefix(t.Held());
    DistanceMod(c, A(t, log), V(t, log));
    DistanceMod(c, A(t, log), H(t, log));
    forall i | 0 <= i < k ensures q[i].ns == c.Mod(t.nr + i) {
      ModShift(c, A(t, log), i);
    }
  }

  // It holds at every step of both stations, and the next N(S) emitted is V(S).
  lemma WindowInvariant(s: System, steps: seq<Step>)
    requires Init(s)
    ensures
      var e := Run(s, steps);
      && QueueInvariant(e.x.cfg, e.x.st.tx) && QueueInvariant(e.y.cfg, e.y.st.tx)
      && (e.x.st.tx.transQ != [] && WindowOpen(e.x.cfg, e.x.st.tx) ==>
        SendI(e.x.cfg, e.x.st).1.ns == e.x.st.tx.vs)
      && (e.y.st.tx.transQ != [] && WindowOpen(e.y.cfg, e.y.st.tx) ==>
        SendI(e.y.cfg, e.y.st).1.ns == e.y.st.tx.vs)
  {
    hide QueueInvariant;
    hide Window;
    hide DataOk;
    hide AcksOk;
    InitInv(s);
    RunKeepsInv(s, steps);
    var e := Run(s, steps);
    WindowMeaning(e.x.cfg, e.x.st.tx, e.x.log);
    WindowMeaning(e.y.cfg, e.y.st.tx, e.y.log);
    if e.x.st.tx.transQ != [] && WindowOpen(e.x.cfg, e.x.st.tx) {
      AdvanceWindow(e.x.cfg, e.x.st.tx, e.x.log);
    }
    if e.y.st.tx.transQ != [] && WindowOpen(e.y.cfg, e.y.st.tx) {
      AdvanceWindow(e.y.cfg, e.y.st.tx, e.y.log);
    }
  }

  // What one step of `x` can do to the frames it holds: drop a prefix that `y`
  // has already delivered, or append a written payload.  A frame that has a
  // number keeps it.
  ghost predicate HeldChange(o: seq<IFrame>, o': seq<IFrame>, n: int, act: Action) {
    && 0 <= n <= |o|
    && (!act.Receipt? ==> n == 0)
    && |o'| == |o| - n + (if act.Write? then 1 else 0)
    && (forall i :: n <= i < |o| ==>
      o'[i - n].payload == o[i].payload && (o[i].numbered ==> o'[i - n] == o[i]))
    && (act.Write? ==> o'[|o| - n].payload == act.payload)
  }

  // An acknowledged frame had been delivered by the peer.
  lemma RetiredWasDelivered(s: System, i: nat)
    requires Inv(s) && i < |s.x.st.tx.Held()| && A(s.x.st.tx, s.x.log) + i < R(s.y)
    ensures s.x.st.tx.Held()[i].payload == s.y.st.rx.delivered[A(s.x.st.tx, s.x.log) + i]
  {
    hide DataOk;
    hide AcksOk;
    hide Config.Mod;
  }

  // From state p with log `log` to state q with log log', against what the peer
  // had delivered.
  ghost predicate HeldStep(t: Tx, log: seq<Octets>, t': Tx, log': seq<Octets>, act: Action, delivered: seq<Octets>) {
    var a, a' := A(t, log), A(t', log');
    && 0 <= a <= a'
    && HeldChange(t.Held(), t'.Held(), a' - a, act)
    && RetiredDelivered(t.Held(), a, a' - a, delivered)
  }

  // The first n frames of o, whose numbers start at a, are in `delivered`.
  ghost predicate RetiredDelivered(o: seq<IFrame>, a: nat, n: nat, delivered: seq<Octets>) {
    n <= |o| && forall i :: 0 <= i < n ==> a + i < |delivered| && o[i].payload == delivered[a + i]
  }

  lemma HeldFramesStep(s: System, act: Action)
    requires Inv(s)
    ensures
      var t := Act(s, act);
      HeldStep(s.x.st.tx, s.x.log, t.x.st.tx, t.x.log, act, s.y.st.rx.delivered)
  {
    hide SendI;
    hide SendS;
    hide Receive;
    hide CanSendI;
    hide SupervisoryToSend;
    var c, p, log, d := s.x.cfg, s.x.st, s.x.log, s.y.st.rx.delivered;
    match act
    case Write(d) => WriteHeldStep(s, d);
    case TxI(idle) =>
      HeldUnchanged(s, p.tx, act);
      if CanSendI(c, p, idle) { AdvanceHeldStep(s, idle); }
      hide HeldStep;
    case TxS(env) =>
      HeldUnchanged(s, p.tx, act);
      if SupervisoryToSend(c, p, env).Some? {
        SendSFacts(c, p, env);
        HeldUnchanged(s, SendS(c, p, env).0.tx, act);
      }
      hide HeldStep;
    case Receipt(env) =>
      HeldUnchanged(s, p.tx, act);
      if s.yx != [] { ReceiptRetires(s, env); }
      hide HeldStep;
    case _ =>
      HeldUnchanged(s, p.tx, act);
      hide HeldStep;
  }

  lemma SenderFacts(s: System)
    requires Inv(s)
    ensures s.x.cfg.Valid() && Window(s.x.cfg, s.x.st.tx, s.x.log) && A(s.x.st.tx, s.x.log) >= 0
  {
    hide DataOk;
    hide AcksOk;
    hide Config.Mod;
    hide NumberedPrefix;
  }

  lemma HeldUnchanged(s: System, u: Tx, act: Action)
    requires Inv(s) && !act.Write? && u.retransQ == s.x.st.tx.retransQ && u.transQ == s.x.st.tx.transQ
    ensures HeldStep(s.x.st.tx, s.x.log, u, s.x.log, act, s.y.st.rx.delivered)
  {
    hide Inv;
    SenderFacts(s);
  }

  lemma WriteHeldStep(s: System, d: Octets)
    requires Inv(s)
    ensures HeldStep(s.x.st.tx, s.x.log, Enqueue(s.x.st.tx, d), s.x.log + [d], Write(d), s.y.st.rx.delivered)
  {
    hide Inv;
    hide Window;
    hide NumberedPrefix;
    SenderFacts(s);
    EnqueueWindow(s.x.cfg, s.x.st.tx, s.x.log, d);
  }

  lemma AdvanceHeldStep(s: System, lineIdle: bool)
    requires Inv(s) && CanSendI(s.x.cfg, s.x.st, lineIdle)
    ensures HeldStep(s.x.st.tx, s.x.log, SendI(s.x.cfg, s.x.st).0.tx, s.x.log, TxI(lineIdle), s.y.st.rx.delivered)
  {
    hide Inv;
    hide SendI;
    SenderFacts(s);
    AdvanceKeepsFrames(s.x.cfg, s.x.st);
  }

  lemma AdvanceKeepsFrames(c: Config, p: State)
    requires c.Valid() && p.tx.transQ != []
    ensures HeldChange(p.tx.Held(), SendI(c, p).0.tx.Held(), 0, T1)
    ensures |SendI(c, p).0.tx.Held()| == |p.tx.Held()|
  {
    hide SendI;
    hide Config.Next;
    SendIFacts(c, p);
    var u := Advance(c, p.tx);
    assert SendI(c, p).0.tx.Held() == u.Held();
    assert p.tx.Held()[|p.tx.retransQ|] == p.tx.transQ[0];
  }

  lemma DroppedPrefix(t: Tx, log: seq<Octets>, u: Tx, env: RxEnv, delivered: seq<Octets>)
    requires 0 <= A(t, log) <= A(u, log) && u.Held() == t.Held()[A(u, log) - A(t, log)..]
    requires RetiredDelivered(t.Held(), A(t, log), A(u, log) - A(t, log), delivered)
    ensures HeldStep(t, log, u, log, Receipt(env), delivered)
  {
    var o, n := t.Held(), A(u, log) - A(t, log);
    assert u.Held() == o[n..] && n <= |o|;
    assert HeldChange(o, o[n..], n, Receipt(env));
  }

  lemma ReceiptRetires(s: System, env: RxEnv)
    requires Inv(s) && s.yx != []
    ensures
      HeldStep(s.x.st.tx, s.x.log, Receive(s.x.cfg, s.x.st, s.yx[0].wire, env).tx, s.x.log,
               Receipt(env), s.y.st.rx.delivered)
  {
    hide Receive;
    hide Inv;
    hide Window;
    hide IsNRValid;
    hide HeldStep;
    hide Config.Mod;
    hide Tx.Held;
    hide NumberedPrefix;
    var c, p, w, log := s.x.cfg, s.x.st, s.yx[0].wire, s.x.log;
    HeadIsValid(s);
    WindowBasics(c, p.tx, log);
    if AddressAccepted(c, w.addr) {
      ReceiveSender(c, p, log, w, s.yx[0].ack, env);
      var a, a' := A(p.tx, log), A(Receive(c, p, w, env).tx, log);
      forall i | 0 <= i < a' - a
        ensures a + i < R(s.y) && p.tx.Held()[i].payload == s.y.st.rx.delivered[a + i]
      {
        RetiredWasDelivered(s, i);
      }
      DroppedPrefix(p.tx, log, Receive(c, p, w, env).tx, env, s.y.st.rx.delivered);
    } else {
      IgnoredReceive(c, p, w, env);
      HeldUnchanged(s, p.tx, Receipt(env));
    }
  }

  lemma IgnoredReceive(c: Config, p: State, w: Wire, env: RxEnv)
    requires c.Valid() && !AddressAccepted(c, w.addr)
    ensures Receive(c, p, w, env) == p
  {
  }
}
