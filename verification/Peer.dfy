// The connected-mode protocol state of one station and its current peer, and
// what each section of the core that runs under the peer's mutex does to it.
module Peer {

  import opened Bytes
  import opened Wrappers

  // What is fixed while the link is up.  `modulus` is modmask + 1.
  datatype Config = Config(
    modulus: nat, ks: nat, addr: nat, peerAddr: nat,
    primary: bool, abm: bool, twa: bool, useRej: bool, retryMax: nat)
  {
    predicate Valid() {
      && (modulus == 8 || modulus == 128)
      && 1 <= ks < modulus
      && addr != peerAddr
      && (abm ==> primary)   // a combined station runs with the primary flag
    }

    function Mod(n: int): nat
      requires modulus > 0
    {
      n % modulus
    }

    // Unsigned subtraction masked with modmask.
    function Distance(from: nat, to: nat): nat
      requires modulus > 0
    {
      (to - from) % modulus
    }

    function Next(n: nat): nat
      requires modulus > 0
    {
      (n + 1) % modulus
    }
  }

  // An I-frame held by the sender.  `numbered` says that its control field has
  // already been built, so that `ns` is the N(S) written there.
  datatype IFrame = IFrame(payload: Octets, numbered: bool, ns: nat)

  datatype SFunction = RR | RNR | REJ | SREJ

  // The fields of a frame that the receiving core looks at.
  datatype Wire =
    | Info(addr: nat, ns: nat, nr: nat, pf: bool, payload: Octets)
    | Supervisory(addr: nat, fun: SFunction, nr: nat, pf: bool)

  // The peer's transmit variables and queues.
  datatype Tx = Tx(
    vs: nat, nr: nat, vsHighest: nat, vsAtLastPf: nat, chkptActioned: nat,
    retransQ: seq<IFrame>, transQ: seq<IFrame>, pending: int)
  {
    // All frames the sender still holds, oldest first.
    function Held(): seq<IFrame> { retransQ + transQ }
  }

  // The peer's receive variables; `delivered` is everything ever handed to the
  // RX delivery endpoint.
  datatype Rx = Rx(vr: nat, rejActioned: nat, rejPend: bool, delivered: seq<Octets>)

  // Flags of the peer and of its station.
  datatype Flags = Flags(
    peerBusy: bool, needP: bool, frmr: bool,
    pRcved: bool, fRcved: bool, localBusy: bool, retryCount: nat)

  datatype State = State(tx: Tx, rx: Rx, fl: Flags)

  // --- Receiving -----------------------------------------------------------

  predicate IsNRValid(c: Config, t: Tx, nr: nat)
    requires c.modulus > 0
  {
    c.Distance(t.nr, nr) <= c.Distance(t.nr, t.vsHighest)
  }

  // One turn of the acknowledgment loop: the oldest frame leaves the queue.
  function AckOne(c: Config, t: Tx): Tx
    requires c.modulus > 0 && t.retransQ != []
  {
    t.(retransQ := t.retransQ[1..],
       pending := t.pending - 1,
       nr := c.Next(t.nr),
       vsAtLastPf := if t.retransQ[0].ns == t.vsAtLastPf then c.Next(t.vsAtLastPf) else t.vsAtLastPf)
  }

  function ProcessNR(c: Config, t: Tx, nr: nat): Tx
    requires c.modulus > 0
    decreases |t.retransQ|
  {
    if t.nr == nr || t.retransQ == [] then t else ProcessNR(c, AckOne(c, t), nr)
  }

  // Everything awaiting acknowledgment goes back to the head of the transmit queue.
  function Rewind(t: Tx): Tx
    requires t.retransQ != []
  {
    t.(retransQ := [], transQ := t.retransQ + t.transQ, vs := t.retransQ[0].ns)
  }

  predicate CheckpointApplies(t: Tx) {
    t.retransQ != [] && t.retransQ[0].ns != t.vsAtLastPf
  }

  function CheckpointRetransmit(t: Tx): Tx {
    if CheckpointApplies(t) then Rewind(t).(chkptActioned := t.retransQ[0].ns + 1) else t
  }

  function RejRetransmit(t: Tx): Tx {
    if t.chkptActioned != 0 then t.(chkptActioned := 0)
    else if t.retransQ == [] then t
    else Rewind(t).(vsAtLastPf := t.retransQ[0].ns)
  }

  // The transmit side of receiving N(R) and P/F.
  function CheckpointAndAckTx(c: Config, t: Tx, nr: nat, pf: bool, isCommand: bool): Tx
    requires c.modulus > 0
  {
    var u := ProcessNR(c, t, nr);
    if pf && !(c.abm && isCommand) then CheckpointRetransmit(u) else u
  }

  function NotePF(fl: Flags, pf: bool, isCommand: bool): Flags {
    if !pf then fl
    else if isCommand then fl.(pRcved := true)
    else fl.(fRcved := true, retryCount := 0)
  }

  function HandleCheckpointAndAck(c: Config, p: State, nr: nat, pf: bool, isCommand: bool): Option<State>
    requires c.modulus > 0
  {
    if IsNRValid(c, p.tx, nr)
    then Some(p.(tx := CheckpointAndAckTx(c, p.tx, nr, pf, isCommand), fl := NotePF(p.fl, pf, isCommand)))
    else None
  }

  // What the environment decides while a frame is received: whether the
  // delivery endpoint takes the payload, and whether the pool is at low water.
  datatype RxEnv = RxEnv(endpointTakes: bool, poolLow: bool)

  predicate Accepts(p: State, ns: nat, env: RxEnv) { ns == p.rx.vr && env.endpointTakes }

  function HandleIFrame(c: Config, p: State, ns: nat, pf: bool, payload: Octets, env: RxEnv): State
    requires c.modulus > 0
  {
    if ns != p.rx.vr then
      if !c.twa && c.useRej && p.rx.rejActioned == 0
      then p.(rx := p.rx.(rejActioned := p.rx.vr + 1, rejPend := true))
      else p
    else if !env.endpointTakes then p
    else
      p.(rx := p.rx.(delivered := p.rx.delivered + [payload],
                     rejActioned := if p.rx.rejActioned == ns + 1 then 0 else p.rx.rejActioned,
                     vr := c.Next(p.rx.vr)),
         fl := p.fl.(peerBusy := p.fl.peerBusy && !pf, localBusy := p.fl.localBusy || env.poolLow))
  }

  function HandleSFrame(c: Config, p: State, fun: SFunction): State {
    match fun
    case RR => p.(fl := p.fl.(peerBusy := false))
    case RNR => p.(fl := p.fl.(peerBusy := true))
    case SREJ => p
    case REJ => if c.twa then p else p.(tx := RejRetransmit(p.tx))
  }

  // The common I/S path, after the mode's address filter.
  function CommonRx(c: Config, p: State, w: Wire, env: RxEnv): State
    requires c.modulus > 0
  {
    if p.fl.frmr then p
    else
      match HandleCheckpointAndAck(c, p, w.nr, w.pf, w.addr == c.addr)
      case None => p.(fl := p.fl.(frmr := true))
      case Some(q) =>
        match w
        case Supervisory(_, fun, _, _) => HandleSFrame(c, q, fun)
        case Info(_, ns, _, pf, payload) =>
          var r := HandleIFrame(c, q, ns, pf, payload, env);
          if Accepts(q, ns, env) && !c.abm && c.primary then r.(fl := r.fl.(needP := true)) else r
  }

  predicate AddressAccepted(c: Config, addr: nat) {
    if c.abm then addr == c.addr || addr == c.peerAddr
    else addr == (if c.primary then c.peerAddr else c.addr)
  }

  function Receive(c: Config, p: State, w: Wire, env: RxEnv): State
    requires c.modulus > 0
  {
    if AddressAccepted(c, w.addr) then CommonRx(c, p, w, env) else p
  }

  // --- Sending -------------------------------------------------------------

  predicate SendOpportunity(c: Config, fl: Flags, lineIdle: bool) {
    if c.abm then !c.twa || lineIdle
    else if c.primary then !c.twa || fl.fRcved
    else fl.pRcved
  }

  predicate SendsCommands(c: Config, fl: Flags) {
    if c.abm then !fl.pRcved else c.primary
  }

  predicate ResponseShouldSetF(c: Config, fl: Flags, isLast: bool) {
    fl.pRcved && (c.abm || isLast)
  }

  predicate WindowOpen(c: Config, t: Tx)
    requires c.modulus > 0
  {
    c.Distance(t.nr, t.vs) < c.ks
  }

  predicate CanSendI(c: Config, p: State, lineIdle: bool)
    requires c.modulus > 0
  {
    && !p.fl.frmr
    && p.tx.transQ != []
    && WindowOpen(c, p.tx)
    && SendOpportunity(c, p.fl, lineIdle)
    && !p.fl.peerBusy
  }

  predicate IFramePF(c: Config, p: State)
    requires c.modulus > 0
  {
    var isLast := c.Distance(p.tx.nr, p.tx.vs) + 1 >= c.ks || |p.tx.transQ| == 1;
    && !p.fl.localBusy
    && (if SendsCommands(c, p.fl) then (if c.twa then isLast else p.fl.fRcved)
        else ResponseShouldSetF(c, p.fl, isLast))
  }

  // What sending a frame does to the checkpoint reference and the P/F flags.
  // Under crossed polls a combined station keeps the reference of its own poll.
  function MarkPF(c: Config, p: State, pf: bool, isCommand: bool): State {
    if !pf then p
    else p.(
      tx := if isCommand || !c.abm || p.fl.fRcved then p.tx.(vsAtLastPf := p.tx.vs) else p.tx,
      fl := if isCommand then p.fl.(fRcved := false, needP := false) else p.fl.(pRcved := false))
  }

  function TxAddr(c: Config, isCommand: bool): nat {
    if isCommand then c.peerAddr else c.addr
  }

  // The oldest frame of the transmit queue gets a number, if it has none, and
  // moves to the retransmission queue.
  function Advance(c: Config, t: Tx): Tx
    requires c.modulus > 0 && t.transQ != []
  {
    var f := t.transQ[0];
    t.(transQ := t.transQ[1..],
       retransQ := t.retransQ + [if f.numbered then f else f.(numbered := true, ns := t.vs)],
       vsHighest := if t.vs == t.vsHighest then c.Next(t.vs) else t.vsHighest,
       vs := c.Next(t.vs))
  }

  function EmittedNS(t: Tx): nat
    requires t.transQ != []
  {
    if t.transQ[0].numbered then t.transQ[0].ns else t.vs
  }

  // One turn of the I-frame loop of the connected-mode scheduler.
  function SendI(c: Config, p: State): (State, Wire)
    requires c.modulus > 0 && p.tx.transQ != []
  {
    var isCommand := SendsCommands(c, p.fl);
    var pf := IFramePF(c, p);
    (MarkPF(c, p.(tx := Advance(c, p.tx)), pf, isCommand),
     Info(TxAddr(c, isCommand), EmittedNS(p.tx), p.rx.vr, pf, p.tx.transQ[0].payload))
  }

  predicate SFramePF(c: Config, p: State, isCommand: bool)
    requires c.modulus > 0
  {
    var noIFrame := p.tx.transQ == [] || !WindowOpen(c, p.tx);
    if isCommand
    then (if c.twa then p.fl.fRcved && (noIFrame || (p.fl.peerBusy && p.fl.needP)) else p.fl.fRcved)
    else ResponseShouldSetF(c, p.fl, true)
  }

  function PrepareS(c: Config, p: State, fun: SFunction): (State, Wire)
    requires c.modulus > 0
  {
    var isCommand := SendsCommands(c, p.fl);
    var pf := SFramePF(c, p, isCommand);
    (MarkPF(c, p, pf, isCommand), Supervisory(TxAddr(c, isCommand), fun, p.rx.vr, pf))
  }

  // What the environment decides in the closing section of the scheduler.  The
  // three `frameFor` flags say whether the pool had a frame for each attempt.
  datatype TxEnv = TxEnv(lineIdle: bool, iFrameSent: bool, poolNormal: bool,
                         frameForRej: bool, frameForReady: bool, frameForPoll: bool)

  // The closing section sends at most one S-frame: a pending REJ, else the RR
  // that ends local busy, else the acknowledgment that cedes the turn.
  function SupervisoryToSend(c: Config, p: State, env: TxEnv): Option<SFunction> {
    if !SendOpportunity(c, p.fl, env.lineIdle) then None
    else if p.rx.rejPend && env.frameForRej then Some(REJ)
    else if p.fl.localBusy && env.poolNormal && env.frameForReady then Some(RR)
    else if !env.iFrameSent && (p.fl.pRcved || (p.fl.fRcved && p.fl.needP)) && env.frameForPoll
    then Some(if p.fl.localBusy then RNR else RR)
    else None
  }

  function SendS(c: Config, p: State, env: TxEnv): (State, Wire)
    requires c.modulus > 0 && SupervisoryToSend(c, p, env).Some?
  {
    var fun := SupervisoryToSend(c, p, env).value;
    var (q, w) := PrepareS(c, p, fun);
    (match fun
     case REJ => q.(rx := q.rx.(rejPend := false))
     case RR => q.(fl := q.fl.(localBusy := false))
     case _ => q,
     w)
  }

  // --- Timers and the writer ------------------------------------------------

  // The link goes down when the retries are used up: sequence variables and
  // transmit queues are cleared, what was received stays readable, and the
  // primary may poll again.
  function LinkLost(p: State): State {
    State(p.tx.(vs := 0, nr := 0, vsHighest := 0, retransQ := [], transQ := [], pending := 0),
          p.rx.(vr := 0, rejPend := false),
          p.fl.(peerBusy := false, needP := false, frmr := false, fRcved := true, retryCount := 0))
  }

  // T1.  `LinkLost` ends the session; the runs of one session do not take it.
  predicate CanRetry(c: Config, fl: Flags) { fl.retryCount < c.retryMax }

  function T1Expired(c: Config, p: State): State {
    if CanRetry(c, p.fl)
    then p.(fl := p.fl.(retryCount := p.fl.retryCount + 1, needP := true, fRcved := true),
            rx := p.rx.(rejActioned := 0))
    else p
  }

  function T3Expired(c: Config, p: State): State {
    if !c.abm then (if c.primary then p.(fl := p.fl.(needP := true)) else p)
    else if p.tx.retransQ != [] then T1Expired(c, p)
    else p
  }

  // A writer appends a fragment.
  function Enqueue(t: Tx, payload: Octets): Tx {
    t.(transQ := t.transQ + [IFrame(payload, false, 0)], pending := t.pending + 1)
  }
}
