// The station object whose fields the core updates in place, section by
// section, and the connected-mode scheduler that strings the sections together.
// Every method is tied to the specification in module Peer.
module Station {
  import opened Bytes
  import opened Wrappers
  import opened Peer
  import Session

  // The I-frames one run of the scheduler sends: it goes on while it may, for
  // at most `limit` turns (an urgent event ends the loop after the turn during
  // which it is seen), and in two-way alternate a P/F bit ends it.
  function Burst(c: Config, p: State, lineIdle: bool, limit: nat): (State, seq<Wire>)
    requires c.modulus > 0
    decreases limit
  {
    if limit == 0 || !CanSendI(c, p, lineIdle) then (p, [])
    else
      var (q, w) := SendI(c, p);
      if c.twa && w.pf then (q, [w])
      else
        var (r, ws) := Burst(c, q, lineIdle, limit - 1);
        (r, [w] + ws)
  }

  ghost function Prepend(out: seq<Wire>, b: (State, seq<Wire>)): (State, seq<Wire>) {
    (b.0, out + b.1)
  }

  lemma BurstStep(c: Config, p: State, lineIdle: bool, limit: nat, out: seq<Wire>)
    requires c.modulus > 0 && limit > 0 && CanSendI(c, p, lineIdle)
    ensures
      var (q, w) := SendI(c, p);
      Prepend(out, Burst(c, p, lineIdle, limit))
      == Prepend(out + [w], if c.twa && w.pf then (q, []) else Burst(c, q, lineIdle, limit - 1))
  {
    hide SendI;
    hide WindowOpen;
    hide SendOpportunity;
    var (q, w) := SendI(c, p);
    var b := Burst(c, q, lineIdle, limit - 1);
    var rest := if c.twa && w.pf then [] else b.1;
    assert Burst(c, p, lineIdle, limit).1 == [w] + rest;
    assert out + ([w] + rest) == (out + [w]) + rest;
  }

  lemma BurstPrepended(c: Config, p: State, lineIdle: bool, limit: nat)
    requires c.modulus > 0
    ensures Prepend([], Burst(c, p, lineIdle, limit)) == Burst(c, p, lineIdle, limit)
  {
    hide Burst;
    assert [] + Burst(c, p, lineIdle, limit).1 == Burst(c, p, lineIdle, limit).1;
  }

  lemma BurstEnd(c: Config, p: State, lineIdle: bool, limit: nat)
    requires c.modulus > 0 && (limit == 0 || !CanSendI(c, p, lineIdle))
    ensures Burst(c, p, lineIdle, limit) == (p, [])
  {
  }

  class Station {
    const cfg: Config
    var tx: Tx
    var rx: Rx
    var fl: Flags

    function View(): State
      reads this
    {
      State(tx, rx, fl)
    }

    // The state reset at link-up; the three fields it leaves alone are inputs.
    constructor (cfg: Config, chkptActioned: nat, rejActioned: nat, vsAtLastPf: nat, mayPoll: bool)
      ensures this.cfg == cfg
      ensures Session.FreshNode(Session.Node(cfg, View(), []))
      ensures tx.chkptActioned == chkptActioned && tx.vsAtLastPf == vsAtLastPf
      ensures rx.rejActioned == rejActioned
      ensures fl.fRcved == mayPoll && !fl.pRcved
    {
      this.cfg := cfg;
      tx := Tx(0, 0, 0, vsAtLastPf, chkptActioned, [], [], 0);
      rx := Rx(0, rejActioned, false, []);
      fl := Flags(false, false, false, false, mayPoll, false, 0);
    }

    // --- Receiving ---------------------------------------------------------

    method ProcessNR(n: nat) returns (released: bool)
      requires cfg.modulus > 0
      modifies this`tx
      ensures tx == Peer.ProcessNR(cfg, old(tx), n)
      ensures released <==> tx.retransQ != old(tx.retransQ)
    {
      released := false;
      while tx.nr != n && tx.retransQ != []
        invariant Peer.ProcessNR(cfg, tx, n) == Peer.ProcessNR(cfg, old(tx), n)
        invariant |tx.retransQ| <= |old(tx).retransQ|
        invariant if released then |tx.retransQ| < |old(tx).retransQ| else tx == old(tx)
        decreases |tx.retransQ|
      {
        var acked := tx.retransQ[0].ns;
        tx := tx.(retransQ := tx.retransQ[1..], pending := tx.pending - 1);
        released := true;
        tx := tx.(nr := cfg.Next(tx.nr));
        if acked == tx.vsAtLastPf {
          tx := tx.(vsAtLastPf := cfg.Next(tx.vsAtLastPf));
        }
      }
    }

    // The scan stops at the checkpoint reference; whatever it met first, if
    // anything, is where V(S) goes back to.
    method CheckpointRetransmit() returns (moved: bool)
      modifies this`tx
      ensures tx == Peer.CheckpointRetransmit(old(tx))
      ensures moved <==> CheckpointApplies(old(tx))
    {
      if tx.retransQ == [] {
        return false;
      }
      var first, i := 0, 0;
      while i < |tx.retransQ| && tx.retransQ[i].ns != tx.vsAtLastPf
        invariant 0 <= i <= |tx.retransQ|
        invariant first == if i == 0 then 0 else tx.retransQ[0].ns + 1
        invariant i > 0 ==> tx.retransQ[0].ns != tx.vsAtLastPf
      {
        if first == 0 {
          first := tx.retransQ[i].ns + 1;
        }
        i := i + 1;
      }
      if first != 0 {
        tx := tx.(transQ := tx.retransQ + tx.transQ, retransQ := [], chkptActioned := first, vs := first - 1);
        return true;
      }
      return false;
    }

    method HandleCheckpointAndAck(n: nat, pf: bool, isCommand: bool)
      returns (ok: bool, signalTx: bool, moved: bool)
      requires cfg.modulus > 0
      modifies this
      ensures rx == old(rx)
      ensures ok == Peer.HandleCheckpointAndAck(cfg, old(View()), n, pf, isCommand).Some?
      ensures View() ==
        if ok then Peer.HandleCheckpointAndAck(cfg, old(View()), n, pf, isCommand).value else old(View())
      ensures ok ==> (signalTx <==> Peer.ProcessNR(cfg, old(tx), n).retransQ != old(tx.retransQ))
      ensures ok ==> (moved <==> pf && !(cfg.abm && isCommand) && CheckpointApplies(Peer.ProcessNR(cfg, old(tx), n)))
    {
      signalTx, moved := false, false;
      if !IsNRValid(cfg, tx, n) {
        return false, signalTx, moved;
      }
      signalTx := ProcessNR(n);
      if pf {
        if !(cfg.abm && isCommand) {
          moved := CheckpointRetransmit();
        }
        if isCommand {
          fl := fl.(pRcved := true);
        } else {
          fl := fl.(fRcved := true, retryCount := 0);
        }
      }
      ok := true;
    }

    method HandleIFrame(ns: nat, pf: bool, payload: Octets, env: RxEnv) returns (accepted: bool)
      requires cfg.modulus > 0
      modifies this
      ensures View() == Peer.HandleIFrame(cfg, old(View()), ns, pf, payload, env)
      ensures accepted == Accepts(old(View()), ns, env)
    {
      hide Config.Mod;
      hide Config.Next;
      accepted := false;
      if ns != rx.vr {
        if !cfg.twa && cfg.useRej && rx.rejActioned == 0 {
          rx := rx.(rejActioned := rx.vr + 1, rejPend := true);
        }
      } else if env.endpointTakes {
        accepted := true;
        rx := rx.(delivered := rx.delivered + [payload]);
        if rx.rejActioned != 0 && ns == rx.rejActioned - 1 {
          rx := rx.(rejActioned := 0);
        }
        UpdateBusy(pf, env.poolLow);
        rx := rx.(vr := cfg.Next(rx.vr));
      }
    }

    // An accepted I-frame with the P/F bit ends the peer's busy condition; a
    // pool at low water starts the local one.
    method UpdateBusy(pf: bool, poolLow: bool)
      modifies this`fl
      ensures fl == old(fl).(peerBusy := old(fl).peerBusy && !pf, localBusy := old(fl).localBusy || poolLow)
    {
      if fl.peerBusy && pf {
        fl := fl.(peerBusy := false);
      }
      if !fl.localBusy && poolLow {
        fl := fl.(localBusy := true);
      }
    }

    method HandleSFrame(fun: SFunction)
      modifies this
      ensures View() == Peer.HandleSFrame(cfg, old(View()), fun)
    {
      match fun
      case RR => fl := fl.(peerBusy := false);
      case RNR => fl := fl.(peerBusy := true);
      case SREJ =>
      case REJ =>
        if !cfg.twa {
          if tx.chkptActioned == 0 {
            if tx.retransQ != [] {
              var first := tx.retransQ[0];
              tx := tx.(transQ := tx.retransQ + tx.transQ, retransQ := []);
              tx := tx.(vsAtLastPf := first.ns, vs := first.ns);
            }
          } else {
            tx := tx.(chkptActioned := 0);
          }
        }
    }

    method Receive(w: Wire, env: RxEnv)
      requires cfg.modulus > 0
      modifies this
      ensures View() == Peer.Receive(cfg, old(View()), w, env)
    {
      if !AddressAccepted(cfg, w.addr) || fl.frmr {
        return;
      }
      var ok, signalTx, moved := HandleCheckpointAndAck(w.nr, w.pf, w.addr == cfg.addr);
      if !ok {
        fl := fl.(frmr := true);
        return;
      }
      match w
      case Info(_, ns, _, pf, payload) =>
        var accepted := HandleIFrame(ns, pf, payload, env);
        if accepted && !cfg.abm && cfg.primary {
          fl := fl.(needP := true);
        }
      case Supervisory(_, fun, _, _) => HandleSFrame(fun);
    }

    // --- Sending -----------------------------------------------------------

    // Sending a frame with the P/F bit.
    method AcknowledgePF(isCommand: bool)
      modifies this
      ensures View() == MarkPF(cfg, old(View()), true, isCommand)
    {
      if isCommand || !cfg.abm || fl.fRcved {
        tx := tx.(vsAtLastPf := tx.vs);
      }
      if isCommand {
        fl := fl.(fRcved := false, needP := false);
      } else {
        fl := fl.(pRcved := false);
      }
    }

    method SendIFrame() returns (w: Wire)
      requires cfg.modulus > 0 && tx.transQ != []
      modifies this
      ensures (View(), w) == SendI(cfg, old(View()))
    {
      hide Config.Mod;
      hide IFramePF;
      hide SendsCommands;
      hide TxAddr;
      var f := tx.transQ[0];
      var isCommand := SendsCommands(cfg, fl);
      var pf := IFramePF(cfg, View());
      var ns := if f.numbered then f.ns else tx.vs;
      w := Info(TxAddr(cfg, isCommand), ns, rx.vr, pf, f.payload);
      tx := tx.(transQ := tx.transQ[1..], retransQ := tx.retransQ + [IFrame(f.payload, true, ns)]);
      if tx.vs == tx.vsHighest {
        tx := tx.(vsHighest := cfg.Next(tx.vs));
      }
      tx := tx.(vs := cfg.Next(tx.vs));
      if pf {
        AcknowledgePF(isCommand);
      }
    }

    method PrepareSFrame(fun: SFunction) returns (w: Wire)
      requires cfg.modulus > 0
      modifies this
      ensures (View(), w) == PrepareS(cfg, old(View()), fun)
    {
      var isCommand := SendsCommands(cfg, fl);
      var pf := SFramePF(cfg, View(), isCommand);
      w := Supervisory(TxAddr(cfg, isCommand), fun, rx.vr, pf);
      if pf {
        AcknowledgePF(isCommand);
      }
    }

    // The closing section of the scheduler.
    method SendSFrame(env: TxEnv) returns (w: Option<Wire>)
      requires cfg.modulus > 0
      modifies this
      ensures w.Some? == SupervisoryToSend(cfg, old(View()), env).Some?
      ensures w.Some? ==> (View(), w.value) == SendS(cfg, old(View()), env)
      ensures w.None? ==> View() == old(View())
    {
      hide SFramePF;
      hide SendsCommands;
      w := None;
      if !SendOpportunity(cfg, fl, env.lineIdle) {
        return;
      }
      if rx.rejPend && env.frameForRej {
        var f := PrepareSFrame(REJ);
        w, rx := Some(f), rx.(rejPend := false);
      } else if fl.localBusy && env.poolNormal && env.frameForReady {
        var f := PrepareSFrame(RR);
        w, fl := Some(f), fl.(localBusy := false);
      } else if !env.iFrameSent && (fl.pRcved || (fl.fRcved && fl.needP)) && env.frameForPoll {
        var f := PrepareSFrame(if fl.localBusy then RNR else RR);
        w := Some(f);
      }
    }

    // One pass of the connected-mode scheduler without interruption: the I-frame
    // loop, then at most one S-frame.
    method ConnectedTx(limit: nat, env: TxEnv) returns (out: seq<Wire>)
      requires cfg.modulus > 0
      modifies this
      ensures
        var (p, ws) := Burst(cfg, old(View()), env.lineIdle, limit);
        var e := env.(iFrameSent := ws != []);
        match SupervisoryToSend(cfg, p, e)
        case None => View() == p && out == ws
        case Some(_) => View() == SendS(cfg, p, e).0 && out == ws + [SendS(cfg, p, e).1]
    {
      hide Peer.SendI;
      hide Peer.SendS;
      hide Peer.SupervisoryToSend;
      hide WindowOpen;
      hide SendOpportunity;
      hide Burst;
      out := [];
      BurstPrepended(cfg, View(), env.lineIdle, limit);
      var turns := limit;
      ghost var start := View();
      var goOn := true;
      while goOn && turns > 0 && CanSendI(cfg, View(), env.lineIdle)
        invariant Burst(cfg, start, env.lineIdle, limit)
          == Prepend(out, if goOn then Burst(cfg, View(), env.lineIdle, turns) else (View(), []))
        decreases turns
      {
        BurstStep(cfg, View(), env.lineIdle, turns, out);
        var w := SendIFrame();
        out := out + [w];
        turns := turns - 1;
        goOn := !(cfg.twa && w.pf);
      }
      if goOn {
        BurstEnd(cfg, View(), env.lineIdle, turns);
      }
      var s := SendSFrame(env.(iFrameSent := out != []));
      if s.Some? {
        out := out + [s.value];
      }
    }

    // --- Timers and the writer ---------------------------------------------

    // False when the retries are used up and the link goes down.
    method HandleTimeoutRetry() returns (retry: bool)
      modifies this
      ensures retry == CanRetry(cfg, old(fl)) == (old(fl).retryCount < cfg.retryMax)
      ensures View() == if retry then T1Expired(cfg, old(View())) else LinkLost(old(View()))
    {
      if fl.retryCount >= cfg.retryMax {
        AbortPeerLink();
        return false;
      }
      fl := fl.(retryCount := fl.retryCount + 1);
      fl := fl.(needP := true, fRcved := true);
      rx := rx.(rejActioned := 0);
      return true;
    }

    method AbortPeerLink()
      modifies this
      ensures View() == LinkLost(old(View()))
    {
      tx := tx.(nr := 0, vs := 0, vsHighest := 0);
      rx := rx.(vr := 0, rejPend := false);
      fl := fl.(peerBusy := false, needP := false, retryCount := 0, frmr := false);
      tx := tx.(retransQ := [], transQ := [], pending := 0);
      fl := fl.(fRcved := true);
    }

    method HandleT3() returns (up: bool)
      modifies this
      ensures up == (!cfg.abm || old(tx).retransQ == [] || CanRetry(cfg, old(fl)))
      ensures View() == if up then T3Expired(cfg, old(View())) else LinkLost(old(View()))
    {
      up := true;
      if !cfg.abm {
        if cfg.primary {
          fl := fl.(needP := true);
        }
      } else if tx.retransQ != [] {
        up := HandleTimeoutRetry();
      }
    }

    method Enqueue(payload: Octets)
      modifies this`tx
      ensures tx == Peer.Enqueue(old(tx), payload)
    {
      tx := tx.(transQ := tx.transQ + [IFrame(payload, false, 0)], pending := tx.pending + 1);
    }
  }

  // --- What one burst puts on the line -----------------------------------------

  // A burst sends consecutive numbers from V(S), never beyond the window, each
  // carrying the current V(R); in two-way alternate only its last frame can
  // carry the P/F bit.
  ghost predicate Consecutive(c: Config, t: Tx, vr: nat, log: seq<Octets>, out: seq<Wire>)
    requires c.modulus > 0
  {
    var v := Session.V(t, log);
    && 0 <= v && v + |out| <= |log|
    && v + |out| <= Session.A(t, log) + c.ks
    && (forall i :: 0 <= i < |out| ==>
      && out[i].Info? && out[i].ns == c.Mod(v + i) && out[i].payload == log[v + i] && out[i].nr == vr
      && (c.twa && out[i].pf ==> i == |out| - 1))
  }

  lemma {:induction false} BurstIsConsecutive(c: Config, p: State, log: seq<Octets>, lineIdle: bool, limit: nat)
    requires c.Valid() && Session.Window(c, p.tx, log)
    ensures
      var (q, out) := Burst(c, p, lineIdle, limit);
      && Consecutive(c, p.tx, p.rx.vr, log, out)
      && Session.Window(c, q.tx, log) && q.rx == p.rx
      && Session.A(q.tx, log) == Session.A(p.tx, log) && Session.V(q.tx, log) == Session.V(p.tx, log) + |out|
    decreases limit
  {
    hide Session.Window;
    hide Session.NumberedPrefix;
    hide Config.Mod;
    hide Tx.Held;
    hide SendI;
    hide CanSendI;
    hide Session.V;
    hide Session.A;
    Session.WindowBasics(c, p.tx, log);
    if limit > 0 && CanSendI(c, p, lineIdle) {
      BurstTurn(c, p, log, lineIdle);
      var (q, w) := SendI(c, p);
      Session.WindowBasics(c, q.tx, log);
      if !(c.twa && w.pf) {
        BurstIsConsecutive(c, q, log, lineIdle, limit - 1);
        var out := Burst(c, q, lineIdle, limit - 1).1;
        assert forall i :: 0 < i < |out| + 1 ==> ([w] + out)[i] == out[i - 1];
      }
    }
  }

  // A burst ends only for want of a frame, a window, a turn or a ready peer, or
  // because the limit is reached, or in two-way alternate with the P/F bit.
  lemma {:induction false} BurstIsMaximal(c: Config, p: State, lineIdle: bool, limit: nat)
    requires c.modulus > 0
    ensures
      var (q, out) := Burst(c, p, lineIdle, limit);
      && |out| <= limit
      && (|out| < limit && (out == [] || !(c.twa && out[|out| - 1].pf)) ==>
        || q.fl.frmr || q.tx.transQ == [] || q.fl.peerBusy || c.Distance(q.tx.nr, q.tx.vs) >= c.ks
        || (if c.abm then c.twa && !lineIdle
            else if c.primary then c.twa && !q.fl.fRcved
            else !q.fl.pRcved))
    decreases limit
  {
    hide SendI;
    hide Config.Distance;
    if limit > 0 && CanSendI(c, p, lineIdle) {
      var (q, w) := SendI(c, p);
      if !(c.twa && w.pf) {
        BurstIsMaximal(c, q, lineIdle, limit - 1);
        var out := Burst(c, q, lineIdle, limit - 1).1;
        assert out != [] ==> ([w] + out)[|out|] == out[|out| - 1];
      }
    }
  }

  // After a link loss the station is as at a new start, with everything received
  // still there, and may poll again.
  lemma LinkLostStartsAfresh(c: Config, p: State)
    ensures
      var q := LinkLost(p);
      && Session.FreshNode(Session.Node(c, q.(rx := q.rx.(delivered := [])), []))
      && q.rx.delivered == p.rx.delivered && !q.rx.rejPend
      && q.fl.fRcved && !q.fl.peerBusy && !q.fl.needP && q.fl.retryCount == 0
      && q.fl.pRcved == p.fl.pRcved && q.fl.localBusy == p.fl.localBusy
  {
  }

  lemma BurstTurn(c: Config, p: State, log: seq<Octets>, lineIdle: bool)
    requires c.Valid() && Session.Window(c, p.tx, log) && CanSendI(c, p, lineIdle)
    ensures p.tx.transQ != []
    ensures
      var (q, w) := SendI(c, p);
      var v := Session.V(p.tx, log);
      && Session.Window(c, q.tx, log) && q.rx == p.rx
      && Session.A(q.tx, log) == Session.A(p.tx, log) && Session.V(q.tx, log) == v + 1
      && 0 <= v < |log|
      && w.Info? && w.ns == c.Mod(v) && w.payload == log[v] && w.nr == p.rx.vr
  {
    hide Session.Window;
    hide Session.NumberedPrefix;
    hide Config.Mod;
    hide Tx.Held;
    hide SendI;
    hide Advance;
    Session.AdvanceWindow(c, p.tx, log);
    Session.WindowBasics(c, p.tx, log);
    Session.SendIFacts(c, p);
    Session.BookkeepingWindow(c, Advance(c, p.tx), log, SendI(c, p).0.tx);
  }
}
