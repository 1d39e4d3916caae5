// The byte stream over the protocol: what one vectored write puts into the
// transmit queue, an arbitrary lossy session carries it, and vectored reads get
// it back at the other end.
module EndToEnd {
  import opened Bytes
  import opened Numbers
  import opened Framing
  import opened Fragment
  import opened Transfer
  import opened Carriage
  import opened Wrappers
  import opened Peer
  import opened Control
  import S = Session

  // The steps of a session in which station x enqueues the given fragments, one
  // at each of its writes, in order; the writes left over are dropped.
  function Schedule(steps: seq<S.Step>, frags: seq<Octets>): seq<S.Step>
    decreases |steps|
  {
    if steps == [] then []
    else if IsWrite(steps[0]) then
      if frags == [] then Schedule(steps[1..], frags)
      else [S.AtX(S.Write(frags[0]))] + Schedule(steps[1..], frags[1..])
    else [steps[0]] + Schedule(steps[1..], frags)
  }

  predicate IsWrite(step: S.Step) { step.AtX? && step.act.Write? }

  function Writes(steps: seq<S.Step>): nat {
    if steps == [] then 0 else (if IsWrite(steps[0]) then 1 else 0) + Writes(steps[1..])
  }

  lemma StepLog(s: S.System, step: S.Step)
    requires s.x.cfg.modulus > 0 && s.y.cfg.modulus > 0
    ensures S.Exec(s, step).x.log == s.x.log + (if IsWrite(step) then [step.act.payload] else [])
  {
  }

  // The writes of the run are the first fragments, as many as there are writes.
  lemma {:induction false} ScheduledLog(s: S.System, steps: seq<S.Step>, frags: seq<Octets>)
    requires s.x.cfg.modulus > 0 && s.y.cfg.modulus > 0
    ensures S.Run(s, Schedule(steps, frags)).x.log == s.x.log + frags[..Min(Writes(steps), |frags|)]
    decreases |steps|
  {
    hide S.Exec;
    hide S.Run;
    if steps == [] {
      RunNothing(s);
      assert s.x.log + frags[..0] == s.x.log;
    } else if IsWrite(steps[0]) {
      if frags == [] {
        ScheduledLog(s, steps[1..], frags);
        assert frags[..0] == [];
      } else {
        WriteFirst(s, steps, frags);
        ScheduledLog(S.Exec(s, S.AtX(S.Write(frags[0]))), steps[1..], frags[1..]);
        FirstFragments(s.x.log, frags, Min(Writes(steps[1..]), |frags| - 1));
      }
    } else {
      RunFirst(s, steps[0], Schedule(steps[1..], frags));
      StepLog(s, steps[0]);
      assert s.x.log + [] == s.x.log;
      ScheduledLog(S.Exec(s, steps[0]), steps[1..], frags);
    }
  }

  lemma RunNothing(s: S.System)
    requires s.x.cfg.modulus > 0 && s.y.cfg.modulus > 0
    ensures S.Run(s, []) == s
  {
  }

  lemma RunFirst(s: S.System, step: S.Step, rest: seq<S.Step>)
    requires s.x.cfg.modulus > 0 && s.y.cfg.modulus > 0
    ensures S.Run(s, [step] + rest) == S.Run(S.Exec(s, step), rest)
  {
    hide S.Exec;
    assert ([step] + rest)[1..] == rest;
  }

  lemma WriteFirst(s: S.System, steps: seq<S.Step>, frags: seq<Octets>)
    requires s.x.cfg.modulus > 0 && s.y.cfg.modulus > 0
    requires steps != [] && IsWrite(steps[0]) && frags != []
    ensures
      var t := S.Exec(s, S.AtX(S.Write(frags[0])));
      && S.Run(s, Schedule(steps, frags)) == S.Run(t, Schedule(steps[1..], frags[1..]))
      && t.x.log == s.x.log + [frags[0]]
  {
    hide S.Exec;
    hide S.Run;
    var step := S.AtX(S.Write(frags[0]));
    RunFirst(s, step, Schedule(steps[1..], frags[1..]));
    StepLog(s, step);
  }

  lemma FirstFragments(log: seq<Octets>, frags: seq<Octets>, k: nat)
    requires frags != [] && k <= |frags| - 1
    ensures log + [frags[0]] + frags[1..][..k] == log + frags[..k + 1]
  {
  }

  lemma {:induction false} ConcatPrefix(s: seq<Octets>, t: seq<Octets>)
    requires s <= t
    ensures Concat(s) <= Concat(t)
    decreases |s|
  {
    if s != [] {
      assert s[0] == t[0] && s[1..] <= t[1..];
      ConcatPrefix(s[1..], t[1..]);
    }
  }

  // One write of any vectors at x, any lossy session between x and y with any
  // interleaving, any series of vectored reads at y: the octets read are a
  // prefix of the octets written; all of them, up to what was asked for, once
  // the fragments have all been enqueued and none is held any more.  The fragments
  // are the write loop's own.
  method Exchange(c: Format, ctrl: nat, configured: nat, iov: seq<Octets>,
                  s: S.System, steps: seq<S.Step>, wants: seq<seq<nat>>)
    returns (outs: seq<Octets>, end: S.System)
    requires Layout(c, ctrl) && !c.transparent && SafeLength(c, ctrl, configured)
    requires S.Init(s)
    ensures |outs| == |wants| && Concat(outs) <= Concat(iov)
    ensures end == S.Run(s, Schedule(steps, Chunks(c, ctrl, PeerMifl(c, ctrl, configured), Concat(iov))))
    ensures
      Writes(steps) >= |Chunks(c, ctrl, PeerMifl(c, ctrl, configured), Concat(iov))| && end.x.st.tx.Held() == [] ==>
      Concat(outs) == Concat(iov)[..Min(SumAll(wants), |Concat(iov)|)]
  {
    hide Concat;
    hide S.Run;
    hide Chunks;
    hide SumAll;
    hide Writes;
    hide Schedule;
    hide PeerMifl;
    var total := OctetCount(iov);
    var frags, elens, written := WriteV(c, ctrl, configured, iov, total + 1);
    ChunksConcat(c, ctrl, PeerMifl(c, ctrl, configured), Concat(iov));
    SystemModulus(s);
    end := S.Run(s, Schedule(steps, frags));
    ScheduledLog(s, steps, frags);
    S.ExactlyOnceInOrder(s, Schedule(steps, frags));
    var k := Min(Writes(steps), |frags|);
    assert [] + frags[..k] == frags[..k];
    var delivered := end.y.st.rx.delivered;
    ConcatPrefix(delivered, frags[..k]);
    ConcatPrefix(frags[..k], frags);
    var reader := new Reader();
    DeliverAll(reader, delivered);
    assert [] + Concat(delivered) == Concat(delivered);
    outs := ReadAll(reader, wants);
    if Writes(steps) >= |frags| && end.x.st.tx.Held() == [] {
      assert frags[..k] == frags;
    }
  }

  lemma SystemModulus(s: S.System)
    requires S.Init(s)
    ensures s.x.cfg.modulus > 0 && s.y.cfg.modulus > 0 && s.x.log == []
  {
  }

  // --- On the line ------------------------------------------------------------------------

  // The fragment that an I-frame in flight carries is one of those written.
  lemma FlightCarriesFragment(s: S.System, steps: seq<S.Step>, frags: seq<Octets>, i: nat)
    requires S.Init(s) && i < |S.Run(s, Schedule(steps, frags)).xy|
    ensures
      var w := S.Run(s, Schedule(steps, frags)).xy[i].wire;
      w.Info? ==> w.payload in frags
  {
    hide S.Run;
    hide Schedule;
    hide S.Inv;
    SystemModulus(s);
    S.InitInv(s);
    S.RunKeepsInv(s, Schedule(steps, frags));
    ScheduledLog(s, steps, frags);
    FlightInLog(S.Run(s, Schedule(steps, frags)), i);
    var k := Min(Writes(steps), |frags|);
    assert [] + frags[..k] == frags[..k];
  }

  lemma FlightInLog(e: S.System, i: nat)
    requires S.Inv(e) && i < |e.xy|
    ensures e.xy[i].wire.Info? ==> e.xy[i].wire.payload in e.x.log
  {
    hide S.Window;
    hide S.Delivery;
    hide S.AcksOk;
    hide S.H;
    hide S.A;
    hide Config.Mod;
    assert S.FlightOk(e.x.cfg, S.H(e.x.st.tx, e.x.log), e.x.log, S.R(e.y), e.xy[i]);
  }

  // Every I-frame in flight in such an exchange crosses the wire: serialised and
  // sent by the driver, it arrives, alone and whole, and is parsed as the frame
  // the protocol sent, if no flag gets in its way where there is no format field.
  lemma FrameCrossesTheWire(c: Format, ctrl: nat, configured: nat, data: Octets,
                            s: S.System, steps: seq<S.Step>, i: nat)
    requires Layout(c, ctrl) && !c.transparent && SafeLength(c, ctrl, configured)
    requires S.Init(s) && AddressesFit(s) && s.x.cfg.modulus == (if ctrl == 2 then 128 else 8)
    requires i < |S.Run(s, Schedule(steps, Chunks(c, ctrl, PeerMifl(c, ctrl, configured), data))).xy|
    ensures
      var w := S.Run(s, Schedule(steps, Chunks(c, ctrl, PeerMifl(c, ctrl, configured), data))).xy[i].wire;
      var m := s.x.cfg.modulus;
      var p := PoolFormat(c, ctrl, configured);
      && Numbered(m, w)
      && (w.Info? && Unflagged(p, Serialize(m, w)) ==>
        && Arrives(p, Serialize(m, w))
        && |Delivered(p, Serialize(m, w))| == 1 && |Delivered(p, Serialize(m, w))[0]| >= c.fff
        && Parse(m, Delivered(p, Serialize(m, w))[0][c.fff..]) == Some(w))
  {
    hide S.Run;
    hide Schedule;
    hide Chunks;
    hide PeerMifl;
    hide PoolFrame;
    hide SafeLength;
    hide Serialize;
    hide Parse;
    hide Unflagged;
    hide Delivered;
    hide Arrives;
    var frags := Chunks(c, ctrl, PeerMifl(c, ctrl, configured), data);
    var w := S.Run(s, Schedule(steps, frags)).xy[i].wire;
    SessionFramesSurvive(s, Schedule(steps, frags), i);
    FlightCarriesFragment(s, steps, frags, i);
    if w.Info? && Unflagged(PoolFormat(c, ctrl, configured), Serialize(s.x.cfg.modulus, w)) {
      FragmentCrosses(c, ctrl, configured, data, s.x.cfg.modulus, w);
    }
  }

  lemma FragmentCrosses(c: Format, ctrl: nat, configured: nat, data: Octets, m: nat, w: Wire)
    requires Layout(c, ctrl) && !c.transparent && SafeLength(c, ctrl, configured) && m == (if ctrl == 2 then 128 else 8)
    requires Numbered(m, w) && w.Info? && w.payload in Chunks(c, ctrl, PeerMifl(c, ctrl, configured), data)
    requires Unflagged(PoolFormat(c, ctrl, configured), Serialize(m, w))
    ensures
      var p := PoolFormat(c, ctrl, configured);
      && Arrives(p, Serialize(m, w))
      && |Delivered(p, Serialize(m, w))| == 1 && |Delivered(p, Serialize(m, w))[0]| >= c.fff
      && Parse(m, Delivered(p, Serialize(m, w))[0][c.fff..]) == Some(w)
  {
    hide Chunks;
    hide ChunkSize;
    hide PeerMifl;
    hide PoolFrame;
    hide SafeLength;
    hide Parse;
    hide Unflagged;
    hide Delivered;
    hide GoodLength;
    hide BufferHolds;
    hide PrepareI;
    var p := PoolFormat(c, ctrl, configured);
    var frags := Chunks(c, ctrl, PeerMifl(c, ctrl, configured), data);
    var j :| 0 <= j < |frags| && frags[j] == w.payload;
    var h := Serialize(m, w);
    var head := h[..1 + ctrl];
    assert h == head + w.payload;
    var remaining := ChunkAt(c, ctrl, PeerMifl(c, ctrl, configured), data, j);
    ChunkIsGood(c, ctrl, configured, remaining);
    MiflBounds(c, ctrl, configured);
    GoodFragmentIff(c, ctrl, configured, head, w.payload);
    ImageTail(p, h);
    SerializeRoundTrip(m, w);
  }
}
