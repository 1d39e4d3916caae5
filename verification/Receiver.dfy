// The receive path of the software driver: the parser that is called for every
// octet or chunk the port delivers, as a transition function over line events.
module Receiver {
  import opened Bytes
  import opened Wrappers
  import opened Framing

  // `Open` has a pool frame under construction: `got` are the octets placed in
  // it and `need` is how many more the armed request asks for.  `Fault` is the
  // failed assertion on a request for no octets.
  datatype Receiver = Closed | Open(got: Octets, need: nat) | Fault
  {
    // The frame's length field.
    function Elen(): int { if Open? then |got| + need - 1 else 0 }
  }

  // `frameFree` says whether the pool has a frame, should one be taken.
  datatype Event = Octet(b: bv8, frameFree: bool) | Timeout | LineError

  function NewFrame(frameFree: bool): Receiver {
    if frameFree then Open([], 1) else Closed
  }

  // The armed request is complete and `g` is what the frame now holds.
  function Complete(c: Format, g: Octets, frameFree: bool): (Receiver, Option<Octets>)
    requires g != []
  {
    var elen := |g| - 1;
    if g[elen] == FLAG && !(c.fff == 2 && elen == 1) then
      if elen < MIN_LENGTH then (Open([], 1), None)
      else (NewFrame(frameFree), Some(g[..elen]))
    else (Continue(c, g), None)
  }

  function Continue(c: Format, g: Octets): Receiver
    requires g != []
  {
    if c.fff == 1 && !c.transparent && |g| == 1 then
      if g[0] & 0x80 == 0 && 0 < g[0] as nat < c.frameSize then Open(g, g[0] as nat) else Closed
    else if c.fff == 2 && !c.transparent && |g| == 1 then
      if g[0] & 0xF0 == 0x80 then Open(g, 1) else Closed
    else if c.fff == 2 && !c.transparent && |g| == 2 then
      var n := TwelveBits(g[0], g[1]);
      if n == 1 < c.frameSize then Fault
      else if 0 < n < c.frameSize then Open(g, n - 1)
      else Closed
    else if Sixteen(|g|) >= c.frameSize then Closed   // the length field counts in sixteen bits
    else Open(g, 1)
  }

  function Step(c: Format, r: Receiver, e: Event): (Receiver, Option<Octets>) {
    match r
    case Fault => (Fault, None)
    case Closed =>
      (if e.Octet? && e.b == FLAG then NewFrame(e.frameFree) else Closed, None)
    case Open(got, need) =>
      match e
      case Timeout => (if r.Elen() != 0 then Closed else r, None)
      case LineError => (Closed, None)
      case Octet(b, free) =>
        if need > 1 then (Open(got + [b], need - 1), None) else Complete(c, got + [b], free)
  }

  function Output(o: Option<Octets>): seq<Octets> {
    if o.Some? then [o.value] else []
  }

  // A run over line events, with the frames handed over, in order.
  function Run(c: Format, r: Receiver, es: seq<Event>): (Receiver, seq<Octets>)
    decreases |es|
  {
    if es == [] then (r, [])
    else
      var (q, o) := Step(c, r, es[0]);
      var (t, os) := Run(c, q, es[1..]);
      (t, Output(o) + os)
  }

  // Octets arriving while the pool has frames.
  function Line(s: Octets): seq<Event>
    decreases |s|
  {
    if s == [] then [] else [Octet(s[0], true)] + Line(s[1..])
  }

  lemma {:induction false} RunConcat(c: Format, r: Receiver, es: seq<Event>, fs: seq<Event>)
    ensures Run(c, r, es + fs).0 == Run(c, Run(c, r, es).0, fs).0
    ensures Run(c, r, es + fs).1 == Run(c, r, es).1 + Run(c, Run(c, r, es).0, fs).1
    decreases |es|
  {
    hide Step;
    hide Output;
    if es == [] {
      assert es + fs == fs;
    } else {
      assert (es + fs)[1..] == es[1..] + fs;
      var (q, o) := Step(c, r, es[0]);
      RunConcat(c, q, es[1..], fs);
      Associate(Output(o), Run(c, q, es[1..]).1, Run(c, Run(c, r, es).0, fs).1);
    }
  }

  lemma {:induction false} LineConcat(s: Octets, t: Octets)
    ensures Line(s + t) == Line(s) + Line(t)
    decreases |s|
  {
    if s == [] {
      assert s + t == t;
    } else {
      assert (s + t)[1..] == s[1..] + t;
      LineConcat(s[1..], t);
    }
  }

  // On the octets `s` the receiver goes from r to q and hands over `out`.
  ghost predicate Yields(c: Format, r: Receiver, s: Octets, q: Receiver, out: seq<Octets>) {
    Run(c, r, Line(s)).0 == q && Run(c, r, Line(s)).1 == out
  }

  lemma YieldsNothing(c: Format, r: Receiver)
    ensures Yields(c, r, [], r, [])
  {
  }

  lemma YieldsStep(c: Format, r: Receiver, b: bv8)
    ensures Yields(c, r, [b], Step(c, r, Octet(b, true)).0, Output(Step(c, r, Octet(b, true)).1))
  {
    hide Step;
    var e := Octet(b, true);
    assert Line([b]) == [e];
    assert [e][1..] == [];
    assert Run(c, Step(c, r, e).0, [e][1..]) == (Step(c, r, e).0, []);
  }

  lemma YieldsConcat(c: Format, r: Receiver, s: Octets, q: Receiver, out: seq<Octets>,
                     t: Octets, w: Receiver, more: seq<Octets>)
    requires Yields(c, r, s, q, out) && Yields(c, q, t, w, more)
    ensures Yields(c, r, s + t, w, out + more)
  {
    hide Run;
    hide Line;
    LineConcat(s, t);
    RunConcat(c, r, Line(s), Line(t));
  }

  lemma YieldsLater(c: Format, r: Receiver, s: Octets, q: Receiver, t: Octets, w: Receiver, out: seq<Octets>)
    requires Yields(c, r, s, q, []) && Yields(c, q, t, w, out)
    ensures Yields(c, r, s + t, w, out)
  {
    hide Yields;
    YieldsConcat(c, r, s, q, [], t, w, out);
    assert [] + out == out;
  }

  // --- What holds in every reachable state ---------------------------------------

  // The armed request always asks for something and never reaches beyond the
  // frame; what has been collected already looks like a frame of the format.
  ghost predicate Inv(c: Format, r: Receiver) {
    match r
    case Closed => true
    case Fault => c.fff == 2
    case Open(got, need) =>
      && need >= 1
      && |got| + need <= c.frameSize
      && (got == [] ==> need == 1)
      && (got != [] ==> Started(c, got, r.Elen()))
  }

  ghost predicate Started(c: Format, got: Octets, elen: int) {
    && got != []
    && got[0] != FLAG
    && (c.fff == 0 ==> NoFlag(got) && elen == |got|)
    && (c.fff == 1 ==> got[0] & 0x80 == 0 && got[0] as nat <= elen)
    && (c.fff == 2 ==> got[0] & 0xF0 == 0x80 && (|got| == 1 ==> elen == 1))
    && (c.fff == 2 && |got| >= 2 ==> Declared(got[0], got[1]) <= elen)
  }

  // The shape of every frame the parser ever hands over.
  ghost predicate Shaped(c: Format, f: Octets) {
    MIN_LENGTH <= |f| < c.frameSize && Started(c, f, |f|)
  }

  lemma StepKeepsInv(c: Format, r: Receiver, e: Event)
    requires c.Valid() && Inv(c, r)
    ensures Inv(c, Step(c, r, e).0)
    ensures Step(c, r, e).1.Some? ==> Shaped(c, Step(c, r, e).1.value)
  {
    hide Complete;
    hide Started;
    hide Format.Valid;
    if r.Open? && e.Octet? {
      if r.need > 1 {
        StartedGrows(c, r.got, e.b, r.Elen());
      } else {
        CompleteKeepsInv(c, r.got, e.b, e.frameFree);
      }
    }
    NewFrameInv(c);
  }

  lemma NewFrameInv(c: Format)
    requires c.Valid()
    ensures Inv(c, Open([], 1)) && Inv(c, Closed)
  {
  }

  lemma StartedGrows(c: Format, got: Octets, b: bv8, elen: int)
    requires Started(c, got, elen) && |got| < elen
    ensures Started(c, got + [b], elen)
  {
    hide Declared;
    assert c.fff != 0;
    assert c.fff == 2 ==> |got| >= 2;
  }

  lemma CompleteKeepsInv(c: Format, got: Octets, b: bv8, free: bool)
    requires c.Valid() && Inv(c, Open(got, 1))
    ensures Inv(c, Complete(c, got + [b], free).0)
    ensures Complete(c, got + [b], free).1.Some? ==> Shaped(c, Complete(c, got + [b], free).1.value)
  {
    hide Continue;
    hide Started;
    NewFrameInv(c);
    var g := got + [b];
    assert g[..|g| - 1] == got;
    if !(b == FLAG && !(c.fff == 2 && |got| == 1)) {
      ContinueKeepsInv(c, got, b);
    }
  }

  lemma ContinueKeepsInv(c: Format, got: Octets, b: bv8)
    requires c.Valid() && Inv(c, Open(got, 1))
    requires b == FLAG ==> c.fff == 2 && |got| == 1
    ensures Inv(c, Continue(c, got + [b]))
  {
    if got == [] {
      FirstOctet(c, b);
    } else if c.fff == 2 && |got| == 1 {
      SecondOctet(c, got, b);
    } else {
      MoreOctets(c, got, b);
    }
  }

  lemma FirstOctet(c: Format, b: bv8)
    requires c.Valid() && b != FLAG
    ensures Inv(c, Continue(c, [] + [b]))
  {
    hide Declared;
    assert [] + [b] == [b];
  }

  lemma SecondOctet(c: Format, got: Octets, b: bv8)
    requires c.Valid() && Inv(c, Open(got, 1)) && c.fff == 2 && |got| == 1
    ensures Inv(c, Continue(c, got + [b]))
  {
    TopBit(got[0]);
    var g := got + [b];
    assert g[0] == got[0] && g[1] == b;
  }

  lemma TopBit(b: bv8)
    requires b & 0xF0 == 0x80
    ensures b & 0x80 != 0 && b != FLAG
  {
  }

  lemma MoreOctets(c: Format, got: Octets, b: bv8)
    requires c.Valid() && Inv(c, Open(got, 1)) && got != [] && b != FLAG
    requires c.fff == 2 ==> |got| >= 2
    ensures Inv(c, Continue(c, got + [b]))
  {
    hide Declared;
    var g := got + [b];
    assert g[0] == got[0];
    assert |got| >= 2 ==> g[1] == got[1];
  }

  // The request armed next asks for at least one octet, except after a two-octet
  // format field that states the length 1: then the assertion fails.
  lemma ArmsUnlessLengthOne(c: Format, r: Receiver, e: Event)
    requires c.Valid() && Inv(c, r) && !r.Fault?
    ensures Step(c, r, e).0.Fault? <==>
      c.fff == 2 && r.Open? && e.Octet? && |r.got| == 1 && r.got[0] == 0x80 && e.b == 0x01
  {
    if r.Open? && e.Octet? && r.need == 1 {
      var g := r.got + [e.b];
      if c.fff == 2 && |g| == 2 {
        LengthOne(g[0], g[1]);
      }
    }
  }

  lemma LengthOne(a: bv8, b: bv8)
    requires a & 0xF0 == 0x80
    ensures TwelveBits(a, b) == 1 <==> a == 0x80 && b == 0x01
  {
    var h := a & 0x0F;
    assert h as nat == 0 <==> h == 0;
    assert b as nat == 1 <==> b == 1;
    assert h == 0 <==> a == 0x80;
  }

  lemma {:induction false} RunKeepsInv(c: Format, r: Receiver, es: seq<Event>)
    requires c.Valid() && Inv(c, r)
    ensures Inv(c, Run(c, r, es).0)
    ensures forall f :: f in Run(c, r, es).1 ==> Shaped(c, f)
    decreases |es|
  {
    hide Step;
    hide Inv;
    hide Shaped;
    if es != [] {
      StepKeepsInv(c, r, es[0]);
      RunKeepsInv(c, Step(c, r, es[0]).0, es[1..]);
    }
  }

  // --- One frame ---------------------------------------------------------------------

  lemma {:induction false} Accumulates(c: Format, got: Octets, s: Octets)
    requires c.fff == 0 && NoFlag(s) && |got| + |s| < c.frameSize && |got| + |s| <= 0xFFFF
    ensures Yields(c, Open(got, 1), s, Open(got + s, 1), [])
    decreases |s|
  {
    hide Yields;
    if s == [] {
      assert got + s == got;
      YieldsNothing(c, Open(got, 1));
    } else {
      TakesOctet(c, got, s[0]);
      Accumulates(c, got + [s[0]], s[1..]);
      YieldsLater(c, Open(got, 1), [s[0]], Open(got + [s[0]], 1), s[1..], Open(got + [s[0]] + s[1..], 1), []);
      assert got + [s[0]] + s[1..] == got + s;
      assert [s[0]] + s[1..] == s;
    }
  }

  lemma TakesOctet(c: Format, got: Octets, b: bv8)
    requires c.fff == 0 && b != FLAG && |got| + 1 < c.frameSize && |got| + 1 <= 0xFFFF
    ensures Yields(c, Open(got, 1), [b], Open(got + [b], 1), [])
  {
    hide Yields;
    YieldsStep(c, Open(got, 1), b);
  }

  lemma {:induction false} FillsChunk(c: Format, got: Octets, need: nat, s: Octets)
    requires |s| < need
    ensures Yields(c, Open(got, need), s, Open(got + s, need - |s|), [])
    decreases |s|
  {
    hide Yields;
    hide Complete;
    if s == [] {
      assert got + s == got;
      YieldsNothing(c, Open(got, need));
    } else {
      YieldsStep(c, Open(got, need), s[0]);
      FillsChunk(c, got + [s[0]], need - 1, s[1..]);
      YieldsLater(c, Open(got, need), [s[0]], Open(got + [s[0]], need - 1),
                  s[1..], Open(got + [s[0]] + s[1..], need - |s|), []);
      assert got + [s[0]] + s[1..] == got + s;
      assert [s[0]] + s[1..] == s;
    }
  }

  // What the line can carry: neither too short nor too long for the pool's
  // frames, no flag inside unless a length field protects it, and for TYPE0 not
  // the length that reads as a flag.
  ghost predicate Carriable(c: Format, e: Octets) {
    && MIN_LENGTH <= |e| < c.frameSize
    && (c.fff == 0 ==> NoFlag(e))
    && (c.fff == 1 ==> |e| != FLAG as nat)
  }

  lemma CarriableIsShort(c: Format, e: Octets)
    requires c.Valid() && Carriable(c, e)
    ensures |e| <= 0xFFFF
  {
  }

  lemma FrameRoundTrip(c: Format, e: Octets)
    requires c.Shape() && WellEncoded(c, e) && Carriable(c, e) && |e| <= 0xFFFF
    ensures Yields(c, Open([], 1), e + [FLAG], Open([], 1), [e])
  {
    hide Yields;
    hide Complete;
    hide WellEncoded;
    Collects(c, e);
    YieldsStep(c, Open(e, 1), FLAG);
    ClosingFlag(c, e);
    YieldsLater(c, Open([], 1), e, Open(e, 1), [FLAG], Open([], 1), [e]);
  }

  lemma ClosingFlag(c: Format, e: Octets)
    requires |e| >= MIN_LENGTH
    ensures Complete(c, e + [FLAG], true) == (Open([], 1), Some(e))
  {
    assert (e + [FLAG])[..|e|] == e;
  }

  lemma Collects(c: Format, e: Octets)
    requires c.Shape() && WellEncoded(c, e) && Carriable(c, e) && |e| <= 0xFFFF
    ensures Yields(c, Open([], 1), e, Open(e, 1), [])
  {
    hide Yields;
    hide Step;
    hide Declared;
    var start := Open([], 1);
    if c.fff == 0 {
      Accumulates(c, [], e);
      assert [] + e == e;
    } else if c.fff == 1 {
      Type0Field(c, e);
      YieldsStep(c, start, e[0]);
      FillsChunk(c, [e[0]], |e|, e[1..]);
      assert e == [e[0]] + e[1..];
      YieldsLater(c, start, [e[0]], Open([e[0]], |e|), e[1..], Open(e, 1), []);
    } else {
      Type1Field(c, e);
      YieldsStep(c, start, e[0]);
      YieldsStep(c, Open([e[0]], 1), e[1]);
      YieldsLater(c, start, [e[0]], Open([e[0]], 1), [e[1]], Open([e[0], e[1]], |e| - 1), []);
      FillsChunk(c, [e[0], e[1]], |e| - 1, e[2..]);
      assert e == [e[0], e[1]] + e[2..];
      assert [e[0], e[1]] == [e[0]] + [e[1]];
      YieldsLater(c, start, [e[0], e[1]], Open([e[0], e[1]], |e| - 1), e[2..], Open(e, 1), []);
    }
  }

  lemma FlagValue(b: bv8)
    ensures b as nat == FLAG as nat <==> b == FLAG
  {
  }

  lemma Type0Field(c: Format, e: Octets)
    requires c.Shape() && c.fff == 1 && WellEncoded(c, e) && Carriable(c, e)
    ensures Step(c, Open([], 1), Octet(e[0], true)) == (Open([e[0]], |e|), None)
  {
    FlagValue(e[0]);
    assert [] + [e[0]] == [e[0]];
  }

  lemma Type1Field(c: Format, e: Octets)
    requires c.Shape() && c.fff == 2 && WellEncoded(c, e) && Carriable(c, e)
    ensures Step(c, Open([], 1), Octet(e[0], true)) == (Open([e[0]], 1), None)
    ensures Step(c, Open([e[0]], 1), Octet(e[1], true)) == (Open([e[0], e[1]], |e| - 1), None)
  {
    TopBit(e[0]);
    assert [] + [e[0]] == [e[0]];
    assert [e[0]] + [e[1]] == [e[0], e[1]];
  }

  // The condition is exact: no run over any line events whatsoever ever hands
  // over an encoded frame that does not meet it.
  lemma CarriableIff(c: Format, e: Octets)
    requires c.Valid() && WellEncoded(c, e)
    ensures Carriable(c, e) <==> Run(c, Open([], 1), Line(e + [FLAG])).1 == [e]
    ensures !Carriable(c, e) ==>
      forall es :: e !in Run(c, Closed, es).1 && e !in Run(c, Open([], 1), es).1
  {
    hide Run;
    hide Line;
    hide Declared;
    if Carriable(c, e) {
      FrameRoundTrip(c, e);
    } else {
      NewFrameInv(c);
      forall es ensures e !in Run(c, Closed, es).1 && e !in Run(c, Open([], 1), es).1 {
        RunKeepsInv(c, Closed, es);
        RunKeepsInv(c, Open([], 1), es);
        if c.fff == 1 {
          FlagValue(e[0]);
        }
        assert !Shaped(c, e);
      }
      assert e !in Run(c, Open([], 1), Line(e + [FLAG])).1;
      assert e in [e];
    }
  }

  // --- The length field -------------------------------------------------------------

  // The sixteen-bit length field says where the parser is, and the armed request
  // lies inside the frame.
  ghost predicate InStep(c: Format, r: Receiver) {
    r.Open? ==> r.Elen() <= 0xFFFF && |r.got| + r.need <= c.frameSize
  }

  // That holds in every run if and only if the pool's frames are below 65536
  // octets: the bound test misses a larger frame's end.
  lemma LengthKeepsUpIff(c: Format)
    requires c.Shape() && c.frameSize >= 2
    ensures (forall es :: InStep(c, Run(c, Open([], 1), es).0)) <==> c.frameSize <= 0xFFFF
  {
    hide Run;
    if c.frameSize <= 0xFFFF {
      NewFrameInv(c);
      forall es ensures InStep(c, Run(c, Open([], 1), es).0) {
        RunKeepsInv(c, Open([], 1), es);
      }
    } else {
      var got := FieldOctets(c);
      var s: Octets := seq(0x1_0000, _ => 0);
      NeverFull(c, got, s);
      YieldsLater(c, Open([], 1), got, Open(got, 1), s, Open(got + s, 1), []);
      assert !InStep(c, Run(c, Open([], 1), Line(got + s)).0);
    }
  }

  // The shortest format field that leaves the parser collecting single octets.
  lemma FieldOctets(c: Format) returns (got: Octets)
    requires c.Shape() && c.frameSize > 0xFFFF
    ensures |got| == c.fff && Yields(c, Open([], 1), got, Open(got, 1), [])
  {
    hide Yields;
    hide Sixteen;
    if c.fff == 0 {
      got := [];
      YieldsNothing(c, Open([], 1));
    } else if c.fff == 1 {
      got := [1];
      assert [] + [1 as bv8] == got;
      YieldsStep(c, Open([], 1), 1);
    } else {
      got := [0x80, 0x02];
      var first: Octets := [0x80];
      assert [] + [0x80 as bv8] == first && first + [0x02 as bv8] == got;
      LengthTwo();
      YieldsStep(c, Open([], 1), 0x80);
      YieldsStep(c, Open(first, 1), 0x02);
      YieldsLater(c, Open([], 1), first, Open(first, 1), [0x02], Open(got, 1), []);
    }
  }

  lemma LengthTwo()
    ensures TwelveBits(0x80, 0x02) == 2
  {
  }

  lemma {:induction false} NeverFull(c: Format, got: Octets, s: Octets)
    requires c.Shape() && |got| >= c.fff && NoFlag(s) && c.frameSize > 0xFFFF
    ensures Yields(c, Open(got, 1), s, Open(got + s, 1), [])
    decreases |s|
  {
    hide Yields;
    if s == [] {
      assert got + s == got;
      YieldsNothing(c, Open(got, 1));
    } else {
      var b, g := s[0], got + [s[0]];
      assert Step(c, Open(got, 1), Octet(b, true)) == (Open(g, 1), None);
      YieldsStep(c, Open(got, 1), b);
      NeverFull(c, g, s[1..]);
      YieldsLater(c, Open(got, 1), [b], Open(g, 1), s[1..], Open(g + s[1..], 1), []);
      assert g + s[1..] == got + s;
      assert [b] + s[1..] == s;
    }
  }

  // --- Sequences of frames -----------------------------------------------------------------

  // The printed line: an opening flag before frame i only if opens[i]; otherwise
  // it shares the closing flag of its predecessor.
  function Print(es: seq<Octets>, opens: seq<bool>): Octets
    requires |opens| == |es|
    decreases |es|
  {
    if es == [] then []
    else (if opens[0] then [FLAG] else []) + es[0] + [FLAG] + Print(es[1..], opens[1..])
  }

  ghost predicate AllCarriable(c: Format, es: seq<Octets>) {
    forall i :: 0 <= i < |es| ==> WellEncoded(c, es[i]) && Carriable(c, es[i])
  }

  lemma {:induction false} SequenceRoundTrip(c: Format, es: seq<Octets>, opens: seq<bool>)
    requires c.Valid() && |opens| == |es| && AllCarriable(c, es)
    ensures Yields(c, Open([], 1), Print(es, opens), Open([], 1), es)
    decreases |es|
  {
    hide Yields;
    hide WellEncoded;
    hide Carriable;
    var start := Open([], 1);
    if es == [] {
      YieldsNothing(c, start);
    } else {
      var o := if opens[0] then [FLAG] else [];
      var rest := Print(es[1..], opens[1..]);
      Reopens(c, o);
      CarriableIsShort(c, es[0]);
      FrameRoundTrip(c, es[0]);
      YieldsLater(c, start, o, start, es[0] + [FLAG], start, [es[0]]);
      SequenceRoundTrip(c, es[1..], opens[1..]);
      YieldsConcat(c, start, o + (es[0] + [FLAG]), start, [es[0]], rest, start, es[1..]);
      assert Print(es, opens) == o + (es[0] + [FLAG]) + rest;
      assert [es[0]] + es[1..] == es;
    }
  }

  lemma Reopens(c: Format, o: Octets)
    requires o == [] || o == [FLAG]
    ensures Yields(c, Open([], 1), o, Open([], 1), [])
  {
    hide Yields;
    if o == [FLAG] {
      YieldsStep(c, Open([], 1), FLAG);
      assert [] + [FLAG] == [FLAG];
    } else {
      YieldsNothing(c, Open([], 1));
    }
  }

  // From a closed receiver the first frame needs its own opening flag.
  lemma FromClosed(c: Format, es: seq<Octets>, opens: seq<bool>)
    requires c.Valid() && |opens| == |es| > 0 && opens[0] && AllCarriable(c, es)
    ensures Yields(c, Closed, Print(es, opens), Open([], 1), es)
  {
    hide Yields;
    hide WellEncoded;
    hide Carriable;
    var shared := [false] + opens[1..];
    YieldsStep(c, Closed, FLAG);
    SequenceRoundTrip(c, es, shared);
    PrintShared(es, opens);
    YieldsLater(c, Closed, [FLAG], Open([], 1), Print(es, shared), Open([], 1), es);
  }

  lemma PrintShared(es: seq<Octets>, opens: seq<bool>)
    requires |opens| == |es| > 0 && opens[0]
    ensures Print(es, opens) == [FLAG] + Print(es, [false] + opens[1..])
  {
    assert ([false] + opens[1..])[1..] == opens[1..];
    var rest := Print(es[1..], opens[1..]);
    assert Print(es, [false] + opens[1..]) == [] + es[0] + [FLAG] + rest;
    assert [FLAG] + es[0] + [FLAG] + rest == [FLAG] + ([] + es[0] + [FLAG] + rest);
  }

  // --- Self-synchronisation ---------------------------------------------------------------------

  // Without a format field, one flag brings the receiver from any reachable
  // state into the same open and empty state.
  lemma OneFlagSynchronises(c: Format, r: Receiver)
    requires c.Valid() && c.fff == 0 && Inv(c, r)
    ensures Step(c, r, Octet(FLAG, true)).0 == Open([], 1)
  {
  }

  // Whatever happened on the line before, with or without pool frames, every
  // frame printed after one flag is recovered.
  lemma SelfSynchronises(c: Format, noise: seq<Event>, es: seq<Octets>, opens: seq<bool>)
    requires c.Valid() && c.fff == 0 && |opens| == |es| && AllCarriable(c, es)
    ensures
      var (r, got) := Run(c, Closed, noise + Line([FLAG] + Print(es, opens)));
      r == Open([], 1) && |got| >= |es| && got[|got| - |es|..] == es
  {
    hide Run;
    hide Line;
    hide WellEncoded;
    hide Carriable;
    hide Step;
    var printed := Print(es, opens);
    NewFrameInv(c);
    RunKeepsInv(c, Closed, noise);
    var (r, before) := Run(c, Closed, noise);
    RunConcat(c, Closed, noise, Line([FLAG] + printed));
    YieldsStep(c, r, FLAG);
    OneFlagSynchronises(c, r);
    SequenceRoundTrip(c, es, opens);
    var o := Output(Step(c, r, Octet(FLAG, true)).1);
    YieldsConcat(c, r, [FLAG], Open([], 1), o, printed, Open([], 1), es);
    var got := before + (o + es);
    assert got[|got| - |es|..] == es;
  }

  // --- The whole wire ------------------------------------------------------------------------------

  ghost predicate Sendable(c: Format, hdlc: Octets) {
    Encode(c, hdlc).Some? && |hdlc| + c.fff + c.fcs < 0x1_0000
  }

  lemma EncodedIsWellEncoded(c: Format, hdlc: Octets)
    requires c.Shape() && Sendable(c, hdlc)
    ensures WellEncoded(c, Encode(c, hdlc).value)
    ensures c.transparent ==> NoFlag(Encode(c, hdlc).value)
  {
    hide Stuff;
    hide WithFcs;
    hide Image;
    hide WellEncoded;
    if c.transparent {
      StuffRoundTrip(WithFcs(c, Image(c, hdlc).value));
      NoFieldNeeded(c, Encode(c, hdlc).value);
    } else {
      SentIsWellEncoded(c, hdlc);
    }
  }

  lemma NoFieldNeeded(c: Format, e: Octets)
    requires c.fff == 0
    ensures WellEncoded(c, e)
  {
  }

  function Encoded(c: Format, hdlcs: seq<Octets>): (es: seq<Octets>)
    requires forall i :: 0 <= i < |hdlcs| ==> Encode(c, hdlcs[i]).Some?
    ensures |es| == |hdlcs| && forall i :: 0 <= i < |es| ==> es[i] == Encode(c, hdlcs[i]).value
  {
    seq(|hdlcs|, i requires 0 <= i < |hdlcs| => Encode(c, hdlcs[i]).value)
  }

  ghost predicate AllSendable(c: Format, hdlcs: seq<Octets>) {
    forall i :: 0 <= i < |hdlcs| ==> Sendable(c, hdlcs[i]) && Carriable(c, Encode(c, hdlcs[i]).value)
  }

  // What was sent is received: the receiving driver returns every frame, in
  // order, with its format field in front and without the FCS.
  lemma WireRoundTrip(c: Format, hdlcs: seq<Octets>, opens: seq<bool>)
    requires c.Valid() && |opens| == |hdlcs| > 0 && opens[0] && AllSendable(c, hdlcs)
    ensures
      var (r, got) := Run(c, Closed, Line(Print(Encoded(c, hdlcs), opens)));
      && r == Open([], 1) && |got| == |hdlcs|
      && forall i :: 0 <= i < |got| ==> Accept(c, got[i]) == Image(c, hdlcs[i])
  {
    hide Run;
    hide Line;
    hide Encode;
    hide Accept;
    hide Image;
    hide WellEncoded;
    hide Carriable;
    var es := Encoded(c, hdlcs);
    forall i | 0 <= i < |hdlcs|
      ensures WellEncoded(c, es[i]) && Accept(c, es[i]) == Image(c, hdlcs[i])
    {
      EncodedIsWellEncoded(c, hdlcs[i]);
      EncodeHasImage(c, hdlcs[i]);
      AcceptsEncoded(c, hdlcs[i]);
    }
    FromClosed(c, es, opens);
  }

  lemma EncodeHasImage(c: Format, hdlc: Octets)
    ensures Encode(c, hdlc).Some? <==> Image(c, hdlc).Some?
  {
  }
}
