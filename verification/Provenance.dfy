// Where the frames that the parser hands over come from, and what interrupts
// one.
module Provenance {
  import opened Bytes
  import opened Wrappers
  import opened Framing
  import opened Receiver

  // The events are octets, and these.
  ghost predicate Spells(es: seq<Event>, s: Octets) {
    |es| == |s| && forall i :: 0 <= i < |es| ==> es[i].Octet? && es[i].b == s[i]
  }

  // A flag was the last octet, and since then the line has been idle.
  ghost predicate AfterFlag(es: seq<Event>)
    decreases |es|
  {
    && es != []
    && var e := es[|es| - 1];
    && (if e.Octet? then e.b == FLAG else e.Timeout? && AfterFlag(es[..|es| - 1]))
  }

  // What has been collected came, without a break, behind a flag.
  ghost predicate Traced(es: seq<Event>, s: Octets) {
    |s| <= |es| && Spells(es[|es| - |s|..], s) && AfterFlag(es[..|es| - |s|])
  }

  lemma TracedNext(es: seq<Event>, s: Octets, e: Event)
    requires Traced(es, s) && e.Octet?
    ensures Traced(es + [e], s + [e.b])
  {
    var k := |es| - |s|;
    assert (es + [e])[k..] == es[k..] + [e] && (es + [e])[..k] == es[..k];
  }

  lemma AfterNext(es: seq<Event>, e: Event)
    requires (e.Octet? && e.b == FLAG) || (e.Timeout? && AfterFlag(es))
    ensures AfterFlag(es + [e])
  {
    assert (es + [e])[..|es|] == es;
  }

  lemma NothingTraced(es: seq<Event>)
    ensures AfterFlag(es) <==> Traced(es, [])
  {
    assert es[|es|..] == [] && es[..|es|] == es;
  }

  // The state after the events, and what the last of them handed over.
  lemma StepTraces(c: Format, es: seq<Event>, r: Receiver, e: Event)
    requires r.Open? ==> r.need >= 1 && Traced(es, r.got)
    ensures
      var (q, o) := Step(c, r, e);
      && (q.Open? ==> q.need >= 1 && Traced(es + [e], q.got))
      && (o.Some? ==> Traced(es, o.value) && e.Octet? && e.b == FLAG)
  {
    hide Sixteen;
    hide TwelveBits;
    hide AfterFlag;
    hide Traced;
    NothingTraced(es);
    NothingTraced(es + [e]);
    if e.Octet? && e.b == FLAG {
      AfterNext(es, e);
    }
    if r.Open? && e.Octet? {
      TracedNext(es, r.got, e);
      assert (r.got + [e.b])[..|r.got|] == r.got;
    }
    if r.Open? && e.Timeout? && r.got == [] {
      AfterNext(es, e);
    }
  }

  // The run on one more event.
  lemma RunSnoc(c: Format, r: Receiver, es: seq<Event>, e: Event)
    ensures
      var (q, o) := Step(c, Run(c, r, es).0, e);
      Run(c, r, es + [e]).0 == q && Run(c, r, es + [e]).1 == Run(c, r, es).1 + Output(o)
  {
    hide Step;
    hide Output;
    RunConcat(c, r, es, [e]);
    var q := Run(c, r, es).0;
    assert [e][1..] == [];
    assert Run(c, q, [e]).1 == Output(Step(c, q, e).1) + [];
  }

  lemma {:induction false} RunTraces(c: Format, es: seq<Event>)
    ensures
      var r := Run(c, Closed, es).0;
      r.Open? ==> r.need >= 1 && Traced(es, r.got)
    decreases |es|
  {
    hide Step;
    hide Traced;
    if es != [] {
      var n := |es| - 1;
      RunTraces(c, es[..n]);
      assert es == es[..n] + [es[n]];
      RunSnoc(c, Closed, es[..n], es[n]);
      StepTraces(c, es[..n], Run(c, Closed, es[..n]).0, es[n]);
    }
  }

  // Every frame handed over is what stood between two flags: the octets of an
  // unbroken stretch, without timeout or line error, the flag before it (and
  // possibly an idle line) and the flag behind it.
  lemma HandedOverStoodBetweenFlags(c: Format, es: seq<Event>, e: Event)
    ensures
      var (q, o) := Step(c, Run(c, Closed, es).0, e);
      && Run(c, Closed, es + [e]).1 == Run(c, Closed, es).1 + Output(o)
      && (o.Some? ==> Traced(es, o.value) && e.Octet? && e.b == FLAG)
  {
    hide Step;
    hide Traced;
    hide AfterFlag;
    RunTraces(c, es);
    RunSnoc(c, Closed, es, e);
    StepTraces(c, es, Run(c, Closed, es).0, e);
  }

  // A pool frame is under construction only if one was just taken, or the one
  // before has not been handed over; an error always gives it up.
  lemma OneBufferAtATime(c: Format, r: Receiver, e: Event)
    ensures
      var (q, o) := Step(c, r, e);
      && (q.Open? ==> (e.Octet? && e.b == FLAG && e.frameFree) || (r.Open? && o.None?))
      && (o.Some? ==> r.Open? && o.value == r.got)
      && (e.LineError? ==> !q.Open? && o.None?)
  {
    hide Sixteen;
    hide TwelveBits;
    if r.Open? && e.Octet? {
      assert (r.got + [e.b])[..|r.got|] == r.got;
    }
  }

  function Idle(n: nat): seq<Event> { seq(n, _ => Timeout) }

  lemma {:induction false} IdleChangesNothing(c: Format, n: nat)
    ensures Run(c, Open([], 1), Idle(n)) == (Open([], 1), [])
  {
    if n > 0 {
      IdleChangesNothing(c, n - 1);
      assert Idle(n)[1..] == Idle(n - 1);
      assert Output(None) + [] == [];
    }
  }

  // An idle line between two frames does not cost the flag they share.
  lemma IdleKeepsTheFlag(c: Format, n: nat, e: Octets)
    requires c.Shape() && WellEncoded(c, e) && Carriable(c, e) && |e| <= 0xFFFF
    ensures Run(c, Open([], 1), Idle(n) + Line(e + [FLAG])) == (Open([], 1), [e])
  {
    hide Run;
    hide WellEncoded;
    hide Carriable;
    IdleChangesNothing(c, n);
    RunConcat(c, Open([], 1), Idle(n), Line(e + [FLAG]));
    FrameRoundTrip(c, e);
    assert [] + [e] == [e];
  }
}
