// One frame all the way: from the buffer the sending core queues, through the
// driver, a port that sends the contiguous image and the parser, to what the
// receiving driver returns, with every length in the sixteen bits it has there.
module Carriage {
  import opened Bytes
  import opened Wrappers
  import opened Framing
  import opened Receiver
  import Fcs

  // What the port sends for a frame whose buffer holds `hdlc` behind the format
  // field; nothing after EMSGSIZE.
  function Port(c: Format, hdlc: Octets): Octets {
    var elen := Sixteen(c.fff + |hdlc|);
    if elen < c.fff then []
    else
      match Image(c, hdlc[..elen - c.fff])
      case None => []
      case Some(image) => Sent(c, image)
  }

  // What the receiving driver makes of the frames its parser hands over.
  function Returned(c: Format, raws: seq<Octets>): seq<Octets> {
    if raws == [] then []
    else (if Accept(c, raws[0]).Some? then [Accept(c, raws[0]).value] else []) + Returned(c, raws[1..])
  }

  // The parser, open behind a flag, with pool frames to spare.
  function HandedOver(c: Format, hdlc: Octets): seq<Octets> {
    Run(c, Open([], 1), Line(Port(c, hdlc))).1
  }

  function Delivered(c: Format, hdlc: Octets): seq<Octets> {
    Returned(c, HandedOver(c, hdlc))
  }

  // The frame arrives as it was, and nothing else does.
  ghost predicate Arrives(c: Format, hdlc: Octets) {
    Image(c, hdlc).Some? && Delivered(c, hdlc) == [Image(c, hdlc).value]
  }

  // --- What can come out of a short line ---------------------------------------------

  lemma StepBound(c: Format, r: Receiver, b: bv8)
    ensures
      var (q, o) := Step(c, r, Octet(b, true));
      && Held(q) <= Held(r) + 1
      && (o.Some? ==> MIN_LENGTH <= |o.value| == Held(r))
  {
    hide Sixteen;
    hide TwelveBits;
  }

  function Held(r: Receiver): nat { if r.Open? then |r.got| else 0 }

  // A frame handed over is shorter than what was on the line, and not too short.
  lemma {:induction false} HandedOverBound(c: Format, r: Receiver, s: Octets)
    ensures forall f :: f in Run(c, r, Line(s)).1 ==> MIN_LENGTH <= |f| < Held(r) + |s|
    ensures Held(r) + |s| <= MIN_LENGTH ==> Run(c, r, Line(s)).1 == []
    decreases |s|
  {
    hide Step;
    if s != [] {
      var e := Octet(s[0], true);
      assert Line(s)[0] == e && Line(s)[1..] == Line(s[1..]);
      StepBound(c, r, s[0]);
      HandedOverBound(c, Step(c, r, e).0, s[1..]);
    }
  }

  lemma {:induction false} SilentWhenClosed(c: Format, s: Octets)
    requires NoFlag(s)
    ensures Run(c, Closed, Line(s + [FLAG])).1 == []
    decreases |s|
  {
    if s == [] {
      assert s + [FLAG] == [FLAG] && Line([FLAG]) == [Octet(FLAG, true)];
      assert Run(c, Open([], 1), [Octet(FLAG, true)][1..]).1 == [];
    } else {
      var t := s + [FLAG];
      assert t[1..] == s[1..] + [FLAG] && t[0] == s[0];
      assert Line(t)[0] == Octet(s[0], true) && Line(t)[1..] == Line(t[1..]);
      SilentWhenClosed(c, s[1..]);
    }
  }

  // Without a format field, octets without a flag and then a flag give one frame
  // or none.
  lemma {:induction false} OneOrNone(c: Format, got: Octets, s: Octets)
    requires c.fff == 0 && NoFlag(s)
    ensures forall f :: f in Run(c, Open(got, 1), Line(s + [FLAG])).1 ==> f == got + s
    decreases |s|
  {
    hide Sixteen;
    var t := s + [FLAG];
    if s == [] {
      assert t == [FLAG] && got + s == got && (got + [FLAG])[..|got|] == got;
      YieldsStep(c, Open(got, 1), FLAG);
    } else {
      assert t[1..] == s[1..] + [FLAG] && t[0] == s[0];
      assert Line(t)[0] == Octet(s[0], true) && Line(t)[1..] == Line(t[1..]);
      var g := got + [s[0]];
      assert g + s[1..] == got + s;
      OneOrNone(c, g, s[1..]);
      SilentWhenClosed(c, s[1..]);
      assert Step(c, Open(got, 1), Octet(s[0], true)).1 == None;
      var q := Step(c, Open(got, 1), Octet(s[0], true)).0;
      assert q == Open(g, 1) || q == Closed;
    }
  }

  // --- When a frame arrives ------------------------------------------------------------------

  lemma {:induction false} ReturnedFrom(c: Format, raws: seq<Octets>, x: Octets)
    requires Returned(c, raws) == [x]
    ensures exists f :: f in raws && Accept(c, f) == Some(x)
    decreases |raws|
  {
    hide Accept;
    if Accept(c, raws[0]).Some? {
      assert Returned(c, raws)[0] == Accept(c, raws[0]).value;
      assert raws[0] in raws;
    } else {
      assert Returned(c, raws) == Returned(c, raws[1..]);
      ReturnedFrom(c, raws[1..], x);
    }
  }

  lemma ReturnedOne(c: Format, f: Octets)
    ensures Returned(c, [f]) == if Accept(c, f).Some? then [Accept(c, f).value] else []
  {
    hide Accept;
    assert [f][1..] == [];
  }

  // What is accepted as an image is as long as the image with its FCS.
  lemma AcceptedLength(c: Format, f: Octets, image: Octets)
    requires c.Shape() && Accept(c, f) == Some(image)
    ensures |image| + c.fcs == |Decode(c, f)| <= |f|
    ensures !c.transparent ==> f == WithFcs(c, image)
  {
    hide Fcs.Check;
    hide Fcs.FcsOctets;
    hide Destuff;
    hide LengthAgrees;
    DestuffShortens(f);
    if c.fcs == 2 {
      AcceptedIsIntact(c, f);
    } else {
      assert f[..|f|] == f;
    }
  }

  // A frame short enough is put on the line as it is.
  lemma PortWhole(c: Format, hdlc: Octets)
    requires c.Shape() && Image(c, hdlc).Some?
    requires c.fff + |hdlc| <= 0xFFFF
    ensures Port(c, hdlc) == Sent(c, Image(c, hdlc).value)
  {
    hide Sent;
    assert hdlc[..|hdlc|] == hdlc;
  }

  lemma ImageLength(c: Format, hdlc: Octets)
    requires c.Shape() && Image(c, hdlc).Some?
    ensures |Image(c, hdlc).value| == c.fff + |hdlc|
    ensures |WithFcs(c, Image(c, hdlc).value)| == c.fff + |hdlc| + c.fcs
    ensures |WithFcs(c, Image(c, hdlc).value)| <= |Encode(c, hdlc).value|
  {
    hide Fcs.FcsOctets;
    hide Stuff;
    EmitLength(c, |hdlc|);
    FcsLength(Image(c, hdlc).value);
    StuffRoundTrip(WithFcs(c, Image(c, hdlc).value));
  }

  // Enough for a frame to arrive, whatever the size of the pool's frames.
  lemma CarriedArrives(c: Format, hdlc: Octets)
    requires c.Shape() && Encode(c, hdlc).Some? && Carriable(c, Encode(c, hdlc).value)
    requires |Encode(c, hdlc).value| + 1 <= 0xFFFF
    ensures Arrives(c, hdlc)
  {
    hide Run;
    hide Line;
    hide Image;
    hide Encode;
    hide Accept;
    hide Carriable;
    hide WellEncoded;
    hide WithFcs;
    hide Sent;
    hide Port;
    var e := Encode(c, hdlc).value;
    EncodeHasImage(c, hdlc);
    ImageLength(c, hdlc);
    PortWhole(c, hdlc);
    SentIsEncoded(c, hdlc);
    EncodedIsWellEncoded(c, hdlc);
    FrameRoundTrip(c, e);
    AcceptsEncoded(c, hdlc);
    ReturnedOne(c, e);
  }

  lemma SentIsEncoded(c: Format, hdlc: Octets)
    requires Encode(c, hdlc).Some?
    ensures
      Sent(c, Image(c, hdlc).value) == Encode(c, hdlc).value + [FLAG] <==> |Encode(c, hdlc).value| + 1 <= 0xFFFF
  {
    hide Sent;
    hide WithFcs;
    hide Stuff;
    SentWholeIff(c, Image(c, hdlc).value);
  }

  // A frame that arrives was sent whole and handed over as it was encoded.
  lemma ArrivedWasSent(c: Format, hdlc: Octets)
    requires c.Shape() && Arrives(c, hdlc)
    ensures Encode(c, hdlc).Some? && |Encode(c, hdlc).value| + 1 <= 0xFFFF
    ensures Encode(c, hdlc).value in HandedOver(c, hdlc)
    ensures |hdlc| + c.fff + c.fcs <= 0xFFFF
  {
    hide Run;
    hide Line;
    hide Accept;
    hide WithFcs;
    hide Stuff;
    hide Sent;
    hide Image;
    hide Sixteen;
    hide Decode;
    hide Port;
    var image := Image(c, hdlc).value;
    var s := WithFcs(c, image);
    ImageLength(c, hdlc);
    ReturnedFrom(c, HandedOver(c, hdlc), image);
    var f :| f in HandedOver(c, hdlc) && Accept(c, f) == Some(image);
    AcceptedLength(c, f, image);
    HandedOverBound(c, Open([], 1), Port(c, hdlc));
    PortBound(c, hdlc);
    PortWhole(c, hdlc);
    if c.transparent {
      StuffedArrival(c, image, f);
    } else {
      SentWholeIff(c, image);
    }
  }

  lemma PortBound(c: Format, hdlc: Octets)
    ensures |Port(c, hdlc)| <= 0xFFFF
  {
    hide Sent;
    hide Image;
    var elen := Sixteen(c.fff + |hdlc|);
    if elen >= c.fff && Image(c, hdlc[..elen - c.fff]).Some? {
      SentWholeIff(c, Image(c, hdlc[..elen - c.fff]).value);
    }
  }

  // The part of an encoding that sixteen bits leave never decodes to the whole.
  lemma StuffedArrival(c: Format, image: Octets, f: Octets)
    requires c.Shape() && c.transparent && f in Run(c, Open([], 1), Line(Sent(c, image))).1
    requires |WithFcs(c, image)| <= |f| && |WithFcs(c, image)| <= 0xFFFF
    ensures f == Stuff(WithFcs(c, image)) && |f| + 1 <= 0xFFFF
  {
    hide Run;
    hide Line;
    hide WithFcs;
    hide Stuff;
    hide Sixteen;
    var s := WithFcs(c, image);
    var e := Stuff(s);
    var d := Sixteen(|e|);
    assert s[..|s|] == s;
    StuffRoundTrip(s);
    StuffAtMostDoubles(s);
    HandedOverBound(c, Open([], 1), Sent(c, image));
    var line := e[..d] + [FLAG];
    assert Sent(c, image) == line[..Sixteen(d + 1)];
    assert d + 1 <= 0xFFFF;
    assert line[..d + 1] == line;
    OneOrNone(c, [], e[..d]);
    assert [] + e[..d] == e[..d];
    assert e[..|e|] == e;
  }

  // What has been collected never starts with a flag and, without a format field,
  // never contains one, whatever the size of the pool's frames.
  ghost predicate FlagFree(c: Format, r: Receiver) {
    r.Open? ==>
      && (r.got == [] ==> r.need == 1)
      && (r.got != [] ==> r.got[0] != FLAG)
      && (c.fff == 0 ==> r.need == 1 && NoFlag(r.got))
  }

  lemma StepFlagFree(c: Format, r: Receiver, b: bv8)
    requires FlagFree(c, r)
    ensures FlagFree(c, Step(c, r, Octet(b, true)).0)
    ensures Step(c, r, Octet(b, true)).1.Some? ==>
      var f := Step(c, r, Octet(b, true)).1.value;
      f != [] && f[0] != FLAG && (c.fff == 0 ==> NoFlag(f))
  {
    hide Sixteen;
    hide TwelveBits;
    if r.Open? {
      var g := r.got + [b];
      assert g[..|r.got|] == r.got;
      assert r.got != [] ==> g[0] == r.got[0];
    }
  }

  lemma {:induction false} HandedOverFlagFree(c: Format, r: Receiver, s: Octets)
    requires FlagFree(c, r)
    ensures forall f :: f in Run(c, r, Line(s)).1 ==> f != [] && f[0] != FLAG && (c.fff == 0 ==> NoFlag(f))
    decreases |s|
  {
    hide Step;
    hide FlagFree;
    if s != [] {
      assert Line(s)[0] == Octet(s[0], true) && Line(s)[1..] == Line(s[1..]);
      StepFlagFree(c, r, s[0]);
      HandedOverFlagFree(c, Step(c, r, Octet(s[0], true)).0, s[1..]);
    }
  }

  // What is handed over can be carried, up to the size of the pool's frames.
  lemma HandedOverCarriable(c: Format, hdlc: Octets, e: Octets)
    requires e in HandedOver(c, hdlc) && WellEncoded(c, e) && |e| < c.frameSize
    ensures Carriable(c, e)
  {
    hide Run;
    hide Line;
    hide Port;
    HandedOverBound(c, Open([], 1), Port(c, hdlc));
    HandedOverFlagFree(c, Open([], 1), Port(c, hdlc));
    FlagValue(e[0]);
  }

  // A frame arrives if and only if it can be encoded, its encoding can be carried,
  // and with its flag fits the transmit length.
  lemma ArrivesIff(c: Format, hdlc: Octets)
    requires c.Shape() && c.frameSize >= 2
    ensures Arrives(c, hdlc) <==>
      Encode(c, hdlc).Some? && Carriable(c, Encode(c, hdlc).value) && |Encode(c, hdlc).value| + 1 <= 0xFFFF
  {
    hide Arrives;
    hide Encode;
    hide WellEncoded;
    hide HandedOver;
    if Arrives(c, hdlc) {
      ArrivedWasSent(c, hdlc);
      var e := Encode(c, hdlc).value;
      EncodedIsWellEncoded(c, hdlc);
      if c.frameSize <= 0xFFFF {
        CarriableIff(c, e);
        HandedOverIsRun(c, hdlc);
      } else {
        HandedOverCarriable(c, hdlc, e);
      }
    } else if Encode(c, hdlc).Some? && Carriable(c, Encode(c, hdlc).value) && |Encode(c, hdlc).value| + 1 <= 0xFFFF {
      CarriedArrives(c, hdlc);
    }
  }

  lemma HandedOverIsRun(c: Format, hdlc: Octets)
    ensures HandedOver(c, hdlc) == Run(c, Open([], 1), Line(Port(c, hdlc))).1
  {
  }
}
