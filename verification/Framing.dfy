// What one frame looks like between its flags: frame format field, FCS-16 and
// octet stuffing, and what the receiving driver accepts.
module Framing {
  import opened Bytes
  import opened Wrappers
  import Fcs

  const ESC: bv8 := 0x7D
  const MIN_LENGTH := 4

  // `fff` and `fcs` are sizes in octets; `frameSize` is the size of a pool frame.
  datatype Format = Format(fff: nat, fcs: nat, transparent: bool, frameSize: nat)
  {
    predicate Shape() {
      && fff <= 2
      && (fcs == 0 || fcs == 2)
      && (transparent ==> fff == 0)
    }

    predicate Valid() {
      && Shape()
      && 2 <= frameSize <= 0xFFFF
    }
  }

  // Frame lengths are kept in sixteen bits.
  function Sixteen(n: nat): (r: nat)
    ensures r <= 0xFFFF
    ensures n <= 0xFFFF ==> r == n
    ensures n > 0xFFFF ==> r <= n - 0x1_0000
  {
    n % 0x1_0000
  }

  predicate NoFlag(s: Octets) { forall i :: 0 <= i < |s| ==> s[i] != FLAG }

  // --- Octet stuffing ----------------------------------------------------------

  function Mask(b: bv8): bv8 { b ^ 0x20 }

  predicate Special(b: bv8) { b == FLAG || b == ESC }

  function Stuff(s: Octets): Octets
    decreases |s|
  {
    if s == [] then []
    else (if Special(s[0]) then [ESC, Mask(s[0])] else [s[0]]) + Stuff(s[1..])
  }

  // A trailing escape takes the flag behind the frame as its second octet.
  function Destuff(s: Octets): Octets
    decreases |s|
  {
    if s == [] then []
    else if s[0] != ESC then [s[0]] + Destuff(s[1..])
    else if |s| == 1 then [Mask(FLAG)]
    else [Mask(s[1])] + Destuff(s[2..])
  }

  lemma MaskFacts(b: bv8)
    ensures Mask(Mask(b)) == b
    ensures Special(b) ==> !Special(Mask(b))
    ensures Special(FLAG)
  {
  }

  lemma {:induction false} StuffRoundTrip(s: Octets)
    ensures Destuff(Stuff(s)) == s && NoFlag(Stuff(s))
    ensures |s| <= |Stuff(s)|
    decreases |s|
  {
    hide Mask;
    if s != [] {
      MaskFacts(s[0]);
      StuffRoundTrip(s[1..]);
      var t := Stuff(s[1..]);
      if Special(s[0]) {
        assert Stuff(s) == [ESC, Mask(s[0])] + t;
        assert Stuff(s)[2..] == t;
      } else {
        assert Stuff(s) == [s[0]] + t;
        assert Stuff(s)[1..] == t;
      }
      assert [s[0]] + s[1..] == s;
    }
  }

  lemma {:induction false} StuffConcat(s: Octets, t: Octets)
    ensures Stuff(s + t) == Stuff(s) + Stuff(t)
    decreases |s|
  {
    hide Mask;
    if s == [] {
      assert s + t == t;
    } else {
      assert (s + t)[1..] == s[1..] + t;
      StuffConcat(s[1..], t);
    }
  }

  // What goes on the line for one octet.
  function Escaped(b: bv8): Octets {
    if b == 0x7E then [0x7D, 0x5E] else if b == 0x7D then [0x7D, 0x5D] else [b]
  }

  lemma EscapedOctet(b: bv8)
    ensures Stuff([b]) == Escaped(b)
  {
    assert Special(b) <==> b == 0x7E || b == 0x7D;
    assert Mask(0x7E) == 0x5E && Mask(0x7D) == 0x5D;
    assert [b][1..] == [];
  }

  // On the line a flag is 7D 5E and an escape 7D 5D, wherever they stand; every
  // other octet is itself.
  lemma OctetsOnTheLine(s: Octets, b: bv8, t: Octets)
    ensures Stuff(s + [b] + t) == Stuff(s) + Escaped(b) + Stuff(t)
  {
    hide Stuff;
    hide Escaped;
    StuffConcat(s + [b], t);
    StuffConcat(s, [b]);
    EscapedOctet(b);
  }

  // The octets end inside an escape sequence.
  predicate EndsOpen(s: Octets)
    decreases |s|
  {
    s != [] && (if s[0] != ESC then EndsOpen(s[1..]) else |s| == 1 || EndsOpen(s[2..]))
  }

  lemma {:induction false} DestuffConcat(s: Octets, t: Octets)
    requires !EndsOpen(s)
    ensures Destuff(s + t) == Destuff(s) + Destuff(t)
    decreases |s|
  {
    hide Mask;
    if s == [] {
      assert s + t == t;
    } else if s[0] != ESC {
      assert (s + t)[1..] == s[1..] + t;
      DestuffConcat(s[1..], t);
    } else {
      assert (s + t)[2..] == s[2..] + t;
      DestuffConcat(s[2..], t);
    }
  }

  // Bit five the other way round.
  function Toggled(b: bv8): bv8 { if b & 0x20 == 0 then b + 0x20 else b - 0x20 }

  lemma OneDecoded(b: bv8)
    ensures b != 0x7D ==> Destuff([b]) == [b]
    ensures Destuff([0x7D, b]) == [Toggled(b)]
    ensures Destuff([0x7D]) == [0x5E]
    ensures !EndsOpen([0x7D, b]) && (b != 0x7D ==> !EndsOpen([b]))
  {
    assert [b][1..] == [] && [ESC, b][2..] == [];
    assert Mask(b) == Toggled(b) && Mask(FLAG) == 0x5E;
  }

  // What the decoder makes of any octets whatever, encoded or not: an escape
  // toggles bit five of the octet behind it, and one in the last place takes the
  // closing flag for that octet.
  lemma OctetsDecoded(s: Octets, b: bv8, t: Octets)
    requires !EndsOpen(s)
    ensures b != 0x7D ==> Destuff(s + ([b] + t)) == Destuff(s) + ([b] + Destuff(t))
    ensures Destuff(s + ([0x7D, b] + t)) == Destuff(s) + ([Toggled(b)] + Destuff(t))
    ensures Destuff(s + [0x7D]) == Destuff(s) + [0x5E]
  {
    hide Destuff;
    hide EndsOpen;
    hide Toggled;
    OneDecoded(b);
    DestuffConcat(s, [b] + t);
    DestuffConcat(s, [0x7D, b] + t);
    DestuffConcat(s, [0x7D]);
    DestuffConcat([0x7D, b], t);
    if b != 0x7D { DestuffConcat([b], t); }
  }

  lemma {:induction false} StuffedFlags(n: nat)
    ensures |Stuff(seq(n, _ => FLAG))| == 2 * n
  {
    hide Mask;
    if n > 0 {
      StuffedFlags(n - 1);
      assert seq(n, _ => FLAG)[1..] == seq(n - 1, _ => FLAG);
    }
  }

  lemma {:induction false} StuffAtMostDoubles(s: Octets)
    ensures |Stuff(s)| <= 2 * |s|
    decreases |s|
  {
    hide Mask;
    if s != [] {
      StuffAtMostDoubles(s[1..]);
    }
  }

  lemma {:induction false} DestuffShortens(s: Octets)
    ensures |Destuff(s)| <= |s|
    decreases |s|
  {
    hide Mask;
    if s != [] {
      DestuffShortens(s[1..]);
      if |s| > 1 {
        DestuffShortens(s[2..]);
      }
    }
  }

  // --- The frame format field -------------------------------------------------------

  // The octet with a given value.
  function ToOctet(n: nat): (b: bv8)
    requires n < 0x100
    ensures b as nat == n
  {
    if n == 0 then 0 else ToOctet(n - 1) + 1
  }

  // The total length counts the field itself and the FCS, in sixteen bits.
  function TotalLength(c: Format, payloadLen: nat): nat {
    Sixteen(payloadLen + c.fff + c.fcs)
  }

  // None is the error EMSGSIZE.  The bits the code masks out of the sixteen-bit
  // total are bit 7 and up for TYPE0, bit 12 and up for TYPE1.
  function EmitFff(c: Format, payloadLen: nat): (r: Option<Octets>)
    ensures r.Some? && c.fff <= 2 ==> |r.value| == c.fff
  {
    var total := TotalLength(c, payloadLen);
    if c.fff == 1 then
      (if total >= 0x80 then None else Some([ToOctet(total)]))
    else if c.fff == 2 then
      (if total >= 0x1000 then None
       else Some([0x80 | ToOctet(total / 256), ToOctet(total % 256)]))
    else Some([])
  }

  function TwelveBits(first: bv8, second: bv8): nat {
    ((first & 0x0F) as nat) * 256 + second as nat
  }

  // What the receiver reads back; the second octet matters only if bit 7 is set.
  function Declared(first: bv8, second: bv8): nat {
    if first & 0x80 != 0 then TwelveBits(first, second) else first as nat
  }

  lemma EmitSomeIff(c: Format, payloadLen: nat)
    ensures EmitFff(c, payloadLen).Some? <==>
      (c.fff == 1 ==> TotalLength(c, payloadLen) < 0x80) && (c.fff == 2 ==> TotalLength(c, payloadLen) < 0x1000)
  {
    hide TotalLength;
  }

  // The field is accepted exactly when it can state the length, and then states it.
  lemma FffStatesLength(c: Format, payloadLen: nat)
    requires c.Shape() && c.fff > 0
    ensures
      var n := TotalLength(c, payloadLen);
      var r := EmitFff(c, payloadLen);
      && (r.Some? <==> n < (if c.fff == 1 then 0x80 else 0x1000))
      && (r.Some? && c.fff == 1 ==> r.value[0] & 0x80 == 0 && r.value[0] as nat == n)
      && (r.Some? && c.fff == 2 ==> r.value[0] & 0xF0 == 0x80 && Declared(r.value[0], r.value[1]) == n)
  {
    hide TotalLength;
    hide EmitFff;
    hide Declared;
    if c.fff == 1 {
      Type0States(c, payloadLen);
    } else {
      Type1States(c, payloadLen);
    }
  }

  lemma Type0States(c: Format, payloadLen: nat)
    requires c.fff == 1
    ensures
      var n := TotalLength(c, payloadLen);
      var r := EmitFff(c, payloadLen);
      && (r.Some? <==> n < 0x80)
      && (r.Some? ==> r.value[0] & 0x80 == 0 && r.value[0] as nat == n)
  {
    hide TotalLength;
    var n := TotalLength(c, payloadLen);
    if n < 0x80 {
      SmallOctet(ToOctet(n));
    }
  }

  lemma Type1States(c: Format, payloadLen: nat)
    requires c.fff == 2
    ensures
      var n := TotalLength(c, payloadLen);
      var r := EmitFff(c, payloadLen);
      && (r.Some? <==> n < 0x1000)
      && (r.Some? ==> r.value[0] & 0xF0 == 0x80 && Declared(r.value[0], r.value[1]) == n)
  {
    hide TotalLength;
    hide Declared;
    var n := TotalLength(c, payloadLen);
    if n < 0x1000 {
      DeclaredLong(ToOctet(n / 256), ToOctet(n % 256));
    }
  }

  lemma DeclaredLong(x: bv8, y: bv8)
    requires x as nat < 0x10
    ensures (0x80 | x) & 0xF0 == 0x80 && Declared(0x80 | x, y) == x as nat * 256 + y as nat
  {
    SmallOctet(x);
    HighNibble(x);
  }

  lemma SmallOctet(b: bv8)
    ensures b as nat < 0x80 ==> b & 0x80 == 0
    ensures b as nat < 0x10 <==> b < 0x10
  {
  }

  lemma HighNibble(x: bv8)
    requires x < 0x10
    ensures (0x80 | x) & 0x0F == x && (0x80 | x) & 0x80 != 0 && (0x80 | x) & 0xF0 == 0x80
  {
  }

  // --- One frame -----------------------------------------------------------------------

  // The frame as the sender's buffer holds it before the FCS: format field,
  // then address, control and information.
  function Image(c: Format, hdlc: Octets): Option<Octets> {
    match EmitFff(c, |hdlc|)
    case None => None
    case Some(f) => Some(f + hdlc)
  }

  function WithFcs(c: Format, image: Octets): Octets {
    if c.fcs == 0 then image else image + Fcs.FcsOctets(image)
  }

  // The octets between two flags.
  function Encode(c: Format, hdlc: Octets): Option<Octets> {
    match Image(c, hdlc)
    case None => None
    case Some(image) => Some(if c.transparent then Stuff(WithFcs(c, image)) else WithFcs(c, image))
  }

  function Decode(c: Format, raw: Octets): Octets {
    if c.transparent then Destuff(raw) else raw
  }

  predicate LengthAgrees(c: Format, s: Octets) {
    c.fff == 0 || |s| == 0 || Declared(s[0], if |s| > 1 then s[1] else 0) == |s|
  }

  // What the receiving driver makes of the octets the parser handed over; None
  // is a frame dropped.
  function Accept(c: Format, raw: Octets): Option<Octets> {
    var s := Decode(c, raw);
    if (c.fcs == 0 || Fcs.Check(s)) && LengthAgrees(c, s) && |s| >= c.fcs
    then Some(s[..|s| - c.fcs])
    else None
  }

  // Every frame that can be encoded is accepted, without the FCS and with the
  // format field in front, as long as its length fits sixteen bits.
  lemma AcceptsEncoded(c: Format, hdlc: Octets)
    requires c.Shape() && Encode(c, hdlc).Some?
    requires |hdlc| + c.fff + c.fcs < 0x1_0000
    ensures Accept(c, Encode(c, hdlc).value) == Some(Image(c, hdlc).value)
  {
    hide Fcs.Check;
    hide Fcs.FcsOctets;
    hide Stuff;
    hide Destuff;
    hide LengthAgrees;
    hide Image;
    var image := Image(c, hdlc).value;
    var s := WithFcs(c, image);
    StuffRoundTrip(s);
    FcsLength(image);
    Fcs.AppendedFcsPasses(image);
    SentLengthAgrees(c, hdlc);
    assert s[..|s| - c.fcs] == image;
  }

  // An encoded frame: its length field, if it has one, is right.
  ghost predicate WellEncoded(c: Format, e: Octets) {
    && (c.fff == 1 ==> |e| >= 1 && ShortField(e[0], |e|))
    && (c.fff == 2 ==> |e| >= 2 && LongField(e[0], e[1], |e|))
  }

  ghost predicate ShortField(first: bv8, n: nat) {
    first & 0x80 == 0 && first as nat == n
  }

  ghost predicate LongField(first: bv8, second: bv8, n: nat) {
    first & 0xF0 == 0x80 && Declared(first, second) == n
  }

  lemma SentIsWellEncoded(c: Format, hdlc: Octets)
    requires c.Shape() && Image(c, hdlc).Some?
    requires |hdlc| + c.fff + c.fcs < 0x1_0000
    ensures WellEncoded(c, WithFcs(c, Image(c, hdlc).value))
  {
    hide Fcs.FcsOctets;
    hide ShortField;
    hide LongField;
    hide EmitFff;
    if c.fff > 0 {
      var s := WithFcs(c, Image(c, hdlc).value);
      var f := EmitFff(c, |hdlc|).value;
      FcsLength(Image(c, hdlc).value);
      EmitLength(c, |hdlc|);
      EmittedField(c, |hdlc|);
      assert s[0] == f[0];
      assert c.fff == 2 ==> s[1] == f[1];
    }
  }

  lemma EmittedField(c: Format, n: nat)
    requires c.Shape() && c.fff > 0 && EmitFff(c, n).Some? && n + c.fff + c.fcs < 0x1_0000
    ensures
      var f := EmitFff(c, n).value;
      && (c.fff == 1 ==> ShortField(f[0], n + c.fff + c.fcs))
      && (c.fff == 2 ==> LongField(f[0], f[1], n + c.fff + c.fcs))
  {
    hide Declared;
    hide EmitFff;
    EmitLength(c, n);
    FffStatesLength(c, n);
  }

  lemma SentLengthAgrees(c: Format, hdlc: Octets)
    requires c.Shape() && Image(c, hdlc).Some?
    requires |hdlc| + c.fff + c.fcs < 0x1_0000
    ensures LengthAgrees(c, WithFcs(c, Image(c, hdlc).value))
  {
    hide Declared;
    hide WithFcs;
    hide Image;
    var s := WithFcs(c, Image(c, hdlc).value);
    SentIsWellEncoded(c, hdlc);
    if c.fff == 1 {
      DeclaredShort(s[0], if |s| > 1 then s[1] else 0);
    }
  }

  lemma EmitLength(c: Format, n: nat)
    requires c.Shape() && EmitFff(c, n).Some?
    ensures |EmitFff(c, n).value| == c.fff
  {
  }

  lemma DeclaredShort(a: bv8, b: bv8)
    requires a & 0x80 == 0
    ensures Declared(a, b) == a as nat
  {
  }

  lemma FcsLength(s: Octets)
    ensures |Fcs.FcsOctets(s)| == 2
  {
  }

  // What is accepted in a mode with FCS was a message followed by its FCS: the
  // converse, for any octets whatsoever.
  lemma AcceptedIsIntact(c: Format, raw: Octets)
    requires c.Shape() && c.fcs == 2
    ensures Accept(c, raw).Some? ==>
      Decode(c, raw) == WithFcs(c, Accept(c, raw).value) && LengthAgrees(c, Decode(c, raw))
  {
    hide Fcs.Check;
    hide Fcs.FcsOctets;
    hide Destuff;
    hide Declared;
    var s := Decode(c, raw);
    Fcs.CheckIffTrailingFcs(s);
    if |s| >= 2 {
      assert s == s[..|s| - 2] + s[|s| - 2..];
    }
  }

  // What the first octets say about the length, in numbers: below 0x80 the first
  // octet is the length, otherwise its low four bits are the high part.
  ghost predicate StatesLength(c: Format, s: Octets) {
    c.fff > 0 && s != [] ==>
      |s| == if s[0] as nat < 0x80 then s[0] as nat
             else s[0] as nat % 16 * 256 + (if |s| > 1 then s[1] as nat else 0)
  }

  lemma DeclaredIs(x: bv8, y: bv8)
    ensures Declared(x, y) == if x as nat < 0x80 then x as nat else x as nat % 16 * 256 + y as nat
  {
    assert x & 0x80 != 0 <==> x as nat >= 0x80;
    assert (x & 0x0F) as nat == x as nat % 16;
  }

  // Exactly these octets are accepted, and as this message: a message with its
  // FCS, if there is one, whose length field, if there is one, is right.
  lemma AcceptIff(c: Format, raw: Octets, message: Octets)
    requires c.Shape()
    ensures Accept(c, raw) == Some(message) <==>
      Decode(c, raw) == WithFcs(c, message) && StatesLength(c, Decode(c, raw))
  {
    hide Fcs.Check;
    hide Fcs.FcsOctets;
    hide Destuff;
    hide Declared;
    hide StatesLength;
    var s := Decode(c, raw);
    LengthIff(c, s);
    if c.fcs == 2 {
      AcceptedIsIntact(c, raw);
      Fcs.AppendedFcsPasses(message);
      FcsLength(message);
      if s == WithFcs(c, message) {
        assert s[..|s| - 2] == message;
      }
    } else {
      assert s[..|s|] == s;
    }
  }

  lemma LengthIff(c: Format, s: Octets)
    ensures LengthAgrees(c, s) <==> StatesLength(c, s)
  {
    hide Declared;
    if s != [] {
      DeclaredIs(s[0], if |s| > 1 then s[1] else 0);
    }
  }

  // --- What a port sends ---------------------------------------------------------------

  // The frame with its FCS and closing flag, cut to the sixteen-bit transmit
  // length.
  function SentPlain(s: Octets): Octets {
    (s + [FLAG])[..Sixteen(|s| + 1)]
  }

  // With transparency the length to encode and the encoded length are sixteen
  // bits wide as well, and the flag goes where the latter says.
  function SentStuffed(s: Octets): Octets {
    var e := Stuff(s[..Sixteen(|s|)]);
    (e[..Sixteen(|e|)] + [FLAG])[..Sixteen(Sixteen(|e|) + 1)]
  }

  function Sent(c: Format, image: Octets): Octets {
    var s := WithFcs(c, image);
    if c.transparent then SentStuffed(s) else SentPlain(s)
  }

  // The whole frame is sent if and only if it fits sixteen bits with its flag.
  lemma SentWholeIff(c: Format, image: Octets)
    ensures
      var s := WithFcs(c, image);
      var e := if c.transparent then Stuff(s) else s;
      (Sent(c, image) == e + [FLAG] <==> |e| + 1 <= 0xFFFF) && |Sent(c, image)| <= 0xFFFF
  {
    hide Stuff;
    hide Fcs.FcsOctets;
    hide Sixteen;
    var s := WithFcs(c, image);
    var e := if c.transparent then Stuff(s) else s;
    StuffRoundTrip(s);
    if |e| + 1 <= 0xFFFF {
      assert s[..|s|] == s && e[..|e|] == e;
      assert (e + [FLAG])[..|e| + 1] == e + [FLAG];
    } else {
      assert |e + [FLAG]| > 0xFFFF;
    }
  }

  // With transparency a frame of 65536 octets, FCS included, is sent as nothing
  // but the closing flag.
  lemma WrappedFrameIsEmpty(c: Format, image: Octets)
    requires c.transparent && |WithFcs(c, image)| == 0x1_0000
    ensures Sent(c, image) == [FLAG]
  {
    hide WithFcs;
    assert WithFcs(c, image)[..0] == [];
    assert Stuff([]) == [];
  }
}
