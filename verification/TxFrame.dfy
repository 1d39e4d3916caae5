// The transmit side of the software driver for one frame: the contiguous image
// written into the frame's own buffer, the transparent copy, and the segmented
// plan that avoids the copy.
module TxFrame {
  import opened Bytes
  import opened Wrappers
  import opened Framing
  import RxPath
  import Fcs

  // What one frame puts on the line.
  function OnLine(c: Format, hdlc: Octets, opening: bool): Octets
    requires Encode(c, hdlc).Some?
  {
    (if opening then [FLAG] else []) + Encode(c, hdlc).value + [FLAG]
  }

  // --- In the frame's own buffer -----------------------------------------------

  // Writes the format field into the octets reserved for it.
  method EmitInto(c: Format, buf: array<bv8>, payloadLen: nat) returns (ok: bool)
    requires c.Shape() && c.fff <= buf.Length
    modifies buf
    ensures ok == EmitFff(c, payloadLen).Some?
    ensures ok ==> buf[..c.fff] == EmitFff(c, payloadLen).value
    ensures buf[c.fff..] == old(buf[c.fff..]) && (!ok ==> buf[..] == old(buf[..]))
  {
    hide EmitFff;
    var field := EmitFff(c, payloadLen);
    ok := field.Some?;
    if ok {
      EmitLength(c, payloadLen);
      if c.fff >= 1 {
        buf[0] := field.value[0];
      }
      if c.fff == 2 {
        buf[1] := field.value[1];
      }
    }
  }

  // The contiguous image: format field, FCS and closing flag around what the
  // core left in the buffer, and the sixteen-bit number of octets the port is to
  // send.  None is EMSGSIZE.
  method Materialize(c: Format, buf: array<bv8>, elen: nat) returns (r: Option<(nat, nat)>)
    requires c.Shape() && !c.transparent
    requires c.fff <= elen && elen + c.fcs + 1 <= buf.Length
    modifies buf
    ensures r.Some? == Encode(c, old(buf[c.fff..elen])).Some?
    ensures r.Some? ==>
      var (wireLen, txLen) := r.value;
      && wireLen <= buf.Length && buf[..wireLen] == OnLine(c, old(buf[c.fff..elen]), false)
      && txLen <= wireLen && buf[..txLen] == Sent(c, Image(c, old(buf[c.fff..elen])).value)
      && (txLen == wireLen <==> wireLen <= 0xFFFF)
    ensures r.None? ==> buf[..] == old(buf[..])
  {
    hide EmitFff;
    hide Fcs.FcsOctets;
    hide Fcs.Check;
    hide Sent;
    hide Sixteen;
    hide LengthAgrees;
    ghost var hdlc := buf[c.fff..elen];
    var len := elen;
    var ok := EmitInto(c, buf, elen - c.fff);
    if !ok {
      return None;
    }
    assert buf[c.fff..elen] == hdlc by {
      assert buf[c.fff..][..elen - c.fff] == buf[c.fff..elen];
      assert old(buf[c.fff..])[..elen - c.fff] == hdlc;
    }
    assert buf[..elen] == buf[..c.fff] + buf[c.fff..elen];
    ghost var image := buf[..elen];
    assert Some(image) == Image(c, hdlc);
    if c.fcs > 0 {
      Fcs.AddFcsAt(buf, len);
      len := len + 2;
    }
    assert buf[..len] == WithFcs(c, image);
    buf[len] := FLAG;
    len := len + 1;
    ghost var line := WithFcs(c, image) + [FLAG];
    assert buf[..len] == line;
    SentFromLine(c, image);
    assert line[..Sixteen(len)] == buf[..Sixteen(len)];
    r := Some((len, Sixteen(len)));
  }

  lemma SentFromLine(c: Format, image: Octets)
    ensures
      var s := WithFcs(c, image);
      && (!c.transparent ==> Sent(c, image) == (s + [FLAG])[..Sixteen(|s| + 1)])
      && (c.transparent ==>
        var e := Stuff(s[..Sixteen(|s|)]);
        Sent(c, image) == (e[..Sixteen(|e|)] + [FLAG])[..Sixteen(Sixteen(|e|) + 1)])
  {
    hide WithFcs;
    hide Stuff;
    hide Sixteen;
  }

  // With transparency the FCS is added behind the frame, and the whole encoded
  // into a second buffer; the frame itself keeps its octets.  The length to
  // encode, the encoded length and the transmit length are sixteen bits wide.
  method Transparent(c: Format, buf: array<bv8>, elen: nat, dst: array<bv8>) returns (txLen: nat)
    requires c.Shape() && c.transparent && dst != buf
    requires elen + c.fcs <= buf.Length
    requires |Stuff(WithFcs(c, buf[..elen])[..Sixteen(elen + c.fcs)])| + 1 <= dst.Length
    modifies buf, dst
    ensures Encode(c, old(buf[..elen])).Some?
    ensures txLen <= dst.Length && dst[..txLen] == Sent(c, old(buf[..elen]))
    ensures dst[..txLen] == OnLine(c, old(buf[..elen]), false) <==> |OnLine(c, old(buf[..elen]), false)| <= 0xFFFF
    ensures buf[..elen] == old(buf[..elen])
  {
    hide Fcs.FcsOctets;
    hide Fcs.Check;
    hide Stuff;
    hide Sixteen;
    hide Sent;
    hide OnLine;
    ghost var s := WithFcs(c, buf[..elen]);
    SentFromLine(c, buf[..elen]);
    EncodedOnLine(c, buf[..elen]);
    var len := AddTransparentFcs(c, buf, elen);
    var sixteen := Sixteen(len);
    assert buf[..sixteen] == s[..sixteen];
    var n, encoded := RxPath.TransparentEncode(dst, buf, sixteen);
    ghost var e := dst[..n];
    var dstLen := Sixteen(n);
    assert dst[..dstLen] == e[..dstLen];
    dst[dstLen] := FLAG;
    ghost var line := e[..dstLen] + [FLAG];
    assert dst[..dstLen + 1] == line;
    txLen := Sixteen(dstLen + 1);
    assert dst[..txLen] == line[..txLen];
  }

  method AddTransparentFcs(c: Format, buf: array<bv8>, elen: nat) returns (len: nat)
    requires c.Shape() && elen + c.fcs <= buf.Length
    modifies buf
    ensures len == elen + c.fcs && buf[..len] == WithFcs(c, old(buf[..elen]))
    ensures buf[..elen] == old(buf[..elen])
  {
    hide Fcs.FcsOctets;
    hide Fcs.Check;
    len := elen;
    if c.fcs > 0 {
      Fcs.AddFcsAt(buf, len);
      FcsLength(old(buf[..elen]));
      len := len + 2;
      assert buf[..elen] == buf[..len][..elen];
    }
  }

  lemma EncodedOnLine(c: Format, hdlc: Octets)
    requires c.Shape() && c.transparent
    ensures Encode(c, hdlc).Some?
    ensures OnLine(c, hdlc, false) == Stuff(WithFcs(c, hdlc)) + [FLAG]
    ensures Sent(c, hdlc) == OnLine(c, hdlc, false) <==> |OnLine(c, hdlc, false)| <= 0xFFFF
  {
    hide Stuff;
    hide WithFcs;
    hide Sent;
    assert [] + hdlc == hdlc;
    SentWholeIff(c, hdlc);
  }

  // --- The plan -------------------------------------------------------------------

  // The range of octets the FCS covers, as segment indices and offsets.
  datatype FcsRange = FcsRange(size: nat, beginSeg: nat, beginOff: nat, endSeg: nat, endExclusive: nat, emitted: bool)

  datatype Plan = Plan(segv: seq<Octets>, wireLen: nat, fcs: FcsRange)

  datatype PlanResult = Planned(plan: Plan) | MsgSize | NotSupported

  // The octets the range covers.
  ghost function Covered(p: Plan): Octets
    requires p.fcs.beginSeg <= p.fcs.endSeg < |p.segv|
    requires p.fcs.endExclusive <= |p.segv[p.fcs.endSeg]| && p.fcs.beginOff <= |p.segv[p.fcs.beginSeg]|
    requires p.fcs.beginSeg == p.fcs.endSeg ==> p.fcs.beginOff <= p.fcs.endExclusive
  {
    if p.fcs.beginSeg == p.fcs.endSeg then p.segv[p.fcs.beginSeg][p.fcs.beginOff..p.fcs.endExclusive]
    else
      p.segv[p.fcs.beginSeg][p.fcs.beginOff..]
      + Concat(p.segv[p.fcs.beginSeg + 1..p.fcs.endSeg])
      + p.segv[p.fcs.endSeg][..p.fcs.endExclusive]
  }

  ghost predicate InRange(p: Plan) {
    && p.fcs.beginSeg <= p.fcs.endSeg < |p.segv|
    && p.fcs.endExclusive <= |p.segv[p.fcs.endSeg]| && p.fcs.beginOff <= |p.segv[p.fcs.beginSeg]|
    && (p.fcs.beginSeg == p.fcs.endSeg ==> p.fcs.beginOff <= p.fcs.endExclusive)
  }

  // What the port sends for a plan: its segments in order, with an FCS it has to
  // compute itself put in right behind the octets it covers.
  ghost function Submitted(p: Plan): Octets
    requires p.segv != [] && (p.fcs.size > 0 ==> InRange(p))
  {
    if p.fcs.size == 0 || p.fcs.emitted then Concat(p.segv)
    else Concat(p.segv[..p.fcs.endSeg + 1]) + Fcs.FcsOctets(Covered(p)) + Concat(p.segv[p.fcs.endSeg + 1..])
  }

  // Whatever the opening flag and whoever computes the FCS, submitting the plan
  // sends what the contiguous image would.
  method BuildPlan(c: Format, frame: Octets, ctrlLen: nat, opening: bool, deferFcs: bool) returns (r: PlanResult)
    requires c.Shape()
    requires ctrlLen > 0 && (ctrlLen <= 2 && !c.transparent ==> |frame| >= c.fff + 1 + ctrlLen)
    ensures r.NotSupported? <==> c.transparent || ctrlLen > 2
    ensures r.MsgSize? <==> !c.transparent && ctrlLen <= 2 && Encode(c, frame[c.fff..]).None?
    ensures r.Planned? ==>
      && Refines(c, frame[c.fff..], opening, r.plan)
      && r.plan.fcs.emitted == (c.fcs > 0 && !deferFcs)
  {
    hide EmitFff;
    hide Fcs.FcsOctets;
    if c.transparent || ctrlLen > 2 {
      return NotSupported;
    }
    ghost var hdlc := frame[c.fff..];
    var infoOff := c.fff + 1 + ctrlLen;
    var body := frame[infoOff..];
    var prefix: Octets := if opening then [FLAG] else [];
    var field := EmitFff(c, 1 + ctrlLen + |body|);
    if field.None? {
      return MsgSize;
    }
    EmitLength(c, 1 + ctrlLen + |body|);
    var covOff := |prefix|;
    prefix := prefix + field.value + frame[c.fff..infoOff];
    assert hdlc == frame[c.fff..infoOff] + body;
    ghost var image := field.value + hdlc;
    assert prefix[covOff..] + body == image;
    assert |prefix| <= 16;

    var suffix: Octets := [];
    var emitted := false;
    if c.fcs != 0 && !deferFcs {
      var segs := [prefix[covOff..]] + (if body != [] then [body] else []);
      suffix := Fcs.ComputeFcs(segs);
      ConcatSegments(prefix[covOff..], body);
      emitted := true;
    }
    suffix := suffix + [FLAG];
    FcsLength(image);
    assert |suffix| <= 8;

    var segv, endSeg, endExclusive;
    if body != [] {
      segv, endSeg, endExclusive := [prefix, body, suffix], 1, |body|;
    } else {
      segv, endSeg, endExclusive := [prefix, suffix], 0, |prefix|;
    }
    var wireLen := |prefix| + |body| + |suffix|;
    if c.fcs > 0 && !emitted {
      wireLen := wireLen + c.fcs;
    }
    var plan := Plan(segv, wireLen, FcsRange(c.fcs, 0, covOff, endSeg, endExclusive, emitted));
    PlanRefines(c, hdlc, opening, prefix, body, suffix, plan);
    return Planned(plan);
  }

  ghost predicate Refines(c: Format, hdlc: Octets, opening: bool, p: Plan) {
    && Encode(c, hdlc).Some?
    && 2 <= |p.segv| <= 3
    && (p.fcs.size == c.fcs)
    && (c.fcs > 0 ==> InRange(p) && Some(Covered(p)) == Image(c, hdlc))
    && Submitted(p) == OnLine(c, hdlc, opening)
    && p.wireLen == |OnLine(c, hdlc, opening)|
  }

  lemma ConcatOne(a: Octets)
    ensures Concat([a]) == a
  {
    assert [a][1..] == [];
    assert Concat([]) == [];
    assert a + [] == a;
  }

  lemma ConcatTwo(a: Octets, b: Octets)
    ensures Concat([a, b]) == a + b
  {
    ConcatOne(b);
    assert [a, b][1..] == [b];
  }

  lemma ConcatThree(a: Octets, b: Octets, d: Octets)
    ensures Concat([a, b, d]) == a + b + d
  {
    ConcatTwo(b, d);
    assert [a, b, d][1..] == [b, d];
    assert a + (b + d) == a + b + d;
  }

  // The segments the FCS is computed over: an empty body is none.
  lemma ConcatSegments(a: Octets, b: Octets)
    ensures Concat([a] + (if b != [] then [b] else [])) == a + b
  {
    if b != [] {
      assert [a] + [b] == [a, b];
      ConcatTwo(a, b);
    } else {
      assert [a] + [] == [a];
      ConcatOne(a);
      assert a + b == a;
    }
  }

  // How the fields of a plan are related to its three parts.
  ghost predicate Built(p: Plan, fcsSize: nat, off: nat, prefix: Octets, body: Octets, suffix: Octets) {
    && off < |prefix|
    && p.segv == (if body != [] then [prefix, body, suffix] else [prefix, suffix])
    && p.fcs.size == fcsSize && p.fcs.beginSeg == 0 && p.fcs.beginOff == off
    && p.fcs.endSeg == (if body != [] then 1 else 0)
    && p.fcs.endExclusive == (if body != [] then |body| else |prefix|)
    && (p.fcs.emitted ==> fcsSize > 0)
    && p.wireLen == |prefix| + |body| + |suffix| + (if fcsSize > 0 && !p.fcs.emitted then fcsSize else 0)
  }

  lemma BuiltCovers(p: Plan, size: nat, off: nat, prefix: Octets, body: Octets, suffix: Octets)
    requires Built(p, size, off, prefix, body, suffix)
    ensures InRange(p) && Covered(p) == prefix[off..] + body
  {
    if body != [] {
      assert p.segv[1..1] == [];
      assert Concat(p.segv[1..1]) == [];
      assert prefix[off..] + [] == prefix[off..];
      assert body[..|body|] == body;
    } else {
      assert prefix[off..|prefix|] == prefix[off..] + body;
    }
  }

  lemma BuiltSubmits(p: Plan, size: nat, off: nat, prefix: Octets, body: Octets, suffix: Octets)
    requires Built(p, size, off, prefix, body, suffix)
    ensures InRange(p)
    ensures Submitted(p) == prefix + body
      + (if size > 0 && !p.fcs.emitted then Fcs.FcsOctets(Covered(p)) else []) + suffix
  {
    hide Fcs.FcsOctets;
    hide Concat;
    hide Covered;
    BuiltCovers(p, size, off, prefix, body, suffix);
    ConcatThree(prefix, body, suffix);
    ConcatTwo(prefix, suffix);
    ConcatTwo(prefix, body);
    ConcatOne(prefix);
    ConcatOne(suffix);
    assert prefix + body + [] == prefix + body;
    if body != [] {
      assert p.segv[..2] == [prefix, body] && p.segv[2..] == [suffix];
    } else {
      assert p.segv[..1] == [prefix] && p.segv[1..] == [suffix];
      assert prefix + body == prefix;
    }
  }

  lemma PlanRefines(c: Format, hdlc: Octets, opening: bool, prefix: Octets, body: Octets, suffix: Octets, p: Plan)
    requires c.Shape() && !c.transparent && Image(c, hdlc).Some?
    requires
      var off := if opening then 1 else 0;
      var image := Image(c, hdlc).value;
      && Built(p, c.fcs, off, prefix, body, suffix)
      && prefix[..off] == (if opening then [FLAG] else [])
      && prefix[off..] + body == image
      && suffix == (if p.fcs.emitted then Fcs.FcsOctets(image) else []) + [FLAG]
    ensures Refines(c, hdlc, opening, p)
  {
    hide Fcs.FcsOctets;
    hide Concat;
    hide Image;
    hide Covered;
    hide Submitted;
    var image := Image(c, hdlc).value;
    var open := if opening then [FLAG] else [];
    var off := |open|;
    FcsLength(image);
    BuiltCovers(p, c.fcs, off, prefix, body, suffix);
    BuiltSubmits(p, c.fcs, off, prefix, body, suffix);
    assert prefix == open + prefix[off..];
    assert prefix + body == open + image;
    FcsPlacement(open, image, c, p.fcs.emitted);
  }

  lemma FcsPlacement(open: Octets, image: Octets, c: Format, emitted: bool)
    requires emitted ==> c.fcs > 0
    ensures
      var deferred := if c.fcs > 0 && !emitted then Fcs.FcsOctets(image) else [];
      var suffix := (if emitted then Fcs.FcsOctets(image) else []) + [FLAG];
      open + image + deferred + suffix == open + WithFcs(c, image) + [FLAG]
  {
    hide Fcs.FcsOctets;
  }
}
