// Whole writes on the wire: which fragments arrive, for which configured lengths
// every write does, and what is read at the other end.
module Transfer {
  import opened Bytes
  import opened Wrappers
  import opened Numbers
  import opened Framing
  import opened Receiver
  import opened Carriage
  import opened Fragment
  import Fcs

  // --- Good fragments --------------------------------------------------------------------

  // The frame with FCS and closing flag fits its pool frame, and so does its
  // encoding, if there is one.
  ghost predicate BufferHolds(c: Format, hdlc: Octets) {
    && c.fff + |hdlc| + c.fcs + 1 <= c.frameSize
    && (c.transparent && Encode(c, hdlc).Some? ==> |Encode(c, hdlc).value| + 1 <= c.frameSize)
  }

  // What one fragment promises, behind its address and control octets: not
  // empty, not too long, a frame that fits its buffers, and that arrives.
  ghost predicate GoodFragment(c: Format, ctrl: nat, configured: nat, head: Octets, info: Octets)
    requires Layout(c, ctrl)
  {
    && 1 <= |info| <= PeerMifl(c, ctrl, configured)
    && BufferHolds(PoolFormat(c, ctrl, configured), head + info)
    && Arrives(PoolFormat(c, ctrl, configured), head + info)
  }

  // Without a format field and without transparency a flag anywhere in the frame
  // or its FCS ends it.
  ghost predicate Unflagged(c: Format, hdlc: Octets) {
    c.fff == 0 && Encode(c, hdlc).Some? ==> NoFlag(Encode(c, hdlc).value)
  }

  // Exactly the fragments of a good length, and free of flags where that is
  // needed, are good.
  lemma GoodFragmentIff(c: Format, ctrl: nat, configured: nat, head: Octets, info: Octets)
    requires Layout(c, ctrl) && !c.transparent && |head| == 1 + ctrl
    ensures GoodFragment(c, ctrl, configured, head, info) <==>
      GoodLength(c, ctrl, configured, |info|) && Unflagged(PoolFormat(c, ctrl, configured), head + info)
  {
    hide EmitFff;
    hide Arrives;
    hide PeerMifl;
    hide PoolFrame;
    hide Fcs.FcsOctets;
    hide Stuff;
    var p, h := PoolFormat(c, ctrl, configured), head + info;
    if p.frameSize >= 2 {
      ArrivesIff(p, h);
    }
    SameField(c, p, |h|);
    if EmitFff(c, |h|).Some? {
      ImageLength(p, h);
    }
  }

  // The frame size does not enter the encoding.
  lemma SameField(c: Format, p: Format, n: nat)
    requires p == c.(frameSize := p.frameSize)
    ensures EmitFff(p, n) == EmitFff(c, n)
  {
  }

  // --- What arrives of a write -----------------------------------------------------------

  // Address and control octets for n frames.
  ghost predicate HeadsFit(ctrl: nat, heads: seq<Octets>, n: nat) {
    |heads| == n && forall i :: 0 <= i < n ==> |heads[i]| == 1 + ctrl
  }

  ghost predicate AllUnflagged(c: Format, heads: seq<Octets>, infos: seq<Octets>)
    requires |heads| == |infos|
  {
    forall i :: 0 <= i < |infos| ==> Unflagged(c, heads[i] + infos[i])
  }

  ghost predicate AllGood(c: Format, ctrl: nat, configured: nat, heads: seq<Octets>, infos: seq<Octets>)
    requires Layout(c, ctrl) && |heads| == |infos|
  {
    forall i :: 0 <= i < |infos| ==> GoodFragment(c, ctrl, configured, heads[i], infos[i])
  }

  // Every fragment of every write is good, with any address and control octets
  // and any data as long as the frames are free of flags where that is needed, if
  // and only if the configured length is safe.
  ghost predicate WritesArrive(c: Format, ctrl: nat, configured: nat)
    requires Layout(c, ctrl)
  {
    forall heads, data |
      HeadsFit(ctrl, heads, |Chunks(c, ctrl, PeerMifl(c, ctrl, configured), data)|)
      && AllUnflagged(PoolFormat(c, ctrl, configured), heads, Chunks(c, ctrl, PeerMifl(c, ctrl, configured), data)) ::
      AllGood(c, ctrl, configured, heads, Chunks(c, ctrl, PeerMifl(c, ctrl, configured), data))
  }

  lemma WritesArriveIff(c: Format, ctrl: nat, configured: nat)
    requires Layout(c, ctrl) && !c.transparent && configured < WORD
    ensures WritesArrive(c, ctrl, configured) <==> SafeLength(c, ctrl, configured)
  {
    hide AllGood;
    hide AllUnflagged;
    hide Chunks;
    hide PeerMifl;
    hide PoolFormat;
    hide SafeLength;
    var mifl := PeerMifl(c, ctrl, configured);
    var p := PoolFormat(c, ctrl, configured);
    if SafeLength(c, ctrl, configured) {
      forall heads, data |
        HeadsFit(ctrl, heads, |Chunks(c, ctrl, mifl, data)|)
        && AllUnflagged(p, heads, Chunks(c, ctrl, mifl, data))
        ensures AllGood(c, ctrl, configured, heads, Chunks(c, ctrl, mifl, data))
      {
        SafeChunksAreGood(c, ctrl, configured, heads, data);
      }
    } else {
      var heads, data := BadWrite(c, ctrl, configured);
    }
  }

  lemma {:induction false} ChunkAt(c: Format, ctrl: nat, mifl: nat, data: Octets, i: nat) returns (remaining: nat)
    requires mifl > 0 && i < |Chunks(c, ctrl, mifl, data)|
    ensures remaining > 0 && |Chunks(c, ctrl, mifl, data)[i]| == ChunkSize(c, ctrl, mifl, remaining)
    decreases i
  {
    hide ChunkSize;
    ChunkBounds(c, ctrl, mifl, |data|);
    var n := ChunkSize(c, ctrl, mifl, |data|);
    if i == 0 {
      remaining := |data|;
    } else {
      remaining := ChunkAt(c, ctrl, mifl, data[n..], i - 1);
    }
  }

  lemma SafeChunksAreGood(c: Format, ctrl: nat, configured: nat, heads: seq<Octets>, data: Octets)
    requires Layout(c, ctrl) && !c.transparent && SafeLength(c, ctrl, configured)
    requires HeadsFit(ctrl, heads, |Chunks(c, ctrl, PeerMifl(c, ctrl, configured), data)|)
    requires AllUnflagged(PoolFormat(c, ctrl, configured), heads, Chunks(c, ctrl, PeerMifl(c, ctrl, configured), data))
    ensures AllGood(c, ctrl, configured, heads, Chunks(c, ctrl, PeerMifl(c, ctrl, configured), data))
  {
    hide ChunkSize;
    hide Chunks;
    hide PeerMifl;
    hide PoolFormat;
    hide SafeLength;
    hide GoodLength;
    hide GoodFragment;
    hide Unflagged;
    var infos := Chunks(c, ctrl, PeerMifl(c, ctrl, configured), data);
    MiflBounds(c, ctrl, configured);
    forall i | 0 <= i < |infos| ensures GoodFragment(c, ctrl, configured, heads[i], infos[i]) {
      var remaining := ChunkAt(c, ctrl, PeerMifl(c, ctrl, configured), data, i);
      ChunkIsGood(c, ctrl, configured, remaining);
      GoodFragmentIff(c, ctrl, configured, heads[i], infos[i]);
    }
  }

  // --- A write that goes wrong --------------------------------------------------------------

  // n octets that make a frame free of flags.
  lemma UnflaggedData(c: Format, ctrl: nat, n: nat) returns (head: Octets, info: Octets)
    requires c.Shape() && !c.transparent && n > 0
    ensures |head| == 1 + ctrl && |info| == n && Unflagged(c, head + info)
  {
    hide Fcs.FcsOctets;
    head := seq(1 + ctrl, _ => 0);
    var zeros: Octets := seq(n - 1, _ => 0);
    var x := Fcs.UnflaggedFcs(head + zeros);
    info := zeros + [x];
    assert head + info == head + zeros + [x];
    assert c.fff == 0 ==> [] + (head + info) == head + info;
    FcsLength(head + info);
  }

  lemma BadLengthIsBad(c: Format, ctrl: nat, configured: nat, head: Octets, info: Octets)
    requires Layout(c, ctrl) && !c.transparent && |head| == 1 + ctrl
    requires
      var n := |info|;
      || Overhead(c, ctrl) + n > PoolFrame(c, ctrl, configured)
      || Overhead(c, ctrl) + n > 0xFFFF
      || (HeaderLength(c, ctrl) + n + c.fcs < MIN_LENGTH && PoolFormat(c, ctrl, configured).Valid())
    ensures !GoodFragment(c, ctrl, configured, head, info)
  {
    hide EmitFff;
    hide Arrives;
    hide PeerMifl;
    hide PoolFrame;
    hide Fcs.FcsOctets;
    hide HandedOver;
    var p, h := PoolFormat(c, ctrl, configured), head + info;
    if GoodFragment(c, ctrl, configured, head, info) {
      ArrivedWasSent(p, h);
      ImageLength(p, h);
      if p.Valid() {
        ArrivesIff(p, h);
      }
    }
  }

  lemma BadWrite(c: Format, ctrl: nat, configured: nat) returns (heads: seq<Octets>, data: Octets)
    requires Layout(c, ctrl) && !c.transparent && configured < WORD && !SafeLength(c, ctrl, configured)
    ensures HeadsFit(ctrl, heads, |Chunks(c, ctrl, PeerMifl(c, ctrl, configured), data)|)
    ensures AllUnflagged(PoolFormat(c, ctrl, configured), heads, Chunks(c, ctrl, PeerMifl(c, ctrl, configured), data))
    ensures !AllGood(c, ctrl, configured, heads, Chunks(c, ctrl, PeerMifl(c, ctrl, configured), data))
  {
    hide ChunkSize;
    hide PeerMifl;
    hide SafeLength;
    hide GoodFragment;
    hide Unflagged;
    var mifl := PeerMifl(c, ctrl, configured);
    var n := BadLength(c, ctrl, configured);
    var head;
    head, data := UnflaggedData(PoolFormat(c, ctrl, configured), ctrl, n);
    heads := [head];
    BadLengthIsBad(c, ctrl, configured, head, data);
    OneChunk(c, ctrl, mifl, data);
    assert !GoodFragment(c, ctrl, configured, heads[0], Chunks(c, ctrl, mifl, data)[0]);
  }

  lemma OneChunk(c: Format, ctrl: nat, mifl: nat, data: Octets)
    requires mifl > 0 && data != [] && ChunkSize(c, ctrl, mifl, |data|) == |data|
    ensures Chunks(c, ctrl, mifl, data) == [data]
  {
    hide ChunkSize;
    assert data[..|data|] == data && data[|data|..] == [];
    NoChunks(c, ctrl, mifl);
    assert [data] + [] == [data];
  }

  // --- Transparency ----------------------------------------------------------------------------

  // With transparency a fragment is good exactly when its encoding, which
  // depends on the data, is neither too short nor too long for its frame and for
  // the sixteen-bit transmit length.
  lemma StuffedFragmentIff(c: Format, ctrl: nat, configured: nat, head: Octets, info: Octets)
    requires Layout(c, ctrl) && c.transparent && |head| == 1 + ctrl
    requires 1 <= |info| <= PeerMifl(c, ctrl, configured)
    ensures GoodFragment(c, ctrl, configured, head, info) <==>
      var n := |Stuff(WithFcs(c, head + info))|;
      MIN_LENGTH <= n < PoolFrame(c, ctrl, configured) && n + 1 <= 0xFFFF
  {
    hide Arrives;
    hide PeerMifl;
    hide PoolFrame;
    hide Fcs.FcsOctets;
    hide Stuff;
    var p, h := PoolFormat(c, ctrl, configured), head + info;
    if p.frameSize >= 2 {
      ArrivesIff(p, h);
    }
    assert [] + h == h;
    ImageLength(p, h);
    StuffRoundTrip(WithFcs(c, h));
  }

  // No configured length is safe there: a full fragment of flags is too long for
  // its frame, always.
  lemma TransparencyOverflows(c: Format, ctrl: nat, configured: nat, head: Octets)
    requires Layout(c, ctrl) && c.transparent && |head| == 1 + ctrl
    ensures
      var info := seq(PeerMifl(c, ctrl, configured), _ => FLAG);
      !BufferHolds(PoolFormat(c, ctrl, configured), head + info)
  {
    hide Fcs.FcsOctets;
    hide Stuff;
    hide FrameSize;
    var n := PeerMifl(c, ctrl, configured);
    var info: Octets := seq(n, _ => FLAG);
    var h := head + info;
    var tail := if c.fcs == 0 then [] else Fcs.FcsOctets(h);
    FcsLength(h);
    assert [] + h == h && h + [] == h;
    assert WithFcs(c, h) == head + (info + tail);
    StuffConcat(head, info + tail);
    StuffConcat(info, tail);
    StuffedFlags(n);
    StuffRoundTrip(head);
    StuffRoundTrip(tail);
  }

  lemma TransparentFrame(c: Format, ctrl: nat, configured: nat)
    requires Layout(c, ctrl) && c.transparent && configured <= 0x7FFF - Overhead(c, ctrl)
    ensures PoolFrame(c, ctrl, configured) == 2 * (Overhead(c, ctrl) + Effective(c, ctrl, configured)) <= 0xFFFF
    ensures PoolFormat(c, ctrl, configured).Valid()
    ensures PeerMifl(c, ctrl, configured) >= Effective(c, ctrl, configured)
  {
    var elen := HeaderLength(c, ctrl) + Effective(c, ctrl, configured);
    NoWrap(c.(transparent := false), ctrl, Effective(c, ctrl, configured));
    SmallWord(2 * (elen + c.fcs + 1));
  }

  lemma SmallWord(x: nat)
    requires x < WORD
    ensures x % WORD == x
  {
  }

  // But every fragment no longer than the configured length is.
  lemma ShortStuffedIsGood(c: Format, ctrl: nat, configured: nat, head: Octets, info: Octets)
    requires Layout(c, ctrl) && c.transparent && |head| == 1 + ctrl
    requires configured <= 0x7FFF - Overhead(c, ctrl) && (c.fcs > 0 || ctrl == 2)
    requires 1 <= |info| <= Effective(c, ctrl, configured)
    ensures GoodFragment(c, ctrl, configured, head, info)
  {
    hide Arrives;
    hide GoodFragment;
    hide Fcs.FcsOctets;
    hide Stuff;
    hide PoolFrame;
    hide PeerMifl;
    var s := WithFcs(c, head + info);
    TransparentFrame(c, ctrl, configured);
    FcsLength(head + info);
    StuffAtMostDoubles(s);
    StuffRoundTrip(s);
    StuffedFragmentIff(c, ctrl, configured, head, info);
  }

  // --- What is received -------------------------------------------------------------------------

  // The information octets of what the receiving driver returns for one frame.
  function Arrived(c: Format, ctrl: nat, hdlc: Octets): Octets {
    Concat(Informations(c, ctrl, Delivered(c, hdlc)))
  }

  function Informations(c: Format, ctrl: nat, frames: seq<Octets>): seq<Octets> {
    seq(|frames|, i requires 0 <= i < |frames| =>
      if |frames[i]| >= HeaderLength(c, ctrl) then frames[i][HeaderLength(c, ctrl)..] else [])
  }

  // What arrives of a series of fragments.
  function Received(c: Format, ctrl: nat, heads: seq<Octets>, infos: seq<Octets>): seq<Octets>
    requires |heads| == |infos|
  {
    seq(|infos|, i requires 0 <= i < |infos| => Arrived(c, ctrl, heads[i] + infos[i]))
  }

  lemma ArrivesAsSent(c: Format, ctrl: nat, head: Octets, info: Octets)
    requires c.Shape() && |head| == 1 + ctrl && Arrives(c, head + info)
    ensures Arrived(c, ctrl, head + info) == info
  {
    hide Delivered;
    hide Concat;
    hide WithFcs;
    hide Encode;
    var image := Image(c, head + info).value;
    ImageLength(c, head + info);
    ImageEnds(c, head, info);
    assert Informations(c, ctrl, [image]) == [info];
    AppendFragment([], info);
    NoFragments();
    assert [] + [info] == [info] && [] + info == info;
  }

  lemma ImageEnds(c: Format, head: Octets, info: Octets)
    requires c.Shape() && Image(c, head + info).Some?
    ensures
      var image := Image(c, head + info).value;
      |image| == c.fff + |head| + |info| && image[c.fff + |head|..] == info
  {
    EmitLength(c, |head + info|);
  }

  lemma GoodIsReceived(c: Format, ctrl: nat, configured: nat, heads: seq<Octets>, infos: seq<Octets>)
    requires Layout(c, ctrl) && HeadsFit(ctrl, heads, |infos|) && AllGood(c, ctrl, configured, heads, infos)
    ensures Received(PoolFormat(c, ctrl, configured), ctrl, heads, infos) == infos
  {
    hide Arrives;
    hide Arrived;
    hide PoolFrame;
    hide PeerMifl;
    forall i | 0 <= i < |infos|
      ensures Arrived(PoolFormat(c, ctrl, configured), ctrl, heads[i] + infos[i]) == infos[i]
    {
      assert GoodFragment(c, ctrl, configured, heads[i], infos[i]);
      ArrivesAsSent(PoolFormat(c, ctrl, configured), ctrl, heads[i], infos[i]);
    }
  }

  // --- The round trip ----------------------------------------------------------------------------

  // Safe by the configured length, and free of flags where that is needed.
  ghost predicate SafeWrite(c: Format, ctrl: nat, configured: nat, heads: seq<Octets>, infos: seq<Octets>)
    requires Layout(c, ctrl) && |heads| == |infos|
  {
    && !c.transparent && SafeLength(c, ctrl, configured)
    && AllUnflagged(PoolFormat(c, ctrl, configured), heads, infos)
  }

  // One whole write whose frames reach the other end in order, followed by any
  // series of vectored reads: what is read is what arrives of the frames.  That is
  // what was written if all fragments are good, and for a safe configured length
  // they are, with a format field whatever the data.
  method RoundTrip(c: Format, ctrl: nat, configured: nat, iov: seq<Octets>, heads: seq<Octets>, wants: seq<seq<nat>>)
    returns (outs: seq<Octets>)
    requires Layout(c, ctrl)
    requires HeadsFit(ctrl, heads, |Chunks(c, ctrl, PeerMifl(c, ctrl, configured), Concat(iov))|)
    ensures |outs| == |wants|
    ensures
      var infos := Chunks(c, ctrl, PeerMifl(c, ctrl, configured), Concat(iov));
      var r := Concat(Received(PoolFormat(c, ctrl, configured), ctrl, heads, infos));
      && Concat(outs) == r[..Min(SumAll(wants), |r|)]
      && (AllGood(c, ctrl, configured, heads, infos) ==> r == Concat(iov))
      && (SafeWrite(c, ctrl, configured, heads, infos) ==> r == Concat(iov))
  {
    hide Concat;
    hide Chunks;
    hide PeerMifl;
    hide SafeLength;
    hide AllGood;
    hide AllUnflagged;
    hide SumAll;
    hide Arrived;
    hide PoolFormat;
    hide GoodLength;
    var total := OctetCount(iov);
    var frags, elens, written := WriteV(c, ctrl, configured, iov, total + 1);
    ChunksConcat(c, ctrl, PeerMifl(c, ctrl, configured), Concat(iov));
    var p := PoolFormat(c, ctrl, configured);
    var infos := Received(p, ctrl, heads, frags);
    var reader := new Reader();
    DeliverAll(reader, infos);
    assert [] + Concat(infos) == Concat(infos);
    outs := ReadAll(reader, wants);
    if !c.transparent && SafeLength(c, ctrl, configured) && AllUnflagged(p, heads, frags) {
      SafeChunksAreGood(c, ctrl, configured, heads, Concat(iov));
    }
    if AllGood(c, ctrl, configured, heads, frags) {
      GoodIsReceived(c, ctrl, configured, heads, frags);
    }
  }

  // --- Witnesses --------------------------------------------------------------------------------

  // With 70000 octets configured, one write of as many is one frame of length
  // 4466; if no flag gets in the way, 4464 octets of it arrive.
  lemma SeventyThousand(c: Format, head: Octets, info: Octets)
    requires c.fff == 0 && c.fcs == 2 && !c.transparent && |head| == 2 && |info| == 70000
    requires NoFlag(WithFcs(c, head + info[..4464]))
    ensures PeerMifl(c, 1, 70000) == 70000 && Elens(c, 1, [info]) == [4466]
    ensures Arrived(PoolFormat(c, 1, 70000), 1, head + info) == info[..4464]
  {
    hide Delivered;
    hide Fcs.FcsOctets;
    hide Arrives;
    hide Arrived;
    var p := PoolFormat(c, 1, 70000);
    var h := head + info[..4464];
    assert Sixteen(70002) == 4466;
    assert [] + h == h;
    FcsLength(h);
    CarriedArrives(p, h);
    ArrivesAsSent(p, 1, head, info[..4464]);
    assert (head + info)[..4466] == h && h[..4466] == h;
    assert Port(p, head + info) == Port(p, h);
    SamePort(p, head + info, h);
  }

  lemma SamePort(c: Format, h: Octets, k: Octets)
    requires Port(c, h) == Port(c, k)
    ensures Delivered(c, h) == Delivered(c, k)
    ensures forall ctrl :: Arrived(c, ctrl, h) == Arrived(c, ctrl, k)
  {
  }

  lemma TwoSent(s: Octets)
    requires |s| == 65537
    ensures |SentPlain(s)| == 2
  {
    assert Sixteen(65538) == 2;
  }

  // With 65533 configured, the frame length of a full fragment still fits sixteen
  // bits, but the transmit length is 65538 in sixteen bits: two octets are sent,
  // and nothing arrives.
  lemma SixtyFiveThousand(c: Format, head: Octets, info: Octets)
    requires c.fff == 0 && c.fcs == 2 && !c.transparent && |head| == 2 && |info| == 65533
    ensures PeerMifl(c, 1, 65533) == 65533 && Elens(c, 1, [info]) == [65535]
    ensures |Port(PoolFormat(c, 1, 65533), head + info)| == 2
    ensures Delivered(PoolFormat(c, 1, 65533), head + info) == []
  {
    hide Fcs.FcsOctets;
    hide FrameSize;
    hide Run;
    hide Line;
    hide Port;
    NoWrap(c, 1, 65533);
    var p := PoolFormat(c, 1, 65533);
    var h := head + info;
    assert [] + h == h;
    PortWhole(p, h);
    FcsLength(h);
    assert |h| == 65535 && |WithFcs(p, h)| == 65537;
    TwoSent(WithFcs(p, h));
    HandedOverBound(p, Open([], 1), Port(p, h));
  }
}
