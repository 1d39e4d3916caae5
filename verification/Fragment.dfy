// Vectored writes cut into I-frames, vectored reads put together again, and the
// lengths that the frame buffers and the frame format field allow.
module Fragment {
  import opened Bytes
  import opened Wrappers
  import opened Framing
  import opened Numbers

  // --- Lengths -------------------------------------------------------------------

  const WORD := 0x1_0000_0000   // unsigned 32-bit arithmetic wraps here
  const MIFL_FALLBACK := 64

  // Format field, address and control field in front of the information.
  function HeaderLength(c: Format, ctrl: nat): nat { c.fff + 1 + ctrl }

  // Format field, address, control, FCS and closing flag.
  function Overhead(c: Format, ctrl: nat): nat { HeaderLength(c, ctrl) + c.fcs + 1 }

  function FrameSize(c: Format, ctrl: nat, maxInfo: nat): nat {
    var elen := (HeaderLength(c, ctrl) + maxInfo) % WORD;
    var limit := (if c.fff == 1 then 127 else 4095) - c.fcs;
    var clipped := if c.fff != 0 && elen > limit then limit else elen;
    var size := (clipped + c.fcs + 1) % WORD;
    if c.transparent then size * 2 % WORD else size
  }

  // The longest information field of a peer, from the size of the pool's frames.
  function Mifl(c: Format, ctrl: nat, frameSize: nat): (r: nat)
    ensures r > 0
  {
    if frameSize > Overhead(c, ctrl) then frameSize - Overhead(c, ctrl) else MIFL_FALLBACK
  }

  ghost predicate Layout(c: Format, ctrl: nat) { c.Shape() && 1 <= ctrl <= 2 }

  const DEFAULT_INFO := 122

  // A configured length of zero asks for the default.
  function Effective(c: Format, ctrl: nat, configured: nat): int {
    if configured != 0 then configured
    else if c.fff == 1 then 127 - 1 - 1 - ctrl - c.fcs
    else if c.fff == 2 then 4095 - 2 - 1 - ctrl - c.fcs
    else DEFAULT_INFO
  }

  function PoolFrame(c: Format, ctrl: nat, configured: nat): nat
    requires Layout(c, ctrl)
  {
    FrameSize(c, ctrl, Effective(c, ctrl, configured))
  }

  function PeerMifl(c: Format, ctrl: nat, configured: nat): (r: nat)
    requires Layout(c, ctrl)
    ensures r > 0
  {
    Mifl(c, ctrl, PoolFrame(c, ctrl, configured))
  }

  // The format with the frames of the pool that this configuration gives.
  function PoolFormat(c: Format, ctrl: nat, configured: nat): Format
    requires Layout(c, ctrl)
  {
    c.(frameSize := PoolFrame(c, ctrl, configured))
  }

  // A frame with a full information field fits its buffer exactly when no 32-bit
  // sum wrapped; otherwise the fallback length is used, and is too long.
  lemma FullFrameFitsIff(c: Format, ctrl: nat, configured: nat)
    requires Layout(c, ctrl) && !c.transparent && configured < WORD
    ensures
      (Overhead(c, ctrl) + PeerMifl(c, ctrl, configured) <= PoolFrame(c, ctrl, configured)) <==>
      configured < WORD - (if c.fff == 0 then Overhead(c, ctrl) else HeaderLength(c, ctrl))
  {
  }

  // The largest number does not fit, in any layout.
  lemma LargestLengthWraps(c: Format, ctrl: nat)
    requires Layout(c, ctrl) && !c.transparent
    ensures Overhead(c, ctrl) + PeerMifl(c, ctrl, 0xFFFF_FFFF) > PoolFrame(c, ctrl, 0xFFFF_FFFF)
  {
    FullFrameFitsIff(c, ctrl, 0xFFFF_FFFF);
  }

  lemma NoWrap(c: Format, ctrl: nat, maxInfo: nat)
    requires Layout(c, ctrl) && !c.transparent && maxInfo < WORD - HeaderLength(c, ctrl)
    requires c.fff == 0 ==> maxInfo < WORD - Overhead(c, ctrl)
    ensures
      var elen := HeaderLength(c, ctrl) + maxInfo;
      var limit := (if c.fff == 1 then 127 else 4095) - c.fcs;
      FrameSize(c, ctrl, maxInfo) == (if c.fff != 0 && elen > limit then limit else elen) + c.fcs + 1
  {
  }

  // The default of a format field is the longest frame it can state.
  lemma DefaultIsLongest(c: Format, ctrl: nat)
    requires Layout(c, ctrl) && c.fff > 0
    ensures
      var n := Effective(c, ctrl, 0);
      n > 0 && EmitFff(c, 1 + ctrl + n).Some? && EmitFff(c, 1 + ctrl + n + 1).None?
  {
    hide EmitFff;
    EmitSomeIff(c, 1 + ctrl + Effective(c, ctrl, 0));
    EmitSomeIff(c, 1 + ctrl + Effective(c, ctrl, 0) + 1);
  }

  // Where it fits, the information field is as long as asked for, up to what the
  // format field can state.
  lemma MiflIsRequested(c: Format, ctrl: nat, maxInfo: nat)
    requires Layout(c, ctrl) && !c.transparent && 1 <= maxInfo < WORD - Overhead(c, ctrl)
    ensures
      var mifl := Mifl(c, ctrl, FrameSize(c, ctrl, maxInfo));
      && 1 <= mifl <= maxInfo
      && (mifl < maxInfo ==> c.fff != 0 && HeaderLength(c, ctrl) + mifl + c.fcs == (if c.fff == 1 then 127 else 4095))
  {
    NoWrap(c, ctrl, maxInfo);
  }

  // --- Writing -----------------------------------------------------------------------

  // The next fragment's length: halved where TYPE0 would state a flag octet.
  function ChunkSize(c: Format, ctrl: nat, mifl: nat, remaining: nat): nat {
    var chunk := Min(remaining, mifl);
    if c.fff == 1 && chunk > 1 && (HeaderLength(c, ctrl) + chunk + c.fcs) % 0x100 == 0x7E
    then chunk / 2
    else chunk
  }

  lemma ChunkBounds(c: Format, ctrl: nat, mifl: nat, remaining: nat)
    requires mifl > 0 && remaining > 0
    ensures 1 <= ChunkSize(c, ctrl, mifl, remaining) <= remaining
    ensures ChunkSize(c, ctrl, mifl, remaining) <= mifl
    ensures c.fff == 0 ==> ChunkSize(c, ctrl, mifl, remaining) == Min(remaining, mifl)
  {
  }

  // A fragment is as long as the data and the information length allow, except
  // where a TYPE0 field would then read as a flag: there it is half of that.
  lemma FullOrHalf(c: Format, ctrl: nat, mifl: nat, remaining: nat)
    requires Layout(c, ctrl) && mifl > 0 && remaining > 0
    requires c.fff == 1 ==> HeaderLength(c, ctrl) + mifl + c.fcs <= 127
    ensures
      var n, most := ChunkSize(c, ctrl, mifl, remaining), Min(remaining, mifl);
      if c.fff == 1 && HeaderLength(c, ctrl) + most + c.fcs == 126 then 2 * n <= most <= 2 * n + 1 else n == most
  {
  }

  // --- Good lengths --------------------------------------------------------------------

  // The lengths a fragment may have: the format field can state it without
  // looking like a flag, the frame fits its buffer and the sixteen-bit transmit
  // length, and is not too short for the receiver.
  ghost predicate GoodLength(c: Format, ctrl: nat, configured: nat, n: nat)
    requires Layout(c, ctrl)
  {
    && 1 <= n <= PeerMifl(c, ctrl, configured)
    && EmitFff(c, 1 + ctrl + n).Some?
    && (c.fff == 1 ==> HeaderLength(c, ctrl) + n + c.fcs != FLAG as nat)
    && Overhead(c, ctrl) + n <= PoolFrame(c, ctrl, configured)
    && Overhead(c, ctrl) + n <= 0xFFFF
    && HeaderLength(c, ctrl) + n + c.fcs >= MIN_LENGTH
  }

  // What a caller can check of the configured length.
  predicate SafeLength(c: Format, ctrl: nat, configured: nat) {
    if c.fff == 0 then configured <= 0xFFFF - Overhead(c, ctrl) && (c.fcs > 0 || ctrl == 2)
    else configured < WORD - HeaderLength(c, ctrl)
  }

  lemma ChunkIsGood(c: Format, ctrl: nat, configured: nat, remaining: nat)
    requires Layout(c, ctrl) && !c.transparent && SafeLength(c, ctrl, configured) && remaining > 0
    ensures GoodLength(c, ctrl, configured, ChunkSize(c, ctrl, PeerMifl(c, ctrl, configured), remaining))
  {
    hide EmitFff;
    hide FrameSize;
    MiflBounds(c, ctrl, configured);
    ChunkBounds(c, ctrl, PeerMifl(c, ctrl, configured), remaining);
    var n := ChunkSize(c, ctrl, PeerMifl(c, ctrl, configured), remaining);
    NotAFlag(c, ctrl, PeerMifl(c, ctrl, configured), remaining);
    StatesUpToLimit(c, 1 + ctrl + n);
  }

  // Halving avoids the one length that reads as a flag.
  lemma NotAFlag(c: Format, ctrl: nat, mifl: nat, remaining: nat)
    requires c.fff == 1 ==> HeaderLength(c, ctrl) + mifl + c.fcs <= 127
    requires c.fcs <= 2 && ctrl <= 2
    ensures c.fff == 1 ==> HeaderLength(c, ctrl) + ChunkSize(c, ctrl, mifl, remaining) + c.fcs != FLAG as nat
  {
    assert FLAG as nat == 0x7E;
  }

  lemma MiflBounds(c: Format, ctrl: nat, configured: nat)
    requires Layout(c, ctrl) && !c.transparent && SafeLength(c, ctrl, configured)
    ensures
      var mifl := PeerMifl(c, ctrl, configured);
      && Overhead(c, ctrl) + mifl == PoolFrame(c, ctrl, configured) <= 0xFFFF
      && (c.fff == 1 ==> HeaderLength(c, ctrl) + mifl + c.fcs <= 127)
      && (c.fff == 2 ==> HeaderLength(c, ctrl) + mifl + c.fcs <= 4095)
    ensures PoolFormat(c, ctrl, configured).Valid()
  {
    hide FrameSize;
    NoWrap(c, ctrl, Effective(c, ctrl, configured));
  }

  lemma StatesUpToLimit(c: Format, n: nat)
    requires c.fff <= 2 && (c.fcs == 0 || c.fcs == 2)
    requires c.fff == 1 ==> n + c.fff + c.fcs <= 127
    requires c.fff == 2 ==> n + c.fff + c.fcs <= 4095
    ensures EmitFff(c, n).Some?
  {
    hide EmitFff;
    EmitSomeIff(c, n);
  }

  // Every fragment of every write has a good length exactly when the configured
  // length is safe.
  lemma ChunksAreGoodIff(c: Format, ctrl: nat, configured: nat)
    requires Layout(c, ctrl) && !c.transparent && configured < WORD
    ensures
      var mifl := PeerMifl(c, ctrl, configured);
      (forall remaining: nat {:trigger ChunkSize(c, ctrl, mifl, remaining)} :: remaining > 0 ==>
        GoodLength(c, ctrl, configured, ChunkSize(c, ctrl, mifl, remaining)))
      <==> SafeLength(c, ctrl, configured)
  {
    hide PeerMifl;
    hide SafeLength;
    hide EmitFff;
    hide ChunkSize;
    var mifl := PeerMifl(c, ctrl, configured);
    if SafeLength(c, ctrl, configured) {
      forall remaining: nat | remaining > 0
        ensures GoodLength(c, ctrl, configured, ChunkSize(c, ctrl, mifl, remaining))
      {
        ChunkIsGood(c, ctrl, configured, remaining);
      }
    } else {
      var n := BadLength(c, ctrl, configured);
      assert !GoodLength(c, ctrl, configured, ChunkSize(c, ctrl, mifl, n));
    }
  }

  // A frame that its buffer does not hold, or whose length the transmit length
  // cuts, or that is too short.
  lemma BadLength(c: Format, ctrl: nat, configured: nat) returns (n: nat)
    requires Layout(c, ctrl) && !c.transparent && configured < WORD && !SafeLength(c, ctrl, configured)
    ensures 1 <= n <= PeerMifl(c, ctrl, configured) && ChunkSize(c, ctrl, PeerMifl(c, ctrl, configured), n) == n
    ensures
      || Overhead(c, ctrl) + n > PoolFrame(c, ctrl, configured)
      || Overhead(c, ctrl) + n > 0xFFFF
      || (HeaderLength(c, ctrl) + n + c.fcs < MIN_LENGTH && PoolFormat(c, ctrl, configured).Valid())
  {
    hide FrameSize;
    var mifl := PeerMifl(c, ctrl, configured);
    FullFrameFitsIff(c, ctrl, configured);
    if c.fff != 0 || configured >= WORD - Overhead(c, ctrl) {
      n := mifl;
      assert n == MIFL_FALLBACK;
    } else {
      NoWrap(c, ctrl, Effective(c, ctrl, configured));
      n := if configured > 0xFFFF - Overhead(c, ctrl) then mifl else 1;
    }
  }

  // The octets of the vectors from element `index`, offset `offset` on.
  ghost function Rest(iov: seq<Octets>, index: nat, offset: nat): Octets
    requires index < |iov| ==> offset <= |iov[index]|
  {
    if index < |iov| then iov[index][offset..] + Concat(iov[index + 1..]) else []
  }

  lemma RestNext(iov: seq<Octets>, index: nat)
    requires index < |iov|
    ensures Rest(iov, index, |iov[index]|) == Rest(iov, index + 1, 0)
  {
    var tail := iov[index + 1..];
    if tail != [] {
      assert tail[1..] == iov[index + 2..];
      assert tail[0][0..] == tail[0];
    } else {
      assert Concat(tail) == [];
    }
  }

  lemma RestStart(iov: seq<Octets>)
    ensures Rest(iov, 0, 0) == Concat(iov)
  {
    if iov != [] {
      assert iov[0][0..] == iov[0];
    }
  }

  // Copies one fragment out of the vectors; the empty ones are skipped.
  method FillFragment(iov: seq<Octets>, index: nat, offset: nat, size: nat)
    returns (info: Octets, nextIndex: nat, nextOffset: nat)
    requires index < |iov| ==> offset <= |iov[index]|
    requires size <= |Rest(iov, index, offset)|
    ensures nextIndex < |iov| ==> nextOffset <= |iov[nextIndex]|
    ensures |info| == size && Rest(iov, index, offset) == info + Rest(iov, nextIndex, nextOffset)
  {
    hide Rest;
    info, nextIndex, nextOffset := [], index, offset;
    ghost var all := Rest(iov, index, offset);
    while |info| < size
      invariant nextIndex < |iov| ==> nextOffset <= |iov[nextIndex]|
      invariant |info| <= size && all == info + Rest(iov, nextIndex, nextOffset)
      decreases size - |info|
    {
      nextIndex, nextOffset := SkipEmpty(iov, nextIndex, nextOffset);
      var n := Min(|iov[nextIndex]| - nextOffset, size - |info|);
      var piece := iov[nextIndex][nextOffset..nextOffset + n];
      RestTake(iov, nextIndex, nextOffset, n);
      Associate(info, piece, Rest(iov, nextIndex, nextOffset + n));
      info := info + piece;
      nextOffset := nextOffset + n;
    }
  }

  lemma RestTake(iov: seq<Octets>, index: nat, offset: nat, n: nat)
    requires index < |iov| && offset + n <= |iov[index]|
    ensures Rest(iov, index, offset) == iov[index][offset..offset + n] + Rest(iov, index, offset + n)
  {
    hide Concat;
    var v := iov[index];
    assert v[offset..] == v[offset..offset + n] + v[offset + n..];
    Associate(v[offset..offset + n], v[offset + n..], Concat(iov[index + 1..]));
  }

  method SkipEmpty(iov: seq<Octets>, index: nat, offset: nat) returns (i: nat, o: nat)
    requires index < |iov| ==> offset <= |iov[index]|
    requires Rest(iov, index, offset) != []
    ensures i < |iov| && o < |iov[i]| && Rest(iov, i, o) == Rest(iov, index, offset)
  {
    hide Rest;
    RestSome(iov, index, offset);
    i, o := index, offset;
    while i < |iov| && o == |iov[i]|
      invariant i < |iov| ==> o <= |iov[i]|
      invariant Rest(iov, i, o) == Rest(iov, index, offset)
      decreases |iov| - i
    {
      RestNext(iov, i);
      i, o := i + 1, 0;
    }
    RestSome(iov, i, o);
  }

  lemma RestSome(iov: seq<Octets>, index: nat, offset: nat)
    requires index < |iov| ==> offset <= |iov[index]|
    ensures Rest(iov, index, offset) != [] ==> index < |iov|
  {
  }

  // The fragments of a whole write.
  function Chunks(c: Format, ctrl: nat, mifl: nat, data: Octets): seq<Octets>
    requires mifl > 0
    decreases |data|
  {
    if data == [] then []
    else
      ChunkBounds(c, ctrl, mifl, |data|);
      var n := ChunkSize(c, ctrl, mifl, |data|);
      [data[..n]] + Chunks(c, ctrl, mifl, data[n..])
  }

  // The frame lengths the write stores, in sixteen bits.
  function Elens(c: Format, ctrl: nat, infos: seq<Octets>): (es: seq<nat>)
    ensures |es| == |infos| && forall i :: 0 <= i < |es| ==> es[i] == Sixteen(HeaderLength(c, ctrl) + |infos[i]|)
  {
    seq<nat>(|infos|, i requires 0 <= i < |infos| => Sixteen(HeaderLength(c, ctrl) + |infos[i]|))
  }

  // The write loop, for at most `limit` fragments: it may be cut short by a
  // timeout or a link event.
  method WriteV(c: Format, ctrl: nat, configured: nat, iov: seq<Octets>, limit: nat)
    returns (frags: seq<Octets>, elens: seq<nat>, written: nat)
    requires Layout(c, ctrl)
    ensures written <= |Concat(iov)| && Concat(frags) == Concat(iov)[..written]
    ensures frags <= Chunks(c, ctrl, PeerMifl(c, ctrl, configured), Concat(iov))
    ensures elens == Elens(c, ctrl, frags)
    ensures !c.transparent && SafeLength(c, ctrl, configured) ==>
      forall f :: f in frags ==> GoodLength(c, ctrl, configured, |f|)
    ensures |frags| <= limit && (|frags| < limit ==> written == |Concat(iov)|)
    ensures written == |Concat(iov)| ==> frags == Chunks(c, ctrl, PeerMifl(c, ctrl, configured), Concat(iov))
  {
    hide Concat;
    hide Rest;
    hide GoodLength;
    hide ChunkSize;
    hide PeerMifl;
    hide SafeLength;
    hide Chunks;
    hide Sixteen;
    var mifl := PeerMifl(c, ctrl, configured);
    ghost var data := Concat(iov);
    ghost var all := Chunks(c, ctrl, mifl, data);
    var total := OctetCount(iov);
    var remaining := total;
    var index: nat, offset: nat := 0, 0;
    frags, elens, written := [], [], 0;
    RestStart(iov);
    NoFragments();
    while remaining > 0 && |frags| < limit
      invariant |frags| <= limit && written + remaining == total == |data|
      invariant index < |iov| ==> offset <= |iov[index]|
      invariant |Rest(iov, index, offset)| == remaining
      invariant data == Concat(frags) + Rest(iov, index, offset)
      invariant all == frags + Chunks(c, ctrl, mifl, Rest(iov, index, offset))
      invariant elens == Elens(c, ctrl, frags)
      invariant !c.transparent && SafeLength(c, ctrl, configured) ==>
        forall f :: f in frags ==> GoodLength(c, ctrl, configured, |f|)
      decreases remaining
    {
      var chunk := ChunkSize(c, ctrl, mifl, remaining);
      ChunkBounds(c, ctrl, mifl, remaining);
      if !c.transparent && SafeLength(c, ctrl, configured) {
        ChunkIsGood(c, ctrl, configured, remaining);
      }
      ghost var rest := Rest(iov, index, offset);
      var info;
      info, index, offset := FillFragment(iov, index, offset, chunk);
      NextChunk(c, ctrl, mifl, info, Rest(iov, index, offset));
      AppendFragment(frags, info);
      Associate(Concat(frags), info, Rest(iov, index, offset));
      Associate(frags, [info], Chunks(c, ctrl, mifl, Rest(iov, index, offset)));
      frags := frags + [info];
      elens := elens + [Sixteen(HeaderLength(c, ctrl) + |info|)];
      written := written + chunk;
      remaining := remaining - chunk;
    }
    assert data[..written] == Concat(frags);
    if remaining == 0 {
      NoChunks(c, ctrl, mifl);
      assert frags + [] == frags;
    }
  }

  lemma NextChunk(c: Format, ctrl: nat, mifl: nat, info: Octets, rest: Octets)
    requires mifl > 0 && info != [] && |info| == ChunkSize(c, ctrl, mifl, |info + rest|)
    ensures Chunks(c, ctrl, mifl, info + rest) == [info] + Chunks(c, ctrl, mifl, rest)
  {
    hide ChunkSize;
    assert (info + rest)[..|info|] == info && (info + rest)[|info|..] == rest;
  }

  lemma NoChunks(c: Format, ctrl: nat, mifl: nat)
    requires mifl > 0
    ensures Chunks(c, ctrl, mifl, []) == []
  {
  }

  lemma {:induction false} ChunksConcat(c: Format, ctrl: nat, mifl: nat, data: Octets)
    requires mifl > 0
    ensures Concat(Chunks(c, ctrl, mifl, data)) == data
    ensures |Chunks(c, ctrl, mifl, data)| <= |data|
    decreases |data|
  {
    hide ChunkSize;
    if data != [] {
      ChunkBounds(c, ctrl, mifl, |data|);
      var n := ChunkSize(c, ctrl, mifl, |data|);
      ChunksConcat(c, ctrl, mifl, data[n..]);
      assert Chunks(c, ctrl, mifl, data)[1..] == Chunks(c, ctrl, mifl, data[n..]);
      assert data == data[..n] + data[n..];
    }
  }

  method OctetCount(iov: seq<Octets>) returns (total: nat)
    ensures total == |Concat(iov)|
  {
    total := 0;
    var i := 0;
    while i < |iov|
      invariant i <= |iov| && total + |Concat(iov[i..])| == |Concat(iov)|
    {
      assert iov[i..][1..] == iov[i + 1..];
      total := total + |iov[i]|;
      i := i + 1;
    }
  }

  lemma NoFragments()
    ensures Concat([]) == []
  {
  }

  lemma {:induction false} AppendFragment(fs: seq<Octets>, f: Octets)
    ensures Concat(fs + [f]) == Concat(fs) + f
    decreases |fs|
  {
    if fs == [] {
      assert fs + [f] == [f] && [f][1..] == [];
      assert Concat([f]) == f + Concat([]);
    } else {
      assert (fs + [f])[1..] == fs[1..] + [f];
      AppendFragment(fs[1..], f);
    }
  }

  // --- Reading ------------------------------------------------------------------------------

  // The reader's buffers: `lens` are their lengths and `filled` what has been
  // put into each so far, front to back.
  ghost predicate FilledInOrder(lens: seq<nat>, filled: seq<Octets>, index: nat) {
    && |filled| == |lens|
    && (forall i :: 0 <= i < |lens| ==> |filled[i]| <= lens[i])
    && (forall i :: 0 <= i < index && i < |lens| ==> |filled[i]| == lens[i])
    && (forall i :: index < i < |lens| ==> filled[i] == [])
  }

  class Reader {
    var receptQ: seq<Octets>
    var partial: Option<Octets>
    var partialOffset: nat

    ghost predicate Valid()
      reads this
    {
      partial.Some? ==> partialOffset < |partial.value|
    }

    // The octets that can be read now.
    ghost function Stream(): Octets
      reads this
      requires Valid()
    {
      (if partial.Some? then partial.value[partialOffset..] else []) + Concat(receptQ)
    }

    constructor ()
      ensures Valid() && Stream() == []
    {
      receptQ, partial, partialOffset := [], None, 0;
    }

    method Deliver(info: Octets)
      requires Valid()
      modifies this`receptQ
      ensures Valid() && Stream() == old(Stream()) + info
    {
      AppendFragment(receptQ, info);
      receptQ := receptQ + [info];
    }

    // The frame being read, a new one if there is none.
    method CurrentFrame() returns (info: Octets)
      requires Valid() && (partial.Some? || receptQ != [])
      modifies this`receptQ, this`partialOffset
      ensures partialOffset <= |info|
      ensures old(Stream()) == info[partialOffset..] + Concat(receptQ)
      ensures old(partial).Some? ==> receptQ == old(receptQ)
      ensures old(partial).None? ==> receptQ == old(receptQ)[1..]
    {
      if partial.Some? {
        info := partial.value;
      } else {
        info := receptQ[0];
        receptQ := receptQ[1..];
        partialOffset := 0;
        assert info[0..] == info;
      }
    }

    // Copies from one frame into the buffers until either is used up.
    method CopyFrame(info: Octets, lens: seq<nat>, filled: seq<Octets>, index: nat, offset: nat, space: nat)
      returns (f: seq<Octets>, i: nat, o: nat, left: nat)
      requires partialOffset <= |info|
      requires At(lens, filled, index, offset) && |Concat(filled)| + space == Sum(lens)
      modifies this`partialOffset
      ensures partialOffset <= |info| && (partialOffset == |info| || left == 0) && left <= space
      ensures At(lens, f, i, o) && |Concat(f)| + left == Sum(lens)
      ensures Concat(filled) + info[old(partialOffset)..] == Concat(f) + info[partialOffset..]
    {
      hide Concat;
      hide Sum;
      hide At;
      f, i, o, left := filled, index, offset, space;
      while partialOffset < |info| && left > 0
        invariant partialOffset <= |info| && left <= space
        invariant At(lens, f, i, o) && |Concat(f)| + left == Sum(lens)
        invariant Concat(filled) + info[old(partialOffset)..] == Concat(f) + info[partialOffset..]
        decreases left
      {
        i, o := SkipFull(lens, f, i, o);
        var n := Min(lens[i] - o, |info| - partialOffset);
        var piece := info[partialOffset..partialOffset + n];
        PutPiece(lens, f, i, o, piece);
        assert info[partialOffset..] == piece + info[partialOffset + n..];
        Associate(Concat(f), piece, info[partialOffset + n..]);
        f := f[i := f[i] + piece];
        o := o + n;
        partialOffset := partialOffset + n;
        RoomLeft(lens, f, i, o);
        left := left - n;
      }
    }

    // One call with data at hand: it reads until the buffers are full or nothing
    // is left.
    method ReadV(lens: seq<nat>) returns (filled: seq<Octets>, count: nat)
      requires Valid()
      modifies this
      ensures Valid()
      ensures count == Min(Sum(lens), |old(Stream())|)
      ensures old(Stream()) == Concat(filled) + Stream() && |Concat(filled)| == count
      ensures exists index, offset :: At(lens, filled, index, offset)
    {
      hide Concat;
      hide Sum;
      hide At;
      var total := Sum(lens);
      var index: nat, offset: nat, left: nat := 0, 0, total;
      filled := seq(|lens|, _ => []);
      NothingFilled(lens);
      while left > 0 && (partial.Some? || receptQ != [])
        invariant Valid()
        invariant At(lens, filled, index, offset) && |Concat(filled)| + left == total
        invariant old(Stream()) == Concat(filled) + Stream()
        decreases left + |receptQ| + (if partial.Some? then 1 else 0)
      {
        ghost var before := Concat(filled);
        var info := CurrentFrame();
        ghost var rest := Concat(receptQ);
        Associate(before, info[partialOffset..], rest);
        filled, index, offset, left := CopyFrame(info, lens, filled, index, offset, left);
        Associate(Concat(filled), info[partialOffset..], rest);
        if partialOffset < |info| {
          partial := Some(info);
        } else {
          partial, partialOffset := None, 0;
          assert [] + rest == rest;
        }
      }
      if left > 0 {
        NoFragments();
      }
      count := total - left;
    }
  }

  // Where the next octet goes: buffer `index`, after the `offset` already there.
  ghost predicate At(lens: seq<nat>, filled: seq<Octets>, index: nat, offset: nat) {
    FilledInOrder(lens, filled, index) && (index < |lens| ==> offset == |filled[index]|)
  }

  lemma NothingFilled(lens: seq<nat>)
    ensures var filled := seq(|lens|, _ => []); At(lens, filled, 0, 0) && Concat(filled) == []
  {
    AllEmpty(seq(|lens|, _ => []));
  }

  lemma {:induction false} AllEmpty(fs: seq<Octets>)
    requires forall i :: 0 <= i < |fs| ==> fs[i] == []
    ensures Concat(fs) == []
    decreases |fs|
  {
    if fs != [] {
      AllEmpty(fs[1..]);
    }
  }

  lemma {:induction false} AppendAt(fs: seq<Octets>, index: nat, b: Octets)
    requires index < |fs| && forall i :: index < i < |fs| ==> fs[i] == []
    ensures Concat(fs[index := fs[index] + b]) == Concat(fs) + b
    decreases index
  {
    var g := fs[index := fs[index] + b];
    if index == 0 {
      assert g[1..] == fs[1..];
      AllEmpty(fs[1..]);
      assert fs[0] + b + [] == fs[0] + [] + b;
    } else {
      assert g[1..] == fs[1..][index - 1 := fs[index] + b];
      AppendAt(fs[1..], index - 1, b);
      Associate(fs[0], Concat(fs[1..]), b);
    }
  }

  lemma PutPiece(lens: seq<nat>, filled: seq<Octets>, index: nat, offset: nat, piece: Octets)
    requires At(lens, filled, index, offset) && index < |lens| && offset + |piece| <= lens[index]
    ensures index < |filled|
    ensures At(lens, filled[index := filled[index] + piece], index, offset + |piece|)
    ensures Concat(filled[index := filled[index] + piece]) == Concat(filled) + piece
  {
    AppendAt(filled, index, piece);
  }

  lemma {:induction false} FilledUpTo(lens: seq<nat>, filled: seq<Octets>)
    requires |lens| == |filled| && forall i :: 0 <= i < |lens| ==> |filled[i]| <= lens[i]
    ensures |Concat(filled)| <= Sum(lens)
    ensures (forall i :: 0 <= i < |lens| ==> |filled[i]| == lens[i]) ==> |Concat(filled)| == Sum(lens)
    decreases |lens|
  {
    if lens != [] {
      FilledUpTo(lens[1..], filled[1..]);
    }
  }

  lemma RoomLeft(lens: seq<nat>, filled: seq<Octets>, index: nat, offset: nat)
    requires At(lens, filled, index, offset)
    ensures |Concat(filled)| <= Sum(lens)
    ensures index >= |lens| ==> |Concat(filled)| == Sum(lens)
  {
    FilledUpTo(lens, filled);
  }

  method SkipFull(lens: seq<nat>, filled: seq<Octets>, index: nat, offset: nat) returns (i: nat, o: nat)
    requires At(lens, filled, index, offset) && |Concat(filled)| < Sum(lens)
    ensures i < |lens| && At(lens, filled, i, o) && o < lens[i]
  {
    hide Concat;
    hide Sum;
    i, o := index, offset;
    while i < |lens| && o == lens[i]
      invariant At(lens, filled, i, o)
      decreases |lens| - i
    {
      i, o := i + 1, 0;
    }
    RoomLeft(lens, filled, i, o);
  }

  // --- A series of reads ---------------------------------------------------------------------------

  function SumAll(wants: seq<seq<nat>>): nat {
    if wants == [] then 0 else Sum(wants[0]) + SumAll(wants[1..])
  }

  // Information fields handed to the reader one after the other.
  method DeliverAll(reader: Reader, infos: seq<Octets>)
    requires reader.Valid()
    modifies reader
    ensures reader.Valid() && reader.Stream() == old(reader.Stream()) + Concat(infos)
  {
    hide Concat;
    var i := 0;
    NoFragments();
    while i < |infos|
      invariant i <= |infos| && reader.Valid()
      invariant reader.Stream() == old(reader.Stream()) + Concat(infos[..i])
    {
      AppendFragment(infos[..i], infos[i]);
      assert infos[..i + 1] == infos[..i] + [infos[i]];
      Associate(old(reader.Stream()), Concat(infos[..i]), infos[i]);
      reader.Deliver(infos[i]);
      i := i + 1;
    }
    assert infos[..i] == infos;
  }

  // A series of vectored reads returns the next octets of the stream, in order,
  // as many as are asked for and are there.
  method ReadAll(reader: Reader, wants: seq<seq<nat>>) returns (outs: seq<Octets>)
    requires reader.Valid()
    modifies reader
    ensures reader.Valid() && |outs| == |wants|
    ensures Concat(outs) == old(reader.Stream())[..Min(SumAll(wants), |old(reader.Stream())|)]
  {
    hide Concat;
    hide Sum;
    ghost var data := reader.Stream();
    outs := [];
    var j := 0;
    NoFragments();
    assert wants[0..] == wants;
    assert [] + data == data;
    while j < |wants|
      invariant j <= |wants| && |outs| == j && reader.Valid()
      invariant data == Concat(outs) + reader.Stream()
      invariant Min(SumAll(wants), |data|) == |Concat(outs)| + Min(SumAll(wants[j..]), |reader.Stream()|)
    {
      var filled, count := reader.ReadV(wants[j]);
      assert wants[j..][1..] == wants[j + 1..];
      var got := Concat(filled);
      AppendFragment(outs, got);
      Associate(Concat(outs), got, reader.Stream());
      outs := outs + [got];
      j := j + 1;
    }
    assert Concat(outs) == data[..|Concat(outs)|];
  }
}
