// The software driver's receive path in place: pool frames are arrays, the
// parser writes into the one under construction, and the reader decodes,
// checks and shortens a delivered frame inside its own buffer.
module RxPath {
  import opened Bytes
  import opened Wrappers
  import opened Framing
  import opened Receiver
  import Fcs

  // A frame buffer with the length of what it holds.
  datatype RxFrame = RxFrame(buf: array<bv8>, len: nat)

  // The reader skips what it does not accept.
  function Skip(c: Format, raws: seq<Octets>): (Option<Octets>, seq<Octets>)
    decreases |raws|
  {
    if raws == [] then (None, [])
    else if Accept(c, raws[0]).Some? then (Accept(c, raws[0]), raws[1..])
    else Skip(c, raws[1..])
  }

  // It returns the first acceptable frame, and takes only that one and those in
  // front of it.
  lemma {:induction false} SkipsToTheFirst(c: Format, raws: seq<Octets>, k: nat)
    requires k <= |raws| && forall i :: 0 <= i < k ==> Accept(c, raws[i]).None?
    requires k < |raws| ==> Accept(c, raws[k]).Some?
    ensures Skip(c, raws) == if k < |raws| then (Accept(c, raws[k]), raws[k + 1..]) else (None, [])
    decreases k
  {
    hide Accept;
    if k > 0 {
      SkipsToTheFirst(c, raws[1..], k - 1);
      assert k < |raws| ==> raws[1..][k..] == raws[k + 1..];
    }
  }

  // In-place transparent encoding needs two buffers; decoding does not.
  method TransparentEncode(dst: array<bv8>, src: array<bv8>, len: nat) returns (encodedLen: nat, encoded: bool)
    requires dst != src && len <= src.Length && |Stuff(src[..len])| <= dst.Length
    modifies dst
    ensures encodedLen == |Stuff(src[..len])| && dst[..encodedLen] == Stuff(src[..len])
    ensures dst[encodedLen..] == old(dst[encodedLen..])
    ensures encoded <==> exists i :: 0 <= i < len && Special(src[i])
  {
    hide Mask;
    hide Stuff;
    var i, d := 0, 0;
    encoded := false;
    StuffNothing();
    while i < len
      invariant i <= len && d <= |Stuff(src[..len])|
      invariant d == |Stuff(src[..i])| && dst[..d] == Stuff(src[..i])
      invariant forall k :: d <= k < dst.Length ==> dst[k] == old(dst[k])
      invariant encoded <==> exists k :: 0 <= k < i && Special(src[k])
    {
      StuffNext(src[..len], i);
      assert src[..len][..i] == src[..i] && src[..len][..i + 1] == src[..i + 1];
      ghost var done := dst[..d];
      if src[i] == FLAG || src[i] == ESC {
        dst[d] := ESC;
        dst[d + 1] := Mask(src[i]);
        d := d + 2;
        encoded := true;
        assert dst[..d] == done + [ESC, Mask(src[i])];
      } else {
        dst[d] := src[i];
        d := d + 1;
        assert dst[..d] == done + [src[i]];
      }
      i := i + 1;
    }
    encodedLen := d;
    assert src[..i] == src[..len];
  }

  lemma StuffNothing()
    ensures Stuff([]) == []
  {
  }

  function StuffOne(b: bv8): Octets {
    if Special(b) then [ESC, Mask(b)] else [b]
  }

  lemma StuffNext(s: Octets, i: nat)
    requires i < |s|
    ensures Stuff(s[..i + 1]) == Stuff(s[..i]) + StuffOne(s[i])
    ensures |Stuff(s[..i + 1])| <= |Stuff(s)|
  {
    hide Mask;
    assert s[..i + 1] == s[..i] + [s[i]];
    StuffConcat(s[..i], [s[i]]);
    assert Stuff([s[i]]) == StuffOne(s[i]) + Stuff([s[i]][1..]);
    assert [s[i]][1..] == [];
    assert s == s[..i + 1] + s[i + 1..];
    StuffConcat(s[..i + 1], s[i + 1..]);
  }

  // Decodes a frame inside its own buffer: the read position never falls behind
  // the write position.  The octet behind the frame is its closing flag, which
  // a trailing escape consumes.
  method TransparentDecode(buf: array<bv8>, len: nat) returns (decodedLen: nat)
    requires len < buf.Length && buf[len] == FLAG
    modifies buf
    ensures decodedLen == |Destuff(old(buf[..len]))| <= buf.Length
    ensures buf[..decodedLen] == Destuff(old(buf[..len]))
  {
    hide Mask;
    hide Destuff;
    var i, d := 0, 0;
    ghost var raw := buf[..len];
    ghost var out: Octets := [];
    while i < len
      invariant d <= i <= len + 1 && d <= len
      invariant forall k :: i <= k < buf.Length ==> buf[k] == old(buf[k])
      invariant buf[..d] == out && Destuff(raw) == out + Destuff(From(raw, i))
    {
      var x := buf[i];
      var y := x;
      DestuffFrom(raw, i);
      if x == ESC {
        i := i + 1;
        y := Mask(buf[i]);
      }
      ghost var next := out + [y];
      assert Destuff(raw) == next + Destuff(From(raw, i + 1));
      buf[d] := y;
      out := next;
      i := i + 1;
      d := d + 1;
      assert buf[..d] == out;
    }
    DestuffNothing();
    assert From(raw, i) == [] && out + [] == out;
    assert raw[0..] == raw;
    decodedLen := d;
  }

  ghost function From(s: Octets, i: nat): Octets {
    if i <= |s| then s[i..] else []
  }

  lemma DestuffFrom(s: Octets, i: nat)
    requires i < |s|
    ensures s[i] != ESC ==> Destuff(From(s, i)) == [s[i]] + Destuff(From(s, i + 1))
    ensures s[i] == ESC ==>
      Destuff(From(s, i)) == [Mask(if i + 1 < |s| then s[i + 1] else FLAG)] + Destuff(From(s, i + 2))
  {
    hide Mask;
    hide Destuff;
    DestuffNext(s[i..]);
    DestuffNothing();
    assert s[i..][1..] == s[i + 1..];
    assert i + 1 < |s| ==> s[i..][2..] == s[i + 2..];
  }

  lemma DestuffNothing()
    ensures Destuff([]) == []
  {
  }

  lemma DestuffNext(s: Octets)
    requires s != []
    ensures s[0] != ESC ==> Destuff(s) == [s[0]] + Destuff(s[1..])
    ensures s[0] == ESC && |s| > 1 ==> Destuff(s) == [Mask(s[1])] + Destuff(s[2..])
    ensures s[0] == ESC && |s| == 1 ==> Destuff(s) == [Mask(FLAG)]
  {
  }

  // --- The parser object ----------------------------------------------------------

  class RxDriver {
    const cfg: Format
    var inFrame: array?<bv8>   // the pool frame under construction
    var elen: nat
    var stage: bv8
    var armedAt: nat           // where in the frame the next octet goes
    var need: nat              // how many octets the armed request still asks for
    var fault: bool
    var receptQ: seq<RxFrame>

    ghost function View(): Receiver
      reads this, inFrame
      requires inFrame != null ==> armedAt <= inFrame.Length
    {
      if fault then Fault else if inFrame == null then Closed else Open(inFrame[..armedAt], need)
    }

    ghost predicate QueueValid()
      reads this, set q | q in receptQ :: q.buf
    {
      && (forall i :: 0 <= i < |receptQ| ==> Delivered(receptQ[i], inFrame))
      && (forall i, j :: 0 <= i < j < |receptQ| ==> receptQ[i].buf != receptQ[j].buf)
    }

    // A queued frame still has its closing flag behind it.
    ghost predicate Delivered(q: RxFrame, current: array?<bv8>)
      reads q.buf
    {
      && q.buf != current
      && q.buf.Length == cfg.frameSize
      && MIN_LENGTH <= q.len < q.buf.Length
      && q.buf[q.len] == FLAG
    }

    ghost predicate Shape()
      reads this, inFrame
    {
      && cfg.Valid()
      && stage != FLAG
      && (inFrame != null ==>
        && inFrame.Length == cfg.frameSize
        && armedAt + need <= cfg.frameSize
        && elen + 1 == armedAt + need)
    }

    ghost predicate Valid()
      reads this, inFrame, set q | q in receptQ :: q.buf
    {
      Shape() && QueueValid() && Inv(cfg, View())
    }

    ghost function Queued(): seq<Octets>
      reads this, set q | q in receptQ :: q.buf
      requires QueueValid()
    {
      Contents(receptQ)
    }

    constructor (cfg: Format)
      requires cfg.Valid()
      ensures this.cfg == cfg && Valid() && View() == Closed && Queued() == []
    {
      this.cfg := cfg;
      inFrame, elen, stage, armedAt, need, fault, receptQ := null, 0, 0, 0, 1, false, [];
    }

    // A frame the pool could hand out now.
    ghost predicate PoolFrame(spare: array?<bv8>)
      reads this
    {
      spare != null ==>
        spare.Length == cfg.frameSize && spare != inFrame && forall q :: q in receptQ ==> q.buf != spare
    }

    // The partial frame goes back to the pool; the next octet is staged.
    method Discard()
      modifies this`inFrame, this`stage, this`armedAt, this`need, this`elen
      ensures inFrame == null && stage == 0 && need == 1
    {
      inFrame, stage := null, 0;
      elen, armedAt, need := 0, 0, 1;
    }

    method Arm(at: nat, count: nat)
      modifies this`armedAt, this`need
      ensures armedAt == at && need == count
    {
      armedAt, need := at, count;
    }

    // With a flag staged and no frame under construction.
    method StartFrame(spare: array?<bv8>)
      requires cfg.Valid() && inFrame == null && !fault && stage == FLAG && PoolFrame(spare)
      modifies this`inFrame, this`stage, this`armedAt, this`need, this`elen
      ensures Shape() && inFrame == spare && View() == NewFrame(spare != null)
    {
      stage := 0;
      inFrame := spare;
      elen := 0;
      Arm(0, 1);
      assert inFrame != null ==> inFrame[..0] == [];
    }

    method SecondLengthOctet()
      requires cfg.Valid() && stage != FLAG && inFrame != null && inFrame.Length == cfg.frameSize && !fault
      requires cfg.fff == 2 && !cfg.transparent
      requires need == 0 && elen == 1 && armedAt == 2 <= cfg.frameSize
      modifies this`inFrame, this`stage, this`armedAt, this`need, this`elen, this`fault
      ensures Shape() && View() == Continue(cfg, old(inFrame[..2]))
      ensures inFrame == old(inFrame) || inFrame == null
    {
      hide TwelveBits;
      hide Format.Valid;
      var n := TwelveBits(inFrame[0], inFrame[1]);
      if n != 0 && n < cfg.frameSize {
        elen := n;
        fault := n == 1;   // the failed assertion on an empty request
        Arm(2, n - 1);
      } else {
        Discard();
      }
    }

    // The armed request is complete and its last octet was no delimiter.
    method ContinueFrame()
      requires cfg.Valid() && stage != FLAG && inFrame != null && inFrame.Length == cfg.frameSize && !fault
      requires need == 0 && armedAt == elen + 1 <= cfg.frameSize
      modifies this`inFrame, this`stage, this`armedAt, this`need, this`elen, this`fault
      ensures Shape() && View() == Continue(cfg, old(inFrame[..armedAt]))
      ensures inFrame == old(inFrame) || inFrame == null
    {
      hide Declared;
      hide TwelveBits;
      hide Sixteen;
      ghost var g := inFrame[..armedAt];
      if cfg.fff == 1 && !cfg.transparent && elen == 0 {
        var first := inFrame[0];
        if first & 0x80 == 0 && first != 0 && first as nat < cfg.frameSize {
          elen := first as nat;
          Arm(1, elen);
        } else {
          Discard();
        }
      } else if cfg.fff == 2 && !cfg.transparent && elen == 0 {
        if inFrame[0] & 0xF0 == 0x80 {
          elen := elen + 1;
          Arm(1, 1);
        } else {
          Discard();
        }
      } else if cfg.fff == 2 && !cfg.transparent && elen == 1 {
        SecondLengthOctet();
      } else {
        elen := Sixteen(elen + 1);
        if elen >= cfg.frameSize {
          Discard();
        } else {
          Arm(elen, 1);
        }
      }
    }

    // The finished frame goes to the reader; its closing flag is also the next
    // opening flag.
    method Deliver()
      requires QueueValid() && inFrame != null && inFrame.Length == cfg.frameSize
      requires MIN_LENGTH <= elen < cfg.frameSize && inFrame[elen] == FLAG
      modifies this`inFrame, this`receptQ, this`stage
      ensures QueueValid() && inFrame == null && stage == FLAG
      ensures receptQ == old(receptQ) + [RxFrame(old(inFrame), elen)]
      ensures Queued() == old(Queued()) + [old(inFrame[..elen])]
    {
      receptQ := receptQ + [RxFrame(inFrame, elen)];
      inFrame := null;
      stage := FLAG;
    }

    // The callback: the armed request is complete.
    method RequestComplete(spare: array?<bv8>)
      requires cfg.Valid() && stage != FLAG && !fault && QueueValid() && PoolFrame(spare)
      requires inFrame != null && inFrame.Length == cfg.frameSize
      requires need == 0 && armedAt == elen + 1 <= cfg.frameSize
      modifies this
      ensures Shape() && QueueValid()
      ensures View() == Complete(cfg, old(inFrame[..armedAt]), spare != null).0
      ensures Queued() == old(Queued()) + Output(Complete(cfg, old(inFrame[..armedAt]), spare != null).1)
    {
      hide Continue;
      hide Sixteen;
      hide Format.Valid;
      ghost var g := inFrame[..armedAt];
      assert g[..elen] == inFrame[..elen];
      if inFrame[elen] == FLAG && (cfg.fff != 2 || elen != 1) {
        if elen < MIN_LENGTH {
          elen := 0;
          Arm(0, 1);
          assert inFrame[..0] == [];
        } else {
          Deliver();
          StartFrame(spare);
        }
      } else {
        ContinueFrame();
      }
    }

    method FrameOctet(b: bv8, spare: array?<bv8>)
      requires Shape() && QueueValid() && PoolFrame(spare) && !fault && inFrame != null && need > 0
      modifies this, inFrame
      ensures Shape() && QueueValid()
      ensures View() == Step(cfg, old(View()), Octet(b, spare != null)).0
      ensures Queued() == old(Queued()) + Output(Step(cfg, old(View()), Octet(b, spare != null)).1)
    {
      hide Complete;
      hide Format.Valid;
      ghost var got := inFrame[..armedAt];
      inFrame[armedAt] := b;
      Arm(armedAt + 1, need - 1);
      assert inFrame[..armedAt] == got + [b];
      if need == 0 {
        RequestComplete(spare);
      }
    }

    // One octet from the port, written where the request points.
    method OnOctet(b: bv8, spare: array?<bv8>)
      requires Valid() && PoolFrame(spare)
      modifies this, inFrame
      ensures Valid()
      ensures View() == Step(cfg, old(View()), Octet(b, spare != null)).0
      ensures Queued() == old(Queued()) + Output(Step(cfg, old(View()), Octet(b, spare != null)).1)
    {
      hide Complete;
      hide Inv;
      hide Format.Valid;
      StepKeepsInv(cfg, View(), Octet(b, spare != null));
      if fault {
        return;
      }
      if inFrame == null {
        stage := b;
        if stage == FLAG {
          StartFrame(spare);
        }
      } else {
        RequestInBounds(cfg, View());
        FrameOctet(b, spare);
      }
    }

    // A timeout inside a frame drops it; between frames it wakes the reader.
    method OnTimeout() returns (idle: bool)
      requires Valid()
      modifies this
      ensures Valid() && receptQ == old(receptQ)
      ensures View() == Step(cfg, old(View()), Timeout).0
      ensures !old(fault) ==> (idle <==> old(View()).Elen() == 0)
      ensures idle ==> View() == old(View())
    {
      idle := false;
      if fault {
        return;
      }
      if inFrame != null && elen != 0 {
        Discard();
      } else {
        idle := true;
      }
    }

    method OnLineError()
      requires Valid()
      modifies this
      ensures Valid() && receptQ == old(receptQ)
      ensures View() == Step(cfg, old(View()), LineError).0
    {
      if !fault {
        Discard();
      }
    }

    // Decodes a delivered frame in place and checks it; `len` is its length
    // without the FCS.
    method CheckFrame(q: RxFrame) returns (ok: bool, len: nat)
      requires cfg.Valid() && MIN_LENGTH <= q.len < q.buf.Length && q.buf[q.len] == FLAG
      modifies q.buf
      ensures ok == Accept(cfg, old(q.buf[..q.len])).Some?
      ensures ok ==> len <= q.buf.Length && Some(q.buf[..len]) == Accept(cfg, old(q.buf[..q.len]))
    {
      hide Declared;
      hide Destuff;
      hide Fcs.Check;
      hide Fcs.FcsOctets;
      ghost var raw := q.buf[..q.len];
      len := q.len;
      if cfg.transparent {
        len := TransparentDecode(q.buf, q.len);
      }
      assert q.buf[..len] == Decode(cfg, raw);
      var fcsOk := true;
      if cfg.fcs > 0 {
        fcsOk := Fcs.CheckFcsAt(q.buf, len);
      }
      var fffOk := true;
      if cfg.fff != 0 && len > 0 {
        var declared := Declared(q.buf[0], q.buf[1]);
        fffOk := declared == len;
      }
      ok := fcsOk && fffOk;
      if ok {
        len := len - cfg.fcs;
        assert Decode(cfg, raw)[..len] == q.buf[..len];
      }
    }

    method NextFrame() returns (q: RxFrame, ok: bool, len: nat)
      requires Shape() && QueueValid() && receptQ != []
      modifies this`receptQ, receptQ[0].buf
      ensures QueueValid() && View() == old(View())
      ensures receptQ == old(receptQ)[1..] && q == old(receptQ)[0]
      ensures q.buf != inFrame && forall f :: f in receptQ ==> f.buf != q.buf
      ensures Queued() == old(Queued())[1..]
      ensures ok == Accept(cfg, old(Queued())[0]).Some?
      ensures ok ==> len <= q.buf.Length && Some(q.buf[..len]) == Accept(cfg, old(Queued())[0])
    {
      hide Accept;
      hide Format.Valid;
      q := receptQ[0];
      ghost var all := Queued();
      receptQ := receptQ[1..];
      assert all == [q.buf[..q.len]] + Queued();
      ok, len := CheckFrame(q);
    }

    // The reader: drops what fails the checks and returns the first frame that
    // passes, or none when the queue runs empty.
    method RecvFrame() returns (r: Option<RxFrame>)
      requires Valid()
      modifies this`receptQ, set q | q in receptQ :: q.buf
      ensures Valid() && View() == old(View())
      ensures Queued() == Skip(cfg, old(Queued())).1
      ensures r.Some? == Skip(cfg, old(Queued())).0.Some?
      ensures r.Some? ==>
        && r.value.len <= r.value.buf.Length
        && Some(r.value.buf[..r.value.len]) == Skip(cfg, old(Queued())).0
      ensures r.Some? ==> r.value.buf != inFrame && forall q :: q in receptQ ==> q.buf != r.value.buf
    {
      hide Accept;
      hide Inv;
      hide Format.Valid;
      hide Delivered;
      ghost var raws := Queued();
      while receptQ != []
        invariant Shape() && QueueValid() && View() == old(View())
        invariant forall q :: q in receptQ ==> q in old(receptQ)
        invariant Skip(cfg, raws) == Skip(cfg, Queued())
        decreases |receptQ|
      {
        var q, ok, len := NextFrame();
        if ok {
          return Some(RxFrame(q.buf, len));
        }
      }
      return None;
    }
  }

  lemma RequestInBounds(c: Format, r: Receiver)
    requires Inv(c, r) && r.Open?
    ensures r.need >= 1 && |r.got| + r.need <= c.frameSize
  {
  }

  ghost function Contents(q: seq<RxFrame>): seq<Octets>
    reads set f | f in q :: f.buf
    requires forall i :: 0 <= i < |q| ==> q[i].len <= q[i].buf.Length
  {
    seq(|q|, i requires 0 <= i < |q| reads set f | f in q :: f.buf => q[i].buf[..q[i].len])
  }
}
