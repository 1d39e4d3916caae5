// The control field of I- and S-frames, modulo 8 and 128, and the octets of the
// frames the protocol exchanges.
module Control {
  import opened Bytes
  import opened Wrappers
  import opened Peer
  import opened Framing
  import opened Receiver
  import Session

  // The one or two octets; modulo 8 does not use the second.
  datatype Ctrl = Ctrl(first: bv8, second: bv8)

  function SetNS(ext: bool, c: Ctrl, ns: bv8): Ctrl {
    if ext then c.(first := (c.first & !0xFE) | ((ns & 0x7F) << 1))
    else c.(first := (c.first & !0x0E) | ((ns & 0x07) << 1))
  }

  function SetNR(ext: bool, c: Ctrl, nr: bv8): Ctrl {
    if ext then c.(second := (c.second & !0xFE) | ((nr & 0x7F) << 1))
    else c.(first := (c.first & !0xE0) | ((nr & 0x07) << 5))
  }

  function SetPF(ext: bool, c: Ctrl, pf: bool): Ctrl {
    if ext then c.(second := if pf then c.second | 0x01 else c.second & !0x01)
    else c.(first := if pf then c.first | 0x10 else c.first & !0x10)
  }

  function GetNS(ext: bool, c: Ctrl): bv8 {
    if ext then (c.first >> 1) & 0x7F else (c.first >> 1) & 0x07
  }

  function GetNR(ext: bool, c: Ctrl): bv8 {
    if ext then (c.second >> 1) & 0x7F else (c.first >> 5) & 0x07
  }

  function GetPF(ext: bool, c: Ctrl): bool {
    if ext then c.second & 0x01 != 0 else c.first & 0x10 != 0
  }

  predicate IsI(c: Ctrl) { c.first & 0x01 == 0 }

  predicate IsS(c: Ctrl) { c.first & 0x03 == 0x01 }

  predicate InRange(ext: bool, n: bv8) { if ext then n < 0x80 else n < 0x08 }

  // A field written is the field read back; the others, and the frame type,
  // stay.
  lemma NSCodec(ext: bool, c: Ctrl, ns: bv8)
    requires InRange(ext, ns)
    ensures
      var d := SetNS(ext, c, ns);
      && GetNS(ext, d) == ns && GetNR(ext, d) == GetNR(ext, c) && GetPF(ext, d) == GetPF(ext, c)
      && (IsI(d) <==> IsI(c))
  {
  }

  lemma NRCodec(ext: bool, c: Ctrl, nr: bv8)
    requires InRange(ext, nr)
    ensures
      var d := SetNR(ext, c, nr);
      && GetNR(ext, d) == nr && GetNS(ext, d) == GetNS(ext, c) && GetPF(ext, d) == GetPF(ext, c)
      && (IsI(d) <==> IsI(c)) && (IsS(d) <==> IsS(c)) && d.first & 0x0C == c.first & 0x0C
  {
  }

  lemma PFCodec(ext: bool, c: Ctrl, pf: bool)
    ensures
      var d := SetPF(ext, c, pf);
      && GetPF(ext, d) == pf && GetNS(ext, d) == GetNS(ext, c) && GetNR(ext, d) == GetNR(ext, c)
      && (IsI(d) <==> IsI(c)) && (IsS(d) <==> IsS(c)) && d.first & 0x0C == c.first & 0x0C
  {
  }

  // --- Building an I-frame header ------------------------------------------------

  // The first transmission numbers the frame; a retransmission finds its N(S)
  // in the control field.
  function NumberOnce(ext: bool, built: bool, c: Ctrl, nsSeed: bv8): Ctrl {
    if built && IsI(c) then c else SetNS(ext, Ctrl(0, if ext then 0 else c.second), nsSeed)
  }

  function PrepareI(ext: bool, built: bool, c: Ctrl, nsSeed: bv8, nr: bv8, pf: bool): Ctrl {
    SetPF(ext, SetNR(ext, NumberOnce(ext, built, c, nsSeed), nr), pf)
  }

  // Whatever the field held: an I-frame with the given N(R) and P/F, with the
  // number it already had, or the seed if it had none.
  lemma PreparedHeader(ext: bool, built: bool, c: Ctrl, nsSeed: bv8, nr: bv8, pf: bool)
    requires InRange(ext, nsSeed) && InRange(ext, nr)
    ensures
      var d := PrepareI(ext, built, c, nsSeed, nr, pf);
      && IsI(d) && GetNR(ext, d) == nr && GetPF(ext, d) == pf
      && GetNS(ext, d) == if built && IsI(c) then GetNS(ext, c) else nsSeed
  {
    hide SetNS;
    hide SetNR;
    hide SetPF;
    hide GetNS;
    hide GetNR;
    hide GetPF;
    hide InRange;
    var blank := Ctrl(0, if ext then 0 else c.second);
    BlankIsI(blank);
    NSCodec(ext, blank, nsSeed);
    var n := NumberOnce(ext, built, c, nsSeed);
    NRCodec(ext, n, nr);
    PFCodec(ext, SetNR(ext, n, nr), pf);
  }

  lemma BlankIsI(c: Ctrl)
    requires c.first == 0
    ensures IsI(c)
  {
  }

  class TxFrame {
    var addr: bv8
    var ctrl: Ctrl
    var ctrlLen: nat   // 0 until the control field has been built

    constructor ()
      ensures ctrlLen == 0
    {
      addr, ctrl, ctrlLen := 0, Ctrl(0, 0), 0;
    }

    method PrepareIFrameHeader(ext: bool, address: bv8, nsSeed: bv8, nr: bv8, pf: bool) returns (ns: bv8)
      requires InRange(ext, nsSeed) && InRange(ext, nr)
      modifies this
      ensures addr == address && ctrlLen == (if ext then 2 else 1)
      ensures IsI(ctrl) && GetNS(ext, ctrl) == ns && GetNR(ext, ctrl) == nr && GetPF(ext, ctrl) == pf
      ensures ns == if old(ctrlLen) == (if ext then 2 else 1) && IsI(old(ctrl)) then GetNS(ext, old(ctrl)) else nsSeed
    {
      hide SetNS;
      hide SetNR;
      hide SetPF;
      hide GetNS;
      hide GetNR;
      hide GetPF;
      hide InRange;
      hide IsI;
      var size := if ext then 2 else 1;
      PreparedHeader(ext, ctrlLen == size, ctrl, nsSeed, nr, pf);
      if ctrlLen != size || !IsI(ctrl) {
        ctrl := ctrl.(first := 0);
        if size > 1 {
          ctrl := ctrl.(second := 0);
        }
        ctrl := SetNS(ext, ctrl, nsSeed);
        ctrlLen := size;
      }
      ghost var numbered := ctrl;
      ns := GetNS(ext, ctrl);
      ctrl := SetNR(ext, ctrl, nr);
      ctrl := SetPF(ext, ctrl, pf);
      addr := address;
      NRCodec(ext, numbered, nr);
      PFCodec(ext, SetNR(ext, numbered, nr), pf);
    }
  }

  // --- The number of a held frame ------------------------------------------------------

  // The control field in the buffer of a frame the sender holds says the same as
  // the protocol's view of it: whether it is numbered, and its number.
  ghost predicate Represents(ext: bool, f: IFrame, built: bool, c: Ctrl) {
    && (f.numbered <==> built && IsI(c))
    && (f.numbered ==> GetNS(ext, c) as nat == f.ns)
  }

  // What the header builder finds in the buffer, and leaves there, is what
  // sending an I-frame does in the protocol: the number emitted, and the frame
  // that joins the retransmission queue.
  lemma BuilderFindsTheNumber(cfg: Config, t: Tx, built: bool, c: Ctrl, nr: bv8, pf: bool)
    requires (cfg.modulus == 8 || cfg.modulus == 128) && t.transQ != [] && t.vs < cfg.modulus
    requires InRange(cfg.modulus == 128, nr) && Represents(cfg.modulus == 128, t.transQ[0], built, c)
    ensures
      var ext := cfg.modulus == 128;
      var d := PrepareI(ext, built, c, ToOctet(t.vs), nr, pf);
      var u := Advance(cfg, t);
      && GetNS(ext, d) as nat == EmittedNS(t)
      && Represents(ext, u.retransQ[|u.retransQ| - 1], true, d)
      && u.retransQ[|u.retransQ| - 1].ns == EmittedNS(t)
  {
    hide PrepareI;
    hide GetNS;
    hide GetNR;
    hide GetPF;
    hide InRange;
    hide IsI;
    hide Config.Next;
    SmallNumber(cfg.modulus, t.vs);
    PreparedHeader(cfg.modulus == 128, built, c, ToOctet(t.vs), nr, pf);
  }

  // --- The octets of a frame -----------------------------------------------------------

  function FunctionBits(f: SFunction): bv8 {
    match f
    case RR => 0x00
    case RNR => 0x04
    case REJ => 0x08
    case SREJ => 0x0C
  }

  function FunctionOf(b: bv8): SFunction {
    var f := b & 0x0C;
    if f == 0x00 then RR else if f == 0x04 then RNR else if f == 0x08 then REJ else SREJ
  }

  // An S-frame is written over whatever the second octet held.
  function PrepareS(ext: bool, second: bv8, f: SFunction, nr: bv8, pf: bool): Ctrl {
    SetPF(ext, SetNR(ext, Ctrl(FunctionBits(f) | 0x01, second), nr), pf)
  }

  lemma PreparedSupervisory(ext: bool, second: bv8, f: SFunction, nr: bv8, pf: bool)
    requires InRange(ext, nr)
    ensures
      var d := PrepareS(ext, second, f, nr, pf);
      IsS(d) && !IsI(d) && FunctionOf(d.first) == f && GetNR(ext, d) == nr && GetPF(ext, d) == pf
  {
    hide SetNR;
    hide SetPF;
    hide GetNS;
    hide GetNR;
    hide GetPF;
    hide InRange;
    var c := Ctrl(FunctionBits(f) | 0x01, second);
    NRCodec(ext, c, nr);
    PFCodec(ext, SetNR(ext, c, nr), pf);
    FunctionBitsBack(f);
  }

  lemma FunctionBitsBack(f: SFunction)
    ensures FunctionOf(FunctionBits(f) | 0x01) == f
    ensures (FunctionBits(f) | 0x01) & 0x03 == 0x01
  {
  }

  ghost predicate Numbered(modulus: nat, w: Wire) {
    w.addr < 256 && w.nr < modulus && (w.Info? ==> w.ns < modulus)
  }

  function Header(ext: bool, addr: nat, c: Ctrl): Octets
    requires addr < 256
  {
    [ToOctet(addr), c.first] + (if ext then [c.second] else [])
  }

  // Address, control and information, as handed to the driver.
  function Serialize(modulus: nat, w: Wire): Octets
    requires modulus == 8 || modulus == 128
    requires Numbered(modulus, w)
  {
    var ext := modulus == 128;
    match w
    case Info(addr, ns, nr, pf, payload) =>
      Header(ext, addr, PrepareI(ext, false, Ctrl(0, 0), ToOctet(ns), ToOctet(nr), pf)) + payload
    case Supervisory(addr, fun, nr, pf) =>
      Header(ext, addr, PrepareS(ext, 0, fun, ToOctet(nr), pf))
  }

  // The receiving core's view of those octets; U-frames are not looked into.
  function Parse(modulus: nat, s: Octets): Option<Wire> {
    var ext := modulus == 128;
    if |s| < (if ext then 3 else 2) then None
    else
      var c := Ctrl(s[1], if ext then s[2] else 0);
      var nr := GetNR(ext, c) as nat;
      var pf := GetPF(ext, c);
      if IsI(c) then Some(Info(s[0] as nat, GetNS(ext, c) as nat, nr, pf, s[if ext then 3 else 2..]))
      else if IsS(c) then Some(Supervisory(s[0] as nat, FunctionOf(s[1]), nr, pf))
      else None
  }

  lemma SmallNumber(modulus: nat, n: nat)
    requires (modulus == 8 || modulus == 128) && n < modulus
    ensures InRange(modulus == 128, ToOctet(n))
  {
    var b := ToOctet(n);
    assert b as nat < 128 <==> b < 128;
    assert b as nat < 8 <==> b < 8;
  }

  // Modulo 8 neither reads nor writes the second octet.
  lemma SecondUnused(c: Ctrl, d: bv8)
    ensures GetNS(false, c.(second := d)) == GetNS(false, c) && GetNR(false, c.(second := d)) == GetNR(false, c)
    ensures GetPF(false, c.(second := d)) == GetPF(false, c)
    ensures IsI(c.(second := d)) == IsI(c) && IsS(c.(second := d)) == IsS(c)
  {
  }

  // Every frame the protocol sends is read back as it was.
  lemma SerializeRoundTrip(modulus: nat, w: Wire)
    requires modulus == 8 || modulus == 128
    requires Numbered(modulus, w)
    ensures Parse(modulus, Serialize(modulus, w)) == Some(w)
  {
    hide PrepareI;
    hide PrepareS;
    hide GetNS;
    hide GetNR;
    hide GetPF;
    hide InRange;
    hide IsI;
    hide IsS;
    hide FunctionOf;
    var ext := modulus == 128;
    SmallNumber(modulus, w.nr);
    var c := if w.Info? then PrepareI(ext, false, Ctrl(0, 0), ToOctet(w.ns), ToOctet(w.nr), w.pf)
             else PrepareS(ext, 0, w.fun, ToOctet(w.nr), w.pf);
    SecondUnused(c, 0);
    if w.Info? {
      SmallNumber(modulus, w.ns);
      PreparedHeader(ext, false, Ctrl(0, 0), ToOctet(w.ns), ToOctet(w.nr), w.pf);
      assert Serialize(modulus, w)[if ext then 3 else 2..] == w.payload;
    } else {
      PreparedSupervisory(ext, 0, w.fun, ToOctet(w.nr), w.pf);
    }
  }

  // --- From the protocol to the line and back --------------------------------------------------

  ghost predicate AllNumbered(modulus: nat, ws: seq<Wire>) {
    forall i :: 0 <= i < |ws| ==> Numbered(modulus, ws[i])
  }

  function SerializeAll(modulus: nat, ws: seq<Wire>): (hs: seq<Octets>)
    requires modulus == 8 || modulus == 128
    requires AllNumbered(modulus, ws)
    ensures |hs| == |ws| && forall i :: 0 <= i < |hs| ==> hs[i] == Serialize(modulus, ws[i])
  {
    seq(|ws|, i requires 0 <= i < |ws| => Serialize(modulus, ws[i]))
  }

  // Frames sent by one station, printed on a clean line with any sharing of
  // flags, reach the core of the other one as the same frames in the same order.
  lemma LineCarriesFrames(c: Format, modulus: nat, ws: seq<Wire>, opens: seq<bool>)
    requires c.Valid() && (modulus == 8 || modulus == 128)
    requires |opens| == |ws| > 0 && opens[0] && AllNumbered(modulus, ws)
    requires AllSendable(c, SerializeAll(modulus, ws))
    ensures
      var (r, got) := Run(c, Closed, Line(Print(Encoded(c, SerializeAll(modulus, ws)), opens)));
      && |got| == |ws|
      && forall i :: 0 <= i < |got| ==>
        && Accept(c, got[i]).Some? && |Accept(c, got[i]).value| >= c.fff
        && Parse(modulus, Accept(c, got[i]).value[c.fff..]) == Some(ws[i])
  {
    hide Run;
    hide Line;
    hide Print;
    hide Encode;
    hide Accept;
    hide Carriable;
    hide Serialize;
    hide Parse;
    hide EmitFff;
    hide Image;
    var hs := SerializeAll(modulus, ws);
    WireRoundTrip(c, hs, opens);
    forall i | 0 <= i < |ws|
      ensures Image(c, hs[i]).Some? && |Image(c, hs[i]).value| >= c.fff
      ensures Parse(modulus, Image(c, hs[i]).value[c.fff..]) == Some(ws[i])
    {
      EncodeHasImage(c, hs[i]);
      ImageTail(c, hs[i]);
      SerializeRoundTrip(modulus, ws[i]);
    }
  }

  lemma ImageTail(c: Format, hdlc: Octets)
    requires c.Valid() && Image(c, hdlc).Some?
    ensures |Image(c, hdlc).value| >= c.fff && Image(c, hdlc).value[c.fff..] == hdlc
  {
    EmitLength(c, |hdlc|);
  }

  // --- The frames of a session ----------------------------------------------------------------------

  ghost predicate OctetAddresses(q: seq<Session.Flight>) {
    forall i :: 0 <= i < |q| ==> q[i].wire.addr < 256
  }

  ghost predicate AddressesFit(s: Session.System) {
    && s.x.cfg.addr < 256 && s.x.cfg.peerAddr < 256 && s.y.cfg.addr < 256 && s.y.cfg.peerAddr < 256
    && OctetAddresses(s.xy) && OctetAddresses(s.yx)
  }

  lemma ActAddresses(s: Session.System, act: Session.Action)
    requires s.x.cfg.modulus > 0 && AddressesFit(s)
    ensures AddressesFit(Session.Act(s, act))
  {
    hide WindowOpen;
    hide SendOpportunity;
    hide SendI;
    hide SendS;
    hide SupervisoryToSend;
    hide Peer.Receive;
    if act.TxI? && CanSendI(s.x.cfg, s.x.st, act.lineIdle) {
      SentAddress(s.x.cfg, s.x.st);
    }
    if act.TxS? && SupervisoryToSend(s.x.cfg, s.x.st, act.txEnv).Some? {
      SentSAddress(s.x.cfg, s.x.st, act.txEnv);
    }
  }

  lemma SentAddress(c: Config, p: State)
    requires c.modulus > 0 && p.tx.transQ != []
    ensures SendI(c, p).1.addr == c.addr || SendI(c, p).1.addr == c.peerAddr
  {
  }

  lemma SentSAddress(c: Config, p: State, env: TxEnv)
    requires c.modulus > 0 && SupervisoryToSend(c, p, env).Some?
    ensures SendS(c, p, env).1.addr == c.addr || SendS(c, p, env).1.addr == c.peerAddr
  {
    hide SupervisoryToSend;
  }

  lemma {:induction false} RunAddresses(s: Session.System, steps: seq<Session.Step>)
    requires s.x.cfg.modulus > 0 && s.y.cfg.modulus > 0 && AddressesFit(s)
    ensures AddressesFit(Session.Run(s, steps))
    decreases |steps|
  {
    hide Session.Act;
    if steps != [] {
      match steps[0] {
        case AtX(act) => ActAddresses(s, act);
        case AtY(act) => ActAddresses(s.Swap(), act);
      }
      RunAddresses(Session.Exec(s, steps[0]), steps[1..]);
    }
  }

  // Every frame on either line of a session has fields that fit the octets, so
  // that what the receiving core parses is what the sending core meant.
  lemma SessionFramesSurvive(s: Session.System, steps: seq<Session.Step>, i: nat)
    requires Session.Init(s) && AddressesFit(s) && i < |Session.Run(s, steps).xy|
    ensures
      var m := s.x.cfg.modulus;
      var w := Session.Run(s, steps).xy[i].wire;
      (m == 8 || m == 128) && Numbered(m, w) && Parse(m, Serialize(m, w)) == Some(w)
  {
    hide Session.Run;
    hide Session.Inv;
    hide Serialize;
    hide Parse;
    Session.InitInv(s);
    Session.RunKeepsInv(s, steps);
    RunAddresses(s, steps);
    var e := Session.Run(s, steps);
    FlightNumbers(e, i);
    SerializeRoundTrip(s.x.cfg.modulus, e.xy[i].wire);
  }

  lemma FlightNumbers(e: Session.System, i: nat)
    requires Session.Inv(e) && i < |e.xy|
    ensures
      var m, w := e.x.cfg.modulus, e.xy[i].wire;
      (m == 8 || m == 128) && w.nr < m && (w.Info? ==> w.ns < m)
  {
    hide Session.Window;
    hide Session.Delivery;
    hide Session.H;
    hide Session.A;
    assert Session.FlightOk(e.x.cfg, Session.H(e.x.st.tx, e.x.log), e.x.log, Session.R(e.y), e.xy[i]);
    assert e.xy[i].wire.nr == e.y.cfg.Mod(e.xy[i].ack);
  }

  // What the receiving core takes for an I- or S-frame, by the number in the first
  // control octet: even, or one modulo four; a U-frame is neither.
  lemma ParsedKinds(modulus: nat, s: Octets)
    requires |s| >= (if modulus == 128 then 3 else 2)
    ensures
      var r := Parse(modulus, s);
      && (s[1] as nat % 2 == 0 <==> r.Some? && r.value.Info?)
      && (s[1] as nat % 4 == 1 <==> r.Some? && r.value.Supervisory?)
      && (s[1] as nat % 4 == 3 <==> r.None?)
      && (r.Some? ==> r.value.addr == s[0] as nat)
  {
    hide GetNS;
    hide GetNR;
    hide GetPF;
    hide FunctionOf;
    KindBits(s[1]);
  }

  lemma KindBits(b: bv8)
    ensures b & 0x01 == 0 <==> b as nat % 2 == 0
    ensures b & 0x03 == 0x01 <==> b as nat % 4 == 1
    ensures b & 0x03 == 0x03 <==> b as nat % 4 == 3
  {
    LowBitIs(b);
    LowTwoAre(b);
    assert (b & 0x01) as nat == 0 <==> b & 0x01 == 0;
  }

  lemma LowBitIs(b: bv8)
    ensures (b & 0x01) as nat == b as nat % 2
  {
  }

  lemma LowTwoAre(b: bv8)
    ensures b & 0x03 == 0x01 <==> b as nat % 4 == 1
    ensures b & 0x03 == 0x03 <==> b as nat % 4 == 3
  {
    assert (b & 0x03) as nat == b as nat % 4;
  }

  // --- Where the bits are ----------------------------------------------------------------------

  // Modulo 8 an I-frame is N(R) P/F N(S) 0, from the top; modulo 128 N(S) has the
  // first octet, N(R) and P/F the second.
  function InfoCtrl(ext: bool, ns: bv8, nr: bv8, pf: bool): Ctrl {
    if ext then Ctrl(ns << 1, (nr << 1) | (if pf then 1 else 0))
    else Ctrl((nr << 5) | (if pf then 0x10 else 0) | (ns << 1), 0)
  }

  // The low four bits of an S-frame.
  function SCode(f: SFunction): bv8 {
    match f
    case RR => 0x1
    case RNR => 0x5
    case REJ => 0x9
    case SREJ => 0xD
  }

  function SupervisoryCtrl(ext: bool, f: SFunction, nr: bv8, pf: bool): Ctrl {
    if ext then Ctrl(SCode(f), (nr << 1) | (if pf then 1 else 0))
    else Ctrl((nr << 5) | (if pf then 0x10 else 0) | SCode(f), 0)
  }

  lemma InfoBits(ext: bool, ns: bv8, nr: bv8, pf: bool)
    requires InRange(ext, ns) && InRange(ext, nr)
    ensures PrepareI(ext, false, Ctrl(0, 0), ns, nr, pf) == InfoCtrl(ext, ns, nr, pf)
  {
    if ext { LongInfo(ns, nr, pf); } else { ShortInfo(ns, nr, pf); }
  }

  lemma LongInfo(ns: bv8, nr: bv8, pf: bool)
    requires InRange(true, ns) && InRange(true, nr)
    ensures PrepareI(true, false, Ctrl(0, 0), ns, nr, pf) == InfoCtrl(true, ns, nr, pf)
  {
  }

  lemma ShortInfo(ns: bv8, nr: bv8, pf: bool)
    requires InRange(false, ns) && InRange(false, nr)
    ensures PrepareI(false, false, Ctrl(0, 0), ns, nr, pf) == InfoCtrl(false, ns, nr, pf)
  {
  }

  lemma SupervisoryBits(ext: bool, f: SFunction, nr: bv8, pf: bool)
    requires InRange(ext, nr)
    ensures PrepareS(ext, 0, f, nr, pf) == SupervisoryCtrl(ext, f, nr, pf)
  {
    if ext { LongSupervisory(f, nr, pf); } else { ShortSupervisory(f, nr, pf); }
  }

  lemma LongSupervisory(f: SFunction, nr: bv8, pf: bool)
    requires InRange(true, nr)
    ensures PrepareS(true, 0, f, nr, pf) == SupervisoryCtrl(true, f, nr, pf)
  {
  }

  lemma ShortSupervisory(f: SFunction, nr: bv8, pf: bool)
    requires InRange(false, nr)
    ensures PrepareS(false, 0, f, nr, pf) == SupervisoryCtrl(false, f, nr, pf)
  {
  }

  // The octets of every frame the protocol sends.
  lemma OctetsSent(modulus: nat, w: Wire)
    requires (modulus == 8 || modulus == 128) && Numbered(modulus, w)
    ensures
      var ext, nr := modulus == 128, ToOctet(w.nr);
      var c := if w.Info? then InfoCtrl(ext, ToOctet(w.ns), nr, w.pf) else SupervisoryCtrl(ext, w.fun, nr, w.pf);
      Serialize(modulus, w) == Header(ext, w.addr, c) + (if w.Info? then w.payload else [])
  {
    hide PrepareI;
    hide PrepareS;
    hide InfoCtrl;
    hide SupervisoryCtrl;
    hide ToOctet;
    hide InRange;
    hide Header;
    SmallNumber(modulus, w.nr);
    if w.Info? {
      SmallNumber(modulus, w.ns);
      InfoBits(modulus == 128, ToOctet(w.ns), ToOctet(w.nr), w.pf);
    } else {
      SupervisoryBits(modulus == 128, w.fun, ToOctet(w.nr), w.pf);
    }
  }
}
