// The FCS-16 of sections 3.1 and C.2 of RFC 1662: the octet-at-a-time table
// computation of the low-level module, against the bit-serial shift register.
module Fcs {
  import opened Bytes

  // --- The table, in sixteen rows of sixteen ----------------------------------

  function Row0(c: bv8): bv16 {
    if c == 0 then 0x0000 else if c == 1 then 0x1189 else if c == 2 then 0x2312 else if c == 3 then 0x329b else 
    if c == 4 then 0x4624 else if c == 5 then 0x57ad else if c == 6 then 0x6536 else if c == 7 then 0x74bf else 
    if c == 8 then 0x8c48 else if c == 9 then 0x9dc1 else if c == 10 then 0xaf5a else if c == 11 then 0xbed3 else 
    if c == 12 then 0xca6c else if c == 13 then 0xdbe5 else if c == 14 then 0xe97e else 0xf8f7
  }

  function Row1(c: bv8): bv16 {
    if c == 0 then 0x1081 else if c == 1 then 0x0108 else if c == 2 then 0x3393 else if c == 3 then 0x221a else 
    if c == 4 then 0x56a5 else if c == 5 then 0x472c else if c == 6 then 0x75b7 else if c == 7 then 0x643e else 
    if c == 8 then 0x9cc9 else if c == 9 then 0x8d40 else if c == 10 then 0xbfdb else if c == 11 then 0xae52 else 
    if c == 12 then 0xdaed else if c == 13 then 0xcb64 else if c == 14 then 0xf9ff else 0xe876
  }

  function Row2(c: bv8): bv16 {
    if c == 0 then 0x2102 else if c == 1 then 0x308b else if c == 2 then 0x0210 else if c == 3 then 0x1399 else 
    if c == 4 then 0x6726 else if c == 5 then 0x76af else if c == 6 then 0x4434 else if c == 7 then 0x55bd else 
    if c == 8 then 0xad4a else if c == 9 then 0xbcc3 else if c == 10 then 0x8e58 else if c == 11 then 0x9fd1 else 
    if c == 12 then 0xeb6e else if c == 13 then 0xfae7 else if c == 14 then 0xc87c else 0xd9f5
  }

  function Row3(c: bv8): bv16 {
    if c == 0 then 0x3183 else if c == 1 then 0x200a else if c == 2 then 0x1291 else if c == 3 then 0x0318 else 
    if c == 4 then 0x77a7 else if c == 5 then 0x662e else if c == 6 then 0x54b5 else if c == 7 then 0x453c else 
    if c == 8 then 0xbdcb else if c == 9 then 0xac42 else if c == 10 then 0x9ed9 else if c == 11 then 0x8f50 else 
    if c == 12 then 0xfbef else if c == 13 then 0xea66 else if c == 14 then 0xd8fd else 0xc974
  }

  function Row4(c: bv8): bv16 {
    if c == 0 then 0x4204 else if c == 1 then 0x538d else if c == 2 then 0x6116 else if c == 3 then 0x709f else 
    if c == 4 then 0x0420 else if c == 5 then 0x15a9 else if c == 6 then 0x2732 else if c == 7 then 0x36bb else 
    if c == 8 then 0xce4c else if c == 9 then 0xdfc5 else if c == 10 then 0xed5e else if c == 11 then 0xfcd7 else 
    if c == 12 then 0x8868 else if c == 13 then 0x99e1 else if c == 14 then 0xab7a else 0xbaf3
  }

  function Row5(c: bv8): bv16 {
    if c == 0 then 0x5285 else if c == 1 then 0x430c else if c == 2 then 0x7197 else if c == 3 then 0x601e else 
    if c == 4 then 0x14a1 else if c == 5 then 0x0528 else if c == 6 then 0x37b3 else if c == 7 then 0x263a else 
    if c == 8 then 0xdecd else if c == 9 then 0xcf44 else if c == 10 then 0xfddf else if c == 11 then 0xec56 else 
    if c == 12 then 0x98e9 else if c == 13 then 0x8960 else if c == 14 then 0xbbfb else 0xaa72
  }

  function Row6(c: bv8): bv16 {
    if c == 0 then 0x6306 else if c == 1 then 0x728f else if c == 2 then 0x4014 else if c == 3 then 0x519d else 
    if c == 4 then 0x2522 else if c == 5 then 0x34ab else if c == 6 then 0x0630 else if c == 7 then 0x17b9 else 
    if c == 8 then 0xef4e else if c == 9 then 0xfec7 else if c == 10 then 0xcc5c else if c == 11 then 0xddd5 else 
    if c == 12 then 0xa96a else if c == 13 then 0xb8e3 else if c == 14 then 0x8a78 else 0x9bf1
  }

  function Row7(c: bv8): bv16 {
    if c == 0 then 0x7387 else if c == 1 then 0x620e else if c == 2 then 0x5095 else if c == 3 then 0x411c else 
    if c == 4 then 0x35a3 else if c == 5 then 0x242a else if c == 6 then 0x16b1 else if c == 7 then 0x0738 else 
    if c == 8 then 0xffcf else if c == 9 then 0xee46 else if c == 10 then 0xdcdd else if c == 11 then 0xcd54 else 
    if c == 12 then 0xb9eb else if c == 13 then 0xa862 else if c == 14 then 0x9af9 else 0x8b70
  }

  function Row8(c: bv8): bv16 {
    if c == 0 then 0x8408 else if c == 1 then 0x9581 else if c == 2 then 0xa71a else if c == 3 then 0xb693 else 
    if c == 4 then 0xc22c else if c == 5 then 0xd3a5 else if c == 6 then 0xe13e else if c == 7 then 0xf0b7 else 
    if c == 8 then 0x0840 else if c == 9 then 0x19c9 else if c == 10 then 0x2b52 else if c == 11 then 0x3adb else 
    if c == 12 then 0x4e64 else if c == 13 then 0x5fed else if c == 14 then 0x6d76 else 0x7cff
  }

  function Row9(c: bv8): bv16 {
    if c == 0 then 0x9489 else if c == 1 then 0x8500 else if c == 2 then 0xb79b else if c == 3 then 0xa612 else 
    if c == 4 then 0xd2ad else if c == 5 then 0xc324 else if c == 6 then 0xf1bf else if c == 7 then 0xe036 else 
    if c == 8 then 0x18c1 else if c == 9 then 0x0948 else if c == 10 then 0x3bd3 else if c == 11 then 0x2a5a else 
    if c == 12 then 0x5ee5 else if c == 13 then 0x4f6c else if c == 14 then 0x7df7 else 0x6c7e
  }

  function RowA(c: bv8): bv16 {
    if c == 0 then 0xa50a else if c == 1 then 0xb483 else if c == 2 then 0x8618 else if c == 3 then 0x9791 else 
    if c == 4 then 0xe32e else if c == 5 then 0xf2a7 else if c == 6 then 0xc03c else if c == 7 then 0xd1b5 else 
    if c == 8 then 0x2942 else if c == 9 then 0x38cb else if c == 10 then 0x0a50 else if c == 11 then 0x1bd9 else 
    if c == 12 then 0x6f66 else if c == 13 then 0x7eef else if c == 14 then 0x4c74 else 0x5dfd
  }

  function RowB(c: bv8): bv16 {
    if c == 0 then 0xb58b else if c == 1 then 0xa402 else if c == 2 then 0x9699 else if c == 3 then 0x8710 else 
    if c == 4 then 0xf3af else if c == 5 then 0xe226 else if c == 6 then 0xd0bd else if c == 7 then 0xc134 else 
    if c == 8 then 0x39c3 else if c == 9 then 0x284a else if c == 10 then 0x1ad1 else if c == 11 then 0x0b58 else 
    if c == 12 then 0x7fe7 else if c == 13 then 0x6e6e else if c == 14 then 0x5cf5 else 0x4d7c
  }

  function RowC(c: bv8): bv16 {
    if c == 0 then 0xc60c else if c == 1 then 0xd785 else if c == 2 then 0xe51e else if c == 3 then 0xf497 else 
    if c == 4 then 0x8028 else if c == 5 then 0x91a1 else if c == 6 then 0xa33a else if c == 7 then 0xb2b3 else 
    if c == 8 then 0x4a44 else if c == 9 then 0x5bcd else if c == 10 then 0x6956 else if c == 11 then 0x78df else 
    if c == 12 then 0x0c60 else if c == 13 then 0x1de9 else if c == 14 then 0x2f72 else 0x3efb
  }

  function RowD(c: bv8): bv16 {
    if c == 0 then 0xd68d else if c == 1 then 0xc704 else if c == 2 then 0xf59f else if c == 3 then 0xe416 else 
    if c == 4 then 0x90a9 else if c == 5 then 0x8120 else if c == 6 then 0xb3bb else if c == 7 then 0xa232 else 
    if c == 8 then 0x5ac5 else if c == 9 then 0x4b4c else if c == 10 then 0x79d7 else if c == 11 then 0x685e else 
    if c == 12 then 0x1ce1 else if c == 13 then 0x0d68 else if c == 14 then 0x3ff3 else 0x2e7a
  }

  function RowE(c: bv8): bv16 {
    if c == 0 then 0xe70e else if c == 1 then 0xf687 else if c == 2 then 0xc41c else if c == 3 then 0xd595 else 
    if c == 4 then 0xa12a else if c == 5 then 0xb0a3 else if c == 6 then 0x8238 else if c == 7 then 0x93b1 else 
    if c == 8 then 0x6b46 else if c == 9 then 0x7acf else if c == 10 then 0x4854 else if c == 11 then 0x59dd else 
    if c == 12 then 0x2d62 else if c == 13 then 0x3ceb else if c == 14 then 0x0e70 else 0x1ff9
  }

  function RowF(c: bv8): bv16 {
    if c == 0 then 0xf78f else if c == 1 then 0xe606 else if c == 2 then 0xd49d else if c == 3 then 0xc514 else 
    if c == 4 then 0xb1ab else if c == 5 then 0xa022 else if c == 6 then 0x92b9 else if c == 7 then 0x8330 else 
    if c == 8 then 0x7bc7 else if c == 9 then 0x6a4e else if c == 10 then 0x58d5 else if c == 11 then 0x495c else 
    if c == 12 then 0x3de3 else if c == 13 then 0x2c6a else if c == 14 then 0x1ef1 else 0x0f78
  }

  function Table(b: bv8): bv16 {
    var r := b >> 4;
    var c := b & 0x0F;
    if r < 8 then
      if r < 4 then (if r == 0 then Row0(c) else if r == 1 then Row1(c) else if r == 2 then Row2(c) else Row3(c))
      else (if r == 4 then Row4(c) else if r == 5 then Row5(c) else if r == 6 then Row6(c) else Row7(c))
    else
      if r < 12 then (if r == 8 then Row8(c) else if r == 9 then Row9(c) else if r == 10 then RowA(c) else RowB(c))
      else (if r == 12 then RowC(c) else if r == 13 then RowD(c) else if r == 14 then RowE(c) else RowF(c))
  }

  // --- The computation ----------------------------------------------------------

  const INIT: bv16 := 0xFFFF
  const GOOD: bv16 := 0xF0B8

  function Xor(v: bv16, w: bv16): bv16 { v ^ w }

  function Wide(b: bv8): bv16 { b as bv16 }

  function Low(v: bv16): bv8 { (v & 0xFF) as bv8 }

  // One octet, the way the code does it.
  function Step(v: bv16, b: bv8): bv16 {
    Xor(v >> 8, Table(Low(Xor(v, Wide(b)))))
  }

  function Update(v: bv16, s: Octets): bv16
    decreases |s|
  {
    if s == [] then v else Update(Step(v, s[0]), s[1..])
  }

  function Finalize(v: bv16): bv16 { v ^ 0xFFFF }

  function High(v: bv16): bv8 { (v >> 8) as bv8 }

  // The two FCS octets of a message, in transmission order.
  function FcsOctets(s: Octets): Octets {
    var v := Finalize(Update(INIT, s));
    [Low(v), High(v)]
  }

  predicate Check(s: Octets) { Update(INIT, s) == GOOD }

  // --- The bit-serial definition --------------------------------------------------

  // One shift of the register for polynomial x^16 + x^12 + x^5 + 1, reversed.
  function Shift(v: bv16): bv16 {
    if v & 1 != 0 then (v >> 1) ^ 0x8408 else v >> 1
  }

  function Bit0(x: bv16): bool { x & 1 != 0 }

  function Half(x: bv16): bv16 { x >> 1 }

  function One(b: bool): bv16 { if b then 1 else 0 }

  // The n low bits of x, least significant first.
  function LowBits(x: bv16, n: nat): (r: seq<bool>)
    ensures |r| == n
  {
    if n == 0 then [] else [Bit0(x)] + LowBits(Half(x), n - 1)
  }

  // The bits of an octet in transmission order.
  function Bits(b: bv8): (r: seq<bool>)
    ensures |r| == 8
  {
    LowBits(Wide(b), 8)
  }

  function AllBits(s: Octets): seq<bool> {
    if s == [] then [] else Bits(s[0]) + AllBits(s[1..])
  }

  function Feed(v: bv16, bit: bool): bv16 { Shift(if bit then v ^ 1 else v) }

  // The shift register of the standard, one bit of the message at a time.
  function Serial(v: bv16, bits: seq<bool>): bv16
    decreases |bits|
  {
    if bits == [] then v else Serial(Feed(v, bits[0]), bits[1..])
  }

  function Eight(v: bv16): bv16 {
    Shift(Shift(Shift(Shift(Shift(Shift(Shift(Shift(v))))))))
  }

  function Shifts(n: nat, v: bv16): bv16 {
    if n == 0 then v else Shifts(n - 1, Shift(v))
  }

  // --- The table is eight shifts ------------------------------------------------------

  lemma Row0is(c: bv8)
    requires c < 16
    ensures Row0(c) == Eight(0x00 | (c as bv16))
  {
  }

  lemma Row1is(c: bv8)
    requires c < 16
    ensures Row1(c) == Eight(0x10 | (c as bv16))
  {
  }

  lemma Row2is(c: bv8)
    requires c < 16
    ensures Row2(c) == Eight(0x20 | (c as bv16))
  {
  }

  lemma Row3is(c: bv8)
    requires c < 16
    ensures Row3(c) == Eight(0x30 | (c as bv16))
  {
  }

  lemma Row4is(c: bv8)
    requires c < 16
    ensures Row4(c) == Eight(0x40 | (c as bv16))
  {
  }

  lemma Row5is(c: bv8)
    requires c < 16
    ensures Row5(c) == Eight(0x50 | (c as bv16))
  {
  }

  lemma Row6is(c: bv8)
    requires c < 16
    ensures Row6(c) == Eight(0x60 | (c as bv16))
  {
  }

  lemma Row7is(c: bv8)
    requires c < 16
    ensures Row7(c) == Eight(0x70 | (c as bv16))
  {
  }

  lemma Row8is(c: bv8)
    requires c < 16
    ensures Row8(c) == Eight(0x80 | (c as bv16))
  {
  }

  lemma Row9is(c: bv8)
    requires c < 16
    ensures Row9(c) == Eight(0x90 | (c as bv16))
  {
  }

  lemma RowAis(c: bv8)
    requires c < 16
    ensures RowA(c) == Eight(0xA0 | (c as bv16))
  {
  }

  lemma RowBis(c: bv8)
    requires c < 16
    ensures RowB(c) == Eight(0xB0 | (c as bv16))
  {
  }

  lemma RowCis(c: bv8)
    requires c < 16
    ensures RowC(c) == Eight(0xC0 | (c as bv16))
  {
  }

  lemma RowDis(c: bv8)
    requires c < 16
    ensures RowD(c) == Eight(0xD0 | (c as bv16))
  {
  }

  lemma RowEis(c: bv8)
    requires c < 16
    ensures RowE(c) == Eight(0xE0 | (c as bv16))
  {
  }

  lemma RowFis(c: bv8)
    requires c < 16
    ensures RowF(c) == Eight(0xF0 | (c as bv16))
  {
  }

  lemma TableIsEightShifts(b: bv8)
    ensures Table(b) == Eight(b as bv16)
  {
    hide Eight;
    hide Row0;
    hide Row1;
    hide Row2;
    hide Row3;
    hide Row4;
    hide Row5;
    hide Row6;
    hide Row7;
    hide Row8;
    hide Row9;
    hide RowA;
    hide RowB;
    hide RowC;
    hide RowD;
    hide RowE;
    hide RowF;
    var c := b & 0x0F;
    assert c < 16;
    assert b as bv16 == ((b >> 4) as bv16 << 4) | (c as bv16);
    Row0is(c);
    Row1is(c);
    Row2is(c);
    Row3is(c);
    Row4is(c);
    Row5is(c);
    Row6is(c);
    Row7is(c);
    Row8is(c);
    Row9is(c);
    RowAis(c);
    RowBis(c);
    RowCis(c);
    RowDis(c);
    RowEis(c);
    RowFis(c);
  }

  lemma XorCommutes(v: bv16, w: bv16)
    ensures Xor(v, w) == Xor(w, v)
  {
  }

  lemma XorAssociates(u: bv16, v: bv16, w: bv16)
    ensures Xor(Xor(u, v), w) == Xor(u, Xor(v, w))
  {
  }

  lemma XorZero(v: bv16)
    ensures Xor(v, 0) == v
  {
  }

  lemma XorSelf(v: bv16)
    ensures Xor(v, v) == 0
  {
  }

  lemma XorSwap(v: bv16, w: bv16, p: bv16, q: bv16)
    ensures Xor(Xor(v, p), Xor(w, q)) == Xor(Xor(v, w), Xor(p, q))
  {
    hide Xor;
    XorAssociates(v, p, Xor(w, q));
    XorAssociates(p, w, q);
    XorCommutes(p, w);
    XorAssociates(w, p, q);
    XorAssociates(v, w, Xor(p, q));
  }

  lemma HalfXor(v: bv16, w: bv16)
    ensures Half(Xor(v, w)) == Xor(Half(v), Half(w))
  {
  }

  lemma BitXor(v: bv16, w: bv16)
    ensures Bit0(Xor(v, w)) <==> Bit0(v) != Bit0(w)
  {
  }

  function Taps(b: bool): bv16 { if b then 0x8408 else 0 }

  lemma ShiftIsXor(v: bv16)
    ensures Shift(v) == Xor(Half(v), Taps(Bit0(v)))
  {
  }

  lemma TapsXor(a: bool, b: bool)
    ensures Taps(a != b) == Xor(Taps(a), Taps(b))
  {
  }

  lemma ShiftIsLinear(v: bv16, w: bv16)
    ensures Shift(Xor(v, w)) == Xor(Shift(v), Shift(w))
  {
    hide Xor;
    hide Half;
    hide Bit0;
    hide Taps;
    hide Shift;
    ShiftIsXor(v);
    ShiftIsXor(w);
    ShiftIsXor(Xor(v, w));
    HalfXor(v, w);
    BitXor(v, w);
    TapsXor(Bit0(v), Bit0(w));
    XorSwap(Half(v), Half(w), Taps(Bit0(v)), Taps(Bit0(w)));
  }

  lemma {:induction false} ShiftsIsLinear(n: nat, v: bv16, w: bv16)
    ensures Shifts(n, Xor(v, w)) == Xor(Shifts(n, v), Shifts(n, w))
    decreases n
  {
    hide Shift;
    hide Xor;
    if n > 0 {
      ShiftIsLinear(v, w);
      ShiftsIsLinear(n - 1, Shift(v), Shift(w));
    }
  }

  lemma EightIsShifts(v: bv16)
    ensures Eight(v) == Shifts(8, v)
  {
    hide Shift;
    var a := Shift(Shift(v));
    var b := Shift(Shift(a));
    var c := Shift(Shift(b));
    assert Shifts(8, v) == Shifts(6, a);
    assert Shifts(6, a) == Shifts(4, b);
    assert Shifts(4, b) == Shifts(2, c);
    assert Shifts(2, c) == Shifts(1, Shift(c));
    assert Shifts(1, Shift(c)) == Shifts(0, Shift(Shift(c)));
  }

  lemma EightOfHigh(v: bv16)
    ensures Eight(v & 0xFF00) == v >> 8
  {
  }

  function Top(v: bv16): bv16 { v & 0xFF00 }

  lemma Halves(x: bv16)
    ensures Xor(Wide(Low(x)), Top(x)) == x
  {
  }

  lemma TopStays(v: bv16, b: bv8)
    ensures Xor(v, Wide(b)) >> 8 == v >> 8
  {
  }

  lemma EightOfTop(v: bv16, b: bv8)
    ensures Eight(Top(Xor(v, Wide(b)))) == v >> 8
  {
    hide Eight;
    hide Xor;
    EightOfHigh(Xor(v, Wide(b)));
    TopStays(v, b);
  }

  lemma TableIsEightWide(b: bv8)
    ensures Table(b) == Eight(Wide(b))
  {
    hide Eight;
    hide Table;
    TableIsEightShifts(b);
  }

  // The table step is eight shifts of the register with the octet added in.
  lemma StepIsEight(v: bv16, b: bv8)
    ensures Step(v, b) == Shifts(8, Xor(v, Wide(b)))
  {
    hide Table;
    hide Eight;
    hide Shifts;
    hide Xor;
    hide Low;
    hide Wide;
    hide Top;
    var x := Xor(v, Wide(b));
    var t := v >> 8;
    Halves(x);
    TableIsEightWide(Low(x));
    EightIsShifts(Wide(Low(x)));
    EightIsShifts(Top(x));
    ShiftsIsLinear(8, Wide(Low(x)), Top(x));
    EightOfTop(v, b);
    XorCommutes(t, Eight(Wide(Low(x))));
  }

  // --- Segmentation and the shift register --------------------------------------------

  // The result does not depend on how the input is cut.
  lemma {:induction false} UpdateConcat(v: bv16, s: Octets, t: Octets)
    ensures Update(v, s + t) == Update(Update(v, s), t)
    decreases |s|
  {
    hide Step;
    if s == [] {
      assert s + t == t;
    } else {
      assert (s + t)[1..] == s[1..] + t;
      UpdateConcat(Step(v, s[0]), s[1..], t);
    }
  }

  lemma {:induction false} SerialConcat(v: bv16, s: seq<bool>, t: seq<bool>)
    ensures Serial(v, s + t) == Serial(Serial(v, s), t)
    decreases |s|
  {
    hide Feed;
    if s == [] {
      assert s + t == t;
    } else {
      assert (s + t)[1..] == s[1..] + t;
      SerialConcat(Feed(v, s[0]), s[1..], t);
    }
  }

  lemma LowBit(x: bv16)
    ensures x == Xor(One(Bit0(x)), x & 0xFFFE)
    ensures Shift(x & 0xFFFE) == Half(x)
  {
  }

  lemma FeedXor(v: bv16, b: bool)
    ensures Feed(v, b) == Shift(Xor(v, One(b)))
  {
    hide Shift;
    hide Xor;
    if b {
      XorOne(v);
    } else {
      XorZero(v);
    }
  }

  lemma XorOne(v: bv16)
    ensures Xor(v, 1) == v ^ 1
  {
  }

  function Power(n: nat): bv16 {
    if n == 0 then 0x1 else if n == 1 then 0x2 else if n == 2 then 0x4 else if n == 3 then 0x8 else
    if n == 4 then 0x10 else if n == 5 then 0x20 else if n == 6 then 0x40 else if n == 7 then 0x80 else
    if n == 8 then 0x100 else if n == 9 then 0x200 else if n == 10 then 0x400 else if n == 11 then 0x800 else
    if n == 12 then 0x1000 else if n == 13 then 0x2000 else if n == 14 then 0x4000 else 0x8000
  }

  predicate Fits(x: bv16, n: nat) { x < Power(n) }

  // Adding a word in at once and shifting is the same as feeding its bits.
  lemma PeelOne(v: bv16, x: bv16)
    ensures Shift(Xor(v, x)) == Xor(Feed(v, Bit0(x)), Half(x))
  {
    hide Shift;
    hide Xor;
    hide Bit0;
    hide Half;
    hide Feed;
    var low := One(Bit0(x));
    LowBit(x);
    FeedXor(v, Bit0(x));
    XorAssociates(v, low, x & 0xFFFE);
    ShiftIsLinear(Xor(v, low), x & 0xFFFE);
  }

  lemma PowerHalves(x: bv16, n: nat)
    requires 0 < n <= 15 && Fits(x, n)
    ensures Fits(Half(x), n - 1)
  {
  }

  lemma {:induction false} FeedWord(v: bv16, x: bv16, n: nat)
    requires n <= 15 && Fits(x, n)
    ensures Shifts(n, Xor(v, x)) == Serial(v, LowBits(x, n))
    decreases n
  {
    hide Shift;
    hide Feed;
    hide Fits;
    hide Xor;
    hide Half;
    hide Bit0;
    if n == 0 {
      NothingToFeed(v, x);
    } else {
      PeelOne(v, x);
      PowerHalves(x, n);
      FeedWord(Feed(v, Bit0(x)), Half(x), n - 1);
      assert LowBits(x, n)[1..] == LowBits(Half(x), n - 1);
    }
  }

  lemma NothingToFeed(v: bv16, x: bv16)
    requires Fits(x, 0)
    ensures Xor(v, x) == v
  {
    XorZero(v);
  }

  lemma OctetBound(b: bv8)
    ensures Fits(Wide(b), 8)
  {
  }

  // The table step feeds the eight bits of an octet, least significant first.
  lemma StepIsSerial(v: bv16, b: bv8)
    ensures Step(v, b) == Serial(v, Bits(b))
  {
    hide Step;
    hide Serial;
    hide Shifts;
    hide LowBits;
    hide Fits;
    hide Xor;
    StepIsEight(v, b);
    OctetBound(b);
    FeedWord(v, Wide(b), 8);
  }

  // The code's FCS is the standard's shift register run over the message's bits.
  lemma {:induction false} UpdateIsSerial(v: bv16, s: Octets)
    ensures Update(v, s) == Serial(v, AllBits(s))
    decreases |s|
  {
    hide Step;
    hide Bits;
    hide Serial;
    if s == [] {
      SerialNothing(v);
    } else {
      StepIsSerial(v, s[0]);
      SerialConcat(v, Bits(s[0]), AllBits(s[1..]));
      UpdateIsSerial(Step(v, s[0]), s[1..]);
    }
  }

  lemma SerialNothing(v: bv16)
    ensures Serial(v, []) == v
  {
  }

  // --- The good residue -----------------------------------------------------------------

  lemma TwoOctets(v: bv16, a: bv8, b: bv8)
    ensures Update(v, [a, b]) == Step(Step(v, a), b)
  {
    hide Step;
    assert [a, b][1..] == [b];
    assert Update(v, [a, b]) == Update(Step(v, a), [b]);
    assert [b][1..] == [];
    assert Update(Step(v, a), [b]) == Update(Step(Step(v, a), b), []);
  }

  lemma ComplementLow(v: bv16)
    ensures Xor(v, Wide(Low(Finalize(v)))) == Xor(Top(v), 0xFF)
  {
  }

  lemma ComplementHigh(v: bv16)
    ensures Xor(Xor(v >> 8, 0x0F78), Wide(High(Finalize(v)))) == 0x0F87
  {
  }

  lemma EightOfAllOnes()
    ensures Eight(0xFF) == 0x0F78
  {
  }

  lemma EightToGood()
    ensures Eight(0x0F87) == GOOD
  {
  }

  lemma EightOfTopOnly(v: bv16)
    ensures Eight(Top(v)) == v >> 8
  {
    hide Eight;
    EightOfHigh(v);
  }

  // Its own complement, low octet first, takes a register to the good value.
  lemma FirstComplement(v: bv16)
    ensures Step(v, Low(Finalize(v))) == Xor(v >> 8, 0x0F78)
  {
    hide Step;
    hide Eight;
    hide Shifts;
    hide Xor;
    hide Low;
    hide Top;
    hide Wide;
    hide Finalize;
    StepIsEight(v, Low(Finalize(v)));
    ComplementLow(v);
    ShiftsIsLinear(8, Top(v), 0xFF);
    EightIsShifts(Top(v));
    EightIsShifts(0xFF);
    EightOfTopOnly(v);
    EightOfAllOnes();
  }

  lemma ComplementIsGood(v: bv16)
    ensures Update(v, [Low(Finalize(v)), High(Finalize(v))]) == GOOD
  {
    hide Step;
    hide Update;
    hide Eight;
    hide Shifts;
    hide Xor;
    hide Low;
    hide High;
    hide Wide;
    hide Finalize;
    var a, b := Low(Finalize(v)), High(Finalize(v));
    TwoOctets(v, a, b);
    FirstComplement(v);
    StepIsEight(Step(v, a), b);
    ComplementHigh(v);
    EightIsShifts(0x0F87);
    EightToGood();
  }

  // Two octets are determined by where they take a register.
  lemma TwoOctetsInjective(v: bv16, s: Octets, t: Octets)
    requires |s| == |t| == 2 && Update(v, s) == Update(v, t)
    ensures s == t
  {
    hide Update;
    hide Serial;
    hide AllBits;
    hide Word;
    hide Xor;
    UpdateIsSerial(v, s);
    UpdateIsSerial(v, t);
    BitsLength(s);
    BitsLength(t);
    SerialBack(v, v, AllBits(s), AllBits(t));
    SameWord(v, Word(AllBits(s)), Word(AllBits(t)));
    WordInjective(AllBits(s), AllBits(t));
    BitsInjective(s, t);
  }

  // Exactly one pair of octets takes a register to the good value.
  lemma ResidueOfTwo(v: bv16, a: bv8, b: bv8)
    ensures Update(v, [a, b]) == GOOD <==> a == Low(Finalize(v)) && b == High(Finalize(v))
  {
    hide Update;
    hide Low;
    hide High;
    hide Finalize;
    var s, t := [a, b], [Low(Finalize(v)), High(Finalize(v))];
    ComplementIsGood(v);
    assert s[0] == a && s[1] == b && t[0] == Low(Finalize(v)) && t[1] == High(Finalize(v));
    if Update(v, s) == GOOD {
      TwoOctetsInjective(v, s, t);
    }
  }

  lemma ShortIsBad(b: bv8)
    ensures Eight(Xor(INIT, Wide(b))) != GOOD
  {
  }

  // A received string passes exactly when it is a message followed by its FCS.
  lemma CheckIffTrailingFcs(t: Octets)
    ensures Check(t) <==> |t| >= 2 && t[|t| - 2..] == FcsOctets(t[..|t| - 2])
  {
    hide Step;
    hide Eight;
    hide Shifts;
    hide Xor;
    hide Low;
    hide High;
    hide Finalize;
    if |t| >= 2 {
      var s, a, b := t[..|t| - 2], t[|t| - 2], t[|t| - 1];
      assert t == s + [a, b] && t[|t| - 2..] == [a, b];
      UpdateConcat(INIT, s, [a, b]);
      var v := Update(INIT, s);
      ResidueOfTwo(v, a, b);
    } else if |t| == 1 {
      assert t[1..] == [];
      assert Update(INIT, t) == Step(INIT, t[0]);
      StepIsEight(INIT, t[0]);
      EightIsShifts(Xor(INIT, Wide(t[0])));
      ShortIsBad(t[0]);
    }
  }

  lemma AppendedFcsPasses(s: Octets)
    ensures Check(s + FcsOctets(s))
  {
    hide Update;
    hide Low;
    hide High;
    hide Finalize;
    var t := s + FcsOctets(s);
    assert t[..|t| - 2] == s && t[|t| - 2..] == FcsOctets(s);
    CheckIffTrailingFcs(t);
  }

  // --- Flags in the FCS --------------------------------------------------------------------

  predicate FlagIn(v: bv16) { Low(Finalize(v)) == FLAG || High(Finalize(v)) == FLAG }

  lemma OneOfThreeIsFree(u: bv16)
    ensures !FlagIn(u) || !FlagIn(Xor(u, 0x1189)) || !FlagIn(Xor(u, 0x2312))
  {
  }

  lemma EightOfSmall()
    ensures Eight(Wide(0)) == 0 && Eight(Wide(1)) == 0x1189 && Eight(Wide(2)) == 0x2312
  {
  }

  lemma UpdateLast(v: bv16, s: Octets, x: bv8)
    ensures Update(v, s + [x]) == Xor(Shifts(8, Update(v, s)), Eight(Wide(x)))
  {
    hide Step;
    hide Xor;
    hide Shifts;
    hide Eight;
    hide Wide;
    var u := Update(v, s);
    UpdateConcat(v, s, [x]);
    assert [x][1..] == [] && Update(u, [x]) == Update(Step(u, x), [x][1..]);
    StepIsEight(u, x);
    ShiftsIsLinear(8, u, Wide(x));
    EightIsShifts(Wide(x));
  }

  // Any message can be given a last octet, no flag itself, such that its FCS
  // contains no flag.
  lemma UnflaggedFcs(s: Octets) returns (x: bv8)
    ensures x != FLAG && FLAG !in FcsOctets(s + [x])
  {
    hide Update;
    hide Xor;
    hide Shifts;
    hide Low;
    hide High;
    hide Finalize;
    hide Eight;
    hide Wide;
    var u := Shifts(8, Update(INIT, s));
    OneOfThreeIsFree(u);
    EightOfSmall();
    XorZero(u);
    UpdateLast(INIT, s, 0);
    UpdateLast(INIT, s, 1);
    UpdateLast(INIT, s, 2);
    x := if !FlagIn(u) then 0 else if !FlagIn(Xor(u, 0x1189)) then 1 else 2;
  }

  // --- Error detection --------------------------------------------------------------------

  function Put(w: bv16, b: bool): bv16 { (w << 1) | (if b then 1 else 0) }

  // A string of at most sixteen bits as a register value.
  function Word(bits: seq<bool>): bv16
    decreases |bits|
  {
    if bits == [] then 0 else Put(Word(bits[1..]), bits[0])
  }

  lemma PutFits(w: bv16, b: bool, n: nat)
    requires 0 < n <= 15 && Fits(w, n - 1)
    ensures Fits(Put(w, b), n)
  {
  }

  lemma {:induction false} WordFits(bits: seq<bool>)
    requires |bits| <= 15
    ensures Fits(Word(bits), |bits|)
    decreases |bits|
  {
    hide Fits;
    hide Put;
    if bits != [] {
      WordFits(bits[1..]);
      PutFits(Word(bits[1..]), bits[0], |bits|);
    } else {
      ZeroFits();
    }
  }

  lemma ZeroFits()
    ensures Fits(0, 0)
  {
  }

  lemma FitsBelowTop(n: nat, x: bv16)
    requires n <= 15 && Fits(x, n)
    ensures x < 0x8000
  {
  }

  lemma ShortWord(bits: seq<bool>)
    requires |bits| <= 15
    ensures Word(bits) < 0x8000
  {
    hide Word;
    hide Fits;
    WordFits(bits);
    FitsBelowTop(|bits|, Word(bits));
  }

  // A shift whose result has no bit 15 did not hit the taps.
  lemma Unshift(d: bv16, z: bv16)
    requires z < 0x8000 && Shift(d) == z
    ensures d == Double(z)
  {
    TapsShow(Half(d));
  }

  lemma TapsShow(h: bv16)
    requires h < 0x8000
    ensures h ^ 0x8408 >= 0x8000
  {
  }

  function Double(z: bv16): bv16 { z << 1 }

  lemma DoubleXor(x: bv16, y: bv16)
    ensures Double(Xor(x, y)) == Xor(Double(x), Double(y))
  {
  }

  lemma PutIsXor(x: bv16, a: bool)
    ensures Put(x, a) == Xor(Double(x), One(a))
  {
  }

  lemma XorMove(v: bv16, p: bv16, z: bv16)
    requires Xor(v, p) == z
    ensures v == Xor(z, p)
  {
  }

  lemma PutXor(v: bv16, w: bv16, a: bool, b: bool, x: bv16, y: bv16)
    requires Xor(Xor(v, One(a)), Xor(w, One(b))) == Double(Xor(x, y))
    ensures Xor(v, w) == Xor(Put(x, a), Put(y, b))
  {
    hide Xor;
    hide Double;
    hide Put;
    hide One;
    DoubleXor(x, y);
    PutIsXor(x, a);
    PutIsXor(y, b);
    XorSwap(v, w, One(a), One(b));
    XorSwap(Double(x), Double(y), One(a), One(b));
    XorMove(Xor(v, w), Xor(One(a), One(b)), Xor(Double(x), Double(y)));
  }

  lemma SmallXor(x: bv16, y: bv16)
    requires x < 0x8000 && y < 0x8000
    ensures Xor(x, y) < 0x8000
  {
  }

  // One shift backwards.
  lemma FeedBack(v: bv16, w: bv16, a: bool, b: bool, x: bv16, y: bv16)
    requires x < 0x8000 && y < 0x8000
    requires Xor(Feed(v, a), Feed(w, b)) == Xor(x, y)
    ensures Xor(v, w) == Xor(Put(x, a), Put(y, b))
  {
    hide Xor;
    hide Feed;
    hide Shift;
    hide Put;
    hide One;
    hide Double;
    var p, q := Xor(v, One(a)), Xor(w, One(b));
    FeedXor(v, a);
    FeedXor(w, b);
    ShiftIsLinear(p, q);
    SmallXor(x, y);
    Unshift(Xor(p, q), Xor(x, y));
    PutXor(v, w, a, b, x, y);
  }

  // Running the register backwards over at most sixteen bits.
  lemma {:induction false} SerialBack(v: bv16, w: bv16, a: seq<bool>, b: seq<bool>)
    requires |a| == |b| <= 16 && Serial(v, a) == Serial(w, b)
    ensures Xor(v, w) == Xor(Word(a), Word(b))
    decreases |a|
  {
    hide Feed;
    hide Put;
    hide Xor;
    if a == [] {
      XorSelf(v);
      XorSelf(0);
    } else {
      SerialBack(Feed(v, a[0]), Feed(w, b[0]), a[1..], b[1..]);
      ShortWord(a[1..]);
      ShortWord(b[1..]);
      FeedBack(v, w, a[0], b[0], Word(a[1..]), Word(b[1..]));
    }
  }

  lemma PutInjective(x: bv16, y: bv16, a: bool, b: bool)
    requires x < 0x8000 && y < 0x8000 && Put(x, a) == Put(y, b)
    ensures x == y && a == b
  {
  }

  lemma {:induction false} WordInjective(a: seq<bool>, b: seq<bool>)
    requires |a| == |b| <= 16 && Word(a) == Word(b)
    ensures a == b
    decreases |a|
  {
    hide Put;
    if a != [] {
      ShortWord(a[1..]);
      ShortWord(b[1..]);
      PutInjective(Word(a[1..]), Word(b[1..]), a[0], b[0]);
      WordInjective(a[1..], b[1..]);
      assert a == [a[0]] + a[1..] && b == [b[0]] + b[1..];
    }
  }

  lemma FeedInjective(v: bv16, w: bv16, b: bool)
    requires Feed(v, b) == Feed(w, b)
    ensures v == w
  {
  }

  lemma {:induction false} SerialInjective(v: bv16, w: bv16, bits: seq<bool>)
    requires Serial(v, bits) == Serial(w, bits)
    ensures v == w
    decreases |bits|
  {
    hide Feed;
    if bits != [] {
      SerialInjective(Feed(v, bits[0]), Feed(w, bits[0]), bits[1..]);
      FeedInjective(v, w, bits[0]);
    }
  }

  // Two different strings that agree outside sixteen consecutive bits, at any
  // bit position, never have the same FCS register: of two such strings at
  // most one passes the check.
  lemma BurstErrorsRejected(t: Octets, u: Octets, at: nat, len: nat)
    requires |AllBits(t)| == |AllBits(u)| && at + len <= |AllBits(t)| && len <= 16
    requires AllBits(t)[..at] == AllBits(u)[..at] && AllBits(t)[at + len..] == AllBits(u)[at + len..]
    requires AllBits(t) != AllBits(u)
    ensures Check(t) ==> !Check(u)
  {
    hide AllBits;
    hide Serial;
    hide Update;
    hide Word;
    var x, y := AllBits(t), AllBits(u);
    UpdateIsSerial(INIT, t);
    UpdateIsSerial(INIT, u);
    if Serial(INIT, x) == Serial(INIT, y) {
      var p, q, a, b := x[..at], x[at + len..], x[at..at + len], y[at..at + len];
      assert x == p + (a + q) && y == p + (b + q);
      SerialConcat(INIT, p, a + q);
      SerialConcat(INIT, p, b + q);
      var v := Serial(INIT, p);
      SerialConcat(v, a, q);
      SerialConcat(v, b, q);
      SerialInjective(Serial(v, a), Serial(v, b), q);
      SerialBack(v, v, a, b);
      SameWord(v, Word(a), Word(b));
      WordInjective(a, b);
    }
  }

  lemma SameWord(v: bv16, x: bv16, y: bv16)
    requires Xor(v, v) == Xor(x, y)
    ensures x == y
  {
  }

  // The same for octets: a frame damaged only within two adjacent octets.
  lemma AdjacentOctetErrorsRejected(p: Octets, a: Octets, b: Octets, q: Octets)
    requires |a| == |b| <= 2 && a != b
    ensures Check(p + a + q) ==> !Check(p + b + q)
  {
    hide AllBits;
    hide Check;
    var t, u := p + a + q, p + b + q;
    BitsConcat(p + a, q);
    BitsConcat(p + b, q);
    BitsConcat(p, a);
    BitsConcat(p, b);
    BitsLength(a);
    BitsLength(b);
    var at, len := |AllBits(p)|, |AllBits(a)|;
    assert AllBits(t)[..at] == AllBits(p) == AllBits(u)[..at];
    assert AllBits(t)[at + len..] == AllBits(q) == AllBits(u)[at + len..];
    assert AllBits(t)[at..at + len] == AllBits(a) && AllBits(u)[at..at + len] == AllBits(b);
    if AllBits(a) == AllBits(b) {
      BitsInjective(a, b);
    }
    assert AllBits(t) != AllBits(u);
    BurstErrorsRejected(t, u, at, len);
  }

  lemma {:induction false} BitsConcat(s: Octets, t: Octets)
    ensures AllBits(s + t) == AllBits(s) + AllBits(t)
    decreases |s|
  {
    hide Bits;
    if s == [] {
      assert s + t == t;
    } else {
      assert (s + t)[1..] == s[1..] + t;
      BitsConcat(s[1..], t);
      assert Bits(s[0]) + (AllBits(s[1..]) + AllBits(t)) == Bits(s[0]) + AllBits(s[1..]) + AllBits(t);
    }
  }

  lemma {:induction false} BitsLength(s: Octets)
    ensures |AllBits(s)| == 8 * |s|
    decreases |s|
  {
    if s != [] {
      BitsLength(s[1..]);
    }
  }

  lemma FromHalf(x: bv16, y: bv16)
    requires Bit0(x) == Bit0(y) && Half(x) == Half(y)
    ensures x == y
  {
  }

  lemma {:induction false} LowBitsInjective(x: bv16, y: bv16, n: nat)
    requires n <= 15 && Fits(x, n) && Fits(y, n) && LowBits(x, n) == LowBits(y, n)
    ensures x == y
    decreases n
  {
    hide Fits;
    hide Half;
    hide Bit0;
    hide LowBits;
    if n == 0 {
      NothingFits(x, y);
    } else {
      PowerHalves(x, n);
      PowerHalves(y, n);
      LowBitsUncons(x, n);
      LowBitsUncons(y, n);
      LowBitsInjective(Half(x), Half(y), n - 1);
      FromHalf(x, y);
    }
  }

  lemma LowBitsUncons(x: bv16, n: nat)
    requires n > 0
    ensures LowBits(x, n)[0] == Bit0(x) && LowBits(x, n)[1..] == LowBits(Half(x), n - 1)
  {
  }

  lemma NothingFits(x: bv16, y: bv16)
    requires Fits(x, 0) && Fits(y, 0)
    ensures x == y
  {
  }

  lemma SameWide(a: bv8, b: bv8)
    requires Wide(a) == Wide(b)
    ensures a == b
  {
  }

  lemma OctetBits(a: bv8, b: bv8)
    requires Bits(a) == Bits(b)
    ensures a == b
  {
    hide Fits;
    hide LowBits;
    OctetBound(a);
    OctetBound(b);
    LowBitsInjective(Wide(a), Wide(b), 8);
    SameWide(a, b);
  }

  lemma {:induction false} BitsInjective(s: Octets, t: Octets)
    requires |s| == |t| && AllBits(s) == AllBits(t)
    ensures s == t
    decreases |s|
  {
    hide Bits;
    if s != [] {
      BitsLength([s[0]]);
      BitsLength([t[0]]);
      assert AllBits([s[0]]) == Bits(s[0]) && AllBits([t[0]]) == Bits(t[0]);
      assert AllBits(s)[..8] == Bits(s[0]) && AllBits(t)[..8] == Bits(t[0]);
      assert AllBits(s)[8..] == AllBits(s[1..]) && AllBits(t)[8..] == AllBits(t[1..]);
      OctetBits(s[0], t[0]);
      BitsInjective(s[1..], t[1..]);
      assert s == [s[0]] + s[1..] && t == [t[0]] + t[1..];
    }
  }

  function Odd(v: bv16): bool
    decreases v
  {
    if v == 0 then false else
      assert Half(v) < v;
      Bit0(v) != Odd(Half(v))
  }

  function OddCount(bits: seq<bool>): bool
    decreases |bits|
  {
    bits != [] && (bits[0] != OddCount(bits[1..]))
  }

  function Differences(x: seq<bool>, y: seq<bool>): nat
    requires |x| == |y|
    decreases |x|
  {
    if x == [] then 0 else (if x[0] == y[0] then 0 else 1) + Differences(x[1..], y[1..])
  }

  lemma XorBits(v: bv16, w: bv16)
    ensures Bit0(Xor(v, w)) <==> Bit0(v) != Bit0(w)
    ensures Half(Xor(v, w)) == Xor(Half(v), Half(w))
    ensures v == 0 ==> Xor(v, w) == w
    ensures Half(0) == 0 && !Bit0(0)
  {
  }

  lemma HalfSmaller(v: bv16)
    requires v != 0
    ensures Half(v) < v
  {
  }

  lemma OddStep(v: bv16)
    ensures Odd(v) <==> Bit0(v) != Odd(Half(v))
  {
  }

  lemma {:induction false} OddXor(v: bv16, w: bv16)
    ensures Odd(Xor(v, w)) <==> Odd(v) != Odd(w)
    decreases v
  {
    hide Xor;
    hide Bit0;
    hide Half;
    hide Odd;
    XorBits(v, w);
    OddStep(v);
    OddStep(w);
    OddStep(Xor(v, w));
    if v != 0 {
      HalfSmaller(v);
      OddXor(Half(v), Half(w));
    } else {
      OddZero();
    }
  }

  lemma OddZero()
    ensures !Odd(0)
  {
  }

  // The taps are an odd number of bits.
  lemma OddTaps()
    ensures Odd(0x8408) && Odd(1)
  {
    assert Odd(0x0001);
    assert Odd(0x0002) && Odd(0x0004) && Odd(0x0008) && Odd(0x0010);
    assert !Odd(0x0021) && !Odd(0x0042) && !Odd(0x0084) && !Odd(0x0108);
    assert !Odd(0x0210) && !Odd(0x0420) && !Odd(0x0840);
    assert Odd(0x1081) && Odd(0x2102) && Odd(0x4204) && Odd(0x8408);
  }

  lemma ShiftCases(v: bv16)
    ensures Shift(v) == if Bit0(v) then Xor(Half(v), 0x8408) else Half(v)
  {
  }

  lemma ShiftParity(v: bv16)
    ensures Odd(Shift(v)) == Odd(v)
  {
    hide Shift;
    hide Odd;
    hide Xor;
    hide Half;
    hide Bit0;
    ShiftCases(v);
    OddTaps();
    OddStep(v);
    OddXor(Half(v), 0x8408);
  }

  lemma FeedParity(v: bv16, b: bool)
    ensures Odd(Feed(v, b)) <==> (Odd(v) != b)
  {
    hide Odd;
    hide Shift;
    hide Xor;
    hide Feed;
    FeedXor(v, b);
    OddTaps();
    OddZero();
    OddXor(v, One(b));
    ShiftParity(Xor(v, One(b)));
  }

  lemma {:induction false} SerialParity(v: bv16, bits: seq<bool>)
    ensures Odd(Serial(v, bits)) <==> (Odd(v) != OddCount(bits))
    decreases |bits|
  {
    hide Feed;
    hide Odd;
    if bits != [] {
      FeedParity(v, bits[0]);
      SerialParity(Feed(v, bits[0]), bits[1..]);
    }
  }

  lemma {:induction false} OddDifferences(x: seq<bool>, y: seq<bool>)
    requires |x| == |y|
    ensures Differences(x, y) % 2 == 1 <==> OddCount(x) != OddCount(y)
    decreases |x|
  {
    if x != [] {
      OddDifferences(x[1..], y[1..]);
    }
  }

  // A frame damaged in an odd number of bits, wherever they are, is rejected.
  lemma OddErrorsRejected(t: Octets, u: Octets)
    requires |AllBits(t)| == |AllBits(u)| && Differences(AllBits(t), AllBits(u)) % 2 == 1
    ensures Check(t) ==> !Check(u)
  {
    hide AllBits;
    hide Serial;
    hide Odd;
    hide Update;
    UpdateIsSerial(INIT, t);
    UpdateIsSerial(INIT, u);
    SerialParity(INIT, AllBits(t));
    SerialParity(INIT, AllBits(u));
    OddDifferences(AllBits(t), AllBits(u));
  }

  // --- The code's loops ------------------------------------------------------------------------

  method UpdateFcs(crc: bv16, buf: array<bv8>, from: nat, len: nat) returns (val: bv16)
    requires from + len <= buf.Length
    ensures val == Update(crc, buf[from..from + len])
  {
    hide Step;
    hide Xor;
    val := crc;
    var i := 0;
    assert buf[from..from + len] == buf[from + i..from + len];
    while i < len
      invariant i <= len
      invariant Update(crc, buf[from..from + len]) == Update(val, buf[from + i..from + len])
    {
      assert buf[from + i..from + len][1..] == buf[from + i + 1..from + len];
      val := Step(val, buf[from + i]);
      i := i + 1;
    }
  }

  // Writes the FCS of the first `offset` octets behind them.
  method AddFcsAt(buf: array<bv8>, offset: nat)
    requires offset + 2 <= buf.Length
    modifies buf
    ensures buf[..offset + 2] == old(buf[..offset]) + FcsOctets(old(buf[..offset]))
    ensures Check(buf[..offset + 2])
    ensures buf[offset + 2..] == old(buf[offset + 2..])
  {
    hide Update;
    hide Low;
    hide High;
    hide Finalize;
    hide Check;
    ghost var s := buf[..offset];
    assert buf[0..offset] == s;
    var crc := UpdateFcs(INIT, buf, 0, offset);
    crc := Finalize(crc);
    buf[offset] := Low(crc);
    buf[offset + 1] := High(crc);
    assert buf[..offset + 2] == s + FcsOctets(s);
    AppendedFcsPasses(s);
  }

  method CheckFcsAt(buf: array<bv8>, total: nat) returns (ok: bool)
    requires total <= buf.Length
    ensures ok == Check(buf[..total])
    ensures ok <==> total >= 2 && buf[total - 2..total] == FcsOctets(buf[..total - 2])
  {
    hide FcsOctets;
    hide Update;
    var crc := UpdateFcs(INIT, buf, 0, total);
    assert buf[0..total] == buf[..total];
    ok := crc == GOOD;
    CheckIffTrailingFcs(buf[..total]);
    if total >= 2 {
      assert buf[..total][total - 2..] == buf[total - 2..total];
      assert buf[..total][..total - 2] == buf[..total - 2];
    }
  }

  // The FCS of a message given in segments; empty segments are skipped.
  method ComputeFcs(segv: seq<Octets>) returns (out: Octets)
    ensures out == FcsOctets(Concat(segv))
  {
    hide Step;
    hide Low;
    hide High;
    hide Finalize;
    var crc := INIT;
    var i := 0;
    while i < |segv|
      invariant i <= |segv|
      invariant Update(INIT, Concat(segv)) == Update(crc, Concat(segv[i..]))
    {
      assert segv[i..][1..] == segv[i + 1..];
      UpdateConcat(crc, segv[i], Concat(segv[i + 1..]));
      if |segv[i]| > 0 {
        crc := Update(crc, segv[i]);
      }
      i := i + 1;
    }
    assert Concat(segv[|segv|..]) == [];
    crc := Finalize(crc);
    out := [Low(crc), High(crc)];
  }

  // --- Known answers -------------------------------------------------------------------------

  // The registers on the way through the nine digits.
  lemma FirstDigits()
    ensures Step(0xFFFF, 0x31) == 0x2F8D
    ensures Step(0x2F8D, 0x32) == 0x4D53
    ensures Step(0x4D53, 0x33) == 0x634B
  {
  }

  lemma MiddleDigits()
    ensures Step(0x634B, 0x34) == 0x8B13
    ensures Step(0x8B13, 0x35) == 0x44BF
    ensures Step(0x44BF, 0x36) == 0x198D
  {
  }

  lemma LastDigits()
    ensures Step(0x198D, 0x37) == 0x1AC8
    ensures Step(0x1AC8, 0x38) == 0xF795
    ensures Step(0xF795, 0x39) == 0x6F91
  {
  }

  lemma FirstStep(v: bv16, b: bv8, s: Octets)
    ensures Update(v, [b] + s) == Update(Step(v, b), s)
  {
    hide Step;
    assert ([b] + s)[1..] == s;
  }

  lemma UpdateNothing(v: bv16)
    ensures Update(v, []) == v
  {
  }

  lemma DigitsRegister(s: Octets)
    requires s == [0x31, 0x32, 0x33, 0x34, 0x35, 0x36, 0x37, 0x38, 0x39]
    ensures Update(INIT, s) == 0x6F91
  {
    hide Step;
    hide Update;
    FirstDigits();
    MiddleDigits();
    LastDigits();
    var none: Octets := [];
    var s8 := [0x39] + none;
    var s7 := [0x38] + s8;
    var s6 := [0x37] + s7;
    var s5 := [0x36] + s6;
    var s4 := [0x35] + s5;
    var s3 := [0x34] + s4;
    var s2 := [0x33] + s3;
    var s1 := [0x32] + s2;
    var s0 := [0x31] + s1;
    FirstStep(0xFFFF, 0x31, s1);
    FirstStep(0x2F8D, 0x32, s2);
    FirstStep(0x4D53, 0x33, s3);
    FirstStep(0x634B, 0x34, s4);
    FirstStep(0x8B13, 0x35, s5);
    FirstStep(0x44BF, 0x36, s6);
    FirstStep(0x198D, 0x37, s7);
    FirstStep(0x1AC8, 0x38, s8);
    FirstStep(0xF795, 0x39, none);
    UpdateNothing(0x6F91);
    assert s == s0;
  }

  // The register starts with all ones and is complemented at the end: the FCS of
  // nothing is zero, that of the nine digits is 0x906E, low octet first.
  lemma KnownAnswers()
    ensures FcsOctets([]) == [0x00, 0x00]
    ensures FcsOctets([0x31, 0x32, 0x33, 0x34, 0x35, 0x36, 0x37, 0x38, 0x39]) == [0x6E, 0x90]
  {
    hide Step;
    hide Update;
    UpdateNothing(INIT);
    DigitsRegister([0x31, 0x32, 0x33, 0x34, 0x35, 0x36, 0x37, 0x38, 0x39]);
  }
}
