/** CRC-24Q: the table-driven loop against the shift register it stands for, and the errors it detects. */
module Crc24q {

  // ----- the shift register

  /** The register: the coefficients of a polynomial over the field of two elements, below degree 24. */
  datatype Register = Register(bits: bv24)

  const ZERO := Register(0)

  /** The lower terms of the generator polynomial. */
  const GENERATOR := Register(0x864CFB)

  function Xor(a: bv24, b: bv24): bv24 { a ^ b }

  function Plus(a: Register, b: Register): Register { Register(Xor(a.bits, b.bits)) }

  function TopBit(x: bv24): bool { x & 0x800000 != 0 }

  function Twice(x: bv24): bv24 { x << 1 }

  function Top(x: Register): bool { TopBit(x.bits) }

  function Double(x: Register): Register { Register(Twice(x.bits)) }

  /** One step of division by the generator: shift, and subtract it if a term came out on top. */
  function BitStep(x: Register): Register {
    if Top(x) then Plus(Double(x), GENERATOR) else Double(x)
  }

  function ByteStep(x: Register): Register {
    BitStep(BitStep(BitStep(BitStep(BitStep(BitStep(BitStep(BitStep(x))))))))
  }

  // A byte in the highest, middle and lowest place.

  function High(d: bv8): Register { Register((d as bv24) << 16) }

  function Mid(d: bv8): Register { Register((d as bv24) << 8) }

  function Low(d: bv8): Register { Register(d as bv24) }

  /** Feed one byte. */
  function Next(x: Register, d: bv8): Register { ByteStep(Plus(x, High(d))) }

  function Feed(x: Register, s: seq<bv8>): Register {
    if s == [] then x else Next(Feed(x, s[..|s|-1]), s[|s|-1])
  }

  function Crc(s: seq<bv8>): Register { Feed(ZERO, s) }

  // ----- the same on bits

  function Shifted(x: bv24): bv24 {
    if TopBit(x) then Xor(Twice(x), 0x864CFB) else Twice(x)
  }

  function Divided(x: bv24): bv24 {
    Shifted(Shifted(Shifted(Shifted(Shifted(Shifted(Shifted(Shifted(x))))))))
  }

  lemma BitStepBits(x: Register)
    ensures BitStep(x) == Register(Shifted(x.bits))
  {
    hide Xor, TopBit, Twice;
  }

  lemma ByteStepBits(x: Register)
    ensures ByteStep(x) == Register(Divided(x.bits))
  {
    hide Shifted, BitStep;
    BitStepBits(x);
    var x1 := BitStep(x);
    BitStepBits(x1);
    var x2 := BitStep(x1);
    BitStepBits(x2);
    var x3 := BitStep(x2);
    BitStepBits(x3);
    var x4 := BitStep(x3);
    BitStepBits(x4);
    var x5 := BitStep(x4);
    BitStepBits(x5);
    var x6 := BitStep(x5);
    BitStepBits(x6);
    BitStepBits(BitStep(x6));
  }

  // ----- the table

  function Table0(i: bv8): bv32 {
    if i == 0x00 then 0x00000000 else if i == 0x01 then 0x01864CFB else if i == 0x02 then 0x028AD50D
    else if i == 0x03 then 0x030C99F6 else if i == 0x04 then 0x0493E6E1 else if i == 0x05 then 0x0515AA1A
    else if i == 0x06 then 0x061933EC else if i == 0x07 then 0x079F7F17 else if i == 0x08 then 0x08A18139
    else if i == 0x09 then 0x0927CDC2 else if i == 0x0A then 0x0A2B5434 else if i == 0x0B then 0x0BAD18CF
    else if i == 0x0C then 0x0C3267D8 else if i == 0x0D then 0x0DB42B23 else if i == 0x0E then 0x0EB8B2D5
    else if i == 0x0F then 0x0F3EFE2E else if i == 0x10 then 0x10C54E89 else if i == 0x11 then 0x11430272
    else if i == 0x12 then 0x124F9B84 else if i == 0x13 then 0x13C9D77F else if i == 0x14 then 0x1456A868
    else if i == 0x15 then 0x15D0E493 else if i == 0x16 then 0x16DC7D65 else if i == 0x17 then 0x175A319E
    else if i == 0x18 then 0x1864CFB0 else if i == 0x19 then 0x19E2834B else if i == 0x1A then 0x1AEE1ABD
    else if i == 0x1B then 0x1B685646 else if i == 0x1C then 0x1CF72951 else if i == 0x1D then 0x1D7165AA
    else if i == 0x1E then 0x1E7DFC5C
    else 0x1FFBB0A7
  }

  function Table1(i: bv8): bv32 {
    if i == 0x20 then 0x200CD1E9 else if i == 0x21 then 0x218A9D12 else if i == 0x22 then 0x228604E4
    else if i == 0x23 then 0x2300481F else if i == 0x24 then 0x249F3708 else if i == 0x25 then 0x25197BF3
    else if i == 0x26 then 0x2615E205 else if i == 0x27 then 0x2793AEFE else if i == 0x28 then 0x28AD50D0
    else if i == 0x29 then 0x292B1C2B else if i == 0x2A then 0x2A2785DD else if i == 0x2B then 0x2BA1C926
    else if i == 0x2C then 0x2C3EB631 else if i == 0x2D then 0x2DB8FACA else if i == 0x2E then 0x2EB4633C
    else if i == 0x2F then 0x2F322FC7 else if i == 0x30 then 0x30C99F60 else if i == 0x31 then 0x314FD39B
    else if i == 0x32 then 0x32434A6D else if i == 0x33 then 0x33C50696 else if i == 0x34 then 0x345A7981
    else if i == 0x35 then 0x35DC357A else if i == 0x36 then 0x36D0AC8C else if i == 0x37 then 0x3756E077
    else if i == 0x38 then 0x38681E59 else if i == 0x39 then 0x39EE52A2 else if i == 0x3A then 0x3AE2CB54
    else if i == 0x3B then 0x3B6487AF else if i == 0x3C then 0x3CFBF8B8 else if i == 0x3D then 0x3D7DB443
    else if i == 0x3E then 0x3E712DB5
    else 0x3FF7614E
  }

  function Table2(i: bv8): bv32 {
    if i == 0x40 then 0x4019A3D2 else if i == 0x41 then 0x419FEF29 else if i == 0x42 then 0x429376DF
    else if i == 0x43 then 0x43153A24 else if i == 0x44 then 0x448A4533 else if i == 0x45 then 0x450C09C8
    else if i == 0x46 then 0x4600903E else if i == 0x47 then 0x4786DCC5 else if i == 0x48 then 0x48B822EB
    else if i == 0x49 then 0x493E6E10 else if i == 0x4A then 0x4A32F7E6 else if i == 0x4B then 0x4BB4BB1D
    else if i == 0x4C then 0x4C2BC40A else if i == 0x4D then 0x4DAD88F1 else if i == 0x4E then 0x4EA11107
    else if i == 0x4F then 0x4F275DFC else if i == 0x50 then 0x50DCED5B else if i == 0x51 then 0x515AA1A0
    else if i == 0x52 then 0x52563856 else if i == 0x53 then 0x53D074AD else if i == 0x54 then 0x544F0BBA
    else if i == 0x55 then 0x55C94741 else if i == 0x56 then 0x56C5DEB7 else if i == 0x57 then 0x5743924C
    else if i == 0x58 then 0x587D6C62 else if i == 0x59 then 0x59FB2099 else if i == 0x5A then 0x5AF7B96F
    else if i == 0x5B then 0x5B71F594 else if i == 0x5C then 0x5CEE8A83 else if i == 0x5D then 0x5D68C678
    else if i == 0x5E then 0x5E645F8E
    else 0x5FE21375
  }

  function Table3(i: bv8): bv32 {
    if i == 0x60 then 0x6015723B else if i == 0x61 then 0x61933EC0 else if i == 0x62 then 0x629FA736
    else if i == 0x63 then 0x6319EBCD else if i == 0x64 then 0x648694DA else if i == 0x65 then 0x6500D821
    else if i == 0x66 then 0x660C41D7 else if i == 0x67 then 0x678A0D2C else if i == 0x68 then 0x68B4F302
    else if i == 0x69 then 0x6932BFF9 else if i == 0x6A then 0x6A3E260F else if i == 0x6B then 0x6BB86AF4
    else if i == 0x6C then 0x6C2715E3 else if i == 0x6D then 0x6DA15918 else if i == 0x6E then 0x6EADC0EE
    else if i == 0x6F then 0x6F2B8C15 else if i == 0x70 then 0x70D03CB2 else if i == 0x71 then 0x71567049
    else if i == 0x72 then 0x725AE9BF else if i == 0x73 then 0x73DCA544 else if i == 0x74 then 0x7443DA53
    else if i == 0x75 then 0x75C596A8 else if i == 0x76 then 0x76C90F5E else if i == 0x77 then 0x774F43A5
    else if i == 0x78 then 0x7871BD8B else if i == 0x79 then 0x79F7F170 else if i == 0x7A then 0x7AFB6886
    else if i == 0x7B then 0x7B7D247D else if i == 0x7C then 0x7CE25B6A else if i == 0x7D then 0x7D641791
    else if i == 0x7E then 0x7E688E67
    else 0x7FEEC29C
  }

  function Table4(i: bv8): bv32 {
    if i == 0x80 then 0x803347A4 else if i == 0x81 then 0x81B50B5F else if i == 0x82 then 0x82B992A9
    else if i == 0x83 then 0x833FDE52 else if i == 0x84 then 0x84A0A145 else if i == 0x85 then 0x8526EDBE
    else if i == 0x86 then 0x862A7448 else if i == 0x87 then 0x87AC38B3 else if i == 0x88 then 0x8892C69D
    else if i == 0x89 then 0x89148A66 else if i == 0x8A then 0x8A181390 else if i == 0x8B then 0x8B9E5F6B
    else if i == 0x8C then 0x8C01207C else if i == 0x8D then 0x8D876C87 else if i == 0x8E then 0x8E8BF571
    else if i == 0x8F then 0x8F0DB98A else if i == 0x90 then 0x90F6092D else if i == 0x91 then 0x917045D6
    else if i == 0x92 then 0x927CDC20 else if i == 0x93 then 0x93FA90DB else if i == 0x94 then 0x9465EFCC
    else if i == 0x95 then 0x95E3A337 else if i == 0x96 then 0x96EF3AC1 else if i == 0x97 then 0x9769763A
    else if i == 0x98 then 0x98578814 else if i == 0x99 then 0x99D1C4EF else if i == 0x9A then 0x9ADD5D19
    else if i == 0x9B then 0x9B5B11E2 else if i == 0x9C then 0x9CC46EF5 else if i == 0x9D then 0x9D42220E
    else if i == 0x9E then 0x9E4EBBF8
    else 0x9FC8F703
  }

  function Table5(i: bv8): bv32 {
    if i == 0xA0 then 0xA03F964D else if i == 0xA1 then 0xA1B9DAB6 else if i == 0xA2 then 0xA2B54340
    else if i == 0xA3 then 0xA3330FBB else if i == 0xA4 then 0xA4AC70AC else if i == 0xA5 then 0xA52A3C57
    else if i == 0xA6 then 0xA626A5A1 else if i == 0xA7 then 0xA7A0E95A else if i == 0xA8 then 0xA89E1774
    else if i == 0xA9 then 0xA9185B8F else if i == 0xAA then 0xAA14C279 else if i == 0xAB then 0xAB928E82
    else if i == 0xAC then 0xAC0DF195 else if i == 0xAD then 0xAD8BBD6E else if i == 0xAE then 0xAE872498
    else if i == 0xAF then 0xAF016863 else if i == 0xB0 then 0xB0FAD8C4 else if i == 0xB1 then 0xB17C943F
    else if i == 0xB2 then 0xB2700DC9 else if i == 0xB3 then 0xB3F64132 else if i == 0xB4 then 0xB4693E25
    else if i == 0xB5 then 0xB5EF72DE else if i == 0xB6 then 0xB6E3EB28 else if i == 0xB7 then 0xB765A7D3
    else if i == 0xB8 then 0xB85B59FD else if i == 0xB9 then 0xB9DD1506 else if i == 0xBA then 0xBAD18CF0
    else if i == 0xBB then 0xBB57C00B else if i == 0xBC then 0xBCC8BF1C else if i == 0xBD then 0xBD4EF3E7
    else if i == 0xBE then 0xBE426A11
    else 0xBFC426EA
  }

  function Table6(i: bv8): bv32 {
    if i == 0xC0 then 0xC02AE476 else if i == 0xC1 then 0xC1ACA88D else if i == 0xC2 then 0xC2A0317B
    else if i == 0xC3 then 0xC3267D80 else if i == 0xC4 then 0xC4B90297 else if i == 0xC5 then 0xC53F4E6C
    else if i == 0xC6 then 0xC633D79A else if i == 0xC7 then 0xC7B59B61 else if i == 0xC8 then 0xC88B654F
    else if i == 0xC9 then 0xC90D29B4 else if i == 0xCA then 0xCA01B042 else if i == 0xCB then 0xCB87FCB9
    else if i == 0xCC then 0xCC1883AE else if i == 0xCD then 0xCD9ECF55 else if i == 0xCE then 0xCE9256A3
    else if i == 0xCF then 0xCF141A58 else if i == 0xD0 then 0xD0EFAAFF else if i == 0xD1 then 0xD169E604
    else if i == 0xD2 then 0xD2657FF2 else if i == 0xD3 then 0xD3E33309 else if i == 0xD4 then 0xD47C4C1E
    else if i == 0xD5 then 0xD5FA00E5 else if i == 0xD6 then 0xD6F69913 else if i == 0xD7 then 0xD770D5E8
    else if i == 0xD8 then 0xD84E2BC6 else if i == 0xD9 then 0xD9C8673D else if i == 0xDA then 0xDAC4FECB
    else if i == 0xDB then 0xDB42B230 else if i == 0xDC then 0xDCDDCD27 else if i == 0xDD then 0xDD5B81DC
    else if i == 0xDE then 0xDE57182A
    else 0xDFD154D1
  }

  function Table7(i: bv8): bv32 {
    if i == 0xE0 then 0xE026359F else if i == 0xE1 then 0xE1A07964 else if i == 0xE2 then 0xE2ACE092
    else if i == 0xE3 then 0xE32AAC69 else if i == 0xE4 then 0xE4B5D37E else if i == 0xE5 then 0xE5339F85
    else if i == 0xE6 then 0xE63F0673 else if i == 0xE7 then 0xE7B94A88 else if i == 0xE8 then 0xE887B4A6
    else if i == 0xE9 then 0xE901F85D else if i == 0xEA then 0xEA0D61AB else if i == 0xEB then 0xEB8B2D50
    else if i == 0xEC then 0xEC145247 else if i == 0xED then 0xED921EBC else if i == 0xEE then 0xEE9E874A
    else if i == 0xEF then 0xEF18CBB1 else if i == 0xF0 then 0xF0E37B16 else if i == 0xF1 then 0xF16537ED
    else if i == 0xF2 then 0xF269AE1B else if i == 0xF3 then 0xF3EFE2E0 else if i == 0xF4 then 0xF4709DF7
    else if i == 0xF5 then 0xF5F6D10C else if i == 0xF6 then 0xF6FA48FA else if i == 0xF7 then 0xF77C0401
    else if i == 0xF8 then 0xF842FA2F else if i == 0xF9 then 0xF9C4B6D4 else if i == 0xFA then 0xFAC82F22
    else if i == 0xFB then 0xFB4E63D9 else if i == 0xFC then 0xFCD11CCE else if i == 0xFD then 0xFD575035
    else if i == 0xFE then 0xFE5BC9C3
    else 0xFFDD8538
  }

  function Table(i: bv8): bv32 {
    if i < 0x20 then Table0(i) else if i < 0x40 then Table1(i) else if i < 0x60 then Table2(i)
    else if i < 0x80 then Table3(i)
    else if i < 0xA0 then Table4(i) else if i < 0xC0 then Table5(i) else if i < 0xE0 then Table6(i) else Table7(i)
  }

  lemma Table0Entry(i: bv8)
    requires i <= 0x1F
    ensures Table0(i) & 0xFFFFFF == Divided((i as bv24) << 16) as bv32
  {
  }

  lemma Table1Entry(i: bv8)
    requires 0x20 <= i <= 0x3F
    ensures Table1(i) & 0xFFFFFF == Divided((i as bv24) << 16) as bv32
  {
  }

  lemma Table2Entry(i: bv8)
    requires 0x40 <= i <= 0x5F
    ensures Table2(i) & 0xFFFFFF == Divided((i as bv24) << 16) as bv32
  {
  }

  lemma Table3Entry(i: bv8)
    requires 0x60 <= i <= 0x7F
    ensures Table3(i) & 0xFFFFFF == Divided((i as bv24) << 16) as bv32
  {
  }

  lemma Table4Entry(i: bv8)
    requires 0x80 <= i <= 0x9F
    ensures Table4(i) & 0xFFFFFF == Divided((i as bv24) << 16) as bv32
  {
  }

  lemma Table5Entry(i: bv8)
    requires 0xA0 <= i <= 0xBF
    ensures Table5(i) & 0xFFFFFF == Divided((i as bv24) << 16) as bv32
  {
  }

  lemma Table6Entry(i: bv8)
    requires 0xC0 <= i <= 0xDF
    ensures Table6(i) & 0xFFFFFF == Divided((i as bv24) << 16) as bv32
  {
  }

  lemma Table7Entry(i: bv8)
    requires i >= 0xE0
    ensures Table7(i) & 0xFFFFFF == Divided((i as bv24) << 16) as bv32
  {
  }

  lemma TableBits(i: bv8)
    ensures Table(i) & 0xFFFFFF == Divided((i as bv24) << 16) as bv32
  {
    hide Divided, Table0, Table1, Table2, Table3, Table4, Table5, Table6, Table7;
    if i < 0x20 { Table0Entry(i); }
    else if i < 0x40 { Table1Entry(i); }
    else if i < 0x60 { Table2Entry(i); }
    else if i < 0x80 { Table3Entry(i); }
    else if i < 0xA0 { Table4Entry(i); }
    else if i < 0xC0 { Table5Entry(i); }
    else if i < 0xE0 { Table6Entry(i); }
    else { Table7Entry(i); }
  }

  /** The part of the code's 32-bit word that is the register; its top byte is never cleared. */
  function CodeRegister(crc: bv32): Register { Register((crc & 0xFFFFFF) as bv24) }

  /** Every entry of the table is its index pushed through the register. */
  lemma TableEntry(i: bv8)
    ensures CodeRegister(Table(i)) == ByteStep(High(i))
  {
    hide Divided, Table, ByteStep;
    TableBits(i);
    ByteStepBits(High(i));
    Narrowed(Table(i), Divided((i as bv24) << 16));
  }

  lemma Narrowed(t: bv32, u: bv24)
    requires t & 0xFFFFFF == u as bv32
    ensures (t & 0xFFFFFF) as bv24 == u
  {
  }

  // ----- the register is linear and loses nothing

  lemma PlusAssoc(a: Register, b: Register, c: Register)
    ensures Plus(Plus(a, b), c) == Plus(a, Plus(b, c))
  {
  }

  lemma PlusComm(a: Register, b: Register)
    ensures Plus(a, b) == Plus(b, a)
  {
  }

  lemma XorBack(a: bv24, b: bv24)
    ensures Xor(a, Xor(a, b)) == b
  {
  }

  lemma PlusBack(a: Register, b: Register)
    ensures Plus(a, Plus(a, b)) == b
  {
    hide Xor;
    XorBack(a.bits, b.bits);
  }

  lemma PlusCancel(a: Register, b: Register, c: Register)
    requires Plus(a, b) == Plus(a, c)
    ensures b == c
  {
    hide Plus;
    PlusBack(a, b);
    PlusBack(a, c);
  }

  lemma PlusSelf(a: Register)
    ensures Plus(a, a) == ZERO
  {
  }

  lemma DoubleLinear(a: Register, b: Register)
    ensures Double(Plus(a, b)) == Plus(Double(a), Double(b))
  {
  }

  lemma TopLinear(a: Register, b: Register)
    ensures Top(Plus(a, b)) <==> Top(a) != Top(b)
  {
    hide TopBit, Xor;
    TopBitXor(a.bits, b.bits);
  }

  lemma TopBitXor(a: bv24, b: bv24)
    ensures TopBit(Xor(a, b)) <==> TopBit(a) != TopBit(b)
  {
    MaskXor(a, b);
  }

  lemma MaskXor(a: bv24, b: bv24)
    ensures (a ^ b) & 0x800000 != 0 <==> (a & 0x800000 != 0) != (b & 0x800000 != 0)
  {
  }

  lemma BitLinear(a: Register, b: Register)
    ensures BitStep(Plus(a, b)) == Plus(BitStep(a), BitStep(b))
  {
    hide Top, Double, Plus;
    var x, y, g := Double(a), Double(b), GENERATOR;
    DoubleLinear(a, b);
    TopLinear(a, b);
    PlusAssoc(x, y, g);
    PlusAssoc(x, g, y);
    PlusComm(g, y);
    PlusAssoc(x, g, Plus(g, y));
    PlusBack(g, y);
  }

  lemma ByteLinear(a: Register, b: Register)
    ensures ByteStep(Plus(a, b)) == Plus(ByteStep(a), ByteStep(b))
  {
    hide BitStep, Plus;
    var a1, b1 := BitStep(a), BitStep(b);
    var a2, b2 := BitStep(a1), BitStep(b1);
    var a3, b3 := BitStep(a2), BitStep(b2);
    var a4, b4 := BitStep(a3), BitStep(b3);
    var a5, b5 := BitStep(a4), BitStep(b4);
    var a6, b6 := BitStep(a5), BitStep(b5);
    BitLinear(a, b);
    BitLinear(a1, b1);
    BitLinear(a2, b2);
    BitLinear(a3, b3);
    BitLinear(a4, b4);
    BitLinear(a5, b5);
    BitLinear(a6, b6);
    BitLinear(BitStep(a6), BitStep(b6));
  }

  /** Undo one step: the lowest bit tells whether the generator was subtracted. */
  function Unshifted(y: bv24): bv24 {
    if y & 1 != 0 then ((y ^ 0x864CFB) >> 1) | 0x800000 else y >> 1
  }

  lemma Restored(x: bv24)
    ensures Unshifted(Shifted(x)) == x
  {
    if x & 0x800000 != 0 { RestoredHigh(x); } else { RestoredLow(x); }
  }

  lemma RestoredHigh(x: bv24)
    requires x & 0x800000 != 0
    ensures ((x << 1) ^ 0x864CFB) & 1 != 0 && ((((x << 1) ^ 0x864CFB) ^ 0x864CFB) >> 1) | 0x800000 == x
  {
  }

  lemma RestoredLow(x: bv24)
    requires x & 0x800000 == 0
    ensures (x << 1) & 1 == 0 && (x << 1) >> 1 == x
  {
  }

  lemma BitInjective(a: Register, b: Register)
    requires BitStep(a) == BitStep(b)
    ensures a == b
  {
    hide Shifted, Unshifted, BitStep;
    BitStepBits(a);
    BitStepBits(b);
    Restored(a.bits);
    Restored(b.bits);
  }

  lemma ByteInjective(a: Register, b: Register)
    requires ByteStep(a) == ByteStep(b)
    ensures a == b
  {
    hide BitStep;
    var a1, b1 := BitStep(a), BitStep(b);
    var a2, b2 := BitStep(a1), BitStep(b1);
    var a3, b3 := BitStep(a2), BitStep(b2);
    var a4, b4 := BitStep(a3), BitStep(b3);
    var a5, b5 := BitStep(a4), BitStep(b4);
    var a6, b6 := BitStep(a5), BitStep(b5);
    BitInjective(BitStep(a6), BitStep(b6));
    BitInjective(a6, b6);
    BitInjective(a5, b5);
    BitInjective(a4, b4);
    BitInjective(a3, b3);
    BitInjective(a2, b2);
    BitInjective(a1, b1);
    BitInjective(a, b);
  }

  /** Eight steps move a byte one place up. */
  lemma PlaceUp(d: bv8)
    ensures ByteStep(Low(d)) == Mid(d) && ByteStep(Mid(d)) == High(d) && ByteStep(ZERO) == ZERO
  {
    hide ByteStep, Divided;
    ByteStepBits(Low(d));
    ByteStepBits(Mid(d));
    ByteStepBits(ZERO);
    PlaceUpBits(d);
  }

  lemma PlaceUpBits(d: bv8)
    ensures Divided(d as bv24) == (d as bv24) << 8 && Divided((d as bv24) << 8) == (d as bv24) << 16 && Divided(0) == 0
  {
  }

  // ----- the loop

  function TopByte(crc: bv32): bv8 { (0xFF & (crc >> 16)) as bv8 }

  function Index(crc: bv32, d: bv8): bv8 { d ^ TopByte(crc) }

  function TableStep(crc: bv32, d: bv8): bv32 {
    (crc << 8) ^ Table(Index(crc, d))
  }

  /** The two lower bytes, and the same one place up. */
  function Lower(x: Register): Register { Register(LowerBits(x.bits)) }

  function LowerUp(x: Register): Register { Register(LowerUpBits(x.bits)) }

  function LowerBits(x: bv24): bv24 { x & 0xFFFF }

  function LowerUpBits(x: bv24): bv24 { x << 8 }

  lemma ByteStepLower(x: Register)
    ensures ByteStep(Lower(x)) == LowerUp(x)
  {
    hide ByteStep, Divided, LowerBits, LowerUpBits;
    ByteStepBits(Lower(x));
    DividedLow(x.bits);
  }

  lemma DividedLow(x: bv24)
    ensures Divided(LowerBits(x)) == LowerUpBits(x)
  {
  }

  lemma Regrouped(crc: bv32, d: bv8)
    ensures Plus(CodeRegister(crc), High(d)) == Plus(Lower(CodeRegister(crc)), High(Index(crc, d)))
  {
    hide CodeRegister, Lower, TopByte, Plus, High;
    var e := TopByte(crc);
    SplitTop(crc);
    HighLinear(d, e);
    PlusAssoc(Lower(CodeRegister(crc)), High(e), High(d));
    PlusComm(High(e), High(d));
  }

  lemma SplitTop(crc: bv32)
    ensures CodeRegister(crc) == Plus(Lower(CodeRegister(crc)), High(TopByte(crc)))
  {
  }

  lemma HighLinear(d: bv8, e: bv8)
    ensures High(d ^ e) == Plus(High(d), High(e))
  {
  }

  lemma StepRegister(crc: bv32, d: bv8)
    ensures CodeRegister(TableStep(crc, d)) == Plus(LowerUp(CodeRegister(crc)), CodeRegister(Table(Index(crc, d))))
  {
    hide Table, Index;
  }

  /** On the register the table does what division does. */
  lemma TableStepIsNext(crc: bv32, d: bv8)
    ensures CodeRegister(TableStep(crc, d)) == Next(CodeRegister(crc), d)
  {
    hide ByteStep, Table, CodeRegister, Index, Plus, Lower, LowerUp, High, TableStep;
    var x, i := CodeRegister(crc), Index(crc, d);
    Regrouped(crc, d);
    ByteLinear(Lower(x), High(i));
    ByteStepLower(x);
    TableEntry(i);
    StepRegister(crc, d);
  }

  function Widened(x: Register): bv32 { x.bits as bv32 }

  method ComputeCrc(data: seq<bv8>) returns (crc: bv32)
    ensures crc == Widened(Crc(data))
  {
    hide Next, TableStep, CodeRegister, Widened;
    crc := 0;
    StartRegister();
    for i := 0 to |data|
      invariant CodeRegister(crc) == Crc(data[..i])
    {
      assert data[..i+1][..i] == data[..i];
      TableStepIsNext(crc, data[i]);
      crc := TableStep(crc, data[i]);
    }
    assert data[..|data|] == data;
    Masked(crc);
    crc := crc & 0x00FFFFFF;
  }

  lemma StartRegister()
    ensures CodeRegister(0) == ZERO
  {
  }

  lemma Masked(crc: bv32)
    ensures Widened(CodeRegister(crc)) == crc & 0xFFFFFF
  {
  }

  // ----- what it detects

  lemma {:induction false} FeedSplit(x: Register, s: seq<bv8>, t: seq<bv8>)
    ensures Feed(x, s + t) == Feed(Feed(x, s), t)
  {
    hide Next;
    if t == [] {
      assert s + t == s;
    } else {
      FeedSplit(x, s, t[..|t|-1]);
      assert (s + t)[..|s|+|t|-1] == s + t[..|t|-1];
    }
  }

  lemma NextInjective(x: Register, y: Register, d: bv8)
    requires Next(x, d) == Next(y, d)
    ensures x == y
  {
    hide ByteStep, Plus, High;
    ByteInjective(Plus(x, High(d)), Plus(y, High(d)));
    PlusComm(x, High(d));
    PlusComm(y, High(d));
    PlusCancel(High(d), x, y);
  }

  /** From different registers the same bytes lead to different registers. */
  lemma {:induction false} FeedInjective(x: Register, y: Register, s: seq<bv8>)
    requires Feed(x, s) == Feed(y, s)
    ensures x == y
  {
    hide Next;
    if s != [] {
      var before, d := s[..|s|-1], s[|s|-1];
      NextInjective(Feed(x, before), Feed(y, before), d);
      FeedInjective(x, y, before);
    }
  }

  function Triple(a: bv8, b: bv8, c: bv8): Register { Plus(High(a), Plus(Mid(b), Low(c))) }

  function Step3(x: Register): Register { ByteStep(ByteStep(ByteStep(x))) }

  /** Three bytes are fed as if they had been there all along. */
  lemma Feed3(x: Register, a: bv8, b: bv8, c: bv8)
    ensures Next(Next(Next(x, a), b), c) == Step3(Plus(x, Triple(a, b, c)))
  {
    hide ByteStep, Plus, High, Mid, Low;
    PlaceUp(b);
    PlaceUp(c);
    var x1 := Plus(x, High(a));
    ByteLinear(x1, Mid(b));
    var x2 := Plus(x1, Mid(b));
    ByteLinear(ByteStep(x2), Mid(c));
    ByteLinear(x2, Low(c));
    PlusAssoc(x1, Mid(b), Low(c));
    PlusAssoc(x, High(a), Plus(Mid(b), Low(c)));
  }

  /** From one register different triples of bytes lead to different registers. */
  lemma TripleInjective(x: Register, s: seq<bv8>, t: seq<bv8>)
    requires |s| == |t| == 3 && Feed(x, s) == Feed(x, t)
    ensures s == t
  {
    hide Next, ByteStep, Triple, Plus;
    FeedOf3(x, s);
    FeedOf3(x, t);
    Feed3(x, s[0], s[1], s[2]);
    Feed3(x, t[0], t[1], t[2]);
    var p, q := Plus(x, Triple(s[0], s[1], s[2])), Plus(x, Triple(t[0], t[1], t[2]));
    ByteInjective(ByteStep(ByteStep(p)), ByteStep(ByteStep(q)));
    ByteInjective(ByteStep(p), ByteStep(q));
    ByteInjective(p, q);
    PlusCancel(x, Triple(s[0], s[1], s[2]), Triple(t[0], t[1], t[2]));
    TripleParts(s[0], s[1], s[2]);
    TripleParts(t[0], t[1], t[2]);
  }

  lemma FeedOf3(x: Register, s: seq<bv8>)
    requires |s| == 3
    ensures Feed(x, s) == Next(Next(Next(x, s[0]), s[1]), s[2])
  {
    hide Next;
    var u, v := s[..2], s[..2][..1];
    assert u[1] == s[1] && v[0] == s[0] && v[..0] == [];
    assert Feed(x, v) == Next(x, s[0]);
    assert Feed(x, u) == Next(Feed(x, v), s[1]);
  }

  /** The three checksum bytes, highest first. */
  function Checksum(x: Register): seq<bv8> {
    [(x.bits >> 16) as bv8, ((x.bits >> 8) & 0xFF) as bv8, (x.bits & 0xFF) as bv8]
  }

  lemma TripleParts(a: bv8, b: bv8, c: bv8)
    ensures Checksum(Triple(a, b, c)) == [a, b, c]
  {
  }

  lemma ChecksumParts(x: Register)
    ensures var c := Checksum(x); Triple(c[0], c[1], c[2]) == x
  {
  }

  /** Two messages of one length that agree outside three consecutive bytes and have one CRC are equal. */
  lemma BurstDetected(m: seq<bv8>, n: seq<bv8>, k: nat)
    requires |m| == |n| && (forall i :: 0 <= i < |m| && !(k <= i < k + 3) ==> m[i] == n[i])
    requires Crc(m) == Crc(n)
    ensures m == n
    decreases if k + 3 <= |m| then 0 else 1
  {
    hide Feed;
    if k + 3 <= |m| {
      var x := Feed(ZERO, m[..k]);
      assert m[..k] == n[..k] && m[k+3..] == n[k+3..];
      Windows(m, k);
      Windows(n, k);
      FeedInjective(Feed(x, m[k..k+3]), Feed(x, n[k..k+3]), m[k+3..]);
      TripleInjective(x, m[k..k+3], n[k..k+3]);
      assert m == m[..k] + m[k..k+3] + m[k+3..] && n == n[..k] + n[k..k+3] + n[k+3..];
    } else if k <= |m| {
      var pad: seq<bv8> := [0, 0, 0];
      FeedSplit(ZERO, m, pad);
      FeedSplit(ZERO, n, pad);
      BurstDetected(m + pad, n + pad, k);
      assert m == (m + pad)[..|m|] && n == (n + pad)[..|n|];
    }
  }

  lemma Windows(m: seq<bv8>, k: nat)
    requires k + 3 <= |m|
    ensures Crc(m) == Feed(Feed(Feed(ZERO, m[..k]), m[k..k+3]), m[k+3..])
  {
    hide Feed;
    FeedSplit(ZERO, m[..k], m[k..k+3]);
    FeedSplit(ZERO, m[..k] + m[k..k+3], m[k+3..]);
    assert m == m[..k] + m[k..k+3] + m[k+3..];
  }

  /** A message and three bytes have CRC zero exactly when the bytes are the message's checksum. */
  lemma ChecksumExact(m: seq<bv8>, t: seq<bv8>)
    requires |t| == 3
    ensures Crc(m + t) == ZERO <==> t == Checksum(Crc(m))
  {
    hide Feed, Next, ByteStep, Plus, Triple, Checksum;
    var x := Crc(m);
    FeedSplit(ZERO, m, t);
    ChecksumLength(x);
    var c := Checksum(x);
    FeedOf3(x, c);
    Feed3(x, c[0], c[1], c[2]);
    ChecksumParts(x);
    PlusSelf(x);
    PlaceUp(0);
    if Feed(x, t) == Feed(x, c) { TripleInjective(x, t, c); }
  }

  lemma ChecksumLength(x: Register)
    ensures |Checksum(x)| == 3
  {
  }
}
