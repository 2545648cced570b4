/** Fixed-width integers as hexadecimal text. */
module HexText {
  import opened Words
  import opened Bytes
  import opened Limbs
  import opened BigUint

  type nibble = x: int | 0 <= x < 16

  // ----- digits

  function HexLetter(d: nibble): char {
    "0123456789abcdef"[d]
  }

  predicate IsHex(c: char) { '0' <= c <= '9' || 'a' <= c <= 'f' || 'A' <= c <= 'F' }

  /** The digit table: anything that is no digit has value zero. */
  function HexDigit(c: char): nibble {
    if '0' <= c <= '9' then c as int - '0' as int
    else if 'a' <= c <= 'f' then c as int - 'a' as int + 10
    else if 'A' <= c <= 'F' then c as int - 'A' as int + 10
    else 0
  }

  lemma LetterDigit(d: nibble)
    ensures IsHex(HexLetter(d)) && HexDigit(HexLetter(d)) == d && HexLetter(d) != 'x' && HexLetter(d) != 'X'
  {
  }

  /** The letters are 0 to 9 and a to f in order, and capitals count as small ones. */
  lemma HexAlphabet(d: nibble)
    ensures HexLetter(d) as int == if d < 10 then 48 + d else 87 + d
    ensures d >= 10 ==> HexDigit((55 + d) as char) == d
  {
  }

  predicate IsSpace(c: char) { c == ' ' || '\t' <= c <= '\r' }

  /** The number a run of digits denotes, highest first. */
  function HexNum(s: string): nat {
    if s == [] then 0 else 16 * HexNum(s[..|s|-1]) + HexDigit(s[|s|-1])
  }

  lemma {:induction false} HexSplit(s: string, c: nat)
    requires c <= |s|
    ensures HexNum(s) == Pow2(4 * c) * HexNum(s[..|s|-c]) + HexNum(s[|s|-c..])
    decreases c
  {
    hide Pow2, HexDigit;
    if c == 0 {
      assert s[..|s|] == s && s[|s|..] == [];
      Pow2Zero();
    } else {
      var n := |s| - 1;
      HexSplit(s[..n], c - 1);
      assert s[..n][..n-(c-1)] == s[..|s|-c] && s[..n][n-(c-1)..] == s[|s|-c..][..c-1];
      Pow2Nibble(c - 1);
      HexGather(Pow2(4 * (c - 1)), HexNum(s[..|s|-c]), HexNum(s[|s|-c..][..c-1]), HexDigit(s[n]));
    }
  }

  lemma Pow2Nibble(c: nat)
    ensures Pow2(4 * (c + 1)) == 16 * Pow2(4 * c)
  {
    hide Pow2;
    Pow2Four();
    Pow2Add(4, 4 * c);
  }

  lemma Pow2Four()
    ensures Pow2(4) == 16
  {
  }

  lemma HexGather(p: int, f: int, t: int, d: int)
    ensures 16 * (p * f + t) + d == (16 * p) * f + (16 * t + d)
  {
    assert 16 * (p * f) == (16 * p) * f;
  }

  // ----- bytes

  lemma {:induction false} EndianJoin(u: seq<byte>, v: seq<byte>)
    ensures LittleEndian(u + v) == LittleEndian(u) + Pow2(8 * |u|) * LittleEndian(v)
  {
    hide Pow2;
    if u == [] {
      assert u + v == v;
      Pow2Zero();
    } else {
      EndianJoin(u[1..], v);
      assert (u + v)[1..] == u[1..] + v;
      Pow2Bytes(|u| - 1);
      Scale256(u[0], LittleEndian(u[1..]), Pow2(8 * (|u| - 1)), LittleEndian(v));
    }
  }

  lemma Scale256(b: int, t: int, p: int, v: int)
    ensures b + 256 * (t + p * v) == b + 256 * t + (256 * p) * v
  {
    assert 256 * (p * v) == (256 * p) * v;
  }

  lemma {:induction false} EndianZeros(s: seq<byte>)
    requires forall i :: 0 <= i < |s| ==> s[i] == 0
    ensures LittleEndian(s) == 0
  {
    if s != [] { EndianZeros(s[1..]); }
  }

  /** The memory of the limbs, byte by byte. */
  function Memory(s: seq<limb>): (r: seq<byte>)
    ensures |r| == 4 * |s|
  {
    if s == [] then [] else Memory(s[..|s|-1]) + ToBytes(s[|s|-1], 4)
  }

  lemma {:induction false} MemoryNum(s: seq<limb>)
    ensures LittleEndian(Memory(s)) == Num(s)
  {
    hide Pow2, ToBytes;
    if s != [] {
      var n := |s| - 1;
      MemoryNum(s[..n]);
      EndianJoin(Memory(s[..n]), ToBytes(s[n], 4));
      LimbBytes(s[n]);
      assert 8 * (4 * n) == 32 * n;
      assert Pow2(32 * n) * s[n] == s[n] * Power(n);
    }
  }

  lemma LimbBytes(x: limb)
    ensures LittleEndian(ToBytes(x, 4)) == x
  {
    hide Pow2;
    PowerStep(0);
    ToBytesBack(x, 4);
  }

  // ----- writing

  /** The text of a number of n bytes, highest first. */
  function TextOf(b: seq<byte>): string {
    if b == [] then [] else TextOf(b[1..]) + [HexLetter(b[0] / 16), HexLetter(b[0] % 16)]
  }

  lemma {:induction false} TextOfNum(b: seq<byte>)
    ensures |TextOf(b)| == 2 * |b| && HexNum(TextOf(b)) == LittleEndian(b)
  {
    hide HexLetter, HexDigit;
    if b != [] {
      TextOfNum(b[1..]);
      HexTwoMore(TextOf(b[1..]), b[0] / 16, b[0] % 16);
    }
  }

  lemma HexTwoMore(t: string, hi: nibble, lo: nibble)
    ensures HexNum(t + [HexLetter(hi), HexLetter(lo)]) == 256 * HexNum(t) + 16 * hi + lo
  {
    hide HexLetter, HexDigit;
    var s := t + [HexLetter(hi), HexLetter(lo)];
    LetterDigit(hi);
    LetterDigit(lo);
    assert s[..|s|-1] == t + [HexLetter(hi)] && (t + [HexLetter(hi)])[..|t|] == t;
  }

  predicate Plain(c: char) { IsHex(c) && c != 'x' && c != 'X' }

  lemma {:induction false} TextOfPlain(b: seq<byte>)
    ensures forall i :: 0 <= i < |TextOf(b)| ==> Plain(TextOf(b)[i])
  {
    hide HexLetter, HexDigit, IsHex;
    if b != [] {
      TextOfPlain(b[1..]);
      LetterDigit(b[0] / 16);
      LetterDigit(b[0] % 16);
    }
  }

  method GetHex(u: BaseUint) returns (s: string)
    requires u.Valid()
    ensures |s| == 8 * u.pn.Length && HexNum(s) == u.Value()
    ensures forall i :: 0 <= i < |s| ==> Plain(s[i])
  {
    hide HexLetter, HexDigit, Plain, Num, HexNum;
    var memory := Memory(u.pn[..]);
    s := "";
    var n := |memory|;
    assert memory[n..] == [];
    for i := 0 to n
      invariant s == TextOf(memory[n-i..])
    {
      var b := memory[n - i - 1];
      assert memory[n-i-1..][1..] == memory[n-i..];
      s := s + [HexLetter(b / 16), HexLetter(b % 16)];
    }
    assert memory[n-n..] == memory;
    TextOfNum(memory);
    TextOfPlain(memory);
    MemoryNum(u.pn[..]);
  }

  // ----- reading

  /** A C string: past its end there is the terminator. */
  function At(s: string, i: nat): char { if i < |s| then s[i] else '\0' }

  function SkipSpaces(s: string, i: nat): (r: nat)
    requires i <= |s|
    ensures i <= r <= |s|
    decreases |s| - i
  {
    if i < |s| && IsSpace(s[i]) then SkipSpaces(s, i + 1) else i
  }

  /** Where the digits begin. */
  function DigitsStart(s: string): (r: nat)
    ensures r <= |s|
  {
    var i := SkipSpaces(s, 0);
    if At(s, i) == '0' && (At(s, i + 1) == 'x' || At(s, i + 1) == 'X') then i + 2 else i
  }

  /** Where they end. */
  function DigitsEnd(s: string, i: nat): (r: nat)
    requires i <= |s|
    ensures i <= r <= |s|
    decreases |s| - i
  {
    if i < |s| && IsHex(s[i]) then DigitsEnd(s, i + 1) else i
  }

  function DigitsOf(s: string): string {
    s[DigitsStart(s)..DigitsEnd(s, DigitsStart(s))]
  }

  /** What is read: the digits behind blanks and a prefix, up to the first character that is none. */
  lemma DigitsFound(blanks: string, prefix: string, digits: string, rest: string)
    requires forall i :: 0 <= i < |blanks| ==> blanks[i] in [' ', '\t', '\n', 11 as char, 12 as char, '\r']
    requires prefix in ["", "0x", "0X"]
    requires forall i :: 0 <= i < |digits| ==> IsHex(digits[i])
    requires rest != "" ==> !IsHex(rest[0])
    requires prefix == "" ==> digits != "" && (|digits| == 1 && rest != "" ==> rest[0] !in ['x', 'X'])
    ensures DigitsOf(blanks + prefix + digits + rest) == digits
  {
    var s := blanks + prefix + digits + rest;
    var i := |blanks| + |prefix|;
    BlanksSkipped(s, |blanks|, 0);
    assert DigitsStart(s) == i;
    DigitsRun(s, i, i + |digits|);
    assert s[i..i+|digits|] == digits;
  }

  lemma {:induction false} BlanksSkipped(s: string, n: nat, i: nat)
    requires i <= n <= |s| && (forall j :: i <= j < n ==> IsSpace(s[j])) && (n < |s| ==> !IsSpace(s[n]))
    ensures SkipSpaces(s, i) == n
    decreases n - i
  {
    if i < n { BlanksSkipped(s, n, i + 1); }
  }

  lemma {:induction false} DigitsRun(s: string, i: nat, n: nat)
    requires i <= n <= |s| && (forall j :: i <= j < n ==> IsHex(s[j])) && (n < |s| ==> !IsHex(s[n]))
    ensures DigitsEnd(s, i) == n
    decreases n - i
  {
    if i < n { DigitsRun(s, i + 1, n); }
  }

  /** Write the digits into bytes from the last one on, two to a byte, as far as there is room. */
  method Fill(digits: string, size: nat) returns (bytes: seq<byte>)
    ensures |bytes| == size && LittleEndian(bytes) == HexNum(digits) % Pow2(8 * size)
  {
    hide Pow2, HexDigit, LittleEndian, HexNum, OrBits;
    bytes := seq(size, _ => 0);
    var left, p := |digits|, 0;
    FillStart(digits, bytes);
    while left > 0 && p < size
      invariant 0 <= left <= |digits| && 0 <= p <= size == |bytes|
      invariant forall i :: p <= i < size ==> bytes[i] == 0
      invariant left == |digits| - 2 * p
      invariant LittleEndian(bytes[..p]) == HexNum(digits[left..])
      decreases left
    {
      ghost var done := bytes[..p];
      var low: int := HexDigit(digits[left - 1]);
      left := left - 1;
      bytes := bytes[p := low];
      if left > 0 {
        var high: int := HexDigit(digits[left - 1]);
        NibbleOr(low, high);
        left := left - 1;
        bytes := bytes[p := OrBits(low, high * 16, 8)];
        p := p + 1;
        assert bytes[..p] == done + [low + 16 * high];
        PairStep(digits, left, done, low, high);
      } else {
        OddStep(digits, done, low);
        assert bytes[..p+1] == done + [low];
        FillEnd(bytes, p + 1, digits, 0);
        return;
      }
    }
    FillEnd(bytes, p, digits, left);
  }

  lemma FillStart(digits: string, bytes: seq<byte>)
    ensures LittleEndian(bytes[..0]) == HexNum(digits[|digits|..])
  {
    assert bytes[..0] == [] && digits[|digits|..] == [];
  }

  lemma NibbleOr(low: nibble, high: nibble)
    ensures OrBits(low, high * 16, 8) == low + 16 * high < 256
  {
    hide OrBits, Pow2;
    Pow2Four();
    OrDisjointBits(low, high, 4, 8);
  }

  lemma HexOne(c: char)
    ensures HexNum([c]) == HexDigit(c)
  {
    assert [c][..0] == [];
  }

  /** Two more digits are one more byte. */
  lemma PairStep(digits: string, left: nat, done: seq<byte>, low: nibble, high: nibble)
    requires left + 2 <= |digits| && low == HexDigit(digits[left+1]) && high == HexDigit(digits[left])
    requires 2 * |done| == |digits| - left - 2 && LittleEndian(done) == HexNum(digits[left+2..])
    ensures LittleEndian(done + [low + 16 * high]) == HexNum(digits[left..])
  {
    hide Pow2, HexDigit;
    var c, tail := 2 * |done|, digits[left..];
    EndianJoin(done, [low + 16 * high]);
    EndianOne(low + 16 * high);
    HexSplit(tail, c);
    assert tail[|tail|-c..] == digits[left+2..];
    var two := tail[..|tail|-c];
    assert two == [digits[left], digits[left+1]] && two[..1] == [digits[left]];
    HexOne(digits[left]);
    assert 4 * c == 8 * |done|;
  }

  lemma EndianOne(b: byte)
    ensures LittleEndian([b]) == b
  {
    assert [b][1..] == [];
  }

  lemma OddStep(digits: string, done: seq<byte>, low: nibble)
    requires digits != [] && low == HexDigit(digits[0]) && 2 * |done| == |digits| - 1
    requires LittleEndian(done) == HexNum(digits[1..])
    ensures LittleEndian(done + [low]) == HexNum(digits[0..])
  {
    hide Pow2, HexDigit;
    var c := 2 * |done|;
    EndianJoin(done, [low]);
    EndianOne(low);
    HexSplit(digits, c);
    assert digits[|digits|-c..] == digits[1..] && digits[..|digits|-c] == [digits[0]] && digits[0..] == digits;
    HexOne(digits[0]);
    assert 4 * c == 8 * |done|;
  }

  lemma ZerosAbove(bytes: seq<byte>, p: nat)
    requires p <= |bytes| && forall i :: p <= i < |bytes| ==> bytes[i] == 0
    ensures LittleEndian(bytes) == LittleEndian(bytes[..p])
  {
    hide Pow2, LittleEndian;
    assert bytes == bytes[..p] + bytes[p..];
    EndianJoin(bytes[..p], bytes[p..]);
    EndianZeros(bytes[p..]);
  }

  /** Digits without room are dropped from the top: the rest is the remainder. */
  lemma FillEnd(bytes: seq<byte>, p: nat, digits: string, left: nat)
    requires p <= |bytes| && left <= |digits| && (forall i :: p <= i < |bytes| ==> bytes[i] == 0)
    requires LittleEndian(bytes[..p]) == HexNum(digits[left..])
    requires left > 0 ==> p == |bytes| && |digits| - left == 2 * p
    ensures LittleEndian(bytes) == HexNum(digits) % Pow2(8 * |bytes|)
  {
    hide Pow2, HexDigit, LittleEndian, HexNum;
    ZerosAbove(bytes, p);
    FromBytesBack(bytes);
    var m := Pow2(8 * |bytes|);
    if left == 0 {
      assert digits[0..] == digits;
      Remainder(LittleEndian(bytes), 0, m, HexNum(digits));
    } else {
      HexSplit(digits, 2 * p);
      assert 4 * (2 * p) == 8 * p;
      Remainder(LittleEndian(bytes), HexNum(digits[..left]), m, HexNum(digits));
    }
  }

  /** The limbs over some memory. */
  method Overlay(u: BaseUint, bytes: seq<byte>)
    requires u.Valid() && |bytes| == 4 * u.pn.Length
    modifies u.pn
    ensures u.Value() == LittleEndian(bytes)
  {
    hide LittleEndian, Num, Pow2;
    for i := 0 to u.pn.Length
      invariant Memory(u.pn[..i]) == bytes[..4*i]
    {
      ghost var done := u.pn[..i];
      var b := bytes[4*i..4*i+4];
      FourBytes(b);
      u.pn[i] := LittleEndian(b);
      assert u.pn[..i+1] == done + [u.pn[i]];
      MemoryStep(done, u.pn[i]);
      assert bytes[..4*(i+1)] == bytes[..4*i] + b;
    }
    assert u.pn[..u.pn.Length] == u.pn[..] && bytes[..4*u.pn.Length] == bytes;
    MemoryNum(u.pn[..]);
  }

  lemma FourBytes(b: seq<byte>)
    requires |b| == 4
    ensures LittleEndian(b) < BASE && ToBytes(LittleEndian(b), 4) == b
  {
    hide Pow2;
    PowerStep(0);
    FromBytesBack(b);
  }

  lemma MemoryStep(s: seq<limb>, x: limb)
    ensures Memory(s + [x]) == Memory(s) + ToBytes(x, 4)
  {
    hide ToBytes;
    assert (s + [x])[..|s|] == s;
  }

  /** Reads the digits after leading spaces and 0x, keeps as many low ones as fit, and returns how far it read. */
  method SetHex(u: BaseUint, psz: string) returns (len: nat)
    requires u.Valid()
    modifies u.pn
    ensures u.Value() == HexNum(DigitsOf(psz)) % u.Modulus()
    ensures len == DigitsEnd(psz, DigitsStart(psz))
  {
    hide HexNum, LittleEndian, Num, Pow2, IsHex;
    var i: nat := 0;
    while IsSpace(At(psz, i))
      invariant i <= |psz| && SkipSpaces(psz, i) == SkipSpaces(psz, 0)
      decreases |psz| - i
    {
      i := i + 1;
    }
    if At(psz, i) == '0' && (At(psz, i + 1) == 'x' || At(psz, i + 1) == 'X') {
      i := i + 2;
    }
    assert i == DigitsStart(psz);
    var begin := i;
    while i < |psz| && IsHex(psz[i])
      invariant begin <= i <= |psz| && DigitsEnd(psz, i) == DigitsEnd(psz, begin)
    {
      i := i + 1;
    }
    len := i;
    var bytes := Fill(psz[begin..i], 4 * u.pn.Length);
    Overlay(u, bytes);
    assert 8 * (4 * u.pn.Length) == 32 * u.pn.Length;
  }

  // ----- the round trip

  lemma {:induction false} AllDigits(s: string, i: nat)
    requires i <= |s| && forall j :: 0 <= j < |s| ==> IsHex(s[j])
    ensures DigitsEnd(s, i) == |s|
    decreases |s| - i
  {
    hide IsHex;
    if i < |s| { AllDigits(s, i + 1); }
  }

  lemma DigitsAreAll(s: string)
    requires forall j :: 0 <= j < |s| ==> Plain(s[j])
    ensures DigitsStart(s) == 0 && DigitsOf(s) == s && DigitsEnd(s, 0) == |s|
  {
    AllDigits(s, 0);
    assert SkipSpaces(s, 0) == 0;
    assert s[0..|s|] == s;
  }

  /** Reading the text of a number into any number of the same width gives that number, and reads all of it. */
  method HexRoundTrip(u: BaseUint, v: BaseUint) returns (len: nat)
    requires u.Valid() && v.Valid() && u.pn.Length == v.pn.Length
    modifies v.pn
    ensures v.Value() == old(u.Value()) && len == 8 * u.pn.Length
  {
    hide HexNum, Num, Plain, Power;
    ghost var value := u.Value();
    NumBound(u.pn[..]);
    var s := GetHex(u);
    DigitsAreAll(s);
    len := SetHex(v, s);
    Remainder(value, 0, u.Modulus(), value);
  }
}
