/** Base32 text of 32 bytes and their checksum. */
module Base32 {
  import opened Words
  import opened Crc24q

  // ----- letters

  function Letter0(v: bv8): char {
    if v == 0 then '0' else if v == 1 then '1' else if v == 2 then '2' else if v == 3 then '3'
    else if v == 4 then '4' else if v == 5 then '5' else if v == 6 then '6' else '7'
  }

  function Letter1(v: bv8): char {
    if v == 8 then '8' else if v == 9 then '9' else if v == 10 then 'a' else if v == 11 then 'b'
    else if v == 12 then 'c' else if v == 13 then 'd' else if v == 14 then 'e' else 'f'
  }

  function Letter2(v: bv8): char {
    if v == 16 then 'g' else if v == 17 then 'h' else if v == 18 then 'j' else if v == 19 then 'k'
    else if v == 20 then 'm' else if v == 21 then 'n' else if v == 22 then 'p' else 'q'
  }

  function Letter3(v: bv8): char {
    if v == 24 then 'r' else if v == 25 then 's' else if v == 26 then 't' else if v == 27 then 'v'
    else if v == 28 then 'w' else if v == 29 then 'x' else if v == 30 then 'y' else 'z'
  }

  /** The letter of a value below 32. */
  function Letter(v: bv8): char {
    if v < 8 then Letter0(v) else if v < 16 then Letter1(v) else if v < 24 then Letter2(v) else Letter3(v)
  }

  function DecimalDigit(c: char): bv8 {
    if c == '0' then 0 else if c == '1' then 1 else if c == '2' then 2 else if c == '3' then 3 else if c == '4' then 4
    else if c == '5' then 5 else if c == '6' then 6 else if c == '7' then 7 else if c == '8' then 8
    else if c == '9' then 9 else 0xFF
  }

  function UpperDigit(c: char): bv8 {
    if c == 'A' then 10 else if c == 'B' then 11 else if c == 'C' then 12 else if c == 'D' then 13
    else if c == 'E' then 14
    else if c == 'F' then 15 else if c == 'G' then 16 else if c == 'H' then 17 else if c == 'J' then 18
    else if c == 'K' then 19
    else if c == 'M' then 20 else if c == 'N' then 21 else if c == 'P' then 22 else if c == 'Q' then 23
    else if c == 'R' then 24
    else if c == 'S' then 25 else if c == 'T' then 26 else if c == 'V' then 27 else if c == 'W' then 28
    else if c == 'X' then 29
    else if c == 'Y' then 30 else if c == 'Z' then 31 else 0xFF
  }

  function LowerDigit(c: char): bv8 {
    if c == 'a' then 10 else if c == 'b' then 11 else if c == 'c' then 12 else if c == 'd' then 13
    else if c == 'e' then 14
    else if c == 'f' then 15 else if c == 'g' then 16 else if c == 'h' then 17 else if c == 'j' then 18
    else if c == 'k' then 19
    else if c == 'm' then 20 else if c == 'n' then 21 else if c == 'p' then 22 else if c == 'q' then 23
    else if c == 'r' then 24
    else if c == 's' then 25 else if c == 't' then 26 else if c == 'v' then 27 else if c == 'w' then 28
    else if c == 'x' then 29
    else if c == 'y' then 30 else if c == 'z' then 31 else 0xFF
  }

  /** The table of letters, either case; anything else is -1. */
  function Digit(c: char): bv8 {
    if c < 'A' then DecimalDigit(c) else if c < 'a' then UpperDigit(c) else LowerDigit(c)
  }

  /** The value a character decodes as: one that is no letter of the alphabet counts as a z. */
  function Value(c: char): bv8 { if Digit(c) == 0xFF then 31 else Digit(c) }

  lemma Letters0(v: bv8)
    requires v <= 7
    ensures Digit(Letter(v)) == v
  {
  }

  lemma Letters1(v: bv8)
    requires 8 <= v <= 15
    ensures Digit(Letter(v)) == v
  {
  }

  lemma Letters2(v: bv8)
    requires 16 <= v <= 23
    ensures Digit(Letter(v)) == v
  {
  }

  lemma Letters3(v: bv8)
    requires 24 <= v <= 31
    ensures Digit(Letter(v)) == v
  {
  }

  lemma DigitOfLetter(v: bv8)
    requires v < 32
    ensures Digit(Letter(v)) == v == Value(Letter(v))
  {
    hide Digit, Letter;
    if v <= 7 { Letters0(v); } else if v <= 15 { Letters1(v); } else if v <= 23 { Letters2(v); } else { Letters3(v); }
  }

  lemma ValueRange(c: char)
    ensures Value(c) < 32
  {
  }

  const ALPHABET := "0123456789abcdefghjkmnpqrstvwxyz"

  /** The letters are the digits and the small letters without i, l, o and u, in order. */
  lemma LetterIs(v: bv8)
    requires v < 32
    ensures Letter(v) == ALPHABET[v as int]
  {
  }

  /** A capital letter counts as the small one. */
  lemma CapitalSame(c: char)
    requires 'A' <= c <= 'Z'
    ensures Digit(c) == Digit((c as int + 32) as char)
  {
    if c <= 'M' { EarlyCapital(c); } else { LateCapital(c); }
  }

  lemma EarlyCapital(c: char)
    requires 'A' <= c <= 'M'
    ensures Digit(c) == Digit((c as int + 32) as char)
  {
  }

  lemma LateCapital(c: char)
    requires 'N' <= c <= 'Z'
    ensures Digit(c) == Digit((c as int + 32) as char)
  {
  }

  // ----- groups of five bytes and eight values

  function Digits5(b: seq<bv8>): (r: seq<bv8>)
    requires |b| == 5
    ensures |r| == 8
  {
    [(b[0] >> 3) & 0x1F,
     ((b[0] << 2) & 0x1C) | ((b[1] >> 6) & 0x03),
     (b[1] >> 1) & 0x1F,
     ((b[1] << 4) & 0x10) | ((b[2] >> 4) & 0x0F),
     ((b[2] << 1) & 0x1E) | ((b[3] >> 7) & 0x01),
     (b[3] >> 2) & 0x1F,
     ((b[3] << 3) & 0x18) | ((b[4] >> 5) & 0x07),
     b[4] & 0x1F]
  }

  /** The number five bytes or eight values denote, highest first. */
  function Number5(b: seq<bv8>): bv40
    requires |b| == 5
  {
    ((b[0] as bv40) << 32) | ((b[1] as bv40) << 24) | ((b[2] as bv40) << 16) | ((b[3] as bv40) << 8) | (b[4] as bv40)
  }

  function Number8(d: seq<bv8>): bv40
    requires |d| == 8
  {
    ((d[0] as bv40) << 35) | ((d[1] as bv40) << 30) | ((d[2] as bv40) << 25) | ((d[3] as bv40) << 20)
    | ((d[4] as bv40) << 15) | ((d[5] as bv40) << 10) | ((d[6] as bv40) << 5) | (d[7] as bv40)
  }

  /** Both denote the same number, so the values are the bytes' bits in order. */
  lemma SameNumber(b: seq<bv8>)
    requires |b| == 5
    ensures Number8(Digits5(b)) == Number5(b)
  {
  }

  function Bytes5(i: seq<bv8>): (r: seq<bv8>)
    requires |i| == 8
    ensures |r| == 5
  {
    [Byte0(i[0], i[1]), Byte1(i[1], i[2], i[3]), Byte2(i[3], i[4]), Byte3(i[4], i[5], i[6]), Byte4(i[6], i[7])]
  }

  function Byte0(a: bv8, b: bv8): bv8 { ((a << 3) & 0xF8) | ((b >> 2) & 0x07) }

  function Byte1(b: bv8, c: bv8, d: bv8): bv8 { ((b << 6) & 0xC0) | ((c << 1) & 0x3E) | ((d >> 4) & 0x01) }

  function Byte2(d: bv8, e: bv8): bv8 { ((d << 4) & 0xF0) | ((e >> 1) & 0x0F) }

  function Byte3(e: bv8, f: bv8, g: bv8): bv8 { ((e << 7) & 0x80) | ((f << 2) & 0x7C) | ((g >> 3) & 0x03) }

  function Byte4(g: bv8, h: bv8): bv8 { ((g << 5) & 0xE0) | (h & 0x1F) }

  lemma BytesBack(a: bv8, b: bv8, c: bv8, d: bv8, e: bv8)
    ensures Bytes5(Digits5([a, b, c, d, e])) == [a, b, c, d, e]
  {
  }

  lemma DigitsBack(i: seq<bv8>)
    requires |i| == 8 && forall j :: 0 <= j < 8 ==> i[j] < 32
    ensures Digits5(Bytes5(i)) == i
  {
    hide Digits5, Bytes5;
    assert i == [i[0], i[1], i[2], i[3], i[4], i[5], i[6], i[7]];
    DigitsBackBits(i[0], i[1], i[2], i[3], i[4], i[5], i[6], i[7]);
  }

  lemma DigitsBackBits(a: bv8, b: bv8, c: bv8, d: bv8, e: bv8, f: bv8, g: bv8, h: bv8)
    requires a < 32 && b < 32 && c < 32 && d < 32 && e < 32 && f < 32 && g < 32 && h < 32
    ensures Digits5(Bytes5([a, b, c, d, e, f, g, h])) == [a, b, c, d, e, f, g, h]
  {
  }

  lemma DigitRange(b: seq<bv8>, j: nat)
    requires |b| == 5 && j < 8
    ensures Digits5(b)[j] < 32
  {
  }

  /** Only the five low bits of a digit matter, so -1 acts as 31. */
  lemma LowFive(a: bv8, b: bv8, c: bv8, d: bv8, e: bv8, f: bv8, g: bv8, h: bv8)
    ensures Bytes5([a, b, c, d, e, f, g, h])
         == Bytes5([a & 0x1F, b & 0x1F, c & 0x1F, d & 0x1F, e & 0x1F, f & 0x1F, g & 0x1F, h & 0x1F])
  {
  }

  lemma ValueOfDigit(c: char)
    ensures Digit(c) & 0x1F == Value(c)
  {
    hide Digit;
    DigitCases(c);
    if Digit(c) < 32 { LowFiveSame(Digit(c)); }
  }

  lemma DigitCases(c: char)
    ensures Digit(c) < 32 || Digit(c) == 0xFF
  {
  }

  lemma LowFiveSame(v: bv8)
    requires v < 32
    ensures v & 0x1F == v
  {
  }

  // ----- texts

  function Place(g: nat, j: nat): nat { 8 * g + j }

  /** The digits, and the values, of group g. */
  function GroupDigits(s: string, g: nat): (r: seq<bv8>)
    requires Place(g, 8) <= |s|
    ensures |r| == 8
  {
    [Digit(s[Place(g, 0)]), Digit(s[Place(g, 1)]), Digit(s[Place(g, 2)]), Digit(s[Place(g, 3)]),
     Digit(s[Place(g, 4)]), Digit(s[Place(g, 5)]), Digit(s[Place(g, 6)]), Digit(s[Place(g, 7)])]
  }

  function GroupValues(s: string, g: nat): (r: seq<bv8>)
    requires Place(g, 8) <= |s|
    ensures |r| == 8
  {
    [Value(s[Place(g, 0)]), Value(s[Place(g, 1)]), Value(s[Place(g, 2)]), Value(s[Place(g, 3)]),
     Value(s[Place(g, 4)]), Value(s[Place(g, 5)]), Value(s[Place(g, 6)]), Value(s[Place(g, 7)])]
  }

  lemma GroupValuesDecode(s: string, g: nat)
    requires Place(g, 8) <= |s|
    ensures Bytes5(GroupDigits(s, g)) == Bytes5(GroupValues(s, g))
  {
    hide Bytes5, Digit, Value;
    var d := GroupDigits(s, g);
    LowFive(d[0], d[1], d[2], d[3], d[4], d[5], d[6], d[7]);
    ValueOfDigit(s[Place(g, 0)]);
    ValueOfDigit(s[Place(g, 1)]);
    ValueOfDigit(s[Place(g, 2)]);
    ValueOfDigit(s[Place(g, 3)]);
    ValueOfDigit(s[Place(g, 4)]);
    ValueOfDigit(s[Place(g, 5)]);
    ValueOfDigit(s[Place(g, 6)]);
    ValueOfDigit(s[Place(g, 7)]);
  }

  /** The bytes of the first n groups. */
  function Decoded(s: string, n: nat): (r: seq<bv8>)
    requires 8 * n <= |s|
    ensures |r| == 5 * n
  {
    seq(5 * n, q requires 0 <= q < 5 * n => Bytes5(GroupDigits(s, q / 5))[q % 5])
  }

  function Slice5(b: seq<bv8>, g: nat): (r: seq<bv8>)
    requires 5 * g + 5 <= |b|
    ensures |r| == 5
  {
    [b[5 * g], b[5 * g + 1], b[5 * g + 2], b[5 * g + 3], b[5 * g + 4]]
  }

  /** The letters of the first n groups. */
  function Text(b: seq<bv8>, n: nat): (s: string)
    requires 5 * n <= |b|
    ensures |s| == 8 * n
  {
    seq(8 * n, p requires 0 <= p < 8 * n => Letter(Digits5(Slice5(b, p / 8))[p % 8]))
  }

  /** The text in the letters that encoding uses. */
  function Normal(s: string): (r: string)
    ensures |r| == |s|
  {
    seq(|s|, i requires 0 <= i < |s| => Letter(Value(s[i])))
  }

  lemma TextGroup(b: seq<bv8>, n: nat, g: nat)
    requires 5 * n <= |b| && g < n
    ensures GroupDigits(Text(b, n), g) == Digits5(Slice5(b, g))
  {
    hide Digits5, Digit, Letter;
    var s, v := Text(b, n), Digits5(Slice5(b, g));
    forall j | 0 <= j < 8 ensures Digit(s[Place(g, j)]) == v[j] {
      assert Place(g, j) / 8 == g && Place(g, j) % 8 == j;
      DigitRange(Slice5(b, g), j);
      DigitOfLetter(v[j]);
    }
  }

  /** Decoding undoes encoding. */
  lemma DecodedText(b: seq<bv8>, n: nat)
    requires |b| == 5 * n
    ensures Decoded(Text(b, n), n) == b
  {
    hide Digits5, Bytes5, Text, GroupDigits;
    forall q | 0 <= q < 5 * n ensures Decoded(Text(b, n), n)[q] == b[q] {
      var g := q / 5;
      TextGroup(b, n, g);
      BytesBack(b[5 * g], b[5 * g + 1], b[5 * g + 2], b[5 * g + 3], b[5 * g + 4]);
      assert Slice5(b, g)[q % 5] == b[q];
    }
  }

  lemma DecodedSlice(s: string, n: nat, g: nat)
    requires 8 * n <= |s| && g < n
    ensures Slice5(Decoded(s, n), g) == Bytes5(GroupDigits(s, g))
  {
    hide Bytes5, GroupDigits;
    var r, b := Decoded(s, n), Bytes5(GroupDigits(s, g));
    forall t | 0 <= t < 5 ensures r[5 * g + t] == b[t] {
      assert (5 * g + t) / 5 == g && (5 * g + t) % 5 == t;
    }
  }

  /** Encoding what was decoded gives the text back, in normal letters. */
  lemma TextDecoded(s: string, n: nat)
    requires |s| == 8 * n
    ensures Text(Decoded(s, n), n) == Normal(s)
  {
    hide Digits5, Bytes5, Decoded, GroupDigits, Letter, Value;
    var b := Decoded(s, n);
    forall p | 0 <= p < 8 * n ensures Text(b, n)[p] == Normal(s)[p] {
      var g, j := p / 8, p % 8;
      DecodedSlice(s, n, g);
      GroupValuesDecode(s, g);
      GroupValueAt(s, g, j);
      ValuesBack(s, g);
    }
  }

  lemma GroupValueAt(s: string, g: nat, j: nat)
    requires Place(g, 8) <= |s| && j < 8
    ensures GroupValues(s, g)[j] == Value(s[Place(g, j)])
  {
    hide Value;
  }

  lemma ValuesBack(s: string, g: nat)
    requires Place(g, 8) <= |s|
    ensures Digits5(Bytes5(GroupValues(s, g))) == GroupValues(s, g)
  {
    hide Digits5, Bytes5, GroupValues, Value;
    var v := GroupValues(s, g);
    forall j | 0 <= j < 8 ensures v[j] < 32 {
      GroupValueAt(s, g, j);
      ValueRange(s[Place(g, j)]);
    }
    DigitsBack(v);
  }

  /** The first byte a value of a group has a part in; it has none outside that byte and the next. */
  function FirstByte(j: nat): nat { 5 * j / 8 }

  lemma Touches(v: seq<bv8>, w: seq<bv8>, j: nat, t: nat)
    requires |v| == |w| == 8 && j < 8 && t < 5 && (forall i :: 0 <= i < 8 && i != j ==> v[i] == w[i])
    requires t != FirstByte(j) && t != FirstByte(j) + 1
    ensures Bytes5(v)[t] == Bytes5(w)[t]
  {
    hide Byte0, Byte1, Byte2, Byte3, Byte4;
  }

  /** Replacing one character changes the bytes in a window of at most two. */
  lemma ReplacedWindow(s: string, n: nat, p: nat, c: char, q: nat)
    requires |s| == 8 * n && p < |s| && q < 5 * n
    requires !(5 * (p / 8) + FirstByte(p % 8) <= q < 5 * (p / 8) + FirstByte(p % 8) + 3)
    ensures Decoded(s[p := c], n)[q] == Decoded(s, n)[q]
  {
    hide Bytes5, GroupDigits;
    var g, r := q / 5, s[p := c];
    if g == p / 8 {
      OneDigit(s, p, c);
      Touches(GroupDigits(s, g), GroupDigits(r, g), p % 8, q % 5);
    } else {
      OtherGroup(s, p, c, g);
    }
  }

  lemma OneDigit(s: string, p: nat, c: char)
    requires p < |s| && Place(p / 8, 8) <= |s|
    ensures forall i :: 0 <= i < 8 && i != p % 8 ==> GroupDigits(s, p / 8)[i] == GroupDigits(s[p := c], p / 8)[i]
  {
    hide Digit;
  }

  lemma OtherGroup(s: string, p: nat, c: char, g: nat)
    requires p < |s| && Place(g, 8) <= |s| && g != p / 8
    ensures GroupDigits(s, g) == GroupDigits(s[p := c], g)
  {
    hide Digit;
  }

  // ----- encoding and decoding 32 bytes

  ghost function Encoded(m: seq<bv8>): string
    requires |m| == 32
  {
    Text(m + Checksum(Crc(m)), 7)
  }

  ghost function DecodedWord(s: string): Option<seq<bv8>> {
    if |s| == 56 && Crc(Decoded(s, 7)) == ZERO then Some(Decoded(s, 7)[..32]) else None
  }

  /** One group. The running and of the digits starts at zero, so no character is ever refused here. */
  method Base32Decode5Bytes(s: string, g: nat) returns (ok: bool, md5: seq<bv8>)
    requires Place(g, 8) <= |s|
    ensures ok && md5 == Bytes5(GroupDigits(s, g))
  {
    hide Digit, Bytes5;
    var idx := GroupDigits(s, g);
    var sum: bv8 := 0;
    for j := 0 to 8
      invariant sum == 0
    {
      ZeroAnd(idx[j]);
      sum := sum & idx[j];
    }
    ZeroSign();
    ok := sum >> 7 == 0;
    md5 := Bytes5(idx);
  }

  lemma ZeroAnd(x: bv8)
    ensures 0 & x == 0
  {
  }

  lemma ZeroSign()
    ensures 0 as bv8 >> 7 == 0
  {
  }

  lemma DecodedNone(s: string)
    ensures Decoded(s, 0) == []
  {
  }

  lemma DecodedStep(s: string, g: nat)
    requires 8 * g + 8 <= |s|
    ensures Decoded(s, g + 1) == Decoded(s, g) + Bytes5(GroupDigits(s, g))
  {
    hide Bytes5, GroupDigits;
    var r, b := Decoded(s, g + 1), Bytes5(GroupDigits(s, g));
    forall q | 0 <= q < 5 * g + 5 ensures r[q] == (Decoded(s, g) + b)[q] {
      if q >= 5 * g { assert q / 5 == g && q % 5 == q - 5 * g; }
    }
  }

  method Base32Decode(s: string) returns (md32: Option<seq<bv8>>)
    ensures md32 == DecodedWord(s)
  {
    hide Decoded, Bytes5, GroupDigits, Crc;
    if |s| != 56 {
      return None;
    }
    var data: seq<bv8> := [];
    DecodedNone(s);
    for i := 0 to 7
      invariant data == Decoded(s, i)
    {
      var ok, md5 := Base32Decode5Bytes(s, i);
      DecodedStep(s, i);
      data := data + md5;
      if !ok {
        return None;
      }
    }
    var crc := ComputeCrc(data);
    WidenedZero(Crc(data));
    if crc != 0 {
      return None;
    }
    return Some(data[..32]);
  }

  lemma WidenedZero(x: Register)
    ensures Widened(x) == 0 <==> x == ZERO
  {
  }

  lemma TextNone(b: seq<bv8>)
    ensures Text(b, 0) == ""
  {
  }

  function GroupText(b: seq<bv8>): string
    requires |b| == 5
  {
    var d := Digits5(b);
    [Letter(d[0]), Letter(d[1]), Letter(d[2]), Letter(d[3]), Letter(d[4]), Letter(d[5]), Letter(d[6]), Letter(d[7])]
  }

  lemma TextStep(b: seq<bv8>, g: nat)
    requires 5 * g + 5 <= |b|
    ensures Text(b, g + 1) == Text(b, g) + GroupText(Slice5(b, g))
  {
    hide Digits5, Slice5, Letter;
    var t, u := Text(b, g + 1), GroupText(Slice5(b, g));
    forall p | 0 <= p < 8 * g + 8 ensures t[p] == (Text(b, g) + u)[p] {
      if p >= 8 * g { assert p / 8 == g && p % 8 == p - 8 * g; }
    }
  }

  lemma TextPrefix(b: seq<bv8>, c: seq<bv8>, n: nat)
    requires 5 * n <= |b|
    ensures Text(b + c, n) == Text(b, n)
  {
    hide Digits5, Letter;
    forall p | 0 <= p < 8 * n ensures Text(b + c, n)[p] == Text(b, n)[p] {
      assert Slice5(b + c, p / 8) == Slice5(b, p / 8);
    }
  }

  /** The checksum bytes as the code cuts them from the computed word. */
  function CrcBytes(crc: bv32): seq<bv8> {
    [((crc >> 16) & 0xFF) as bv8, ((crc >> 8) & 0xFF) as bv8, (crc & 0xFF) as bv8]
  }

  lemma CrcBytesAre(x: Register)
    ensures CrcBytes(Widened(x)) == Checksum(x)
  {
  }

  method Base32Encode(md32: seq<bv8>) returns (s: string)
    requires |md32| == 32
    ensures s == Encoded(md32)
  {
    hide Text, GroupText, Crc, Checksum, CrcBytes;
    var crc := ComputeCrc(md32);
    s := "";
    TextNone(md32);
    for i := 0 to 6
      invariant s == Text(md32, i)
    {
      TextStep(md32, i);
      s := s + GroupText(Slice5(md32, i));
    }
    CrcBytesAre(Crc(md32));
    CrcLength(crc);
    var c := CrcBytes(crc);
    var tail := [md32[30], md32[31], c[0], c[1], c[2]];
    ghost var all := md32 + c;
    TextPrefix(md32, c, 6);
    TextStep(all, 6);
    assert Slice5(all, 6) == tail;
    s := s + GroupText(tail);
  }

  lemma CrcLength(crc: bv32)
    ensures |CrcBytes(crc)| == 3
  {
  }

  // ----- what the pair promises

  lemma EncodedLength(m: seq<bv8>)
    requires |m| == 32
    ensures |m + Checksum(Crc(m))| == 35 && |Encoded(m)| == 56 && Decoded(Encoded(m), 7) == m + Checksum(Crc(m))
  {
    hide Crc, Text, Decoded;
    ChecksumLength(Crc(m));
    DecodedText(m + Checksum(Crc(m)), 7);
  }

  /** Decoding the encoding of any 32 bytes gives them back. */
  lemma EncodeDecodes(m: seq<bv8>)
    requires |m| == 32
    ensures DecodedWord(Encoded(m)) == Some(m)
  {
    hide Crc, Text, Decoded, Checksum;
    EncodedLength(m);
    ChecksumExact(m, Checksum(Crc(m)));
  }

  /** Whatever decodes is the encoding of its result, up to the letters used. */
  lemma DecodeEncodes(s: string)
    requires DecodedWord(s).Some?
    ensures Encoded(DecodedWord(s).value) == Normal(s)
  {
    hide Crc, Text, Decoded, Checksum;
    var b := Decoded(s, 7);
    var m, t := b[..32], b[32..];
    assert b == m + t;
    ChecksumExact(m, t);
    TextDecoded(s, 7);
  }

  /** One character of a text that decodes may be replaced by another exactly when both have one value, and
      then nothing changes. */
  lemma OneCharacter(s: string, p: nat, c: char)
    requires DecodedWord(s).Some? && p < |s|
    ensures DecodedWord(s[p := c]).Some? <==> Value(c) == Value(s[p])
    ensures Value(c) == Value(s[p]) ==> DecodedWord(s[p := c]) == DecodedWord(s)
  {
    hide Crc, Text, Decoded, Letter, Value;
    var r := s[p := c];
    var x, y := Decoded(s, 7), Decoded(r, 7);
    var k := 5 * (p / 8) + FirstByte(p % 8);
    forall q | 0 <= q < 35 && !(k <= q < k + 3) ensures x[q] == y[q] { ReplacedWindow(s, 7, p, c, q); }
    TextDecoded(s, 7);
    TextDecoded(r, 7);
    if Value(c) == Value(s[p]) {
      assert Normal(r) == Normal(s);
      DecodedNormal(s, r);
    } else if Crc(x) == Crc(y) {
      BurstDetected(x, y, k);
      assert Normal(s)[p] == Normal(r)[p];
      LetterInjective(s[p], c);
    }
  }

  lemma LetterInjective(c: char, d: char)
    requires Letter(Value(c)) == Letter(Value(d))
    ensures Value(c) == Value(d)
  {
    hide Letter, Value;
    ValueRange(c);
    ValueRange(d);
    DigitOfLetter(Value(c));
    DigitOfLetter(Value(d));
  }

  lemma DecodedNormal(s: string, r: string)
    requires |s| == |r| == 56 && Normal(s) == Normal(r)
    ensures Decoded(s, 7) == Decoded(r, 7)
  {
    hide Letter, Value, Bytes5, GroupDigits;
    forall i | 0 <= i < 56 ensures Value(s[i]) == Value(r[i]) {
      assert Normal(s)[i] == Normal(r)[i];
      LetterInjective(s[i], r[i]);
    }
    forall q | 0 <= q < 35 ensures Decoded(s, 7)[q] == Decoded(r, 7)[q] {
      GroupValuesDecode(s, q / 5);
      GroupValuesDecode(r, q / 5);
    }
  }
}
