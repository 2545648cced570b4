/** The compressed format: little-endian words, the length prefix, tags, and what a tag stream denotes. */
module SnappyFormat {
  import opened Words
  import opened Bytes

  // ----- little-endian words

  function Load32(s: seq<byte>, p: nat): nat
    requires p + 4 <= |s|
  {
    var a: int, b: int, c: int, d: int := s[p], s[p+1], s[p+2], s[p+3];
    a + 0x100 * b + 0x1_0000 * c + 0x100_0000 * d
  }

  /** The bytes an unaligned 64-bit load reads, as two 32-bit halves. */
  function Load64(s: seq<byte>, p: nat): nat
    requires p + 8 <= |s|
  {
    Load32(s, p) + 0x1_0000_0000 * Load32(s, p + 4)
  }

  lemma LittleEndian1(a: byte)
    ensures LittleEndian([a]) == a
  {
    assert [a][1..] == [];
  }

  lemma LittleEndian2(a: byte, b: byte)
    ensures LittleEndian([a, b]) == a + 256 * b
  {
    assert [a, b][1..] == [b];
    LittleEndian1(b);
  }

  lemma LittleEndian0()
    ensures LittleEndian([]) == 0
  {
  }

  lemma LittleEndian3(a: byte, b: byte, c: byte)
    ensures LittleEndian([a, b, c]) == a + 0x100 * b + 0x1_0000 * c
  {
    assert [a, b, c][1..] == [b, c];
    LittleEndian2(b, c);
  }

  /** The remainders of four bytes as one number. */
  lemma LowBytes(a: int, b: int, c: int, d: int)
    requires 0 <= a < 256 && 0 <= b < 256 && 0 <= c < 256 && 0 <= d < 256
    ensures var x := a + 0x100 * b + 0x1_0000 * c + 0x100_0000 * d;
            && x % 1 == 0 && x % 0x100 == a && x % 0x1_0000 == a + 0x100 * b
            && x % 0x100_0000 == a + 0x100 * b + 0x1_0000 * c && x % 0x1_0000_0000 == x
  {
  }

  lemma LittleEndian4(a: byte, b: byte, c: byte, d: byte)
    ensures LittleEndian([a, b, c, d]) == a + 0x100 * b + 0x1_0000 * c + 0x100_0000 * d
  {
    assert [a, b, c, d][1..] == [b, c, d] && [b, c, d][1..] == [c, d];
    LittleEndian2(c, d);
  }

  /** Masking a 32-bit load to its lowest n bytes reads those bytes only. */
  lemma MaskedLoad(s: seq<byte>, p: nat, n: nat)
    requires n <= 4 && p + 4 <= |s|
    ensures Load32(s, p) % Mask(n) == LittleEndian(s[p..p+n])
  {
    hide LittleEndian;
    LowBytes(s[p], s[p+1], s[p+2], s[p+3]);
    LittleEndian0();
    if n == 0 {
      assert s[p..p] == [];
    } else if n == 1 {
      assert s[p..p+1] == [s[p]];
      LittleEndian1(s[p]);
    } else if n == 2 {
      assert s[p..p+2] == [s[p], s[p+1]];
      LittleEndian2(s[p], s[p+1]);
    } else if n == 3 {
      assert s[p..p+3] == [s[p], s[p+1], s[p+2]];
      LittleEndian3(s[p], s[p+1], s[p+2]);
    } else {
      assert s[p..p+4] == [s[p], s[p+1], s[p+2], s[p+3]];
      LittleEndian4(s[p], s[p+1], s[p+2], s[p+3]);
    }
  }

  /** One more than entry n of the table of word masks. */
  function Mask(n: nat): (m: nat)
    requires n <= 4
    ensures m > 0
  {
    match n case 0 => 1 case 1 => 0x100 case 2 => 0x1_0000 case 3 => 0x100_0000 case 4 => 0x1_0000_0000
  }

  // ----- the length prefix

  const VARINT_LIMIT := 0x1_0000_0000

  /** Value and size of the base-128 number at the front of s, whose first byte is group i of 5. */
  function VarintAt(s: seq<byte>, i: nat): Option<(nat, nat)>
    requires i <= 5
    decreases 5 - i
  {
    if i == 5 || s == [] || (i == 4 && s[0] >= 16) then None
    else if s[0] < 128 then Some((s[0], 1))
    else match VarintAt(s[1..], i + 1)
      case None => None
      case Some((v, n)) => Some((s[0] - 128 + 128 * v, n + 1))
  }

  function Varint(s: seq<byte>): Option<(nat, nat)> { VarintAt(s, 0) }

  /** Bound on the number whose first byte is group i. */
  function VarintMax(i: nat): nat
    requires i <= 4
  {
    match i case 0 => 0x1_0000_0000 case 1 => 0x200_0000 case 2 => 0x4_0000 case 3 => 0x800 case 4 => 0x10
  }

  lemma {:induction false} VarintBounds(s: seq<byte>, i: nat)
    requires i <= 4 && VarintAt(s, i).Some?
    ensures 1 <= VarintAt(s, i).value.1 <= |s| && VarintAt(s, i).value.1 <= 5 - i
    ensures VarintAt(s, i).value.0 < VarintMax(i)
    decreases 5 - i
  {
    if s[0] >= 128 { VarintBounds(s[1..], i + 1); }
  }

  /** The encoder's five cases. */
  function Encode32(v: nat): (r: seq<byte>)
    requires v < VARINT_LIMIT
    ensures 1 <= |r| <= 5
  {
    if v < 0x80 then [v]
    else if v < 0x4000 then [v % 128 + 128, v / 0x80]
    else if v < 0x20_0000 then [v % 128 + 128, v / 0x80 % 128 + 128, v / 0x4000]
    else if v < 0x1000_0000 then [v % 128 + 128, v / 0x80 % 128 + 128, v / 0x4000 % 128 + 128, v / 0x20_0000]
    else [v % 128 + 128, v / 0x80 % 128 + 128, v / 0x4000 % 128 + 128, v / 0x20_0000 % 128 + 128, v / 0x1000_0000]
  }

  lemma VarintLast(s: seq<byte>, i: nat)
    requires i < |s| && i <= 4 && s[i] < 128 && (i == 4 ==> s[i] < 16)
    ensures VarintAt(s[i..], i) == Some((s[i] as nat, 1))
  {
  }

  /** The parser of a flat buffer: four like steps, and a last one that takes four bits. */
  method Parse32WithLimit(s: seq<byte>) returns (r: Option<(nat, nat)>)
    ensures r == Varint(s)
  {
    hide Varint, VarintAt;
    var result: nat := 0;
    for k := 0 to 4
      invariant Continued(s, k) && result == Groups(s, k)
    {
      if k >= |s| {
        VarintStop(s, k);
        return None;
      }
      var b: nat := s[k];
      if b < 128 {
        VarintUnwind(s, k);
        return Some((result + GroupUnit(k) * b, k + 1));
      }
      result := result + GroupUnit(k) * (b % 128);
    }
    if 4 < |s| && s[4] < 16 {
      VarintUnwind(s, 4);
      return Some((result + GroupUnit(4) * s[4], 5));
    }
    VarintStop(s, 4);
    r := None;
  }

  /** The value of the first k continued groups. */
  function Groups(s: seq<byte>, k: nat): nat
    requires k <= |s| && k <= 4
  {
    var b: int := if k == 0 then 0 else s[k-1];
    if k == 0 then 0 else Groups(s, k - 1) + GroupUnit(k - 1) * (b % 128)
  }

  function GroupUnit(k: nat): nat
    requires k <= 4
  {
    match k case 0 => 1 case 1 => 0x80 case 2 => 0x4000 case 3 => 0x20_0000 case 4 => 0x1000_0000
  }

  ghost predicate Continued(s: seq<byte>, k: nat) {
    k <= |s| && forall j :: 0 <= j < k ==> s[j] >= 128
  }

  lemma GroupStep(u: int, b: int, v: int)
    ensures u * (b + 128 * v) == u * b + (128 * u) * v
  {
  }

  /** After k continued groups, the whole is those groups plus the rest shifted by them. */
  lemma {:induction false} VarintSplit(s: seq<byte>, k: nat)
    requires k <= 4 && Continued(s, k)
    ensures VarintAt(s[k..], k).None? ==> Varint(s).None?
    ensures VarintAt(s[k..], k).Some? ==>
              Varint(s) == Some((Groups(s, k) + GroupUnit(k) * VarintAt(s[k..], k).value.0,
                                 k + VarintAt(s[k..], k).value.1))
  {
    hide VarintAt, GroupUnit;
    if k == 0 {
      assert s[0..] == s;
      GroupUnits(0);
    } else {
      VarintSplit(s, k - 1);
      VarintMore(s[k-1..], k - 1);
      assert s[k-1..][1..] == s[k..];
      var b: int, u := s[k-1], GroupUnit(k - 1);
      GroupUnits(k - 1);
      GroupUnits(k);
      if VarintAt(s[k..], k).Some? { GroupStep(u, b - 128, VarintAt(s[k..], k).value.0); }
    }
  }

  /** One continued group. */
  lemma VarintMore(s: seq<byte>, k: nat)
    requires k <= 3 && s != [] && s[0] >= 128
    ensures var rest, b: int := VarintAt(s[1..], k + 1), s[0];
            VarintAt(s, k) == if rest.None? then None else Some((b - 128 + 128 * rest.value.0, 1 + rest.value.1))
  {
  }

  lemma VarintUnwind(s: seq<byte>, k: nat)
    requires k <= 4 && Continued(s, k) && k < |s| && s[k] < 128 && (k == 4 ==> s[k] < 16)
    ensures Varint(s) == Some((Groups(s, k) + GroupUnit(k) * s[k], k + 1))
  {
    VarintSplit(s, k);
    VarintLast(s, k);
  }

  /** Decoding the prefix gives back the number, whatever follows it. */
  lemma VarintRoundTrip(v: nat, rest: seq<byte>)
    requires v < VARINT_LIMIT
    ensures Varint(Encode32(v) + rest) == Some((v, |Encode32(v)|))
  {
    hide Varint, VarintAt, Groups, GroupUnit;
    var e := Encode32(v);
    var s, k := e + rest, |e| - 1;
    VarintUnwind(s, k);
    GroupsOf(s, k);
    Base128(v);
    GroupUnits(k);
  }

  lemma GroupUnits(k: nat)
    requires k <= 4
    ensures GroupUnit(k)
            == match k case 0 => 1 case 1 => 0x80 case 2 => 0x4000 case 3 => 0x20_0000 case _ => 0x1000_0000
  {
  }

  lemma Base128(v: nat)
    ensures v == v % 128 + 0x80 * (v / 0x80)
    ensures v / 0x80 == v / 0x80 % 128 + 0x80 * (v / 0x4000)
    ensures v / 0x4000 == v / 0x4000 % 128 + 0x80 * (v / 0x20_0000)
    ensures v / 0x20_0000 == v / 0x20_0000 % 128 + 0x80 * (v / 0x1000_0000)
  {
    assert v / 0x80 / 0x80 == v / 0x4000;
    assert v / 0x4000 / 0x80 == v / 0x20_0000;
    assert v / 0x20_0000 / 0x80 == v / 0x1000_0000;
  }

  lemma GroupsOf(s: seq<byte>, k: nat)
    requires k <= 4 && Continued(s, k)
    ensures k == 0 ==> Groups(s, k) == 0
    ensures k == 1 ==> Groups(s, k) == s[0] as int - 128
    ensures k == 2 ==> Groups(s, k) == s[0] as int - 128 + 0x80 * (s[1] as int - 128)
    ensures k == 3 ==> Groups(s, k) == s[0] as int - 128 + 0x80 * (s[1] as int - 128) + 0x4000 * (s[2] as int - 128)
    ensures k == 4 ==> Groups(s, k) == s[0] as int - 128 + 0x80 * (s[1] as int - 128) + 0x4000 * (s[2] as int - 128)
                                       + 0x20_0000 * (s[3] as int - 128)
  {
  }

  lemma VarintStop(s: seq<byte>, k: nat)
    requires k <= 4 && Continued(s, k) && (k == |s| || (k == 4 && k < |s| && s[k] >= 16))
    ensures Varint(s).None?
  {
    VarintSplit(s, k);
  }

  // ----- tags

  datatype Tag = Literal(data: seq<byte>) | Copy(offset: nat, len: nat)

  datatype Parsed = Truncated | Parsed(tag: Tag, size: nat)

  /** The length of a literal from the bytes that hold it less one; the sum is 32-bit and wraps. */
  function LongLength(bytes: seq<byte>): nat { (LittleEndian(bytes) + 1) % 0x1_0000_0000 }

  /** The tag at the front of a non-empty stream, as the decompressor reads it. */
  function Parse(s: seq<byte>): (r: Parsed)
    requires s != []
    ensures r.Parsed? ==> 1 <= r.size <= |s|
  {
    var c := s[0];
    if c % 4 == 0 then
      var extra := if c / 4 < 60 then 0 else c / 4 - 59;
      if |s| < 1 + extra then Truncated
      else
        var len := if extra == 0 then c / 4 + 1 else LongLength(s[1..1+extra]);
        if |s| < 1 + extra + len then Truncated
        else Parsed(Literal(s[1+extra..1+extra+len]), 1 + extra + len)
    else if c % 4 == 1 then
      if |s| < 2 then Truncated else Parsed(Copy(c / 32 * 256 + s[1], c / 4 % 8 + 4), 2)
    else if c % 4 == 2 then
      if |s| < 3 then Truncated else Parsed(Copy(LittleEndian(s[1..3]), c / 4 + 1), 3)
    else
      if |s| < 5 then Truncated else Parsed(Copy(LittleEndian(s[1..5]), c / 4 + 1), 5)
  }

  /** Append len bytes, each a copy of the byte offset places before it; the ranges may overlap. */
  function CopyFrom(out: seq<byte>, offset: nat, len: nat): (r: seq<byte>)
    requires 1 <= offset <= |out|
    ensures |r| == |out| + len
    decreases len
  {
    if len == 0 then out else CopyFrom(out + [out[|out|-offset]], offset, len - 1)
  }

  /** What a tag stream denotes after the output so far, never exceeding the limit. */
  function Decode(s: seq<byte>, out: seq<byte>, limit: nat): Option<seq<byte>>
    decreases |s|
  {
    if s == [] then Some(out)
    else match Parse(s)
      case Truncated => None
      case Parsed(Literal(data), n) =>
        if |out| + |data| > limit then None else Decode(s[n..], out + data, limit)
      case Parsed(Copy(offset, len), n) =>
        if offset == 0 || offset > |out| || |out| + len > limit then None
        else Decode(s[n..], CopyFrom(out, offset, len), limit)
  }

  /** What a whole compressed string denotes. */
  function Uncompressed(s: seq<byte>): Option<seq<byte>> {
    match Varint(s)
    case None => None
    case Some((n, k)) =>
      VarintBounds(s, 0);
      match Decode(s[k..], [], n)
      case None => None
      case Some(out) => if |out| == n then Some(out) else None
  }

  // ----- the tag table

  /** Entries 0 to 31 of the tag table. */
  function CharTable0(c: byte): nat
    requires 0 <= c <= 31
  {
    match c
    case 0 => 0x0001 case 1 => 0x0804 case 2 => 0x1001 case 3 => 0x2001
    case 4 => 0x0002 case 5 => 0x0805 case 6 => 0x1002 case 7 => 0x2002
    case 8 => 0x0003 case 9 => 0x0806 case 10 => 0x1003 case 11 => 0x2003
    case 12 => 0x0004 case 13 => 0x0807 case 14 => 0x1004 case 15 => 0x2004
    case 16 => 0x0005 case 17 => 0x0808 case 18 => 0x1005 case 19 => 0x2005
    case 20 => 0x0006 case 21 => 0x0809 case 22 => 0x1006 case 23 => 0x2006
    case 24 => 0x0007 case 25 => 0x080a case 26 => 0x1007 case 27 => 0x2007
    case 28 => 0x0008 case 29 => 0x080b case 30 => 0x1008 case _ => 0x2008
  }

  /** Entries 32 to 63 of the tag table. */
  function CharTable1(c: byte): nat
    requires 32 <= c <= 63
  {
    match c
    case 32 => 0x0009 case 33 => 0x0904 case 34 => 0x1009 case 35 => 0x2009
    case 36 => 0x000a case 37 => 0x0905 case 38 => 0x100a case 39 => 0x200a
    case 40 => 0x000b case 41 => 0x0906 case 42 => 0x100b case 43 => 0x200b
    case 44 => 0x000c case 45 => 0x0907 case 46 => 0x100c case 47 => 0x200c
    case 48 => 0x000d case 49 => 0x0908 case 50 => 0x100d case 51 => 0x200d
    case 52 => 0x000e case 53 => 0x0909 case 54 => 0x100e case 55 => 0x200e
    case 56 => 0x000f case 57 => 0x090a case 58 => 0x100f case 59 => 0x200f
    case 60 => 0x0010 case 61 => 0x090b case 62 => 0x1010 case _ => 0x2010
  }

  /** Entries 64 to 95 of the tag table. */
  function CharTable2(c: byte): nat
    requires 64 <= c <= 95
  {
    match c
    case 64 => 0x0011 case 65 => 0x0a04 case 66 => 0x1011 case 67 => 0x2011
    case 68 => 0x0012 case 69 => 0x0a05 case 70 => 0x1012 case 71 => 0x2012
    case 72 => 0x0013 case 73 => 0x0a06 case 74 => 0x1013 case 75 => 0x2013
    case 76 => 0x0014 case 77 => 0x0a07 case 78 => 0x1014 case 79 => 0x2014
    case 80 => 0x0015 case 81 => 0x0a08 case 82 => 0x1015 case 83 => 0x2015
    case 84 => 0x0016 case 85 => 0x0a09 case 86 => 0x1016 case 87 => 0x2016
    case 88 => 0x0017 case 89 => 0x0a0a case 90 => 0x1017 case 91 => 0x2017
    case 92 => 0x0018 case 93 => 0x0a0b case 94 => 0x1018 case _ => 0x2018
  }

  /** Entries 96 to 127 of the tag table. */
  function CharTable3(c: byte): nat
    requires 96 <= c <= 127
  {
    match c
    case 96 => 0x0019 case 97 => 0x0b04 case 98 => 0x1019 case 99 => 0x2019
    case 100 => 0x001a case 101 => 0x0b05 case 102 => 0x101a case 103 => 0x201a
    case 104 => 0x001b case 105 => 0x0b06 case 106 => 0x101b case 107 => 0x201b
    case 108 => 0x001c case 109 => 0x0b07 case 110 => 0x101c case 111 => 0x201c
    case 112 => 0x001d case 113 => 0x0b08 case 114 => 0x101d case 115 => 0x201d
    case 116 => 0x001e case 117 => 0x0b09 case 118 => 0x101e case 119 => 0x201e
    case 120 => 0x001f case 121 => 0x0b0a case 122 => 0x101f case 123 => 0x201f
    case 124 => 0x0020 case 125 => 0x0b0b case 126 => 0x1020 case _ => 0x2020
  }

  /** Entries 128 to 159 of the tag table. */
  function CharTable4(c: byte): nat
    requires 128 <= c <= 159
  {
    match c
    case 128 => 0x0021 case 129 => 0x0c04 case 130 => 0x1021 case 131 => 0x2021
    case 132 => 0x0022 case 133 => 0x0c05 case 134 => 0x1022 case 135 => 0x2022
    case 136 => 0x0023 case 137 => 0x0c06 case 138 => 0x1023 case 139 => 0x2023
    case 140 => 0x0024 case 141 => 0x0c07 case 142 => 0x1024 case 143 => 0x2024
    case 144 => 0x0025 case 145 => 0x0c08 case 146 => 0x1025 case 147 => 0x2025
    case 148 => 0x0026 case 149 => 0x0c09 case 150 => 0x1026 case 151 => 0x2026
    case 152 => 0x0027 case 153 => 0x0c0a case 154 => 0x1027 case 155 => 0x2027
    case 156 => 0x0028 case 157 => 0x0c0b case 158 => 0x1028 case _ => 0x2028
  }

  /** Entries 160 to 191 of the tag table. */
  function CharTable5(c: byte): nat
    requires 160 <= c <= 191
  {
    match c
    case 160 => 0x0029 case 161 => 0x0d04 case 162 => 0x1029 case 163 => 0x2029
    case 164 => 0x002a case 165 => 0x0d05 case 166 => 0x102a case 167 => 0x202a
    case 168 => 0x002b case 169 => 0x0d06 case 170 => 0x102b case 171 => 0x202b
    case 172 => 0x002c case 173 => 0x0d07 case 174 => 0x102c case 175 => 0x202c
    case 176 => 0x002d case 177 => 0x0d08 case 178 => 0x102d case 179 => 0x202d
    case 180 => 0x002e case 181 => 0x0d09 case 182 => 0x102e case 183 => 0x202e
    case 184 => 0x002f case 185 => 0x0d0a case 186 => 0x102f case 187 => 0x202f
    case 188 => 0x0030 case 189 => 0x0d0b case 190 => 0x1030 case _ => 0x2030
  }

  /** Entries 192 to 223 of the tag table. */
  function CharTable6(c: byte): nat
    requires 192 <= c <= 223
  {
    match c
    case 192 => 0x0031 case 193 => 0x0e04 case 194 => 0x1031 case 195 => 0x2031
    case 196 => 0x0032 case 197 => 0x0e05 case 198 => 0x1032 case 199 => 0x2032
    case 200 => 0x0033 case 201 => 0x0e06 case 202 => 0x1033 case 203 => 0x2033
    case 204 => 0x0034 case 205 => 0x0e07 case 206 => 0x1034 case 207 => 0x2034
    case 208 => 0x0035 case 209 => 0x0e08 case 210 => 0x1035 case 211 => 0x2035
    case 212 => 0x0036 case 213 => 0x0e09 case 214 => 0x1036 case 215 => 0x2036
    case 216 => 0x0037 case 217 => 0x0e0a case 218 => 0x1037 case 219 => 0x2037
    case 220 => 0x0038 case 221 => 0x0e0b case 222 => 0x1038 case _ => 0x2038
  }

  /** Entries 224 to 255 of the tag table. */
  function CharTable7(c: byte): nat
    requires 224 <= c <= 255
  {
    match c
    case 224 => 0x0039 case 225 => 0x0f04 case 226 => 0x1039 case 227 => 0x2039
    case 228 => 0x003a case 229 => 0x0f05 case 230 => 0x103a case 231 => 0x203a
    case 232 => 0x003b case 233 => 0x0f06 case 234 => 0x103b case 235 => 0x203b
    case 236 => 0x003c case 237 => 0x0f07 case 238 => 0x103c case 239 => 0x203c
    case 240 => 0x0801 case 241 => 0x0f08 case 242 => 0x103d case 243 => 0x203d
    case 244 => 0x1001 case 245 => 0x0f09 case 246 => 0x103e case 247 => 0x203e
    case 248 => 0x1801 case 249 => 0x0f0a case 250 => 0x103f case 251 => 0x203f
    case 252 => 0x2001 case 253 => 0x0f0b case 254 => 0x1040 case _ => 0x2040
  }

  function CharTable(c: byte): nat {
    if c < 128 then
      if c < 64 then (if c < 32 then CharTable0(c) else CharTable1(c))
      else (if c < 96 then CharTable2(c) else CharTable3(c))
    else
      if c < 192 then (if c < 160 then CharTable4(c) else CharTable5(c))
      else (if c < 224 then CharTable6(c) else CharTable7(c))
  }

  /** Length in bits 0..7, copy offset over 256 in bits 8..10, extra bytes in bits 11..13. */
  function TagEntry(c: byte): nat {
    if c % 4 == 0 then (if c / 4 < 60 then c / 4 + 1 else 2048 * (c / 4 - 59) + 1)
    else if c % 4 == 1 then 2048 + 256 * (c / 32) + c / 4 % 8 + 4
    else if c % 4 == 2 then 2 * 2048 + c / 4 + 1
    else 4 * 2048 + c / 4 + 1
  }

  lemma CharTable0Entry(c: byte)
    requires 0 <= c <= 31
    ensures CharTable0(c) == TagEntry(c)
  {
  }

  lemma CharTable1Entry(c: byte)
    requires 32 <= c <= 63
    ensures CharTable1(c) == TagEntry(c)
  {
  }

  lemma CharTable2Entry(c: byte)
    requires 64 <= c <= 95
    ensures CharTable2(c) == TagEntry(c)
  {
  }

  lemma CharTable3Entry(c: byte)
    requires 96 <= c <= 127
    ensures CharTable3(c) == TagEntry(c)
  {
  }

  lemma CharTable4Entry(c: byte)
    requires 128 <= c <= 159
    ensures CharTable4(c) == TagEntry(c)
  {
  }

  lemma CharTable5Entry(c: byte)
    requires 160 <= c <= 191
    ensures CharTable5(c) == TagEntry(c)
  {
  }

  lemma CharTable6Entry(c: byte)
    requires 192 <= c <= 223
    ensures CharTable6(c) == TagEntry(c)
  {
  }

  lemma CharTable7Entry(c: byte)
    requires 224 <= c <= 255
    ensures CharTable7(c) == TagEntry(c)
  {
  }

  /** Every entry of the table packs the three fields of its tag. */
  lemma CharTableEntry(c: byte)
    ensures CharTable(c) == TagEntry(c)
  {
    hide CharTable0, CharTable1, CharTable2, CharTable3, CharTable4, CharTable5, CharTable6, CharTable7;
    if c < 32 { CharTable0Entry(c); }
    else if c < 64 { CharTable1Entry(c); }
    else if c < 96 { CharTable2Entry(c); }
    else if c < 128 { CharTable3Entry(c); }
    else if c < 160 { CharTable4Entry(c); }
    else if c < 192 { CharTable5Entry(c); }
    else if c < 224 { CharTable6Entry(c); }
    else { CharTable7Entry(c); }
  }

  lemma Unpack(extra: int, offset: int, len: int)
    requires 0 <= extra && 0 <= offset < 8 && 0 <= len < 256
    ensures var e := 2048 * extra + 256 * offset + len; e / 2048 == extra && e / 256 % 8 == offset && e % 256 == len
  {
    var e := 2048 * extra + 256 * offset + len;
    assert e / 256 == 8 * extra + offset;
  }

  lemma TagEntryFields(c: byte)
    ensures TagEntry(c) / 2048 == (if c % 4 == 0 then (if c / 4 < 60 then 0 else c / 4 - 59)
                                   else if c % 4 == 1 then 1 else if c % 4 == 2 then 2 else 4)
    ensures TagEntry(c) % 256 == (if c % 4 == 0 then (if c / 4 < 60 then c / 4 + 1 else 1)
                                  else if c % 4 == 1 then c / 4 % 8 + 4 else c / 4 + 1)
    ensures TagEntry(c) / 256 % 8 == if c % 4 == 1 then c / 32 else 0
  {
    var q: int := c / 4;
    if c % 4 == 0 {
      if q < 60 { Unpack(0, 0, q + 1); } else { Unpack(q - 59, 0, 1); }
    } else if c % 4 == 1 {
      Unpack(1, c / 32, q % 8 + 4);
    } else {
      Unpack(if c % 4 == 2 then 2 else 4, 0, q + 1);
    }
  }

  /** Bytes after the tag byte that the table announces. */
  function Extra(c: byte): nat { CharTable(c) / 2048 }

  lemma ExtraBytes(c: byte)
    ensures Extra(c) == (if c % 4 == 0 then (if c / 4 < 60 then 0 else c / 4 - 59)
                         else if c % 4 == 1 then 1 else if c % 4 == 2 then 2 else 4)
    ensures CharTable(c) % 256 == (if c % 4 == 0 then (if c / 4 < 60 then c / 4 + 1 else 1)
                                   else if c % 4 == 1 then c / 4 % 8 + 4 else c / 4 + 1)
    ensures CharTable(c) / 256 % 8 == if c % 4 == 1 then c / 32 else 0
  {
    hide CharTable, TagEntry;
    CharTableEntry(c);
    TagEntryFields(c);
  }
}
