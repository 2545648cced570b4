/** Finding how far two stretches of the input agree, eight bytes at a time. */
module SnappyMatch {
  import opened Words
  import opened Bytes
  import opened SnappyFormat

  // ----- trailing zeros of an exclusive or

  /** Index of the lowest set bit. */
  function FindLSBSetNonZero(x: nat): nat
    requires x > 0
  {
    if x % 2 == 1 then 0 else 1 + FindLSBSetNonZero(x / 2)
  }

  lemma {:induction false} LowestBitShift(x: nat, w: nat)
    requires x > 0
    ensures Pow2(w) * x > 0 && FindLSBSetNonZero(Pow2(w) * x) == w + FindLSBSetNonZero(x)
  {
    if w == 0 {
      assert Pow2(0) * x == x;
    } else {
      LowestBitShift(x, w - 1);
      assert Pow2(w) * x == 2 * (Pow2(w - 1) * x);
      assert (2 * (Pow2(w - 1) * x)) / 2 == Pow2(w - 1) * x;
    }
  }

  lemma {:induction false} LowestBitLow(y: nat, z: nat, w: nat)
    requires 0 < z < Pow2(w)
    ensures FindLSBSetNonZero(Pow2(w) * y + z) < w
  {
    var x := Pow2(w) * y + z;
    assert Pow2(w) * y == 2 * (Pow2(w - 1) * y);
    if z % 2 == 0 {
      LowestBitLow(y, z / 2, w - 1);
      assert x / 2 == Pow2(w - 1) * y + z / 2;
    }
  }

  lemma XorUnfold(u: nat, v: nat, w: nat)
    ensures XorBits(u, v, w) == if w == 0 then 0 else 2 * XorBits(u / 2, v / 2, w - 1) + if u % 2 == v % 2 then 0 else 1
  {
  }

  lemma XorStep(x: nat, y: nat, u: nat, v: nat, n: nat)
    ensures XorBits(2 * x + u, 2 * y + v, n + 1)
            == 2 * XorBits(x + u / 2, y + v / 2, n) + if u % 2 == v % 2 then 0 else 1
  {
    assert (2 * x + u) / 2 == x + u / 2 && (2 * y + v) / 2 == y + v / 2;
    assert (2 * x + u) % 2 == u % 2 && (2 * y + v) % 2 == v % 2;
  }

  lemma {:induction false} XorSplit(a: nat, b: nat, u: nat, v: nat, n: nat, w: nat)
    requires u < Pow2(w) && v < Pow2(w)
    ensures XorBits(Pow2(w) * a + u, Pow2(w) * b + v, n + w) == Pow2(w) * XorBits(a, b, n) + XorBits(u, v, w)
    decreases w
  {
    hide XorBits, Pow2;
    XorUnfold(u, v, w);
    if w == 0 {
      Whole(a);
      Whole(b);
      Whole(XorBits(a, b, n));
    } else {
      Twice(w, 1);
      XorSplit(a, b, u / 2, v / 2, n, w - 1);
      var p, x := Pow2(w - 1), XorBits(a, b, n);
      XorStep(p * a, p * b, u, v, n + (w - 1));
      Twice(w, a);
      Twice(w, b);
      Twice(w, x);
      assert n + (w - 1) + 1 == n + w;
    }
  }

  lemma Whole(x: nat)
    ensures Pow2(0) * x == x && Pow2(0) == 1
  {
  }

  lemma Twice(w: nat, x: nat)
    requires w > 0
    ensures Pow2(w) * x == 2 * (Pow2(w - 1) * x)
  {
  }

  lemma {:induction false} XorZero(a: nat, b: nat, n: nat)
    requires a < Pow2(n) && b < Pow2(n)
    ensures XorBits(a, b, n) == 0 <==> a == b
  {
    if n > 0 { XorZero(a / 2, b / 2, n - 1); }
  }

  /** The position of the lowest differing bit, over eight, is the first differing byte. */
  lemma {:induction false} FirstDifference(u: seq<byte>, v: seq<byte>)
    requires |u| == |v| && u != v
    ensures XorBits(LittleEndian(u), LittleEndian(v), 8 * |u|) > 0
    ensures var j := FindLSBSetNonZero(XorBits(LittleEndian(u), LittleEndian(v), 8 * |u|)) / 8;
            j < |u| && u[..j] == v[..j] && u[j] != v[j]
  {
    hide XorBits, FindLSBSetNonZero, Pow2, LittleEndian;
    var a, b, n := LittleEndian(u[1..]), LittleEndian(v[1..]), 8 * (|u| - 1);
    Pow2Byte();
    LittleEndianStep(u);
    LittleEndianStep(v);
    XorSplit(a, b, u[0], v[0], n, 8);
    XorZero(u[0], v[0], 8);
    var low := XorBits(u[0], v[0], 8);
    if u[0] != v[0] {
      LowestBitLow(XorBits(a, b, n), low, 8);
    } else {
      assert u == [u[0]] + u[1..] && v == [v[0]] + v[1..];
      FirstDifference(u[1..], v[1..]);
      var j := FindLSBSetNonZero(XorBits(a, b, n)) / 8;
      LowestBitShift(XorBits(a, b, n), 8);
      assert u[..j+1] == [u[0]] + u[1..][..j] && v[..j+1] == [v[0]] + v[1..][..j];
    }
  }

  lemma LittleEndianStep(s: seq<byte>)
    requires s != []
    ensures LittleEndian(s) == 256 * LittleEndian(s[1..]) + s[0]
  {
  }

  // ----- wide loads

  lemma Load64Bytes(s: seq<byte>, p: nat)
    requires p + 8 <= |s|
    ensures Load64(s, p) == LittleEndian(s[p..p+8])
  {
    hide LittleEndian;
    var t := s[p..p+8];
    LittleEndianStep(t);
    LittleEndianStep(t[1..]);
    LittleEndianStep(t[2..]);
    LittleEndianStep(t[3..]);
    assert t[1..][1..] == t[2..] && t[2..][1..] == t[3..] && t[3..][1..] == t[4..];
    assert t[4..] == [s[p+4], s[p+5], s[p+6], s[p+7]];
    LittleEndian4(s[p+4], s[p+5], s[p+6], s[p+7]);
    assert t[0] == s[p] && t[1..][0] == s[p+1] && t[2..][0] == s[p+2] && t[3..][0] == s[p+3];
  }

  /** Equal loads mean equal bytes. */
  lemma Load32Equal(s: seq<byte>, p: nat, q: nat)
    requires p + 4 <= |s| && q + 4 <= |s| && Load32(s, p) == Load32(s, q)
    ensures s[p..p+4] == s[q..q+4]
  {
    var a: int, b: int, c: int, d: int := s[p], s[p+1], s[p+2], s[p+3];
    var a': int, b': int, c': int, d': int := s[q], s[q+1], s[q+2], s[q+3];
    Digit(a, b + 0x100 * c + 0x1_0000 * d, a', b' + 0x100 * c' + 0x1_0000 * d');
    Digit(b, c + 0x100 * d, b', c' + 0x100 * d');
    Digit(c, d, c', d');
  }

  lemma Digit(a: int, x: int, b: int, y: int)
    requires 0 <= a < 256 && 0 <= b < 256 && a + 0x100 * x == b + 0x100 * y
    ensures a == b && x == y
  {
  }

  lemma Load64Equal(s: seq<byte>, p: nat, q: nat)
    requires p + 8 <= |s| && q + 8 <= |s|
    ensures Load64(s, p) == Load64(s, q) <==> s[p..p+8] == s[q..q+8]
  {
    hide LittleEndian;
    Load64Bytes(s, p);
    Load64Bytes(s, q);
    if s[p..p+8] != s[q..q+8] {
      FirstDifference(s[p..p+8], s[q..q+8]);
      if Load64(s, p) == Load64(s, q) { XorSame(Load64(s, p), 64); }
    }
  }

  lemma {:induction false} XorSame(a: nat, n: nat)
    ensures XorBits(a, a, n) == 0
  {
    if n > 0 { XorSame(a / 2, n - 1); }
  }

  /** The 32-bit word at offset 0..4 of a 64-bit load. */
  function GetUint32AtOffset(v: nat, offset: nat): nat
    requires offset <= 4
  {
    v / Mask(offset) % 0x1_0000_0000
  }

  lemma Uint32AtOffset(s: seq<byte>, p: nat, offset: nat)
    requires p + 8 <= |s| && offset <= 2
    ensures GetUint32AtOffset(Load64(s, p), offset) == Load32(s, p + offset)
  {
    var a: int, b: int, f: int, g: int, h: int := s[p], s[p+1], s[p+5], s[p+6], s[p+7];
    if offset == 0 {
      Window(0, 0, Load32(s, p), Load32(s, p + 4));
    } else if offset == 1 {
      Window(1, a, Load32(s, p + 1), f + 0x100 * g + 0x1_0000 * h);
    } else {
      Window(2, a + 0x100 * b, Load32(s, p + 2), g + 0x100 * h);
    }
  }

  lemma Window(offset: nat, low: nat, word: nat, high: nat)
    requires offset <= 2 && low < Mask(offset) && word < 0x1_0000_0000
    ensures GetUint32AtOffset(low + Mask(offset) * (word + 0x1_0000_0000 * high), offset) == word
  {
    var v := word + 0x1_0000_0000 * high;
    assert v % 0x1_0000_0000 == word;
    assert (low + Mask(offset) * v) / Mask(offset) == v by {
      if offset == 1 { assert (low + 0x100 * v) / 0x100 == v; }
      if offset == 2 { assert (low + 0x1_0000 * v) / 0x1_0000 == v; }
    }
  }

  // ----- the match finder

  /** The two stretches agree for exactly n bytes before the limit. */
  ghost predicate MatchLength(s: seq<byte>, s1: nat, s2: nat, limit: nat, n: nat) {
    && s1 < s2 && s2 + n <= limit <= |s|
    && s[s1..s1+n] == s[s2..s2+n]
    && (s2 + n < limit ==> s[s1+n] != s[s2+n])
  }

  lemma MatchAppend(s: seq<byte>, s1: nat, s2: nat, n: nat, m: nat)
    requires s1 < s2 && s2 + n + m <= |s|
    requires s[s1..s1+n] == s[s2..s2+n] && s[s1+n..s1+n+m] == s[s2+n..s2+n+m]
    ensures s[s1..s1+n+m] == s[s2..s2+n+m]
  {
    assert s[s1..s1+n+m] == s[s1..s1+n] + s[s1+n..s1+n+m];
    assert s[s2..s2+n+m] == s[s2..s2+n] + s[s2+n..s2+n+m];
  }

  /** A differing pair of words ends the match inside it. */
  lemma MatchEnds(s: seq<byte>, s1: nat, s2: nat, limit: nat, n: nat)
    requires s1 < s2 && s2 + n + 8 <= limit <= |s|
    requires s[s1..s1+n] == s[s2..s2+n] && Load64(s, s1 + n) != Load64(s, s2 + n)
    ensures XorBits(Load64(s, s1 + n), Load64(s, s2 + n), 64) > 0
    ensures var j := FindLSBSetNonZero(XorBits(Load64(s, s1 + n), Load64(s, s2 + n), 64)) / 8;
            j < 8 && MatchLength(s, s1, s2, limit, n + j)
  {
    hide LittleEndian, XorBits, FindLSBSetNonZero, Load64;
    var u, v := s[s1+n..s1+n+8], s[s2+n..s2+n+8];
    Load64Bytes(s, s1 + n);
    Load64Bytes(s, s2 + n);
    FirstDifference(u, v);
    var j := FindLSBSetNonZero(XorBits(Load64(s, s1 + n), Load64(s, s2 + n), 64)) / 8;
    SliceOfSlice(s, s1 + n, s1 + n + 8, 0, j);
    SliceOfSlice(s, s2 + n, s2 + n + 8, 0, j);
    assert u[..j] == u[0..j] && v[..j] == v[0..j];
    MatchAppend(s, s1, s2, n, j);
  }

  method FindMatchLength(s: seq<byte>, s1: nat, s2: nat, limit: nat) returns (n: nat, lessThan8: bool)
    requires s1 < s2 <= limit <= |s|
    ensures MatchLength(s, s1, s2, limit, n)
    ensures lessThan8 == (n < 8)
  {
    hide XorBits, FindLSBSetNonZero, Load64, Load32, MatchLength;
    var matched := 0;
    if s2 + 8 <= limit {
      var a1, a2 := Load64(s, s1), Load64(s, s2);
      if a1 != a2 {
        MatchEnds(s, s1, s2, limit, 0);
        return FindLSBSetNonZero(XorBits(a1, a2, 64)) / 8, true;
      }
      Load64Equal(s, s1, s2);
      matched := 8;
    }
    while s2 + matched + 8 <= limit
      invariant s2 + matched <= limit && s[s1..s1+matched] == s[s2..s2+matched]
      invariant s2 + 8 <= limit ==> matched >= 8
    {
      if Load64(s, s2 + matched) == Load64(s, s1 + matched) {
        Load64Equal(s, s1 + matched, s2 + matched);
        MatchAppend(s, s1, s2, matched, 8);
        matched := matched + 8;
      } else {
        XorCommutes(Load64(s, s2 + matched), Load64(s, s1 + matched), 64);
        MatchEnds(s, s1, s2, limit, matched);
        return matched + FindLSBSetNonZero(XorBits(Load64(s, s2 + matched), Load64(s, s1 + matched), 64)) / 8, false;
      }
    }
    n := MatchTail(s, s1, s2, limit, matched);
    lessThan8 := n < 8;
  }

  /** The last bytes, one at a time. */
  method MatchTail(s: seq<byte>, s1: nat, s2: nat, limit: nat, start: nat) returns (n: nat)
    requires s1 < s2 && s2 + start <= limit <= |s| && s[s1..s1+start] == s[s2..s2+start]
    ensures MatchLength(s, s1, s2, limit, n)
  {
    n := start;
    while s2 + n < limit
      invariant s2 + n <= limit && s[s1..s1+n] == s[s2..s2+n]
    {
      if s[s1 + n] != s[s2 + n] {
        return;
      }
      MatchAppend(s, s1, s2, n, 1);
      n := n + 1;
    }
  }

  lemma {:induction false} XorCommutes(a: nat, b: nat, n: nat)
    ensures XorBits(a, b, n) == XorBits(b, a, n)
  {
    if n > 0 { XorCommutes(a / 2, b / 2, n - 1); }
  }
}
