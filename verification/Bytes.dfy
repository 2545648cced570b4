/** Bytes and little-endian numbers. */
module Bytes {
  import opened Words

  type byte = x: int | 0 <= x < 256

  function LittleEndian(s: seq<byte>): nat {
    if s == [] then 0 else s[0] + 256 * LittleEndian(s[1..])
  }

  /** The n lowest bytes of x, lowest first. */
  function ToBytes(x: nat, n: nat): (s: seq<byte>)
    ensures |s| == n
  {
    if n == 0 then [] else [x % 256] + ToBytes(x / 256, n - 1)
  }

  lemma Pow2Bytes(n: nat)
    ensures Pow2(8 * (n + 1)) == 256 * Pow2(8 * n)
  {
    hide Pow2;
    Pow2Byte();
    Pow2Add(8, 8 * n);
  }

  lemma {:induction false} ToBytesBack(x: nat, n: nat)
    requires x < Pow2(8 * n)
    ensures LittleEndian(ToBytes(x, n)) == x
  {
    if n > 0 {
      Pow2Bytes(n - 1);
      hide Pow2;
      ToBytesBack(x / 256, n - 1);
      assert ToBytes(x, n)[1..] == ToBytes(x / 256, n - 1);
    }
  }

  lemma {:induction false} FromBytesBack(s: seq<byte>)
    ensures LittleEndian(s) < Pow2(8 * |s|) && ToBytes(LittleEndian(s), |s|) == s
  {
    if s != [] {
      Pow2Bytes(|s| - 1);
      hide Pow2;
      FromBytesBack(s[1..]);
      assert s == [s[0]] + s[1..];
    }
  }

  lemma SliceOfSlice(s: seq<byte>, a: nat, b: nat, i: nat, j: nat)
    requires a <= b <= |s| && i <= j <= b - a
    ensures s[a..b][i..j] == s[a+i..a+j]
  {
    var t, x, y := s[a..b], s[a..b][i..j], s[a+i..a+j];
    assert |x| == |y|;
    forall k | 0 <= k < |x| ensures x[k] == y[k] { assert x[k] == t[i+k]; }
  }
}
