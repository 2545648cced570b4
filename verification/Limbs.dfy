/** Numbers as 32-bit limbs, lowest first, and the arithmetic the limb loops rest on. */
module Limbs {
  import opened Words

  const BASE: int := 0x1_0000_0000

  type limb = x: int | 0 <= x < BASE

  /** The weight of limb n. */
  function Power(n: nat): (r: nat)
    ensures r > 0
  {
    Pow2(32 * n)
  }

  lemma PowerStep(n: nat)
    ensures Power(n + 1) == BASE * Power(n) && Power(0) == 1 && Power(1) == BASE
  {
    hide Pow2;
    Pow2Zero();
    Pow2Byte();
    Pow2Add(8, 8);
    Pow2Add(16, 16);
    Pow2Add(32, 32 * n);
  }

  lemma PowerAdd(m: nat, n: nat)
    ensures Power(m + n) == Power(m) * Power(n)
  {
    hide Pow2;
    Pow2Add(32 * m, 32 * n);
    assert 32 * m + 32 * n == 32 * (m + n);
  }

  /** The number a sequence of limbs denotes. */
  function Num(s: seq<limb>): nat {
    if s == [] then 0
    else
      MulLe(0, s[|s|-1], Power(|s| - 1));
      Num(s[..|s|-1]) + s[|s|-1] * Power(|s| - 1)
  }

  lemma MulLe(a: int, b: int, p: int)
    requires a <= b && 0 <= p
    ensures a * p <= b * p
  {
    assert (b - a) * p >= 0;
  }

  lemma NumAppend(s: seq<limb>, x: limb)
    ensures Num(s + [x]) == Num(s) + x * Power(|s|)
  {
    hide Power;
    assert (s + [x])[..|s|] == s;
  }

  lemma NumNone()
    ensures Num([]) == 0
  {
  }

  lemma {:induction false} NumBound(s: seq<limb>)
    ensures Num(s) < Power(|s|)
  {
    hide Power;
    PowerStep(0);
    if s != [] {
      NumBound(s[..|s|-1]);
      PowerStep(|s| - 1);
      BelowNext(Num(s[..|s|-1]), s[|s|-1], Power(|s| - 1));
    }
  }

  lemma BelowNext(r: int, x: int, p: int)
    requires 0 <= r < p && 0 <= x < BASE
    ensures r + x * p < BASE * p
  {
    MulLe(x, BASE - 1, p);
  }

  /** Lower and upper part. */
  lemma {:induction false} NumSplit(s: seq<limb>, i: nat)
    requires i <= |s|
    ensures Num(s) == Num(s[..i]) + Power(i) * Num(s[i..])
  {
    hide Power;
    if i == |s| {
      assert s[..i] == s && s[i..] == [];
      NumNone();
    } else {
      var n := |s| - 1;
      NumSplit(s[..n], i);
      assert s[..n][..i] == s[..i] && s[i..][..n-i] == s[..n][i..];
      PowerAdd(i, n - i);
      Regroup(Power(i), Num(s[..n][i..]), s[n], Power(n - i));
    }
  }

  lemma Regroup(p: int, u: int, x: int, q: int)
    ensures p * u + x * (p * q) == p * (u + x * q)
  {
  }

  /** The lowest limb and the rest. */
  lemma NumLow(s: seq<limb>)
    requires s != []
    ensures Num(s) == s[0] + BASE * Num(s[1..])
  {
    hide Power;
    NumSplit(s, 1);
    PowerStep(0);
    assert s[..1] == [] + [s[0]];
    NumAppend([], s[0]);
    NumNone();
  }

  lemma {:induction false} NumZeros(s: seq<limb>)
    requires forall i :: 0 <= i < |s| ==> s[i] == 0
    ensures Num(s) == 0
  {
    hide Power;
    if s != [] { NumZeros(s[..|s|-1]); }
  }

  // ----- remainders

  /** A number below the modulus that differs by a multiple of it is the remainder. */
  lemma Remainder(r: int, c: int, m: int, t: int)
    requires 0 <= r < m && t == r + c * m
    ensures t % m == r
  {
    var q, d := t / m, t % m;
    assert t == q * m + d;
    Multiple(c - q, m, d - r);
  }

  lemma Multiple(k: int, m: int, d: int)
    requires m > 0 && d == k * m && -m < d < m
    ensures d == 0
  {
    if k != 0 { BigMultiple(k, m); }
  }

  lemma BigMultiple(k: int, m: int)
    requires m > 0 && k != 0
    ensures k * m >= m || k * m <= -m
  {
    if k > 0 { MulLe(1, k, m); } else { MulLe(k, -1, m); }
  }

  /** One column of an addition. */
  lemma AddColumn(s: int, carry: int, x: int, y: int, a: int, b: int, p: int)
    requires s + carry * p == x + y
    ensures var n := carry + a + b; s + (n % BASE) * p + (n / BASE) * (BASE * p) == x + a * p + (y + b * p)
  {
    var n := carry + a + b;
    var low, high := n % BASE, n / BASE;
    assert n == low + high * BASE;
    assert n * p == low * p + (high * BASE) * p by { Times(low, high * BASE, p); }
    assert n * p == carry * p + a * p + b * p by { Times(carry + a, b, p); Times(carry, a, p); }
    assert (high * BASE) * p == high * (BASE * p);
  }

  lemma Times(a: int, b: int, p: int)
    ensures (a + b) * p == a * p + b * p
  {
  }

  // ----- or of disjoint bits

  function OrBits(a: nat, b: nat, n: nat): (r: nat)
    ensures r < Pow2(n)
  {
    if n == 0 then 0 else 2 * OrBits(a / 2, b / 2, n - 1) + if a % 2 == 0 && b % 2 == 0 then 0 else 1
  }

  function Or(a: limb, b: limb): limb {
    PowerStep(0);
    OrBits(a, b, 32)
  }

  lemma {:induction false} OrDisjointBits(a: nat, b: nat, s: nat, n: nat)
    requires s <= n && a < Pow2(s) && b < Pow2(n - s)
    ensures OrBits(a, Pow2(s) * b, n) == a + Pow2(s) * b
    decreases n
  {
    hide OrBits;
    if s == 0 {
      assert Pow2(0) * b == b;
      OrZero(b, n);
    } else {
      hide Pow2;
      Halved(a, s);
      OrDisjointBits(a / 2, b, s - 1, n - 1);
      var p := Pow2(s - 1) * b;
      assert Pow2(s) * b == 2 * p;
      OrEven(a, p, n);
    }
  }

  lemma Halved(a: nat, s: nat)
    requires s > 0 && a < Pow2(s)
    ensures a / 2 < Pow2(s - 1) && Pow2(s) == 2 * Pow2(s - 1)
  {
  }

  lemma OrEven(a: nat, p: nat, n: nat)
    requires n > 0
    ensures OrBits(a, 2 * p, n) == 2 * OrBits(a / 2, p, n - 1) + a % 2
  {
    assert (2 * p) / 2 == p && (2 * p) % 2 == 0;
  }

  lemma {:induction false} OrZero(b: nat, n: nat)
    requires b < Pow2(n)
    ensures OrBits(0, b, n) == b && OrBits(b, 0, n) == b
  {
    if n > 0 { OrZero(b / 2, n - 1); }
  }

  /** Or adds a part below 2^s and a multiple of 2^s, either way round. */
  lemma OrAdds(a: limb, b: nat, s: nat)
    requires s <= 32 && a < Pow2(s) && b < Pow2(32 - s)
    ensures 0 <= Pow2(s) * b < BASE && Or(a, Pow2(s) * b) == a + Pow2(s) * b && Or(Pow2(s) * b, a) == a + Pow2(s) * b
  {
    hide Pow2, OrBits;
    PowerStep(0);
    Pow2Add(s, 32 - s);
    ProductBelow(b, Pow2(32 - s), Pow2(s));
    OrDisjointBits(a, b, s, 32);
    OrCommutes(a, Pow2(s) * b, 32);
  }

  lemma ProductBelow(b: nat, q: nat, p: nat)
    requires b < q && p > 0
    ensures 0 <= p * b < p * q
  {
    assert p * (q - b) > 0;
  }

  lemma {:induction false} OrCommutes(a: nat, b: nat, n: nat)
    ensures OrBits(a, b, n) == OrBits(b, a, n)
  {
    if n > 0 { OrCommutes(a / 2, b / 2, n - 1); }
  }
}
