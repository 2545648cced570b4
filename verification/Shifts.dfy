/** What the limbs of a shifted number denote. */
module Shifts {
  import opened Words
  import opened Limbs

  // ----- one limb, shifted by fewer than 32 places

  /** What stays in a limb shifted left, and what goes to the next. */
  function LeftLow(x: limb, s: nat): limb
    requires s <= 32
  {
    x * Pow2(s) % BASE
  }

  function LeftHigh(x: limb, s: nat): (r: limb)
    requires s < 32
    ensures r < Pow2(s)
  {
    LeftSplit(x, s);
    x / Pow2(32 - s)
  }

  lemma LeftSplit(x: limb, s: nat)
    requires s <= 32
    ensures var p, q := Pow2(s), Pow2(32 - s);
            && p * q == BASE && 0 <= x / q < p && x * p % BASE == p * (x % q)
            && x * p == p * (x % q) + BASE * (x / q) && 0 <= x % q < q
  {
    hide Pow2;
    PowerStep(0);
    var p, q := Pow2(s), Pow2(32 - s);
    Pow2Add(s, 32 - s);
    var h, l := x / q, x % q;
    assert x == h * q + l;
    QuotientBelow(x, p, q);
    ProductBelow(l, q, p);
    Expand(h, q, l, p);
    Remainder(p * l, h, BASE, x * p);
  }

  lemma Expand(h: int, q: int, l: int, p: int)
    ensures (h * q + l) * p == p * l + h * (p * q)
  {
    assert (h * q) * p == h * (p * q);
  }

  lemma QuotientBelow(x: nat, p: nat, q: nat)
    requires p > 0 && q > 0 && x < p * q
    ensures x / q < p
  {
    var h := x / q;
    assert x == h * q + x % q;
    if h >= p { MulLe(p, h, q); }
  }

  // ----- left

  function Carry(a: seq<limb>, s: nat, m: nat): limb
    requires m <= |a| && s < 32
  {
    if m == 0 then 0 else LeftHigh(a[m-1], s)
  }

  /** Limb j of the number shifted left by k limbs and s places, if it still fits. */
  ghost predicate LeftLimb(a: seq<limb>, k: nat, s: nat, j: nat, x: int)
    requires j < |a| && s < 32
  {
    x == if j < k then 0 else LeftLow(a[j-k], s) + Carry(a, s, j - k)
  }

  lemma {:induction false} LeftPartial(a: seq<limb>, r: seq<limb>, k: nat, s: nat, m: nat)
    requires |r| == |a| && k + m <= |a| && s < 32 && forall j :: 0 <= j < |a| ==> LeftLimb(a, k, s, j, r[j])
    ensures Num(r[..k+m]) + Carry(a, s, m) * Power(k + m) == Pow2(s) * Power(k) * Num(a[..m])
  {
    hide Power, Num, Pow2, LeftLow, LeftHigh;
    if m == 0 {
      NumZeros(r[..k]);
      assert a[..0] == [];
      NumNone();
    } else {
      var n := m - 1;
      LeftPartial(a, r, k, s, n);
      assert LeftLimb(a, k, s, k + n, r[k+n]);
      assert r[..k+m] == r[..k+n] + [r[k+n]] && a[..m] == a[..n] + [a[n]];
      NumAppend(r[..k+n], r[k+n]);
      NumAppend(a[..n], a[n]);
      PowerStep(k + n);
      PowerAdd(k, n);
      LimbParts(a[n], s);
      LeftColumn(Num(r[..k+n]), Carry(a, s, n), LeftLow(a[n], s), LeftHigh(a[n], s), Power(k + n), Power(k), Power(n),
                 Pow2(s), Num(a[..n]), a[n]);
    }
  }

  lemma LimbParts(x: limb, s: nat)
    requires s < 32
    ensures LeftLow(x, s) + BASE * LeftHigh(x, s) == x * Pow2(s)
  {
    hide Pow2;
    LeftSplit(x, s);
  }

  lemma LeftColumn(num: int, carry: int, low: int, high: int, pkn: int, pk: int, pn: int, p: int, an: int, x: int)
    requires num + carry * pkn == p * pk * an && low + BASE * high == x * p && pkn == pk * pn
    ensures num + (low + carry) * pkn + high * (BASE * pkn) == p * pk * (an + x * pn)
  {
    Times(low, carry, pkn);
    assert high * (BASE * pkn) == (BASE * high) * pkn;
    Times(low, BASE * high, pkn);
    assert (x * p) * (pk * pn) == p * pk * (x * pn) by { Reorder(x, p, pk, pn); }
    Times2(p * pk, an, x * pn);
  }

  lemma Reorder(x: int, p: int, a: int, b: int)
    ensures (x * p) * (a * b) == p * a * (x * b)
  {
    assert (x * p) * (a * b) == x * (p * (a * b));
    assert p * (a * b) == (p * a) * b;
    assert x * ((p * a) * b) == (p * a) * (x * b);
  }

  lemma Times2(p: int, a: int, b: int)
    ensures p * (a + b) == p * a + p * b
  {
  }

  /** Shifting left multiplies, modulo the width. */
  lemma LeftNum(a: seq<limb>, r: seq<limb>, k: nat, s: nat)
    requires |r| == |a| && s < 32 && forall j :: 0 <= j < |a| ==> LeftLimb(a, k, s, j, r[j])
    ensures Num(r) == (Num(a) * Pow2(32 * k + s)) % Power(|a|)
  {
    hide Power, Num, Pow2, LeftLow, LeftHigh, Carry;
    var w, p := |a|, Pow2(s);
    WholePower(k, s);
    NumBound(r);
    if k <= w {
      var m := w - k;
      LeftPartial(a, r, k, s, m);
      assert r[..k+m] == r;
      NumSplit(a, m);
      PowerAdd(k, m);
      LeftWhole(Num(r), Carry(a, s, m), Power(w), p, Power(k), Power(m), Num(a[..m]), Num(a[m..]));
      Remainder(Num(r), Carry(a, s, m) + p * Num(a[m..]), Power(w), Num(a) * Pow2(32 * k + s));
    } else {
      NumZeros(r);
      PowerAdd(k - w, w);
      assert Num(a) * (p * (Power(k - w) * Power(w))) == (Num(a) * p * Power(k - w)) * Power(w) by {
        Gather(Num(a), p, Power(k - w), Power(w));
      }
      Remainder(0, Num(a) * p * Power(k - w), Power(w), Num(a) * Pow2(32 * k + s));
    }
  }

  lemma WholePower(k: nat, s: nat)
    ensures Pow2(32 * k + s) == Pow2(s) * Power(k)
  {
    hide Pow2;
    Pow2Add(32 * k, s);
  }

  lemma Gather(n: int, p: int, a: int, b: int)
    ensures n * (p * (a * b)) == (n * p * a) * b
  {
    assert p * (a * b) == (p * a) * b;
    assert n * ((p * a) * b) == (n * (p * a)) * b;
    assert n * (p * a) == n * p * a;
  }

  lemma LeftWhole(num: int, c: int, pw: int, p: int, pk: int, pm: int, low: int, high: int)
    requires num + c * pw == p * pk * low && pw == pk * pm
    ensures (low + pm * high) * (p * pk) == num + (c + p * high) * pw
  {
    Times(low, pm * high, p * pk);
    assert low * (p * pk) == p * pk * low;
    assert (pm * high) * (p * pk) == (p * high) * (pk * pm) by { Commute(pm, high, p, pk); }
    Times(c, p * high, pw);
  }

  lemma Commute(m: int, h: int, p: int, k: int)
    ensures (m * h) * (p * k) == (p * h) * (k * m)
  {
    assert (m * h) * (p * k) == m * (h * (p * k));
    assert h * (p * k) == (p * h) * k;
    assert m * ((p * h) * k) == (p * h) * (k * m);
  }

  // ----- right

  /** The low bits a limb hands down, in their new place. */
  function RightDown(x: limb, s: nat): limb
    requires s <= 32
  {
    LeftLow(x, 32 - s)
  }

  ghost predicate RightLimb(a: seq<limb>, k: nat, s: nat, j: nat, x: int)
    requires s < 32
  {
    x == (if j + k < |a| then a[j+k] / Pow2(s) else 0)
         + (if s != 0 && j + k + 1 < |a| then RightDown(a[j+k+1], s) else 0)
  }

  /** The bits of limb i that a shift by s places cuts off. */
  function CutOff(a: seq<limb>, s: nat, i: nat): nat {
    if i < |a| then a[i] % Pow2(s) else 0
  }

  /** What the limbs from m on denote, in terms of the shifted limbs from m on. */
  lemma {:induction false} RightPartial(a: seq<limb>, r: seq<limb>, k: nat, s: nat, m: nat)
    requires |r| == |a| && k <= |a| && m <= |a| - k && s < 32
    requires forall j :: 0 <= j < |a| ==> RightLimb(a, k, s, j, r[j])
    ensures Num(a[k+m..]) == CutOff(a, s, k + m) + Pow2(s) * Num(r[m..])
    decreases |a| - m
  {
    hide Num, Pow2, CutOff, RightLimb;
    if k + m == |a| {
      RightNothing(a, r, k, s, m);
    } else {
      RightPartial(a, r, k, s, m + 1);
      NumLow(a[k+m..]);
      NumLow(r[m..]);
      assert a[k+m..][1..] == a[k+m+1..] && r[m..][1..] == r[m+1..];
      RightStep(a, k, s, m, r[m], Num(r[m+1..]));
    }
  }

  lemma RightNothing(a: seq<limb>, r: seq<limb>, k: nat, s: nat, m: nat)
    requires |r| == |a| && k + m == |a| && s < 32 && forall j :: 0 <= j < |a| ==> RightLimb(a, k, s, j, r[j])
    ensures Num(a[k+m..]) == 0 && Num(r[m..]) == 0 && CutOff(a, s, k + m) == 0
  {
    hide Num, Pow2, RightDown;
    assert a[k+m..] == [];
    NumNone();
    forall j | 0 <= j < |r[m..]| ensures r[m..][j] == 0 { assert RightLimb(a, k, s, m + j, r[m+j]); }
    NumZeros(r[m..]);
  }

  lemma RightStep(a: seq<limb>, k: nat, s: nat, m: nat, x: int, u: int)
    requires k + m < |a| && s < 32 && RightLimb(a, k, s, m, x)
    ensures a[k+m] + BASE * (CutOff(a, s, k + m + 1) + Pow2(s) * u) == CutOff(a, s, k + m) + Pow2(s) * (x + BASE * u)
  {
    hide Pow2, RightDown;
    var next := if k + m + 1 < |a| then a[k+m+1] else 0;
    ZeroDown(s);
    DownParts(a[k+m], next, s, x);
    RightColumn(a[k+m], next % Pow2(s), Pow2(s), Pow2(32 - s), u, x);
  }

  lemma ZeroDown(s: nat)
    requires s <= 32
    ensures RightDown(0, s) == 0 && 0 % Pow2(s) == 0
  {
    hide Pow2;
    LeftSplit(0, 32 - s);
  }

  lemma DownParts(x: limb, next: limb, s: nat, r: int)
    requires s < 32 && r == x / Pow2(s) + (if s != 0 then RightDown(next, s) else 0)
    ensures r == x / Pow2(s) + Pow2(32 - s) * (next % Pow2(s)) && Pow2(s) * Pow2(32 - s) == BASE
  {
    hide Pow2;
    LeftSplit(next, 32 - s);
    LeftSplit(x, s);
    if s == 0 {
      PowerStep(0);
      Pow2Zero();
      assert next % 1 == 0;
    }
  }

  lemma RightColumn(x: int, low: int, p: int, q: int, u: int, r: int)
    requires p > 0 && p * q == BASE && r == x / p + q * low
    ensures x + BASE * (low + p * u) == x % p + p * (r + BASE * u)
  {
    var h, l := x / p, x % p;
    assert x == p * h + l;
    Times2(BASE, low, p * u);
    Times2(p, h + q * low, BASE * u);
    Times2(p, h, q * low);
    assert p * (q * low) == BASE * low;
    assert p * (BASE * u) == BASE * (p * u);
  }

  /** Shifting right divides, rounding down. */
  lemma RightNum(a: seq<limb>, r: seq<limb>, k: nat, s: nat)
    requires |r| == |a| && s < 32 && forall j :: 0 <= j < |a| ==> RightLimb(a, k, s, j, r[j])
    ensures Num(r) == Num(a) / Pow2(32 * k + s)
  {
    hide Num, Pow2, RightLimb, Power, CutOff;
    var w, p := |a|, Pow2(s);
    WholePower(k, s);
    NumBound(a);
    if k < w {
      RightPartial(a, r, k, s, 0);
      CutOffBound(a, s, k);
      assert r[0..] == r && a[k+0..] == a[k..];
      NumSplit(a, k);
      NumBound(a[..k]);
      Floor(Num(a[..k]), Power(k), CutOff(a, s, k), p, Num(r));
    } else {
      AllShiftedOut(a, r, k, s);
      PowerAdd(k - w, w);
      MulLe(1, Power(k - w), Power(w));
      MulLe(1, p, Power(k));
      SmallQuotient(Num(a), p * Power(k));
    }
  }

  lemma CutOffBound(a: seq<limb>, s: nat, i: nat)
    ensures CutOff(a, s, i) < Pow2(s)
  {
    hide Pow2;
  }

  lemma AllShiftedOut(a: seq<limb>, r: seq<limb>, k: nat, s: nat)
    requires |r| == |a| <= k && s < 32 && forall j :: 0 <= j < |a| ==> RightLimb(a, k, s, j, r[j])
    ensures Num(r) == 0
  {
    hide Num, Pow2;
    forall j | 0 <= j < |r| ensures r[j] == 0 { assert RightLimb(a, k, s, j, r[j]); }
    NumZeros(r);
  }

  lemma SmallQuotient(x: nat, d: nat)
    requires x < d
    ensures x / d == 0
  {
  }

  lemma Floor(low: int, pk: int, l: int, p: int, q: int)
    requires 0 <= low < pk && 0 <= l < p
    ensures (low + pk * (l + p * q)) / (p * pk) == q
  {
    var d, rest := p * pk, low + pk * l;
    MulLe(l + 1, p, pk);
    Times(l, 1, pk);
    assert pk * l == l * pk;
    MulLe(0, l, pk);
    Times2(pk, l, p * q);
    assert pk * (p * q) == q * d;
    assert low + pk * (l + p * q) == rest + q * d;
    Quotient(rest, q, d);
  }

  lemma Quotient(r: int, q: int, d: int)
    requires 0 <= r < d
    ensures (r + q * d) / d == q
  {
    var t := r + q * d;
    Remainder(r, q, d, t);
    assert t == (t / d) * d + r;
    Same(t / d, q, d);
  }

  lemma Same(a: int, b: int, d: int)
    requires d > 0 && a * d == b * d
    ensures a == b
  {
    assert (a - b) * d == 0;
  }
}
