/** The fixed-width unsigned integers: limb loops against arithmetic modulo two to the width. */
module BigUint {
  import opened Words
  import opened Limbs
  import opened Shifts

  class BaseUint {
    const pn: array<limb>

    ghost predicate Valid() { pn.Length > 0 }

    ghost function Modulus(): nat { Power(pn.Length) }

    ghost function Value(): nat
      reads pn
    {
      Num(pn[..])
    }

    /** A copy. */
    constructor Copy(b: BaseUint)
      requires b.Valid()
      ensures Valid() && fresh(pn) && pn.Length == b.pn.Length && pn[..] == b.pn[..]
    {
      pn := new limb[b.pn.Length](i requires 0 <= i < b.pn.Length reads b.pn => b.pn[i]);
    }

    constructor Zero(width: nat)
      requires width > 0
      ensures Valid() && fresh(pn) && pn.Length == width && Value() == 0
    {
      pn := new limb[width](_ => 0);
      new;
      NumZeros(pn[..]);
    }

    // ----- sums and differences

    /** Works also when b is this number itself. */
    method AddAssign(b: BaseUint)
      requires Valid() && b.Valid() && pn.Length == b.pn.Length
      modifies pn
      ensures Value() == (old(Value()) + old(b.Value())) % Modulus()
    {
      hide Power, Num;
      ghost var x, y := pn[..], b.pn[..];
      var carry := 0;
      SumStart(x, y);
      for i := 0 to pn.Length
        invariant 0 <= carry <= 1 && pn[i..] == x[i..] && b.pn[i..] == y[i..]
        invariant Num(pn[..i]) + carry * Power(i) == Num(x[..i]) + Num(y[..i])
      {
        assert pn[i] == x[i] && b.pn[i] == y[i];
        var n := carry + pn[i] + b.pn[i];
        AddColumn(Num(pn[..i]), carry, Num(x[..i]), Num(y[..i]), x[i], y[i], Power(i));
        PowerStep(i);
        ghost var done := pn[..i];
        pn[i] := n % BASE;
        carry := n / BASE;
        assert pn[..i+1] == done + [n % BASE];
        NumAppend(done, n % BASE);
        NumNext(x, i);
        NumNext(y, i);
      }
      assert pn[..pn.Length] == pn[..] && x[..pn.Length] == x && y[..pn.Length] == y;
      NumBound(pn[..]);
      Remainder(Value(), carry, Modulus(), Num(x) + Num(y));
    }

    /** The two's complement, as a new number. */
    method Negated() returns (r: BaseUint)
      requires Valid()
      ensures fresh(r) && fresh(r.pn) && r.Valid() && r.pn.Length == pn.Length
      ensures r.Value() == (Modulus() - Value()) % Modulus()
    {
      hide Power, Num;
      r := new BaseUint.Zero(pn.Length);
      NumNone();
      PowerStep(0);
      assert pn[..0] == [] && r.pn[..0] == [];
      for i := 0 to pn.Length
        invariant Num(r.pn[..i]) + Num(pn[..i]) == Power(i) - 1
      {
        ghost var done := r.pn[..i];
        r.pn[i] := BASE - 1 - pn[i];
        assert r.pn[..i+1] == done + [BASE - 1 - pn[i]];
        NumAppend(done, BASE - 1 - pn[i]);
        assert pn[..i+1] == pn[..i] + [pn[i]];
        NumAppend(pn[..i], pn[i]);
        PowerStep(i);
        ComplementColumn(pn[i], Power(i));
      }
      assert r.pn[..pn.Length] == r.pn[..] && pn[..pn.Length] == pn[..];
      r.Increment();
    }

    method SubAssign(b: BaseUint)
      requires Valid() && b.Valid() && pn.Length == b.pn.Length
      modifies pn
      ensures Value() == (old(Value()) - old(b.Value())) % Modulus()
    {
      hide Power, Num;
      var minus := b.Negated();
      ghost var v, w := Value(), b.Value();
      AddAssign(minus);
      AddNegated(v, w, Modulus());
    }

    method Increment()
      requires Valid()
      modifies pn
      ensures Value() == (old(Value()) + 1) % Modulus()
    {
      hide Power, Num;
      ghost var x := pn[..];
      var i := 0;
      FirstUp(x);
      pn[0] := (pn[0] + 1) % BASE;
      assert pn[..1] == [(x[0] + 1) % BASE];
      while pn[i] == 0 && i < pn.Length - 1
        invariant 0 <= i < pn.Length && pn[i+1..] == x[i+1..]
        invariant Num(pn[..i+1]) + (if pn[i] == 0 then Power(i + 1) else 0) == Num(x[..i+1]) + 1
      {
        ghost var done := pn[..i+1];
        i := i + 1;
        assert pn[i] == x[i];
        ghost var up := (x[i] + 1) % BASE;
        pn[i] := (pn[i] + 1) % BASE;
        assert pn[..i+1] == done + [up];
        NumAppend(done, up);
        NumNext(x, i);
        PowerStep(i);
        UpColumn(x[i], Power(i));
      }
      Carried(pn[..], x, i + 1, if pn[i] == 0 then 1 else 0, 1);
    }

    method Decrement()
      requires Valid()
      modifies pn
      ensures Value() == (old(Value()) - 1) % Modulus()
    {
      hide Power, Num;
      ghost var x := pn[..];
      var i := 0;
      FirstDown(x);
      pn[0] := (pn[0] - 1) % BASE;
      assert pn[..1] == [(x[0] - 1) % BASE];
      while pn[i] == BASE - 1 && i < pn.Length - 1
        invariant 0 <= i < pn.Length && pn[i+1..] == x[i+1..]
        invariant Num(pn[..i+1]) - (if pn[i] == BASE - 1 then Power(i + 1) else 0) == Num(x[..i+1]) - 1
      {
        ghost var done := pn[..i+1];
        i := i + 1;
        assert pn[i] == x[i];
        ghost var down := (x[i] - 1) % BASE;
        pn[i] := (pn[i] - 1) % BASE;
        assert pn[..i+1] == done + [down];
        NumAppend(done, down);
        NumNext(x, i);
        PowerStep(i);
        DownColumn(x[i], Power(i));
      }
      Carried(pn[..], x, i + 1, if pn[i] == BASE - 1 then -1 else 0, -1);
    }

    // ----- shifts

    method Clear()
      modifies pn
      ensures forall j :: 0 <= j < pn.Length ==> pn[j] == 0
    {
      for i := 0 to pn.Length
        invariant forall j :: 0 <= j < i ==> pn[j] == 0
      {
        pn[i] := 0;
      }
    }

    method ShiftLeft(shift: nat)
      requires Valid()
      modifies pn
      ensures Value() == (old(Value()) * Pow2(shift)) % Modulus()
    {
      hide Power, Num, Pow2, LeftLow, LeftHigh, Or;
      var a := pn[..];
      Clear();
      var k, s := shift / 32, shift % 32;
      for i := 0 to pn.Length
        invariant forall j :: 0 <= j < pn.Length && j < i + k ==> LeftLimb(a, k, s, j, pn[j])
        invariant i + k < pn.Length ==> pn[i+k] == Carry(a, s, i)
        invariant forall j :: i + k < j < pn.Length ==> pn[j] == 0
      {
        OrParts(a[i], Carry(a, s, i), s);
        if i + k + 1 < pn.Length && s != 0 {
          pn[i+k+1] := Or(pn[i+k+1], LeftHigh(a[i], s));
        }
        if i + k < pn.Length {
          pn[i+k] := Or(pn[i+k], LeftLow(a[i], s));
        }
      }
      LeftNum(a, pn[..], k, s);
    }

    method ShiftRight(shift: nat)
      requires Valid()
      modifies pn
      ensures Value() == old(Value()) / Pow2(shift)
    {
      hide Power, Num, Pow2, RightDown, Or;
      var a := pn[..];
      Clear();
      var k, s := shift / 32, shift % 32;
      for i := 0 to pn.Length
        invariant forall j :: 0 <= j < pn.Length && j + k + 1 < i ==> RightLimb(a, k, s, j, pn[j])
        invariant k < i && i - k - 1 < pn.Length ==> pn[i-k-1] == a[i-1] / Pow2(s)
        invariant forall j :: 0 <= j < pn.Length && j + k >= i ==> pn[j] == 0
      {
        if i - k - 1 >= 0 && s != 0 {
          OrDown(a[i-1], a[i], s);
          pn[i-k-1] := Or(pn[i-k-1], RightDown(a[i], s));
        }
        if i - k >= 0 {
          OrNothing(a[i], s);
          pn[i-k] := Or(pn[i-k], a[i] / Pow2(s));
        }
      }
      RightNum(a, pn[..], k, s);
    }

    // ----- order

    method Less(b: BaseUint) returns (r: bool)
      requires Valid() && b.Valid() && pn.Length == b.pn.Length
      ensures r == (Value() < b.Value())
    {
      hide Power, Num;
      var i := pn.Length;
      while i > 0
        invariant 0 <= i <= pn.Length && pn[i..] == b.pn[i..]
      {
        i := i - 1;
        if pn[i] < b.pn[i] {
          TopDecides(pn[..], b.pn[..], i);
          return true;
        } else if pn[i] > b.pn[i] {
          TopDecides(b.pn[..], pn[..], i);
          return false;
        }
      }
      assert pn[..] == pn[0..] && b.pn[..] == b.pn[0..];
      return false;
    }

    method LessOrEqual(b: BaseUint) returns (r: bool)
      requires Valid() && b.Valid() && pn.Length == b.pn.Length
      ensures r == (Value() <= b.Value())
    {
      hide Power, Num;
      var i := pn.Length;
      while i > 0
        invariant 0 <= i <= pn.Length && pn[i..] == b.pn[i..]
      {
        i := i - 1;
        if pn[i] < b.pn[i] {
          TopDecides(pn[..], b.pn[..], i);
          return true;
        } else if pn[i] > b.pn[i] {
          TopDecides(b.pn[..], pn[..], i);
          return false;
        }
      }
      assert pn[..] == pn[0..] && b.pn[..] == b.pn[0..];
      return true;
    }

    method Equal(b: BaseUint) returns (r: bool)
      requires Valid() && b.Valid() && pn.Length == b.pn.Length
      ensures r == (Value() == b.Value())
    {
      hide Power, Num;
      for i := 0 to pn.Length
        invariant pn[..i] == b.pn[..i]
      {
        if pn[i] != b.pn[i] {
          Different(pn[..], b.pn[..]);
          return false;
        }
      }
      assert pn[..] == pn[..pn.Length] && b.pn[..] == b.pn[..pn.Length];
      return true;
    }
  }

  // ----- or as a sum

  lemma OrParts(x: limb, carry: limb, s: nat)
    requires s < 32 && carry < Pow2(s)
    ensures Or(0, LeftHigh(x, s)) == LeftHigh(x, s) && (s == 0 ==> LeftHigh(x, s) == 0)
    ensures Or(carry, LeftLow(x, s)) == LeftLow(x, s) + carry
  {
    hide Pow2, Or;
    LeftSplit(x, s);
    OrAdds(carry, x % Pow2(32 - s), s);
    OrWithZero(LeftHigh(x, s));
    if s == 0 { Pow2Zero(); }
  }

  lemma OrWithZero(x: limb)
    ensures Or(0, x) == x
  {
    PowerStep(0);
    OrZero(x, 32);
  }

  lemma OrDown(x: limb, next: limb, s: nat)
    requires 0 < s < 32
    ensures 0 <= x / Pow2(s) < BASE && Or(x / Pow2(s), RightDown(next, s)) == x / Pow2(s) + RightDown(next, s)
  {
    hide Pow2, Or;
    LeftSplit(next, 32 - s);
    LeftSplit(x, 32 - s);
    OrAdds(x / Pow2(s), next % Pow2(s), 32 - s);
  }

  lemma OrNothing(x: limb, s: nat)
    requires s < 32
    ensures 0 <= x / Pow2(s) < BASE && Or(0, x / Pow2(s)) == x / Pow2(s)
  {
    hide Pow2, Or;
    LeftSplit(x, 32 - s);
    QuotientAtMost(x, Pow2(s));
    OrWithZero(x / Pow2(s));
  }

  lemma QuotientAtMost(x: nat, p: nat)
    requires p > 0
    ensures 0 <= x / p <= x
  {
    var q := x / p;
    assert x == q * p + x % p;
    if q < 0 { MulLe(q, -1, p); } else { MulLe(1, p, q); }
  }

  // ----- columns

  lemma SumStart(x: seq<limb>, y: seq<limb>)
    ensures Num(x[..0]) == 0 && Num(y[..0]) == 0 && Num([]) == 0
  {
    assert x[..0] == [] && y[..0] == [];
  }

  lemma NumNext(x: seq<limb>, i: nat)
    requires i < |x|
    ensures Num(x[..i+1]) == Num(x[..i]) + x[i] * Power(i)
  {
    hide Power, Num;
    assert x[..i+1] == x[..i] + [x[i]];
    NumAppend(x[..i], x[i]);
  }

  lemma ComplementColumn(a: int, p: int)
    ensures (BASE - 1 - a) * p + a * p == BASE * p - p
  {
    Times(BASE - 1 - a, a, p);
  }

  lemma UpColumn(a: limb, p: int)
    ensures var up := (a + 1) % BASE; up * p + (if up == 0 then BASE * p else 0) == a * p + p
  {
    Times(a, 1, p);
  }

  lemma DownColumn(a: limb, p: int)
    ensures var down := (a - 1) % BASE; down * p - (if down == BASE - 1 then BASE * p else 0) == a * p - p
  {
    Times(a, -1, p);
    Times(BASE - 1, 1, p);
  }

  lemma NumOne(a: limb)
    ensures Num([a]) == a
  {
    hide Power;
    PowerStep(0);
    assert [] + [a] == [a];
    NumAppend([], a);
    NumNone();
  }

  lemma FirstUp(x: seq<limb>)
    requires x != []
    ensures var up := (x[0] + 1) % BASE; Num([up]) + (if up == 0 then Power(1) else 0) == Num(x[..1]) + 1
  {
    hide Power, Num;
    assert x[..1] == [x[0]];
    NumOne(x[0]);
    NumOne((x[0] + 1) % BASE);
    PowerStep(0);
  }

  lemma FirstDown(x: seq<limb>)
    requires x != []
    ensures var down := (x[0] - 1) % BASE; Num([down]) - (if down == BASE - 1 then Power(1) else 0) == Num(x[..1]) - 1
  {
    hide Power, Num;
    assert x[..1] == [x[0]];
    NumOne(x[0]);
    NumOne((x[0] - 1) % BASE);
    PowerStep(0);
  }

  /** Only a carry out of the top is lost. */
  lemma Carried(s: seq<limb>, x: seq<limb>, i: nat, carry: int, d: int)
    requires |s| == |x| && 0 < i <= |s| && s[i..] == x[i..] && Num(s[..i]) + carry * Power(i) == Num(x[..i]) + d
    requires i < |s| ==> carry == 0
    ensures Num(s) == (Num(x) + d) % Power(|s|)
  {
    hide Power, Num;
    NumSplit(s, i);
    NumSplit(x, i);
    NumBound(s);
    if i == |s| { assert s[i..] == []; }
    Remainder(Num(s), carry, Power(|s|), Num(x) + d);
  }

  lemma AddNegated(v: nat, w: nat, m: nat)
    requires m > 0
    ensures (v + (m - w) % m) % m == (v - w) % m
  {
    var a, c := (m - w) % m, (m - w) / m;
    assert m - w == c * m + a;
    var t := v + a;
    var r, q := t % m, t / m;
    assert t == q * m + r;
    Collect(q, c, m);
    Remainder(r, q + c - 1, m, v - w);
  }

  lemma Collect(q: int, c: int, m: int)
    ensures (q + c - 1) * m == q * m + c * m - m
  {
  }

  /** With equal limbs above, the first different limb from the top decides. */
  lemma TopDecides(s: seq<limb>, t: seq<limb>, i: nat)
    requires |s| == |t| && i < |s| && s[i+1..] == t[i+1..] && s[i] < t[i]
    ensures Num(s) < Num(t)
  {
    hide Power, Num;
    NumSplit(s, i + 1);
    NumSplit(t, i + 1);
    NumNext(s, i);
    NumNext(t, i);
    NumBound(s[..i]);
    MulLe(s[i] + 1, t[i], Power(i));
    Times(s[i], 1, Power(i));
  }

  lemma {:induction false} Different(s: seq<limb>, t: seq<limb>)
    requires |s| == |t| && s != t
    ensures Num(s) != Num(t)
  {
    hide Power, Num;
    var i := |s| - 1;
    if s[i] == t[i] {
      assert s == s[..i] + [s[i]] && t == t[..i] + [t[i]];
      Different(s[..i], t[..i]);
      NumAppend(s[..i], s[i]);
      NumAppend(t[..i], t[i]);
    } else if s[i] < t[i] {
      TopDecides(s, t, i);
    } else {
      TopDecides(t, s, i);
    }
  }
}
