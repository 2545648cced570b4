/** Integer polynomials, their divided differences at integer nodes, and Newton's form at zero.
    Divided differences of an integer polynomial at integer nodes are integers, so every identity
    here is exact; reduction modulo the group order happens only where the code reduces. */
module Polynomials {

  /** Coefficients, constant term first. */
  type Poly = seq<int>

  function Eval(f: Poly, x: int): int {
    if f == [] then 0 else f[0] + x * Eval(f[1..], x)
  }

  /** The quotient of f - f(u) by x - u (synthetic division). */
  function Quot(f: Poly, u: int): (g: Poly)
    ensures |g| == if f == [] then 0 else |f| - 1
  {
    if |f| <= 1 then [] else [Eval(f[1..], u)] + Quot(f[1..], u)
  }

  lemma HornerStep(c: int, x: int, u: int, e: int, q: int)
    ensures c + x * (e + (x - u) * q) == c + u * e + (x - u) * (e + x * q)
  {
    assert x * ((x - u) * q) == (x - u) * (x * q);
    assert x * e == u * e + (x - u) * e;
  }

  lemma {:induction false} QuotRemainder(f: Poly, u: int, x: int)
    ensures Eval(f, x) == Eval(f, u) + (x - u) * Eval(Quot(f, u), x)
  {
    if |f| == 1 {
      assert f[1..] == [];
    } else if |f| > 1 {
      var t := f[1..];
      QuotRemainder(t, u, x);
      var e, q := Eval(t, u), Quot(t, u);
      assert Quot(f, u)[1..] == q;
      assert Eval(Quot(f, u), x) == e + x * Eval(q, x);
      assert Eval(f, x) == f[0] + x * (e + (x - u) * Eval(q, x));
      HornerStep(f[0], x, u, e, Eval(q, x));
    }
  }

  /** (x - a) * g + c */
  function Shifted(g: Poly, a: int, c: int): (f: Poly)
    ensures |f| == |g| + 1
  {
    if g == [] then [c] else [c - a * g[0]] + Shifted(g[1..], a, g[0])
  }

  lemma ShiftStep(c: int, a: int, g: int, x: int, e: int)
    ensures c - a * g + x * ((x - a) * e + g) == (x - a) * (g + x * e) + c
  {
    assert x * ((x - a) * e) == (x - a) * (x * e);
    assert x * g - a * g == (x - a) * g;
  }

  lemma {:induction false} EvalShifted(g: Poly, a: int, c: int, x: int)
    ensures Eval(Shifted(g, a, c), x) == (x - a) * Eval(g, x) + c
  {
    if g == [] {
      assert [c][1..] == [];
    } else {
      EvalShifted(g[1..], a, g[0], x);
      assert Shifted(g, a, c)[1..] == Shifted(g[1..], a, g[0]);
      var e := Eval(g[1..], x);
      assert Eval(Shifted(g, a, c), x) == c - a * g[0] + x * ((x - a) * e + g[0]);
      ShiftStep(c, a, g[0], x, e);
    }
  }

  lemma {:induction false} QuotShifted(g: Poly, a: int, c: int, u: int)
    requires g != []
    ensures Quot(Shifted(g, a, c), u) == Shifted(Quot(g, u), a, Eval(g, u))
  {
    var t := g[1..];
    assert Shifted(g, a, c)[1..] == Shifted(t, a, g[0]);
    EvalShifted(t, a, g[0], u);
    if t == [] {
      assert Quot(Shifted(g, a, c), u) == [g[0]];
    } else {
      QuotShifted(t, a, g[0], u);
      var q := Quot(g, u);
      assert q[0] == Eval(t, u) && q[1..] == Quot(t, u);
      var e := Eval(t, u);
      assert (u - a) * e + g[0] == g[0] + u * e - a * e;
      assert Shifted(q, a, Eval(g, u)) == [Eval(g, u) - a * e] + Shifted(Quot(t, u), a, e);
    }
  }

  /** Dividing (x - a) * g + c by x - a gives g back. */
  lemma {:induction false} ShiftedOfQuot(f: Poly, a: int)
    requires f != []
    ensures f == Shifted(Quot(f, a), a, Eval(f, a))
  {
    var t := f[1..];
    if t == [] {
      assert f == [f[0]];
    } else {
      ShiftedOfQuot(t, a);
      var q := Quot(f, a);
      assert q[0] == Eval(t, a) && q[1..] == Quot(t, a);
      assert f == [f[0]] + t;
    }
  }

  // ----- divided differences

  /** f[s0, ..., sn]: divide out the nodes from the left and evaluate at the last one. */
  function Divided(f: Poly, s: seq<int>): int
    requires s != []
    decreases |s|
  {
    if |s| == 1 then Eval(f, s[0]) else Divided(Quot(f, s[0]), s[1..])
  }

  lemma {:induction false} DividedEmpty(s: seq<int>)
    requires s != []
    ensures Divided([], s) == 0
    decreases |s|
  {
    if |s| > 1 { DividedEmpty(s[1..]); }
  }

  /** Leibniz' rule for a linear factor. */
  lemma {:induction false} DividedShifted(g: Poly, a: int, c: int, s: seq<int>)
    requires |s| >= 2
    ensures Divided(Shifted(g, a, c), s) == (s[|s|-1] - a) * Divided(g, s) + Divided(g, s[..|s|-1])
    decreases |s|
  {
    var u, t, n := s[0], s[1..], |s|;
    if g == [] {
      assert Quot([c], u) == [];
      DividedEmpty(t);
      DividedEmpty(s);
      DividedEmpty(s[..n-1]);
    } else {
      QuotShifted(g, a, c, u);
      var h := Quot(g, u);
      if n == 2 {
        EvalShifted(h, a, Eval(g, u), t[0]);
        assert s[..1] == [u];
      } else {
        DividedShifted(h, a, Eval(g, u), t);
        assert s[..n-1][1..] == t[..n-2];
      }
    }
  }

  /** The recurrence the difference table is filled by. */
  lemma DividedStep(f: Poly, s: seq<int>)
    requires |s| >= 2
    ensures Divided(f, s[1..]) - Divided(f, s[..|s|-1]) == (s[|s|-1] - s[0]) * Divided(f, s)
  {
    var a, t, n := s[0], s[1..], |s|;
    var g := Quot(f, a);
    var init := s[..n-1];
    assert init[0] == a;
    if f == [] {
      DividedEmpty(t);
      DividedEmpty(init);
      DividedEmpty(s);
    } else {
      ShiftedOfQuot(f, a);
      if n == 2 {
        EvalShifted(g, a, Eval(f, a), t[0]);
      } else {
        DividedShifted(g, a, Eval(f, a), t);
        assert init[1..] == t[..n-2];
      }
    }
  }

  // ----- Newton's form at zero

  /** (0 - s0) * ... * (0 - s(k-1)) */
  function Basis(s: seq<int>, k: nat): int
    requires k <= |s|
  {
    if k == 0 then 1 else Basis(s, k - 1) * -s[k-1]
  }

  /** The first k terms of Newton's form at zero. */
  function NewtonSum(f: Poly, s: seq<int>, k: nat): int
    requires k <= |s|
  {
    if k == 0 then 0 else NewtonSum(f, s, k - 1) + Basis(s, k - 1) * Divided(f, s[..k])
  }

  lemma {:induction false} BasisShift(s: seq<int>, k: nat)
    requires 1 <= k <= |s|
    ensures Basis(s, k) == -s[0] * Basis(s[1..], k - 1)
  {
    if k > 1 {
      BasisShift(s, k - 1);
      var b, x := Basis(s[1..], k - 2), s[k-1];
      assert s[1..][k-2] == x;
      assert (-s[0] * b) * -x == -s[0] * (b * -x);
    }
  }

  lemma NewtonStep(e: int, x: int, m: int, b: int, d: int)
    ensures e - x * m + (-x * b) * d == e - x * (m + b * d)
  {
    assert (-x * b) * d == -x * (b * d);
  }

  lemma {:induction false} NewtonShift(f: Poly, s: seq<int>, k: nat)
    requires 1 <= k <= |s|
    ensures NewtonSum(f, s, k) == Eval(f, s[0]) - s[0] * NewtonSum(Quot(f, s[0]), s[1..], k - 1)
  {
    if k == 1 {
      assert s[..1] == [s[0]];
    } else {
      NewtonShift(f, s, k - 1);
      BasisShift(s, k - 1);
      var g, t := Quot(f, s[0]), s[1..];
      assert s[..k][1..] == t[..k-1];
      var d, b, m := Divided(g, t[..k-1]), Basis(t, k - 2), NewtonSum(g, t, k - 2);
      assert NewtonSum(g, t, k - 1) == m + b * d;
      NewtonStep(Eval(f, s[0]), s[0], m, b, d);
    }
  }

  /** Newton's form with at least as many nodes as coefficients is exact. */
  lemma {:induction false} NewtonExact(f: Poly, s: seq<int>, k: nat)
    requires |f| <= k <= |s|
    ensures NewtonSum(f, s, k) == Eval(f, 0)
    decreases k
  {
    if k > 0 {
      NewtonShift(f, s, k);
      NewtonExact(Quot(f, s[0]), s[1..], k - 1);
      QuotRemainder(f, s[0], 0);
    }
  }

  // ----- sums and products, for the Lagrange form

  function Sum(f: Poly, g: Poly): (h: Poly)
    ensures |h| == if |f| < |g| then |g| else |f|
  {
    if f == [] then g else if g == [] then f else [f[0] + g[0]] + Sum(f[1..], g[1..])
  }

  lemma {:induction false} EvalSum(f: Poly, g: Poly, x: int)
    ensures Eval(Sum(f, g), x) == Eval(f, x) + Eval(g, x)
  {
    if f != [] && g != [] {
      EvalSum(f[1..], g[1..], x);
      assert Sum(f, g)[1..] == Sum(f[1..], g[1..]);
      assert x * (Eval(f[1..], x) + Eval(g[1..], x)) == x * Eval(f[1..], x) + x * Eval(g[1..], x);
    }
  }

  function Scale(f: Poly, c: int): (h: Poly)
    ensures |h| == |f|
  {
    if f == [] then [] else [c * f[0]] + Scale(f[1..], c)
  }

  lemma {:induction false} EvalScale(f: Poly, c: int, x: int)
    ensures Eval(Scale(f, c), x) == c * Eval(f, x)
  {
    if f != [] {
      EvalScale(f[1..], c, x);
      assert Scale(f, c)[1..] == Scale(f[1..], c);
      assert x * (c * Eval(f[1..], x)) == c * (x * Eval(f[1..], x));
    }
  }
}
