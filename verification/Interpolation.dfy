/** Recovery of f(0) from shares: the Lagrange and the Newton form, both over the inverse table. */
module Interpolation {
  import opened Scalars
  import opened Polynomials

  datatype Share = Share(x: nat, y: nat)

  function Nodes(shares: seq<Share>): (xs: seq<int>)
    ensures |xs| == |shares|
    ensures forall i :: 0 <= i < |xs| ==> xs[i] == shares[i].x
  {
    seq(|shares|, i requires 0 <= i < |shares| => shares[i].x)
  }

  /** Every difference of two indices has an entry in the inverse table. */
  ghost predicate InTable(xs: seq<int>) {
    forall i, j :: 0 <= i < |xs| && 0 <= j < |xs| ==> -50 <= xs[i] - xs[j] <= 50
  }

  lemma InTableAt(shares: seq<Share>, i: nat, j: nat)
    requires i < |shares| && j < |shares| && InTable(Nodes(shares))
    ensures -50 <= shares[i].x - shares[j].x <= 50
  {
    assert Nodes(shares)[i] == shares[i].x && Nodes(shares)[j] == shares[j].x;
  }

  ghost predicate Distinct(xs: seq<int>) {
    forall i, j :: 0 <= i < j < |xs| ==> xs[i] != xs[j]
  }

  /** The shares lie on f, modulo the group order. */
  ghost predicate OnPoly(f: Poly, shares: seq<Share>) {
    forall i :: 0 <= i < |shares| ==> Cong(shares[i].y, Eval(f, shares[i].x))
  }

  // ----- the Lagrange form

  /** Product of x(j) / (x(j) - x(i)) over j < k, j != i, with the table's inverses. */
  function LagrangeFactor(xs: seq<int>, i: nat, k: nat): int
    requires i < |xs| && k <= |xs| && InTable(xs)
  {
    if k == 0 then 1
    else if k - 1 == i then LagrangeFactor(xs, i, k - 1)
    else LagrangeFactor(xs, i, k - 1) * (Inverse(xs[k-1] - xs[i]) * xs[k-1])
  }

  function LagrangeSum(shares: seq<Share>, k: nat): int
    requires k <= |shares| && InTable(Nodes(shares))
  {
    if k == 0 then 0
    else LagrangeSum(shares, k - 1) + LagrangeFactor(Nodes(shares), k - 1, |shares|) * shares[k-1].y
  }

  /** Lagrange's formula at zero. */
  function LagrangeAtZero(shares: seq<Share>): Scalar
    requires InTable(Nodes(shares))
  {
    Reduce(LagrangeSum(shares, |shares|))
  }

  method MPLagrange(shares: seq<Share>) returns (s0: Scalar)
    requires InTable(Nodes(shares))
    ensures s0 == LagrangeAtZero(shares)
  {
    hide Inverse, Reduce, Mul, Add;
    ghost var xs := Nodes(shares);
    ReduceSmall(0);
    ReduceSmall(1);
    s0 := 0;
    for i := 0 to |shares|
      invariant s0 == Reduce(LagrangeSum(shares, i))
    {
      var l: Scalar := 1;
      for j := 0 to |shares|
        invariant l == Reduce(LagrangeFactor(xs, i, j))
      {
        if i != j {
          FactorStep(xs, i, j, l);
          l := Mul(l, Mul(Inverse(shares[j].x - shares[i].x), shares[j].x));
        }
      }
      SumStep(shares, i, s0, l);
      s0 := Add(s0, Mul(l, Reduce(shares[i].y)));
    }
  }

  lemma FactorStep(xs: seq<int>, i: nat, j: nat, l: Scalar)
    requires i < |xs| && j < |xs| && i != j && InTable(xs)
    requires l == Reduce(LagrangeFactor(xs, i, j))
    ensures Mul(l, Mul(Inverse(xs[j] - xs[i]), xs[j])) == Reduce(LagrangeFactor(xs, i, j + 1))
  {
    hide Inverse, Reduce;
    MulReduce(LagrangeFactor(xs, i, j), Inverse(xs[j] - xs[i]) * xs[j]);
  }

  lemma SumStep(shares: seq<Share>, i: nat, s0: Scalar, l: Scalar)
    requires i < |shares| && InTable(Nodes(shares))
    requires s0 == Reduce(LagrangeSum(shares, i))
    requires l == Reduce(LagrangeFactor(Nodes(shares), i, |shares|))
    ensures Add(s0, Mul(l, Reduce(shares[i].y))) == Reduce(LagrangeSum(shares, i + 1))
  {
    hide Reduce, LagrangeFactor;
    var t := LagrangeFactor(Nodes(shares), i, |shares|);
    MulReduce(t, shares[i].y);
    AddReduce(LagrangeSum(shares, i), t * shares[i].y);
  }

  lemma MulReduce(a: int, b: int)
    ensures Mul(Reduce(a), Reduce(b)) == Reduce(a * b)
  {
    hide Cong, Inverse, Reduce;
    CongMul(Reduce(a), a, Reduce(b), b);
    CongReduce(Reduce(a) * Reduce(b), a * b);
  }

  lemma AddReduce(a: int, b: int)
    ensures Add(Reduce(a), Reduce(b)) == Reduce(a + b)
  {
    hide Cong, Inverse, Reduce;
    CongAdd(Reduce(a), a, Reduce(b), b);
    CongReduce(Reduce(a) + Reduce(b), a + b);
  }

  // ----- the interpolating polynomial

  /** Product of (x - x(j)) over j < k, j != i. */
  function NodePoly(xs: seq<int>, i: nat, k: nat): (f: Poly)
    requires i < |xs| && k <= |xs|
    ensures |f| == if i < k then k else k + 1
  {
    if k == 0 then [1]
    else if k - 1 == i then NodePoly(xs, i, k - 1)
    else Shifted(NodePoly(xs, i, k - 1), xs[k-1], 0)
  }

  /** Product of 1 / (x(i) - x(j)) over j < k, j != i. */
  function NodeWeight(xs: seq<int>, i: nat, k: nat): int
    requires i < |xs| && k <= |xs| && InTable(xs)
  {
    if k == 0 then 1
    else if k - 1 == i then NodeWeight(xs, i, k - 1)
    else NodeWeight(xs, i, k - 1) * Inverse(xs[i] - xs[k-1])
  }

  function LagrangePoly(shares: seq<Share>, k: nat): (f: Poly)
    requires k <= |shares| && InTable(Nodes(shares))
    ensures |f| <= |shares|
  {
    var xs := Nodes(shares);
    if k == 0 then []
    else Sum(LagrangePoly(shares, k - 1),
             Scale(NodePoly(xs, k - 1, |xs|), NodeWeight(xs, k - 1, |xs|) * shares[k-1].y))
  }

  lemma {:induction false} NodePolyAtOther(xs: seq<int>, i: nat, k: nat, m: nat)
    requires i < |xs| && m < k <= |xs| && m != i
    ensures Eval(NodePoly(xs, i, k), xs[m]) == 0
  {
    hide Shifted, Cong, Inverse, Reduce;
    if k - 1 == i {
      NodePolyAtOther(xs, i, k - 1, m);
    } else {
      EvalShifted(NodePoly(xs, i, k - 1), xs[k-1], 0, xs[m]);
      if m < k - 1 { NodePolyAtOther(xs, i, k - 1, m); }
    }
  }

  /** One more node, seen from node i. */
  lemma NodeStep(xs: seq<int>, i: nat, k: nat)
    requires i < |xs| && 0 < k <= |xs| && InTable(xs) && k - 1 != i
    ensures NodeWeight(xs, i, k) == NodeWeight(xs, i, k - 1) * Inverse(xs[i] - xs[k-1])
    ensures Eval(NodePoly(xs, i, k), xs[i]) == (xs[i] - xs[k-1]) * Eval(NodePoly(xs, i, k - 1), xs[i])
  {
    hide Shifted, Inverse;
    EvalShifted(NodePoly(xs, i, k - 1), xs[k-1], 0, xs[i]);
  }

  lemma NodeStart(xs: seq<int>, i: nat)
    requires i < |xs| && InTable(xs)
    ensures NodeWeight(xs, i, 0) == 1 && Eval(NodePoly(xs, i, 0), xs[i]) == 1
  {
    assert Eval([1], xs[i]) == 1 + xs[i] * Eval([], xs[i]) == 1;
  }

  lemma NodeSkip(xs: seq<int>, i: nat)
    requires i < |xs| && InTable(xs)
    ensures NodeWeight(xs, i, i + 1) == NodeWeight(xs, i, i) && NodePoly(xs, i, i + 1) == NodePoly(xs, i, i)
  {
  }

  lemma {:induction false} NodePolyAtSelf(xs: seq<int>, i: nat, k: nat)
    requires i < |xs| && k <= |xs| && InTable(xs) && Distinct(xs)
    ensures Cong(NodeWeight(xs, i, k) * Eval(NodePoly(xs, i, k), xs[i]), 1)
  {
    hide Shifted, Cong, Inverse, Reduce, NodeWeight, NodePoly, Eval;
    if k == 0 {
      NodeStart(xs, i);
      CongRefl(1);
    } else {
      NodePolyAtSelf(xs, i, k - 1);
      if k - 1 != i {
        var d := xs[i] - xs[k-1];
        InverseCorrect(d);
        NodeStep(xs, i, k);
        var w, e, v := NodeWeight(xs, i, k - 1), Eval(NodePoly(xs, i, k - 1), xs[i]), Inverse(d);
        Swap4(w, e, v, d);
        UnitProduct(w * e, v * d, (w * v) * (d * e));
      } else {
        NodeSkip(xs, i);
      }
    }
  }

  lemma ScaleTerm(w: int, e: int, y: int, t: int)
    requires Cong(w * e, t)
    ensures Cong(w * y * e, t * y)
  {
    hide Cong;
    CongRefl(y);
    CongMul(w * e, t, y, y);
    assert (w * e) * y == w * y * e;
  }

  lemma UnitProduct(p: int, q: int, r: int)
    requires Cong(p, 1) && Cong(q, 1) && p * q == r
    ensures Cong(r, 1)
  {
    hide Cong;
    CongMul(p, 1, q, 1);
  }

  lemma ZeroFactor(w: int, e: int, l: int, v: int, u: int, x: int)
    requires Cong(w * e, l) && Cong(v, -u)
    ensures Cong((w * v) * ((0 - x) * e + 0), l * (u * x))
  {
    hide Cong;
    CongRefl(0 - x);
    CongMul(v, -u, 0 - x, 0 - x);
    assert -u * (0 - x) == u * x;
    CongMul(w * e, l, v * (0 - x), u * x);
    Swap4(w, e, v, 0 - x);
  }

  lemma Swap4(w: int, e: int, v: int, d: int)
    ensures (w * e) * (v * d) == (w * v) * (d * e)
  {
    assert (w * e) * (v * d) == w * (e * (v * d));
    assert e * (v * d) == v * (d * e);
    assert w * (v * (d * e)) == (w * v) * (d * e);
  }

  /** The table is odd: the entry of -d is the negative of the entry of d. */
  lemma InverseOdd(d: int)
    requires -50 <= d <= 50 && d != 0
    ensures Cong(Inverse(d), -Inverse(-d))
  {
    hide Cong, Inverse, Reduce;
    var a, b := Inverse(d), Inverse(-d);
    InverseCorrect(d);
    InverseCorrect(-d);
    CongRefl(a);
    CongRefl(-b);
    CongMul(b * -d, 1, a, a);
    CongMul(a * d, 1, -b, -b);
    assert (b * -d) * a == (a * d) * -b by { assert (b * -d) * a == -(a * d * b); }
    CongSym((b * -d) * a, a);
    CongTrans(a, (a * d) * -b, -b);
  }

  lemma {:induction false} NodePolyAtZero(xs: seq<int>, i: nat, k: nat)
    requires i < |xs| && k <= |xs| && InTable(xs) && Distinct(xs)
    ensures Cong(NodeWeight(xs, i, k) * Eval(NodePoly(xs, i, k), 0), LagrangeFactor(xs, i, k))
  {
    hide Shifted, Cong, Inverse, Reduce;
    if k == 0 {
      CongRefl(1);
    } else {
      NodePolyAtZero(xs, i, k - 1);
      if k - 1 != i {
        var x := xs[k-1];
        EvalShifted(NodePoly(xs, i, k - 1), x, 0, 0);
        var w, e, l := NodeWeight(xs, i, k - 1), Eval(NodePoly(xs, i, k - 1), 0), LagrangeFactor(xs, i, k - 1);
        var v, u := Inverse(xs[i] - x), Inverse(x - xs[i]);
        InverseOdd(xs[i] - x);
        ZeroFactor(w, e, l, v, u, x);
      }
    }
  }

  lemma {:induction false} LagrangePolyAtNode(shares: seq<Share>, k: nat, m: nat)
    requires k <= |shares| && m < |shares|
    requires InTable(Nodes(shares)) && Distinct(Nodes(shares))
    ensures Cong(Eval(LagrangePoly(shares, k), shares[m].x), if m < k then shares[m].y else 0)
  {
    hide Cong, NodePoly, NodeWeight, LagrangeFactor, Scale, Sum;
    var xs, n := Nodes(shares), |shares|;
    if k == 0 {
      CongRefl(0);
    } else {
      LagrangePolyAtNode(shares, k - 1, m);
      var w, y := NodeWeight(xs, k - 1, n), shares[k-1].y;
      var p := NodePoly(xs, k - 1, n);
      var e := Eval(p, xs[m]);
      EvalSum(LagrangePoly(shares, k - 1), Scale(p, w * y), xs[m]);
      EvalScale(p, w * y, xs[m]);
      var before := Eval(LagrangePoly(shares, k - 1), xs[m]);
      if m == k - 1 {
        NodePolyAtSelf(xs, m, n);
        ScaleTerm(w, e, y, 1);
        CongAdd(before, 0, w * y * e, y);
      } else {
        NodePolyAtOther(xs, k - 1, n, m);
        assert w * y * e == 0;
      }
    }
  }

  lemma {:induction false} LagrangePolyAtZero(shares: seq<Share>, k: nat)
    requires k <= |shares|
    requires InTable(Nodes(shares)) && Distinct(Nodes(shares))
    ensures Cong(Eval(LagrangePoly(shares, k), 0), LagrangeSum(shares, k))
  {
    hide Cong, NodePoly, NodeWeight, LagrangeFactor, Scale, Sum;
    var xs, n := Nodes(shares), |shares|;
    if k == 0 {
      CongRefl(0);
    } else {
      LagrangePolyAtZero(shares, k - 1);
      var w, y := NodeWeight(xs, k - 1, n), shares[k-1].y;
      var p := NodePoly(xs, k - 1, n);
      var e, l := Eval(p, 0), LagrangeFactor(xs, k - 1, n);
      EvalSum(LagrangePoly(shares, k - 1), Scale(p, w * y), 0);
      EvalScale(p, w * y, 0);
      NodePolyAtZero(xs, k - 1, n);
      ScaleTerm(w, e, y, l);
      CongAdd(Eval(LagrangePoly(shares, k - 1), 0), LagrangeSum(shares, k - 1), w * y * e, l * y);
    }
  }

  // ----- the Newton form

  /** A table entry: the difference of two entries, times the inverse of the node difference. */
  lemma DividedEntry(f: Poly, s: seq<int>, a: int, b: int)
    requires |s| >= 2
    requires s[|s|-1] != s[0] && -50 <= s[|s|-1] - s[0] <= 50
    requires Cong(a, Divided(f, s[1..])) && Cong(b, Divided(f, s[..|s|-1]))
    ensures Cong((a - b) * Inverse(s[|s|-1] - s[0]), Divided(f, s))
  {
    hide Cong, Inverse, Reduce;
    var d, v, q := s[|s|-1] - s[0], Inverse(s[|s|-1] - s[0]), Divided(f, s);
    DividedStep(f, s);
    CongSub(a, Divided(f, s[1..]), b, Divided(f, s[..|s|-1]));
    InverseCorrect(d);
    CongRefl(v);
    CongRefl(q);
    CongMul(a - b, d * q, v, v);
    CongMul(v * d, 1, q, q);
    assert (d * q) * v == (v * d) * q;
    CongTrans((a - b) * v, (v * d) * q, q);
  }

  lemma EntryStep(f: Poly, s: seq<int>, a: int, b: int)
    requires |s| >= 2
    requires s[|s|-1] != s[0] && -50 <= s[|s|-1] - s[0] <= 50
    requires Cong(a, Divided(f, s[1..])) && Cong(b, Divided(f, s[..|s|-1]))
    ensures Cong(Mul(Sub(a, b), Inverse(s[|s|-1] - s[0])), Divided(f, s))
  {
    hide Cong, Reduce, Inverse, Divided;
    var v := Inverse(s[|s|-1] - s[0]);
    DividedEntry(f, s, a, b);
    CongRefl(v);
    CongMul(Sub(a, b), a - b, v, v);
    CongTrans(Mul(Sub(a, b), v), Sub(a, b) * v, (a - b) * v);
    CongTrans(Mul(Sub(a, b), v), (a - b) * v, Divided(f, s));
  }

  lemma TermStep(s0: int, basis: int, d: int, sum: int, base: int, div: int)
    requires Cong(s0, sum) && Cong(basis, base) && Cong(d, div)
    ensures Cong(Add(s0, Mul(basis, d)), sum + base * div)
  {
    hide Cong, Reduce;
    var t := Mul(basis, d);
    CongMul(basis, base, d, div);
    CongTrans(t, basis * d, base * div);
    CongAdd(s0, sum, t, base * div);
    CongTrans(Add(s0, t), s0 + t, sum + base * div);
  }

  lemma BasisStep(basis: int, base: int, x: int)
    requires Cong(basis, base)
    ensures Cong(Negative(Mul(basis, x)), base * -x)
  {
    hide Cong, Reduce;
    var t: Scalar := Mul(basis, x);
    CongRefl(x);
    CongRefl(0);
    CongMul(basis, base, x, x);
    CongTrans(t, basis * x, base * x);
    CongSub(0, 0, t, base * x);
    assert 0 - base * x == base * -x;
    CongTrans(Negative(t), 0 - t, 0 - base * x);
  }

  /** Entry j of row i of the difference table: the divided difference over shares i-j .. i. */
  function DiffEntry(shares: seq<Share>, i: nat, j: nat): Scalar
    requires j <= i < |shares| && InTable(Nodes(shares))
    decreases j
  {
    if j == 0 then Reduce(shares[i].y)
    else Mul(Sub(DiffEntry(shares, i, j - 1), DiffEntry(shares, i - 1, j - 1)), Inverse(shares[i].x - shares[i-j].x))
  }

  function BasisValue(shares: seq<Share>, k: nat): int
    requires k <= |shares|
  {
    if k == 0 then 1 else Negative(Mul(BasisValue(shares, k - 1), shares[k-1].x))
  }

  function NewtonValue(shares: seq<Share>, k: nat): Scalar
    requires k <= |shares| && InTable(Nodes(shares))
  {
    if k == 0 then 0
    else Add(NewtonValue(shares, k - 1), Mul(BasisValue(shares, k - 1), DiffEntry(shares, k - 1, k - 1)))
  }

  /** The value of Newton's form at zero, in the order of operations of the loop. */
  function NewtonAtZero(shares: seq<Share>): Scalar
    requires InTable(Nodes(shares))
  {
    NewtonValue(shares, |shares|)
  }

  /** The first entries of row i. */
  ghost predicate IsRow(shares: seq<Share>, i: nat, diff: seq<Scalar>)
    requires |diff| <= i + 1 <= |shares| && InTable(Nodes(shares))
  {
    forall j :: 0 <= j < |diff| ==> diff[j] == DiffEntry(shares, i, j)
  }

  method MPNewton(shares: seq<Share>) returns (s0: Scalar)
    requires InTable(Nodes(shares))
    ensures s0 == NewtonAtZero(shares)
    ensures Distinct(Nodes(shares)) ==> s0 == LagrangeAtZero(shares)
  {
    hide Inverse, Reduce, Mul, Add, Sub, Negative, LagrangeSum, Nodes, InTable;
    var diffSet: seq<seq<Scalar>> := [];
    var basis: int := 1;
    s0 := 0;
    for i := 0 to |shares|
      invariant |diffSet| == i
      invariant forall r :: 0 <= r < i ==> |diffSet[r]| == r + 1
      invariant i > 0 ==> IsRow(shares, i - 1, diffSet[i-1])
      invariant basis == BasisValue(shares, i)
      invariant s0 == NewtonValue(shares, i)
    {
      var diff: seq<Scalar> := [Reduce(shares[i].y)];
      for j := 0 to i
        invariant |diff| == j + 1
        invariant IsRow(shares, i, diff)
      {
        InTableAt(shares, i, i - j - 1);
        var coeff := Sub(diff[j], diffSet[i-1][j]);
        coeff := Mul(coeff, Inverse(shares[i].x - shares[i-j-1].x));
        diff := diff + [coeff];
      }
      s0 := Add(s0, Mul(basis, diff[i]));
      var scaled: Scalar := Mul(basis, shares[i].x);
      basis := Negative(scaled);
      diffSet := diffSet + [diff];
    }
    if Distinct(Nodes(shares)) { NewtonIsLagrange(shares); }
  }

  lemma {:induction false} DiffEntryCong(f: Poly, shares: seq<Share>, i: nat, j: nat)
    requires j <= i < |shares| && OnPoly(f, shares)
    requires InTable(Nodes(shares)) && Distinct(Nodes(shares))
    ensures Cong(DiffEntry(shares, i, j), Divided(f, Nodes(shares)[i-j..i+1]))
    decreases j
  {
    hide Cong, Inverse, Reduce, Mul, Sub, InTable, Distinct, Divided, Eval;
    if j == 0 {
      DiffEntryBase(f, shares, i);
    } else {
      DiffEntryCong(f, shares, i, j - 1);
      DiffEntryCong(f, shares, i - 1, j - 1);
      DiffEntryStep(f, shares, i, j);
    }
  }

  lemma DiffEntryBase(f: Poly, shares: seq<Share>, i: nat)
    requires i < |shares| && OnPoly(f, shares) && InTable(Nodes(shares))
    ensures Cong(DiffEntry(shares, i, 0), Divided(f, Nodes(shares)[i..i+1]))
  {
    hide Cong, Reduce;
    var xs := Nodes(shares);
    assert xs[i..i+1] == [xs[i]];
    CongTrans(Reduce(shares[i].y), shares[i].y, Eval(f, xs[i]));
  }

  lemma DiffEntryStep(f: Poly, shares: seq<Share>, i: nat, j: nat)
    requires 1 <= j <= i < |shares| && InTable(Nodes(shares)) && Distinct(Nodes(shares))
    requires Cong(DiffEntry(shares, i, j - 1), Divided(f, Nodes(shares)[i-(j-1)..i+1]))
    requires Cong(DiffEntry(shares, i - 1, j - 1), Divided(f, Nodes(shares)[i-1-(j-1)..i-1+1]))
    ensures Cong(DiffEntry(shares, i, j), Divided(f, Nodes(shares)[i-j..i+1]))
  {
    hide Cong, Inverse, Reduce, Mul, Sub, Divided;
    var xs := Nodes(shares);
    var s := xs[i-j..i+1];
    assert s[1..] == xs[i-(j-1)..i+1] && s[..|s|-1] == xs[i-1-(j-1)..i-1+1];
    EntryStep(f, s, DiffEntry(shares, i, j - 1), DiffEntry(shares, i - 1, j - 1));
  }

  lemma {:induction false} BasisValueCong(shares: seq<Share>, k: nat)
    requires k <= |shares|
    ensures Cong(BasisValue(shares, k), Basis(Nodes(shares), k))
  {
    hide Cong, Mul, Negative;
    if k == 0 {
      CongRefl(1);
    } else {
      BasisValueCong(shares, k - 1);
      BasisStep(BasisValue(shares, k - 1), Basis(Nodes(shares), k - 1), shares[k-1].x);
    }
  }

  lemma {:induction false} NewtonValueCong(f: Poly, shares: seq<Share>, k: nat)
    requires k <= |shares| && OnPoly(f, shares)
    requires InTable(Nodes(shares)) && Distinct(Nodes(shares))
    ensures Cong(NewtonValue(shares, k), NewtonSum(f, Nodes(shares), k))
  {
    hide Cong, Mul, Add, Negative, Divided, DiffEntry, Basis, BasisValue;
    if k == 0 {
      CongRefl(0);
    } else {
      var xs, i := Nodes(shares), k - 1;
      NewtonValueCong(f, shares, i);
      DiffEntryCong(f, shares, i, i);
      assert xs[0..k] == xs[..k];
      BasisValueCong(shares, i);
      TermStep(NewtonValue(shares, i), BasisValue(shares, i), DiffEntry(shares, i, i),
               NewtonSum(f, xs, i), Basis(xs, i), Divided(f, xs[..k]));
    }
  }

  /** Newton's form of any share list with distinct indices has the value of Lagrange's form. */
  lemma NewtonIsLagrange(shares: seq<Share>)
    requires InTable(Nodes(shares)) && Distinct(Nodes(shares))
    ensures NewtonAtZero(shares) == LagrangeAtZero(shares)
  {
    hide Cong, Reduce, Add, Mul, LagrangePoly, LagrangeSum, NewtonValue;
    var n, v := |shares|, NewtonAtZero(shares);
    var f := LagrangePoly(shares, n);
    forall i | 0 <= i < n
      ensures Cong(shares[i].y, Eval(f, shares[i].x))
    {
      LagrangePolyAtNode(shares, n, i);
      CongSym(Eval(f, shares[i].x), shares[i].y);
    }
    NewtonValueCong(f, shares, n);
    NewtonExact(f, Nodes(shares), n);
    LagrangePolyAtZero(shares, n);
    CongTrans(v, Eval(f, 0), LagrangeSum(shares, n));
    CongReduce(v, LagrangeSum(shares, n));
    ReduceSmall(v);
  }

  // ----- uniqueness

  lemma {:induction false} DividedCong(f: Poly, g: Poly, s: seq<int>)
    requires s != [] && InTable(s) && Distinct(s)
    requires forall i :: 0 <= i < |s| ==> Cong(Eval(f, s[i]), Eval(g, s[i]))
    ensures Cong(Divided(f, s), Divided(g, s))
    decreases |s|
  {
    hide Cong, Inverse, Reduce;
    if |s| > 1 {
      var n := |s|;
      DividedCong(f, g, s[1..]);
      DividedCong(f, g, s[..n-1]);
      CongSym(Divided(f, s[1..]), Divided(g, s[1..]));
      CongSym(Divided(f, s[..n-1]), Divided(g, s[..n-1]));
      DividedEntry(f, s, Divided(g, s[1..]), Divided(g, s[..n-1]));
      CongRefl(Divided(g, s[1..]));
      CongRefl(Divided(g, s[..n-1]));
      DividedEntry(g, s, Divided(g, s[1..]), Divided(g, s[..n-1]));
      var e := (Divided(g, s[1..]) - Divided(g, s[..n-1])) * Inverse(s[n-1] - s[0]);
      CongSym(e, Divided(f, s));
      CongTrans(Divided(f, s), e, Divided(g, s));
    }
  }

  lemma {:induction false} NewtonCong(f: Poly, g: Poly, s: seq<int>, k: nat)
    requires k <= |s| && InTable(s) && Distinct(s)
    requires forall i :: 0 <= i < |s| ==> Cong(Eval(f, s[i]), Eval(g, s[i]))
    ensures Cong(NewtonSum(f, s, k), NewtonSum(g, s, k))
  {
    hide Cong, Inverse, Reduce;
    if k == 0 {
      CongRefl(0);
    } else {
      NewtonCong(f, g, s, k - 1);
      DividedCong(f, g, s[..k]);
      var b := Basis(s, k - 1);
      CongRefl(b);
      CongMul(b, b, Divided(f, s[..k]), Divided(g, s[..k]));
      CongAdd(NewtonSum(f, s, k - 1), NewtonSum(g, s, k - 1), b * Divided(f, s[..k]), b * Divided(g, s[..k]));
    }
  }

  /** Shares with distinct indices on a polynomial with at most as many coefficients as shares give
      back its constant term, by either form. */
  lemma InterpolationExact(f: Poly, shares: seq<Share>)
    requires |f| <= |shares| && OnPoly(f, shares)
    requires InTable(Nodes(shares)) && Distinct(Nodes(shares))
    ensures LagrangeAtZero(shares) == NewtonAtZero(shares) == Reduce(Eval(f, 0))
  {
    hide Cong, Inverse, Reduce;
    var xs, n := Nodes(shares), |shares|;
    var g := LagrangePoly(shares, n);
    forall i | 0 <= i < n
      ensures Cong(Eval(f, xs[i]), Eval(g, xs[i]))
    {
      LagrangePolyAtNode(shares, n, i);
      CongSym(Eval(g, xs[i]), shares[i].y);
      CongSym(shares[i].y, Eval(f, xs[i]));
      CongTrans(Eval(f, xs[i]), shares[i].y, Eval(g, xs[i]));
    }
    NewtonCong(f, g, xs, n);
    NewtonExact(f, xs, n);
    NewtonExact(g, xs, n);
    LagrangePolyAtZero(shares, n);
    CongTrans(Eval(f, 0), Eval(g, 0), LagrangeSum(shares, n));
    CongReduce(Eval(f, 0), LagrangeSum(shares, n));
    NewtonIsLagrange(shares);
  }
}
