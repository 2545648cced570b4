/** A dealer's secret polynomial (opened box) and its public commitments (sealed box). */
module Boxes {
  import opened Words
  import opened Primes
  import opened Scalars
  import opened GroupOrder
  import opened Polynomials
  import opened Curve

  const POW_TABLE_ROWS := 51
  const POW_TABLE_COLUMNS := 26

  /** Entry [x - 1][i - 1] of the table of powers. */
  function NaturalPow(x: nat, i: nat): Scalar
    requires 1 <= x <= POW_TABLE_ROWS && 1 <= i <= POW_TABLE_COLUMNS
  {
    Reduce(Pow(x, i))
  }

  /** The table of powers covers evaluation of a polynomial with thresh coefficients at x. */
  predicate PowInTable(thresh: nat, x: nat) {
    thresh >= 2 ==> 1 <= x <= POW_TABLE_ROWS && thresh <= POW_TABLE_COLUMNS + 1
  }

  /** Evaluation always reads the constant term, even for threshold zero. */
  function Terms(thresh: nat): nat { if thresh == 0 then 1 else thresh }

  lemma {:induction false} EvalAppend(f: Poly, c: int, x: int)
    ensures Eval(f + [c], x) == Eval(f, x) + c * Pow(x, |f|)
  {
    if f == [] {
      assert [c][1..] == [];
    } else {
      assert (f + [c])[1..] == f[1..] + [c];
      EvalAppend(f[1..], c, x);
      var e, p := Eval(f[1..], x), Pow(x, |f| - 1);
      assert x * (e + c * p) == x * e + c * (x * p) by {
        assert x * (c * p) == c * (x * p);
      }
    }
  }

  // ----- the opened box

  datatype OpenedBox = OpenedBox(coeff: seq<Word>, privKey: Word) {
    predicate IsNull() { coeff == [] || privKey == 0 }

    predicate Validate() { coeff != [] && forall i :: 0 <= i < |coeff| ==> coeff[i] != 0 }

    function PubKey(): Word { EccPubkey(privKey) }

    function SharedKey(pubkey: Word): Word { EccSharedKey(privKey, pubkey) }

    /** The box can evaluate a polynomial with this many coefficients; otherwise evaluation throws. */
    predicate Sufficient(thresh: nat) { !IsNull() && thresh <= |coeff| }

    /** The value at x of the polynomial with the first thresh coefficients. */
    function At(thresh: nat, x: nat): Scalar
      requires Sufficient(thresh)
    {
      Reduce(Eval(coeff[..Terms(thresh)], x))
    }

    function Value(thresh: nat, x: nat): Option<Scalar> {
      if Sufficient(thresh) then Some(At(thresh, x)) else None
    }
  }

  lemma TermReduce(f: Poly, acc: Scalar, c: Word, x: nat)
    requires acc == Reduce(Eval(f, x))
    ensures Add(acc, Mul(Reduce(c), Reduce(Pow(x, |f|)))) == Reduce(Eval(f + [c], x))
  {
    hide Cong, Reduce, Pow, Eval;
    var p := Pow(x, |f|);
    var t := Mul(Reduce(c), Reduce(p));
    EvalAppend(f, c, x);
    CongMul(Reduce(c), c, Reduce(p), p);
    CongTrans(t, Reduce(c) * Reduce(p), c * p);
    CongAdd(acc, Eval(f, x), t, c * p);
    CongReduce(acc + t, Eval(f, x) + c * p);
  }

  /** Evaluation by the table of powers. */
  method Polynomial(box: OpenedBox, thresh: nat, x: nat) returns (r: Option<Scalar>)
    requires PowInTable(thresh, x)
    ensures r == box.Value(thresh, x)
    ensures r.Some? <==> box.coeff != [] && box.privKey != 0 && thresh <= |box.coeff|
    ensures r.Some? ==> Cong(r.value, Eval(box.coeff[..if thresh == 0 then 1 else thresh], x))
  {
    hide Reduce, Pow, Add, Mul, Eval;
    if !box.Sufficient(thresh) {
      return None;
    }
    var f := Reduce(box.coeff[0]);
    assert box.coeff[..1] == [box.coeff[0]];
    EvalConstant(box.coeff[0], x);
    for i := 1 to Terms(thresh)
      invariant f == Reduce(Eval(box.coeff[..i], x))
    {
      assert box.coeff[..i+1] == box.coeff[..i] + [box.coeff[i]];
      TermReduce(box.coeff[..i], f, box.coeff[i], x);
      f := Add(f, Mul(Reduce(box.coeff[i]), NaturalPow(x, i)));
    }
    r := Some(f);
  }

  lemma EvalConstant(c: int, x: int)
    ensures Eval([c], x) == c
  {
    assert [c][1..] == [];
  }

  // ----- the sealed box

  datatype SealedBox = SealedBox(
    encryptedCoeff: seq<Word>, encryptedShare: seq<Word>, pubKey: Word, nR: Word, nS: Word)
  {
    predicate IsNull() { encryptedCoeff == [] || pubKey == 0 }

    predicate VerifySignature(ident: Word) {
      && !IsNull()
      && (forall i :: 0 <= i < |encryptedCoeff| ==> EccPubkeyValidate(encryptedCoeff[i]))
      && EccVerify(pubKey, nR, nS, ident)
    }

    /** The three-argument overload: a signature over a hash under this box's key. */
    predicate VerifyHash(hash: Word, r: Word, s: Word) { !IsNull() && EccVerify(pubKey, r, s, hash) }

    predicate VerifyPolynomial(x: nat, v: Word) {
      x < |encryptedShare| && encryptedShare[x] == EccPubkey(v)
    }

    /** Every commitment unpacks to a point. */
    predicate Unpacks() {
      forall i :: 0 <= i < |encryptedCoeff| ==> Unpack(encryptedCoeff[i]).Some?
    }

    /** The committed polynomial: the discrete logarithms of the first thresh commitments. */
    function Committed(thresh: nat): (f: Poly)
      requires thresh <= |encryptedCoeff| && Unpacks()
      ensures |f| == thresh
    {
      seq(thresh, i requires 0 <= i < thresh => Unpack(encryptedCoeff[i]).value.log)
    }

    /** The packed commitment to the value of the committed polynomial at x. */
    function ShareCommitment(thresh: nat, x: nat): Word
      requires thresh <= |encryptedCoeff| && Unpacks()
    {
      Pack(Point(Reduce(Eval(Committed(thresh), x))))
    }

    /** The table of commitments that enrolment prepares; entry 0 is the zero word. */
    function Prepared(thresh: nat, lastIndex: nat): (b: SealedBox)
      requires thresh <= |encryptedCoeff| && Unpacks()
    {
      this.(encryptedShare :=
        seq(lastIndex, x requires 0 <= x < lastIndex => if x == 0 then 0 else ShareCommitment(thresh, x)))
    }
  }

  /** Homomorphic evaluation of the commitments at every index. */
  method PrecalcPolynomial(box: SealedBox, thresh: nat, lastIndex: nat) returns (r: SealedBox)
    requires 1 <= thresh <= |box.encryptedCoeff| && box.Unpacks()
    requires lastIndex <= POW_TABLE_ROWS + 1 && thresh <= POW_TABLE_COLUMNS + 1
    ensures r == box.Prepared(thresh, lastIndex)
  {
    hide Reduce, Pow, Add, Mul, Eval;
    var points: seq<Point> := [];
    for i := 0 to thresh
      invariant |points| == i
      invariant forall j :: 0 <= j < i ==> points[j] == Unpack(box.encryptedCoeff[j]).value
    {
      points := points + [Unpack(box.encryptedCoeff[i]).value];
    }
    ghost var f := box.Committed(thresh);
    var table: seq<Word> := if lastIndex > 0 then [0] else [];
    for x := 1 to (if lastIndex > 1 then lastIndex else 1)
      invariant |table| == if lastIndex > 0 then x else 0
      invariant forall j :: 0 <= j < |table| ==> table[j] == if j == 0 then 0 else box.ShareCommitment(thresh, j)
    {
      var p := points[0];
      assert f[..1] == [f[0]];
      EvalConstant(f[0], x);
      ReduceSmall(f[0]);
      for i := 1 to thresh
        invariant p == Point(Reduce(Eval(f[..i], x)))
      {
        assert f[..i+1] == f[..i] + [f[i]];
        TermReduce(f[..i], p.log, f[i], x);
        ReduceSmall(f[i]);
        MulCommutes(NaturalPow(x, i), f[i]);
        p := Plus(p, ScalarMult(NaturalPow(x, i), points[i]));
      }
      assert f[..thresh] == f;
      table := table + [Pack(p)];
    }
    r := box.(encryptedShare := table);
  }

  lemma MulCommutes(a: int, b: int)
    ensures Mul(a, b) == Mul(b, a)
  {
    assert a * b == b * a;
  }

  /** A published value passes the check exactly when it lies on the committed polynomial. */
  lemma CommitmentBinds(box: SealedBox, thresh: nat, lastIndex: nat, x: nat, v: Word)
    requires thresh <= |box.encryptedCoeff| && box.Unpacks()
    ensures box.Prepared(thresh, lastIndex).VerifyPolynomial(x, v)
            <==> 1 <= x < lastIndex && Cong(v, Eval(box.Committed(thresh), x))
  {
    hide Cong, Reduce, Eval;
    if 1 <= x < lastIndex {
      var e := Eval(box.Committed(thresh), x);
      CongReduce(v, e);
      assert EccPubkey(v) == Pack(Point(Reduce(v)));
    }
  }

  /** A sealed box of this dealer: commitments to every coefficient, and a signed identity. */
  method MakeSealedBox(box: OpenedBox, ident: Word, r: Word) returns (sealed: Option<SealedBox>)
    ensures sealed == if box.Validate() && r != 0 then Some(Sealed(box, ident, r)) else None
    ensures sealed.Some? <==> r != 0 && box.coeff != [] && forall i :: 0 <= i < |box.coeff| ==> box.coeff[i] != 0
  {
    if !box.Validate() || r == 0 {
      return None;
    }
    var encrypted: seq<Word> := [];
    for i := 0 to |box.coeff|
      invariant |encrypted| == i
      invariant forall j :: 0 <= j < i ==> encrypted[j] == EccPubkey(box.coeff[j])
    {
      encrypted := encrypted + [EccPubkey(box.coeff[i])];
    }
    sealed := Some(SealedBox(encrypted, [], box.PubKey(), EccPubkey(r), EccSign(box.privKey, r, ident)));
    assert encrypted == Sealed(box, ident, r).encryptedCoeff;
  }

  function Sealed(box: OpenedBox, ident: Word, r: Word): SealedBox {
    SealedBox(
      seq(|box.coeff|, i requires 0 <= i < |box.coeff| => EccPubkey(box.coeff[i])), [],
      box.PubKey(), EccPubkey(r), EccSign(box.privKey, r, ident))
  }

  /** A sealed box verifies for another identity only if the two are congruent modulo the order, unless its nonce
      vanishes. */
  lemma SealedBinds(box: OpenedBox, ident: Word, r: Word, other: Word)
    requires box.coeff != [] && (forall i :: 0 <= i < |box.coeff| ==> Reduce(box.coeff[i]) != 0)
    ensures Sealed(box, ident, r).VerifySignature(other) <==> Cong(r, 0) || Cong(ident, other)
  {
    hide Cong, Reduce, EccVerify, EccSign, EccPubkeyValidate;
    SealedVerifies(box, ident, r);
    VerifyNonce(box.privKey, r, EccSign(box.privKey, r, ident), other);
    VerifyNonce(box.privKey, r, EccSign(box.privKey, r, ident), ident);
    SignsOne(box.privKey, r, EccSign(box.privKey, r, ident), ident, other);
  }

  lemma SignsOne(k: int, r: int, s: int, ident: int, other: int)
    requires Cong(s, k + r * ident)
    ensures Cong(s, k + r * other) <==> Cong(r, 0) || Cong(ident, other)
  {
    hide Cong;
    CongSym(s, k + r * ident);
    CongRefl(k);
    CongRefl(r);
    assert r * ident == ident * r && r * other == other * r;
    if Cong(s, k + r * other) {
      CongTrans(k + r * ident, s, k + r * other);
      CongSub(k + r * ident, k + r * other, k, k);
      if !Cong(r, 0) { CongCancel(ident, other, r); }
    }
    if Cong(ident, other) || Cong(r, 0) {
      if Cong(r, 0) { BothVanish(r, ident, other); } else { CongMul(r, r, ident, other); }
      CongAdd(k, k, r * ident, r * other);
      CongTrans(s, k + r * ident, k + r * other);
    }
  }

  lemma BothVanish(r: int, a: int, b: int)
    requires Cong(r, 0)
    ensures Cong(r * a, r * b)
  {
    hide Cong;
    CongRefl(a);
    CongRefl(b);
    CongMul(r, 0, a, a);
    CongMul(r, 0, b, b);
    assert 0 * a == 0 && 0 * b == 0;
    CongSym(r * b, 0);
    CongTrans(r * a, 0, r * b);
  }

  /** A sealed box verifies for its identity exactly when no coefficient vanishes modulo the order. */
  lemma SealedVerifies(box: OpenedBox, ident: Word, r: Word)
    requires box.coeff != []
    ensures Sealed(box, ident, r).VerifySignature(ident)
            <==> forall i :: 0 <= i < |box.coeff| ==> Reduce(box.coeff[i]) != 0
  {
    hide Reduce;
    SignVerifies(box.privKey, r, ident);
    var s := Sealed(box, ident, r);
    forall i | 0 <= i < |box.coeff|
      ensures EccPubkeyValidate(s.encryptedCoeff[i]) <==> Reduce(box.coeff[i]) != 0
    {
      assert Unpack(s.encryptedCoeff[i]) == Some(Generate(box.coeff[i]));
    }
  }

  lemma {:induction false} EvalCong(f: Poly, g: Poly, x: int)
    requires |f| == |g| && forall i :: 0 <= i < |f| ==> Cong(f[i], g[i])
    ensures Cong(Eval(f, x), Eval(g, x))
  {
    hide Cong;
    if f == [] {
      CongRefl(0);
    } else {
      EvalCong(f[1..], g[1..], x);
      CongRefl(x);
      CongMul(x, x, Eval(f[1..], x), Eval(g[1..], x));
      CongAdd(f[0], g[0], x * Eval(f[1..], x), x * Eval(g[1..], x));
    }
  }

  /** What a sealed box commits to is the dealer's own polynomial. */
  lemma SealedCommits(box: OpenedBox, ident: Word, r: Word, thresh: nat, x: int)
    requires thresh <= |box.coeff|
    ensures Sealed(box, ident, r).Unpacks()
    ensures Cong(Eval(Sealed(box, ident, r).Committed(thresh), x), Eval(box.coeff[..thresh], x))
  {
    hide Cong, Reduce, Eval;
    var s := Sealed(box, ident, r);
    forall i | 0 <= i < |box.coeff|
      ensures Unpack(s.encryptedCoeff[i]) == Some(Generate(box.coeff[i]))
    {
    }
    EvalCong(s.Committed(thresh), box.coeff[..thresh], x);
  }
}
