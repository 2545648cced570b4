/** Whole runs of signing: any order, any repeats. */
module MultiSignRuns {
  import opened Words
  import opened Bytes
  import opened Scalars
  import opened GroupOrder
  import opened Curve
  import opened MultiSign

  // ----- one signing and the verification equation

  /** Adding one key to the chosen ones adds its weighted point to the sum. */
  lemma {:induction false} KeySumAdd(keys: KeySet, part: set<Word>, j: nat, n: nat)
    requires j < |keys| && n <= |keys| && Decodable(keys) && keys[j] !in part
    ensures var term := Weight(keys, keys[j]) * Unpack(keys[j]).value.log;
            Cong(KeySum(keys, part + {keys[j]}, n).log, KeySum(keys, part, n).log + if j < n then term else 0)
  {
    hide Cong, Reduce, Weight, Unpack;
    if n == 0 {
      CongRefl(0);
    } else {
      KeySumAdd(keys, part, j, n - 1);
      var a, b := KeySum(keys, part + {keys[j]}, n - 1).log, KeySum(keys, part, n - 1).log;
      var k := Weight(keys, keys[n-1]) * Unpack(keys[n-1]).value.log;
      if n - 1 == j {
        PlusTerm(a, b, k, 0);
      } else {
        var extra := if j < n - 1 then Weight(keys, keys[j]) * Unpack(keys[j]).value.log else 0;
        if keys[n-1] in part {
          PlusBoth(a, b, k, extra);
        }
      }
    }
  }

  lemma PlusTerm(a: int, b: int, k: int, extra: int)
    requires Cong(a, b + extra)
    ensures Cong(Add(a, Reduce(k)), b + (extra + k))
  {
    hide Cong, Reduce;
    CongAdd(a, b + extra, Reduce(k), k);
    CongTrans(Add(a, Reduce(k)), a + Reduce(k), b + extra + k);
  }

  lemma PlusBoth(a: int, b: int, k: int, extra: int)
    requires Cong(a, b + extra)
    ensures Cong(Add(a, Reduce(k)), Add(b, Reduce(k)) + extra)
  {
    hide Cong, Reduce;
    CongRefl(Reduce(k));
    CongAdd(a, b + extra, Reduce(k), Reduce(k));
    CongTrans(Add(a, Reduce(k)), a + Reduce(k), b + extra + Reduce(k));
    CongRefl(extra);
    CongSym(Add(b, Reduce(k)), b + Reduce(k));
    CongAdd(b + Reduce(k), Add(b, Reduce(k)), extra, extra);
    assert b + extra + Reduce(k) == b + Reduce(k) + extra;
    CongTrans(Add(a, Reduce(k)), b + Reduce(k) + extra, Add(b, Reduce(k)) + extra);
  }

  /** The equation as a congruence of logarithms. */
  lemma EquationCong(keys: seq<Word>, X: seq<byte>, M: seq<byte>, s: Signature)
    requires Decodable(keys)
    ensures Equation(keys, X, M, s)
        <==> Cong(s.S, s.R.log + Challenge(keys, X, M) * KeySum(keys, s.signers, |keys|).log)
  {
    hide Cong, Reduce, Challenge, KeySum;
    var x := Challenge(keys, X, M) * KeySum(keys, s.signers, |keys|).log;
    CongRefl(s.R.log);
    CongAdd(s.R.log, s.R.log, Reduce(x), x);
    CongReduce(s.R.log + Reduce(x), s.R.log + x);
    CongReduce(s.S, s.R.log + x);
  }

  /** The same amount on both sides of a congruence. */
  lemma BothSides(S: int, S1: int, R: int, R1: int, A: int, A1: int, h: int, r: int, t: int)
    requires Cong(S1, S + (r + h * t)) && Cong(R1, R + r) && Cong(A1, A + t)
    ensures Cong(S1, R1 + h * A1) <==> Cong(S, R + h * A)
  {
    hide Cong;
    var y, y1 := R + h * A, R1 + h * A1;
    CongRefl(h);
    CongMul(h, h, A1, A + t);
    CongAdd(R1, R + r, h * A1, h * (A + t));
    assert R + r + h * (A + t) == y + (r + h * t) by { Distribute(h, A, t); }
    var d := r + h * t;
    CongRefl(d);
    CongSym(S1, S + d);
    CongSym(y1, y + d);
    if Cong(S1, y1) {
      CongTrans(S + d, S1, y1);
      CongTrans(S + d, y1, y + d);
      CongSub(S + d, y + d, d, d);
    }
    if Cong(S, y) {
      CongAdd(S, y, d, d);
      CongTrans(S1, S + d, y + d);
      CongTrans(S1, y + d, y1);
    }
  }

  lemma Distribute(h: int, a: int, t: int)
    ensures h * (a + t) == h * a + h * t
  {
  }

  /** A response is the nonce plus challenge times weighted secret. */
  lemma ResponseCong(challenge: Scalar, keys: seq<Word>, key: CryptoKey, M: seq<byte>)
    ensures Cong(Response(challenge, keys, key, M),
                 Nonce(key, M) + challenge * (Weight(keys, key.pubkey) * Reduce(CLAMP(key.secret))))
  {
    hide Cong, Reduce, Nonce, Weight;
    var r: int, w: int, c: int := Nonce(key, M), Weight(keys, key.pubkey), Reduce(CLAMP(key.secret));
    var h: int := challenge;
    CongRefl(c);
    CongMul(Mul(h, w), h * w, c, c);
    CongTrans(Mul(Mul(h, w), c), Mul(h, w) * c, h * w * c);
    CongRefl(r);
    CongAdd(r, r, Mul(Mul(h, w), c), h * w * c);
    CongTrans(Response(challenge, keys, key, M), r + Mul(Mul(h, w), c), r + h * w * c);
    assert h * w * c == h * (w * c);
  }

  /** Signing with an honest member key neither breaks nor repairs the equation. */
  lemma SignKeeps(keys: KeySet, key: CryptoKey, X: seq<byte>, M: seq<byte>, s: Signature)
    requires Decodable(keys) && key.pubkey in keys && Honest(key)
    ensures Equation(keys, X, M, Signed(keys, key, X, M, s)) <==> Equation(keys, X, M, s)
  {
    hide Cong, Reduce, KeySum, Weight, Unpack, Nonce, Response, Challenge, Equation;
    if key.pubkey !in s.signers {
      var j :| 0 <= j < |keys| && keys[j] == key.pubkey;
      var h, s1 := Challenge(keys, X, M), Signed(keys, key, X, M, s);
      var r, c := Nonce(key, M), Reduce(CLAMP(key.secret));
      var t := Weight(keys, key.pubkey) * c;
      EquationCong(keys, X, M, s);
      EquationCong(keys, X, M, s1);
      KeySumAdd(keys, s.signers, j, |keys|);
      ResponseCong(h, keys, key, M);
      CongRefl(s.S);
      CongAdd(s.S, s.S, Response(h, keys, key, M), r + h * t);
      CongTrans(s1.S, s.S + Response(h, keys, key, M), s.S + (r + h * t));
      CongRefl(s.R.log);
      CongAdd(s.R.log, s.R.log, Reduce(r), r);
      CongTrans(s1.R.log, s.R.log + Reduce(r), s.R.log + r);
      BothSides(s.S, s1.S, s.R.log, s1.R.log, KeySum(keys, s.signers, |keys|).log,
                KeySum(keys, s1.signers, |keys|).log, h, r, t);
    }
  }

  /** Two signers may sign in either order. */
  lemma SignCommutes(keys: KeySet, a: CryptoKey, b: CryptoKey, X: seq<byte>, M: seq<byte>, s: Signature)
    requires Decodable(keys) && a.pubkey != b.pubkey
    ensures Signed(keys, a, X, M, Signed(keys, b, X, M, s)) == Signed(keys, b, X, M, Signed(keys, a, X, M, s))
  {
    hide Cong, Reduce, Challenge, Response, Nonce;
    var h := Challenge(keys, X, M);
    AddSwap(s.R.log, Reduce(Nonce(a, M)), Reduce(Nonce(b, M)));
    AddSwap(s.S, Response(h, keys, a, M), Response(h, keys, b, M));
    assert s.signers + {a.pubkey} + {b.pubkey} == s.signers + {b.pubkey} + {a.pubkey};
  }

  lemma AddSwap(x: int, a: int, b: int)
    ensures Add(Add(x, a), b) == Add(Add(x, b), a)
  {
    hide Cong, Reduce;
    AddFlat(x, a, b);
    AddFlat(x, b, a);
    assert x + a + b == x + b + a;
  }

  lemma AddFlat(x: int, a: int, b: int)
    ensures Add(Add(x, a), b) == Reduce(x + a + b)
  {
    hide Cong, Reduce;
    CongRefl(b);
    CongAdd(Reduce(x + a), x + a, b, b);
    CongReduce(Reduce(x + a) + b, x + a + b);
  }

  // ----- runs

  ghost predicate Members(keys: seq<Word>, run: seq<CryptoKey>) {
    forall i :: 0 <= i < |run| ==> run[i].pubkey in keys && Honest(run[i])
  }

  function Signers(run: seq<CryptoKey>): set<Word> { set i | 0 <= i < |run| :: run[i].pubkey }

  /** The signature after a run that starts unsigned. */
  ghost function SignRun(keys: seq<Word>, X: seq<byte>, M: seq<byte>, run: seq<CryptoKey>): Signature
    requires Decodable(keys)
  {
    if run == [] then UNSIGNED
    else Signed(keys, run[|run|-1], X, M, SignRun(keys, X, M, run[..|run|-1]))
  }

  lemma {:induction false} NoKeys(keys: seq<Word>, n: nat)
    requires n <= |keys| && Decodable(keys)
    ensures KeySum(keys, {}, n) == IDENTITY
  {
    if n > 0 { NoKeys(keys, n - 1); }
  }

  /** After any run of member keys, in any order and with any repeats, the equation holds and the signers
      are exactly those who signed. */
  lemma {:induction false} RunVerifies(keys: KeySet, X: seq<byte>, M: seq<byte>, run: seq<CryptoKey>)
    requires Decodable(keys) && Members(keys, run)
    ensures Equation(keys, X, M, SignRun(keys, X, M, run))
    ensures SignRun(keys, X, M, run).signers == Signers(run)
  {
    hide Cong, Reduce, KeySum, Weight, Unpack, Nonce, Response, Challenge, Honest;
    if run == [] {
      EquationCong(keys, X, M, UNSIGNED);
      NoKeys(keys, |keys|);
      CongRefl(0);
    } else {
      hide Equation;
      var before, last := run[..|run|-1], run[|run|-1];
      RunVerifies(keys, X, M, before);
      SignKeeps(keys, last, X, M, SignRun(keys, X, M, before));
      assert Signers(run) == Signers(before) + {last.pubkey};
    }
  }

  // ----- what the sums are, in the hashes themselves

  /** The keys' logarithms, each times the hash of the key before all keys. */
  ghost function LogSum(keys: seq<Word>, part: set<Word>, n: nat): int
    requires n <= |keys| && Decodable(keys)
  {
    if n == 0 then 0
    else LogSum(keys, part, n - 1)
         + if keys[n-1] in part then KEY_HASH([keys[n-1]] + keys) * Unpack(keys[n-1]).value.log else 0
  }

  lemma {:induction false} KeySumLog(keys: seq<Word>, part: set<Word>, n: nat)
    requires n <= |keys| && Decodable(keys)
    ensures Cong(KeySum(keys, part, n).log, LogSum(keys, part, n))
  {
    hide Cong, Reduce, Unpack;
    if n == 0 {
      CongRefl(0);
    } else {
      KeySumLog(keys, part, n - 1);
      if keys[n-1] in part {
        var w, l := KEY_HASH([keys[n-1]] + keys), Unpack(keys[n-1]).value.log;
        CongRefl(l);
        CongMul(Reduce(w), w, l, l);
        CongTrans(Mul(Reduce(w), l), Reduce(w) * l, w * l);
        AddTerm(KeySum(keys, part, n - 1).log, LogSum(keys, part, n - 1), Mul(Reduce(w), l), w * l);
      }
    }
  }

  lemma AddTerm(a: int, b: int, x: int, y: int)
    requires Cong(a, b) && Cong(x, y)
    ensures Cong(Add(a, x), b + y)
  {
    hide Cong, Reduce;
    CongAdd(a, b, x, y);
    CongTrans(Add(a, x), a + x, b + y);
  }

  /** The nonces of those who signed, each once. */
  ghost function NonceSum(M: seq<byte>, run: seq<CryptoKey>): int {
    if run == [] then 0
    else
      var before, last := run[..|run|-1], run[|run|-1];
      NonceSum(M, before) + if last.pubkey in Signers(before) then 0 else NONCE_HASH(last, M)
  }

  /** Their clamped secrets, each once and times the hash of its key before all keys. */
  ghost function SecretSum(keys: seq<Word>, run: seq<CryptoKey>): int {
    if run == [] then 0
    else
      var before, last := run[..|run|-1], run[|run|-1];
      SecretSum(keys, before)
      + if last.pubkey in Signers(before) then 0 else KEY_HASH([last.pubkey] + keys) * CLAMP(last.secret)
  }

  /** The aggregate key. */
  ghost function Apk(keys: seq<Word>): Word
    requires Decodable(keys)
  {
    Pack(KeySum(keys, All(keys), |keys|))
  }

  /** What a run leaves in the signature: the sum of the nonces, and that sum plus the message's hash times the
      sum of the weighted secrets. */
  lemma {:induction false} RunValues(keys: KeySet, X: seq<byte>, M: seq<byte>, run: seq<CryptoKey>)
    requires Decodable(keys) && Members(keys, run)
    ensures var s, r, c := SignRun(keys, X, M, run), NonceSum(M, run), SecretSum(keys, run);
            Cong(s.R.log, r) && Cong(s.S, r + MESSAGE_HASH(X, Apk(keys), M) * c)
  {
    hide Cong, Reduce, KeySum, Unpack, Honest, Response;
    var h := MESSAGE_HASH(X, Apk(keys), M);
    if run == [] {
      CongRefl(0);
      assert h * 0 == 0;
    } else {
      var before, last := run[..|run|-1], run[|run|-1];
      RunValues(keys, X, M, before);
      RunVerifies(keys, X, M, before);
      if last.pubkey !in Signers(before) {
        var s, r, c := SignRun(keys, X, M, before), NonceSum(M, before), SecretSum(keys, before);
        var nonce, w := NONCE_HASH(last, M), KEY_HASH([last.pubkey] + keys);
        var t := w * CLAMP(last.secret);
        RawResponse(keys, X, M, last);
        CongTrans(Reduce(Nonce(last, M)), Nonce(last, M), nonce);
        AddTerm(s.R.log, r, Reduce(Nonce(last, M)), nonce);
        AddTerm(s.S, r + h * c, Response(Challenge(keys, X, M), keys, last, M), nonce + h * t);
        assert h * (c + t) == h * c + h * t;
      }
    }
  }

  /** One response, in the hashes. */
  lemma RawResponse(keys: seq<Word>, X: seq<byte>, M: seq<byte>, key: CryptoKey)
    requires Decodable(keys)
    ensures Cong(Response(Challenge(keys, X, M), keys, key, M),
                 NONCE_HASH(key, M)
                 + MESSAGE_HASH(X, Apk(keys), M) * (KEY_HASH([key.pubkey] + keys) * CLAMP(key.secret)))
  {
    hide Cong, Reduce, KeySum, Response;
    var h: int, w: int, c: int := MESSAGE_HASH(X, Apk(keys), M), KEY_HASH([key.pubkey] + keys), CLAMP(key.secret);
    var challenge: int, nonce: int := Challenge(keys, X, M), Nonce(key, M);
    ResponseCong(challenge, keys, key, M);
    CongMul(Reduce(w), w, Reduce(c), c);
    CongMul(challenge, h, Reduce(w) * Reduce(c), w * c);
    CongAdd(nonce, NONCE_HASH(key, M), challenge * (Reduce(w) * Reduce(c)), h * (w * c));
    CongTrans(Response(challenge, keys, key, M), nonce + challenge * (Reduce(w) * Reduce(c)),
              NONCE_HASH(key, M) + h * (w * c));
  }

  // ----- another message

  /** The equation in the hash of the message. */
  lemma EquationRaw(keys: seq<Word>, X: seq<byte>, M: seq<byte>, s: Signature)
    requires Decodable(keys)
    ensures Equation(keys, X, M, s)
        <==> Cong(s.S, s.R.log + MESSAGE_HASH(X, Apk(keys), M) * KeySum(keys, s.signers, |keys|).log)
  {
    hide Cong, Reduce, KeySum, Equation;
    var h, A := MESSAGE_HASH(X, Apk(keys), M), KeySum(keys, s.signers, |keys|).log;
    var x, y := s.R.log + Reduce(h) * A, s.R.log + h * A;
    EquationCong(keys, X, M, s);
    CongRefl(A);
    CongRefl(s.R.log);
    CongMul(Reduce(h), h, A, A);
    CongAdd(s.R.log, s.R.log, Reduce(h) * A, h * A);
    CongSym(x, y);
    if Cong(s.S, x) { CongTrans(s.S, x, y); }
    if Cong(s.S, y) { CongTrans(s.S, y, x); }
  }

  /** What was signed for one anchor and message verifies for another exactly when the two message hashes agree
      on the signers' key sum; unless that sum vanishes, exactly when the hashes are congruent. */
  lemma OtherMessage(keys: KeySet, X: seq<byte>, M: seq<byte>, run: seq<CryptoKey>, X2: seq<byte>, M2: seq<byte>)
    requires Decodable(keys) && Members(keys, run)
    ensures var s, A := SignRun(keys, X, M, run), KeySum(keys, Signers(run), |keys|).log;
            var h, h2 := MESSAGE_HASH(X, Apk(keys), M), MESSAGE_HASH(X2, Apk(keys), M2);
            && (Equation(keys, X2, M2, s) <==> Cong(h2 * A, h * A))
            && (A != 0 ==> (Equation(keys, X2, M2, s) <==> Cong(h2, h)))
  {
    hide Cong, Reduce, KeySum, Equation, SignRun, Apk;
    var s, A := SignRun(keys, X, M, run), KeySum(keys, Signers(run), |keys|).log;
    var h, h2 := MESSAGE_HASH(X, Apk(keys), M), MESSAGE_HASH(X2, Apk(keys), M2);
    RunVerifies(keys, X, M, run);
    EquationRaw(keys, X, M, s);
    EquationRaw(keys, X2, M2, s);
    SameSide(s.S, s.R.log, h * A, h2 * A);
    if A != 0 {
      if Cong(A, 0) { CongScalar(A, 0); }
      CongCancel(h2, h, A);
    }
  }

  lemma SameSide(S: int, R: int, x: int, y: int)
    requires Cong(S, R + x)
    ensures Cong(S, R + y) <==> Cong(y, x)
  {
    hide Cong;
    CongRefl(R);
    if Cong(S, R + y) {
      CongSym(S, R + y);
      CongTrans(R + y, S, R + x);
      CongSub(R + y, R + x, R, R);
    }
    if Cong(y, x) {
      CongSym(y, x);
      CongAdd(R, R, x, y);
      CongTrans(S, R + x, R + y);
    }
  }

  /** The code's run: sign in turn from an empty signature, then verify and list the signers. */
  method SignInTurn(keys: KeySet, X: seq<byte>, M: seq<byte>, run: seq<CryptoKey>)
    returns (sig: seq<byte>, ok: bool, part: set<Word>, listed: set<Word>)
    requires keys != [] && Decodable(keys) && Members(keys, run)
    ensures ok && part == listed == Signers(run)
    ensures run != [] ==> Parsed(keys, sig) == Some(SignRun(keys, X, M, run)) && Canonical(keys, sig)
    ensures run == [] ==> sig == []
  {
    hide Equation, Signed, Parsed, Canonical, PartKeys, Honest;
    sig := [];
    Unsigned(keys);
    for i := 0 to |run|
      invariant Parsed(keys, sig) == Some(SignRun(keys, X, M, run[..i]))
      invariant i > 0 ==> Canonical(keys, sig) && sig != []
      invariant i == 0 ==> sig == []
    {
      assert run[..i+1][..i] == run[..i];
      var signed;
      signed, sig := CryptoMultiSign(keys, run[i], X, M, sig);
      CanonicalSized(keys, sig);
    }
    assert run[..|run|] == run;
    RunVerifies(keys, X, M, run);
    ok, part := CryptoMultiVerify(keys, X, M, sig, {});
    listed := CryptoMultiPartKey(keys, sig);
    if run != [] {
      CanonicalSized(keys, sig);
      ParsedSigners(keys, sig);
    }
  }

  lemma Unsigned(keys: seq<Word>)
    requires keys != []
    ensures Parsed(keys, []) == Some(UNSIGNED)
  {
  }

  lemma CanonicalSized(keys: seq<Word>, sig: seq<byte>)
    requires keys != [] && Canonical(keys, sig)
    ensures Sized(keys, sig) && sig != []
  {
  }

  lemma ParsedSigners(keys: seq<Word>, sig: seq<byte>)
    requires Sized(keys, sig) && Parsed(keys, sig).Some?
    ensures Parsed(keys, sig).value.signers == PartKeys(keys, sig)
  {
    hide WordAt, Bit, PartKeys;
  }

  /** The code on another message: sign in turn for the one, verify for the other. */
  method VerifyOther(keys: KeySet, X: seq<byte>, M: seq<byte>, run: seq<CryptoKey>, X2: seq<byte>, M2: seq<byte>)
    returns (ok: bool)
    requires keys != [] && Decodable(keys) && Members(keys, run)
    ensures var A := KeySum(keys, Signers(run), |keys|).log;
            var h, h2 := MESSAGE_HASH(X, Apk(keys), M), MESSAGE_HASH(X2, Apk(keys), M2);
            && (ok <==> run == [] || Cong(h2 * A, h * A))
            && (run != [] && A != 0 ==> (ok <==> Cong(h2, h)))
  {
    hide Cong, KeySum, Equation, Signed, Parsed, Canonical, Honest, Apk;
    var sig, same, part, listed := SignInTurn(keys, X, M, run);
    OtherMessage(keys, X, M, run, X2, M2);
    var others;
    ok, others := CryptoMultiVerify(keys, X2, M2, sig, {});
    if run != [] { CanonicalSized(keys, sig); }
  }
}
