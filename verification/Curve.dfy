/** The prime-order group. A point is named by its discrete logarithm to the base point, which
    loses nothing in a cyclic group; how points are packed into words is left arbitrary. */
module Curve {
  import opened Words
  import opened Scalars
  import opened GroupOrder

  datatype Point = Point(log: Scalar)

  const IDENTITY := Point(0)

  /** A packing of points into words. */
  datatype Packing = Packing(pack: Point -> Word, unpack: Word -> Option<Point>)

  /** Unpacking undoes packing, and no point packs to the zero word. */
  ghost predicate Lawful(c: Packing) {
    forall p: Point :: c.pack(p) != 0 && c.unpack(c.pack(p)) == Some(p)
  }

  type LawfulPacking = c: Packing | Lawful(c)
    witness Packing((p: Point) => p.log + 1, (w: Word) => if 1 <= w <= Q then Some(Point(w - 1)) else None)

  /** Any lawful packing: nothing else is known about it. */
  const PACKING: LawfulPacking

  function Pack(p: Point): (w: Word)
    ensures w != 0 && Unpack(w) == Some(p)
  {
    PACKING.pack(p)
  }

  function Unpack(w: Word): Option<Point> { PACKING.unpack(w) }

  function Generate(s: nat): Point { Point(Reduce(s)) }

  function Plus(p: Point, r: Point): Point { Point(Add(p.log, r.log)) }

  function ScalarMult(n: nat, p: Point): Point { Point(Mul(n, p.log)) }

  // ----- keys and signatures

  function EccPubkey(s: Word): Word { Pack(Generate(s)) }

  predicate EccPubkeyValidate(pubkey: Word) {
    pubkey != 0 && Unpack(pubkey).Some? && Unpack(pubkey).value != IDENTITY
  }

  function EccSign(key: Word, r: Word, hash: Word): Scalar {
    Add(Reduce(key), Mul(Reduce(r), Reduce(hash)))
  }

  predicate EccVerify(pubkey: Word, rG: Word, signature: Word, hash: Word) {
    match (Unpack(pubkey), Unpack(rG))
    case (Some(p), Some(r)) => Generate(signature) == Plus(p, ScalarMult(hash, r))
    case _ => false
  }

  function EccSharedKey(key: Word, other: Word): Word {
    match Unpack(other)
    case Some(p) => Pack(ScalarMult(key, p))
    case None => 0
  }

  /** Two scalars have the same public point exactly when they are congruent. */
  lemma PubkeyInjective(a: Word, b: Word)
    ensures EccPubkey(a) == EccPubkey(b) <==> Cong(a, b)
  {
    CongReduce(a, b);
  }

  /** Verification is a congruence: it accepts what the key and the nonce make of the hash, and nothing else. */
  lemma VerifyExact(key: Word, rG: Word, s: Word, hash: Word)
    ensures EccVerify(EccPubkey(key), rG, s, hash)
       <==> Unpack(rG).Some? && Cong(s, key + Unpack(rG).value.log * hash)
  {
    hide Cong, Reduce, Unpack;
    if Unpack(rG).Some? {
      var k, n := Reduce(key), Unpack(rG).value.log;
      assert hash * n == n * hash;
      CongAdd(k, key, Mul(hash, n), n * hash);
      CongReduce(k + Mul(hash, n), key + n * hash);
      CongReduce(s, key + n * hash);
    }
  }

  /** The same for a nonce point made from r. */
  lemma VerifyNonce(key: Word, r: Word, s: Word, hash: Word)
    ensures EccVerify(EccPubkey(key), EccPubkey(r), s, hash) <==> Cong(s, key + r * hash)
  {
    hide Cong, Reduce;
    var n := Reduce(r);
    VerifyExact(key, EccPubkey(r), s, hash);
    CongRefl(hash);
    CongRefl(key);
    CongMul(n, r, hash, hash);
    CongAdd(key, key, n * hash, r * hash);
    CongSym(key + n * hash, key + r * hash);
    if Cong(s, key + n * hash) { CongTrans(s, key + n * hash, key + r * hash); }
    if Cong(s, key + r * hash) { CongTrans(s, key + r * hash, key + n * hash); }
  }

  /** A signature made with a key verifies under that key's public point. */
  lemma SignVerifies(key: Word, r: Word, hash: Word)
    ensures EccVerify(EccPubkey(key), EccPubkey(r), EccSign(key, r, hash), hash)
  {
    hide Cong, Reduce;
    CongMul(Reduce(r), r, Reduce(hash), hash);
    CongTrans(Mul(Reduce(r), Reduce(hash)), Reduce(r) * Reduce(hash), r * hash);
    CongAdd(Reduce(key), key, Mul(Reduce(r), Reduce(hash)), r * hash);
    CongTrans(EccSign(key, r, hash), Reduce(key) + Mul(Reduce(r), Reduce(hash)), key + r * hash);
    VerifyNonce(key, r, EccSign(key, r, hash), hash);
  }

  /** The agreed key is the packed point at the product of the two keys. */
  lemma SharedKeyIs(a: Word, b: Word, c: Word)
    ensures EccSharedKey(a, EccPubkey(b)) == EccPubkey(c) <==> Cong(c, a * b)
  {
    hide Cong, Reduce;
    CongRefl(a);
    CongMul(a, a, Reduce(b), b);
    CongReduce(a * Reduce(b), a * b);
    CongReduce(c, a * b);
  }

  /** With a public key other than the identity, different keys agree on different shared keys. */
  lemma SharedKeyInjective(a: Word, b: Word, pubkey: Word)
    requires EccPubkeyValidate(pubkey)
    ensures EccSharedKey(a, pubkey) == EccSharedKey(b, pubkey) <==> Cong(a, b)
  {
    hide Cong, Reduce;
    var l := Unpack(pubkey).value.log;
    CongReduce(a * l, b * l);
    if Cong(l, 0) { CongScalar(l, 0); }
    CongCancel(a, b, l);
  }

  /** The key agreed by two parties does not depend on which of them computes it. */
  lemma SharedKeyAgrees(a: Word, b: Word)
    ensures EccSharedKey(a, EccPubkey(b)) == EccSharedKey(b, EccPubkey(a))
  {
    hide Cong, Reduce, EccSharedKey;
    var c := Reduce(a * b);
    assert a * b == b * a;
    SharedKeyIs(a, b, c);
    SharedKeyIs(b, a, c);
  }
}
