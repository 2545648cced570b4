/** The incremental multi-signature: a bitmap of signers, a summed nonce point and a summed scalar. */
module MultiSign {
  import opened Words
  import opened Bytes
  import opened Scalars
  import opened Curve

  datatype CryptoKey = CryptoKey(secret: Word, pubkey: Word)

  // The hash functions: nothing is known about them.
  const KEY_HASH: seq<Word> -> Word                      // of one key followed by all keys
  const MESSAGE_HASH: (seq<byte>, Word, seq<byte>) -> Word // of anchor, aggregate key and message
  const NONCE_HASH: (CryptoKey, seq<byte>) -> Word       // of the key pair and the message
  const CLAMP: Word -> Word                              // of the secret, clamped

  /** An ordered set of public keys, in iteration order. */
  predicate Ascending(keys: seq<Word>) {
    forall i, j :: 0 <= i < j < |keys| ==> keys[i] < keys[j]
  }

  type KeySet = keys: seq<Word> | Ascending(keys)

  /** The public half belongs to the secret half, as key generation makes them. */
  ghost predicate Honest(key: CryptoKey) {
    Unpack(key.pubkey) == Some(Generate(CLAMP(key.secret)))
  }

  // ----- the bitmap

  /** b with bit k set. */
  function OrBit(b: nat, k: nat): nat {
    if k == 0 then b / 2 * 2 + 1 else 2 * OrBit(b / 2, k - 1) + b % 2
  }

  lemma {:induction false} OrBitSets(b: nat, k: nat, j: nat)
    ensures BitOf(OrBit(b, k), j) == (j == k || BitOf(b, j))
  {
    if k > 0 && j > 0 { OrBitSets(b / 2, k - 1, j - 1); }
  }

  lemma {:induction false} OrBitRange(b: nat, k: nat, n: nat)
    requires b < Pow2(n) && k < n
    ensures OrBit(b, k) < Pow2(n)
  {
    if k > 0 { OrBitRange(b / 2, k - 1, n - 1); }
  }

  function IndexLength(n: nat): nat
    requires n > 0
  {
    (n - 1) / 8 + 1
  }

  predicate Bit(s: seq<byte>, i: nat)
    requires i / 8 < |s|
  {
    BitOf(s[i / 8], i % 8)
  }

  function SetBit(s: seq<byte>, i: nat): (r: seq<byte>)
    requires i / 8 < |s|
    ensures |r| == |s|
  {
    Pow2Byte();
    OrBitRange(s[i / 8], i % 8, 8);
    s[i / 8 := OrBit(s[i / 8], i % 8)]
  }

  lemma SetBitAt(s: seq<byte>, i: nat, j: nat)
    requires i / 8 < |s| && j / 8 < |s|
    ensures Bit(SetBit(s, i), j) == (j == i || Bit(s, j))
  {
    hide BitOf, OrBit;
    if i / 8 == j / 8 { OrBitSets(s[i / 8], i % 8, j % 8); }
  }

  /** The first bit set in a byte is worth two to its place, lowest first. */
  lemma SetBitValue(s: seq<byte>, i: nat)
    requires i / 8 < |s| && s[i / 8] == 0
    ensures SetBit(s, i)[i / 8] == Pow2(i % 8)
  {
    OrBitZero(i % 8);
  }

  lemma {:induction false} OrBitZero(k: nat)
    ensures OrBit(0, k) == Pow2(k)
  {
    if k > 0 { OrBitZero(k - 1); }
  }

  // ----- the signature as a value

  /** Who signed, the sum of their nonce points, and the sum of their scalars. */
  datatype Signature = Signature(signers: set<Word>, R: Point, S: Scalar)

  const UNSIGNED := Signature({}, IDENTITY, 0)

  function WordAt(s: seq<byte>, p: nat): Word
    requires p + 32 <= |s|
  {
    FromBytesBack(s[p..p+32]);
    WordLimit();
    LittleEndian(s[p..p+32])
  }

  predicate Sized(keys: seq<Word>, sig: seq<byte>)
  {
    keys != [] && |sig| == IndexLength(|keys|) + 64
  }

  function PartKeys(keys: seq<Word>, sig: seq<byte>): set<Word>
    requires Sized(keys, sig)
  {
    set i | 0 <= i < |keys| && Bit(sig, i) :: keys[i]
  }

  /** What the bytes of a signature denote. */
  function Parsed(keys: seq<Word>, sig: seq<byte>): Option<Signature>
    requires keys != []
  {
    if sig == [] then Some(UNSIGNED)
    else if !Sized(keys, sig) then None
    else
      var n := IndexLength(|keys|);
      match Unpack(WordAt(sig, n))
      case None => None
      case Some(R) => Some(Signature(PartKeys(keys, sig), R, Reduce(WordAt(sig, n + 32))))
  }

  /** Bytes as signing writes them: the point in its packed form, the scalar reduced. */
  predicate Canonical(keys: seq<Word>, sig: seq<byte>)
    requires keys != []
  {
    && Sized(keys, sig)
    && var n := IndexLength(|keys|);
       Unpack(WordAt(sig, n)).Some? && WordAt(sig, n) == Pack(Unpack(WordAt(sig, n)).value) && WordAt(sig, n + 32) < Q
  }

  // ----- aggregate keys

  predicate Decodable(keys: seq<Word>) {
    forall i :: 0 <= i < |keys| ==> Unpack(keys[i]).Some?
  }

  /** The coefficient of one key. */
  function Weight(keys: seq<Word>, key: Word): Scalar { Reduce(KEY_HASH([key] + keys)) }

  /** The weighted sum of those of the first n keys that are in part. */
  function KeySum(keys: seq<Word>, part: set<Word>, n: nat): Point
    requires n <= |keys| && Decodable(keys)
  {
    if n == 0 then IDENTITY
    else if keys[n-1] !in part then KeySum(keys, part, n - 1)
    else Plus(KeySum(keys, part, n - 1), ScalarMult(Weight(keys, keys[n-1]), Unpack(keys[n-1]).value))
  }

  ghost function All(keys: seq<Word>): set<Word> { set i | 0 <= i < |keys| :: keys[i] }

  /** The scalar everybody's message hash reduces to. */
  ghost function Challenge(keys: seq<Word>, X: seq<byte>, M: seq<byte>): Scalar
    requires Decodable(keys)
  {
    Reduce(MESSAGE_HASH(X, Pack(KeySum(keys, All(keys), |keys|)), M))
  }

  method MultiSignApk(keys: KeySet) returns (apk: Option<Word>)
    ensures apk.Some? <==> Decodable(keys)
    ensures apk.Some? ==> apk.value == Pack(KeySum(keys, All(keys), |keys|))
  {
    hide Plus, ScalarMult, Weight;
    var sum := IDENTITY;
    ghost var all := All(keys);
    for i := 0 to |keys|
      invariant Decodable(keys[..i])
      invariant Decodable(keys) ==> sum == KeySum(keys, all, i)
    {
      var hash := Weight(keys, keys[i]);
      var point := Unpack(keys[i]);
      if point.None? {
        return None;
      }
      assert keys[i] in all;
      sum := Plus(sum, ScalarMult(hash, point.value));
    }
    assert keys[..|keys|] == keys;
    return Some(Pack(sum));
  }

  // ----- signing

  /** One signer's contribution. */
  function Nonce(key: CryptoKey, M: seq<byte>): Scalar { Reduce(NONCE_HASH(key, M)) }

  function Response(h: Scalar, keys: seq<Word>, key: CryptoKey, M: seq<byte>): Scalar {
    Add(Nonce(key, M), Mul(Mul(h, Weight(keys, key.pubkey)), Reduce(CLAMP(key.secret))))
  }

  /** What signing adds to a signature: nothing for a key that has signed. */
  ghost function Signed(keys: seq<Word>, key: CryptoKey, X: seq<byte>, M: seq<byte>, s: Signature): Signature
    requires Decodable(keys)
  {
    if key.pubkey in s.signers then s
    else Signature(s.signers + {key.pubkey}, Plus(s.R, Generate(Nonce(key, M))),
                   Add(s.S, Response(Challenge(keys, X, M), keys, key, M)))
  }

  method Find(keys: KeySet, key: Word) returns (index: nat)
    ensures index <= |keys| && (index < |keys| <==> key in keys) && (index < |keys| ==> keys[index] == key)
  {
    index := 0;
    while index < |keys| && keys[index] != key
      invariant index <= |keys| && key !in keys[..index]
    {
      index := index + 1;
    }
  }

  function Zeros(n: nat): (s: seq<byte>)
    ensures |s| == n
  {
    seq(n, _ => 0)
  }

  lemma {:induction false} ZeroBits(i: nat)
    ensures !BitOf(0, i)
  {
    if i > 0 { ZeroBits(i - 1); }
  }

  /** Write the point and the scalar behind the bitmap. */
  function Written(index: seq<byte>, R: Point, S: Scalar): (s: seq<byte>)
    ensures |s| == |index| + 64
  {
    index + ToBytes(Pack(R), 32) + ToBytes(S, 32)
  }

  lemma WrittenWords(index: seq<byte>, R: Point, S: Scalar)
    ensures WordAt(Written(index, R, S), |index|) == Pack(R) && WordAt(Written(index, R, S), |index| + 32) == S
  {
    hide Pow2, LittleEndian, ToBytes;
    var s, n := Written(index, R, S), |index|;
    WordLimit();
    assert s[n..n+32] == ToBytes(Pack(R), 32);
    assert s[n+32..n+32+32] == ToBytes(S, 32);
    ToBytesBack(Pack(R), 32);
    ToBytesBack(S, 32);
  }

  /** Behind the bitmap come the packed point and the scalar, each in 32 bytes, lowest first. */
  lemma Layout(keys: seq<Word>, sig: seq<byte>)
    requires Sized(keys, sig) && Parsed(keys, sig).Some? && sig != []
    ensures var n, s := (|keys| - 1) / 8 + 1, Parsed(keys, sig).value;
            && |sig| == n + 64
            && Unpack(WordAt(sig, n)) == Some(s.R) && WordAt(sig, n) == LittleEndian(sig[n..n+32])
            && Cong(s.S, LittleEndian(sig[n+32..n+64]))
            && forall i :: 0 <= i < |keys| && BitOf(sig[i / 8], i % 8) ==> keys[i] in s.signers
  {
    hide BitOf, LittleEndian, Unpack, Reduce, Cong;
    var n := IndexLength(|keys|);
    assert sig[n+32..n+32+32] == sig[n+32..n+64];
    forall i | 0 <= i < |keys| && BitOf(sig[i / 8], i % 8)
      ensures keys[i] in Parsed(keys, sig).value.signers
    {
      assert Bit(sig, i);
    }
  }

  /** Canonical bytes are what writing their own parts gives. */
  lemma Rewritten(keys: seq<Word>, sig: seq<byte>)
    requires keys != [] && Canonical(keys, sig)
    ensures Written(sig[..IndexLength(|keys|)], Parsed(keys, sig).value.R, Parsed(keys, sig).value.S) == sig
  {
    hide Pow2, LittleEndian, ToBytes, PartKeys;
    var n := IndexLength(|keys|);
    FromBytesBack(sig[n..n+32]);
    FromBytesBack(sig[n+32..n+32+32]);
    ReduceSmall(WordAt(sig, n + 32));
    assert sig == sig[..n] + sig[n..n+32] + sig[n+32..n+32+32];
  }

  /** The bytes written for a bitmap denote its keys, the point and the scalar. */
  lemma WrittenParsed(keys: seq<Word>, bits: seq<byte>, R: Point, S: Scalar)
    requires keys != [] && |bits| == IndexLength(|keys|)
    ensures var sig := Written(bits, R, S);
            && Canonical(keys, sig) && sig[..|bits|] == bits
            && Parsed(keys, sig) == Some(Signature(set i | 0 <= i < |keys| && Bit(bits, i) :: keys[i], R, S))
  {
    hide Bit, ToBytes, WordAt;
    var sig := Written(bits, R, S);
    WrittenWords(bits, R, S);
    ReduceSmall(S);
    SameBits(keys, bits, sig);
  }

  lemma SameBits(keys: seq<Word>, bits: seq<byte>, sig: seq<byte>)
    requires Sized(keys, sig) && |bits| == IndexLength(|keys|) && sig[..|bits|] == bits
    ensures PartKeys(keys, sig) == set i | 0 <= i < |keys| && Bit(bits, i) :: keys[i]
  {
    hide BitOf;
    assert forall i :: 0 <= i < |keys| ==> sig[i / 8] == bits[i / 8];
  }

  /** Setting the bit of a key adds that key to those the bitmap denotes. */
  lemma SetBitAdds(keys: KeySet, bits: seq<byte>, index: nat)
    requires keys != [] && |bits| == IndexLength(|keys|) && index < |keys|
    ensures (set i | 0 <= i < |keys| && Bit(SetBit(bits, index), i) :: keys[i])
         == (set i | 0 <= i < |keys| && Bit(bits, i) :: keys[i]) + {keys[index]}
    ensures keys[index] in (set i | 0 <= i < |keys| && Bit(bits, i) :: keys[i]) <==> Bit(bits, index)
  {
    hide Bit, SetBit;
    forall i | 0 <= i < |keys| ensures Bit(SetBit(bits, index), i) == (i == index || Bit(bits, i)) {
      SetBitAt(bits, index, i);
    }
    assert Bit(SetBit(bits, index), index);
  }

  lemma NoBits(keys: seq<Word>)
    requires keys != []
    ensures (set i | 0 <= i < |keys| && Bit(Zeros(IndexLength(|keys|)), i) :: keys[i]) == {}
  {
    forall i: nat ensures !BitOf(0, i) { ZeroBits(i); }
  }

  /** Add one signature to those collected. The bytes change at the signer's bit, R and S only; a key that
      has signed changes nothing. A failure on an empty signature still leaves it sized and zero. */
  method CryptoMultiSign(keys: KeySet, key: CryptoKey, X: seq<byte>, M: seq<byte>, vchSig: seq<byte>)
    returns (ok: bool, sig: seq<byte>)
    ensures ok <==> keys != [] && Parsed(keys, vchSig).Some? && Decodable(keys) && key.pubkey in keys
    ensures ok ==> Canonical(keys, sig)
                   && Parsed(keys, sig) == Some(Signed(keys, key, X, M, Parsed(keys, vchSig).value))
    ensures ok && vchSig != [] && Canonical(keys, vchSig) && key.pubkey in PartKeys(keys, vchSig) ==> sig == vchSig
    ensures !ok ==> sig == if keys != [] && vchSig == [] then Zeros(IndexLength(|keys|) + 64) else vchSig
  {
    hide Bit, SetBit, Written, WordAt, KeySum, Weight, Response, Nonce, Plus, PACKING, Pack, Unpack;
    sig := vchSig;
    if keys == [] {
      return false, sig;
    }
    var S: Scalar, R := 0, IDENTITY;
    var n := IndexLength(|keys|);
    if vchSig == [] {
      sig := Zeros(n + 64);
    } else {
      if |sig| != n + 64 {
        return false, sig;
      }
      var r := Unpack(WordAt(sig, n));
      if r.None? {
        return false, sig;
      }
      R := r.value;
      S := Reduce(WordAt(sig, n + 32));
    }
    var apk := MultiSignApk(keys);
    if apk.None? {
      return false, sig;
    }
    var h := Reduce(MESSAGE_HASH(X, apk.value, M));
    var index := Find(keys, key.pubkey);
    if index == |keys| {
      return false, sig;
    }
    var bits := sig[..n];
    ghost var was := bits;
    ghost var before := Parsed(keys, vchSig).value;
    BitsBefore(keys, vchSig, bits);
    SetBitAdds(keys, bits, index);
    if !Bit(bits, index) {
      S := Add(S, Response(h, keys, key, M));
      R := Plus(R, Generate(Nonce(key, M)));
      bits := SetBit(bits, index);
    }
    sig := Written(bits, R, S);
    WrittenParsed(keys, bits, R, S);
    if vchSig != [] && Canonical(keys, vchSig) { Rewritten(keys, vchSig); }
    ok := true;
  }

  lemma BitsBefore(keys: seq<Word>, vchSig: seq<byte>, bits: seq<byte>)
    requires keys != [] && Parsed(keys, vchSig).Some? && |bits| == IndexLength(|keys|)
    requires if vchSig == [] then bits == Zeros(|bits|) else bits == vchSig[..|bits|]
    ensures Parsed(keys, vchSig).value.signers == set i | 0 <= i < |keys| && Bit(bits, i) :: keys[i]
  {
    hide Bit, WordAt;
    if vchSig == [] { NoBits(keys); } else { SameBits(keys, bits, vchSig); }
  }

  // ----- verifying

  /** The verification equation. */
  ghost predicate Equation(keys: seq<Word>, X: seq<byte>, M: seq<byte>, s: Signature)
    requires Decodable(keys)
  {
    Generate(s.S) == Plus(s.R, ScalarMult(Challenge(keys, X, M), KeySum(keys, s.signers, |keys|)))
  }

  /** Accepts an empty signature, and any other exactly when its equation holds; reports the signers
      whenever the bytes can be read, whether or not the equation holds. */
  method CryptoMultiVerify(keys: KeySet, X: seq<byte>, M: seq<byte>, vchSig: seq<byte>, part0: set<Word>)
    returns (ok: bool, part: set<Word>)
    ensures ok <==> keys != [] && (vchSig == [] || (Parsed(keys, vchSig).Some? && Decodable(keys)
                                                   && Equation(keys, X, M, Parsed(keys, vchSig).value)))
    ensures part == if keys != [] && vchSig != [] && Parsed(keys, vchSig).Some? && Decodable(keys)
                    then Parsed(keys, vchSig).value.signers else part0
  {
    hide Bit, WordAt, Weight, Plus, ScalarMult, Generate, Unpack, Pack;
    part := part0;
    if keys == [] {
      return false, part;
    }
    if vchSig == [] {
      return true, part;
    }
    var n := IndexLength(|keys|);
    if |vchSig| != n + 64 {
      return false, part;
    }
    var R := Unpack(WordAt(vchSig, n));
    if R.None? {
      return false, part;
    }
    var S := Reduce(WordAt(vchSig, n + 32));
    var apk := MultiSignApk(keys);
    if apk.None? {
      return false, part;
    }
    var h := Reduce(MESSAGE_HASH(X, apk.value, M));
    var A := IDENTITY;
    part := {};
    ghost var signers := PartKeys(keys, vchSig);
    for i := 0 to |keys|
      invariant A == KeySum(keys, signers, i)
      invariant part == set j | 0 <= j < i && Bit(vchSig, j) :: keys[j]
    {
      Chosen(keys, vchSig, i);
      if Bit(vchSig, i) {
        A := Plus(A, ScalarMult(Weight(keys, keys[i]), Unpack(keys[i]).value));
        part := part + {keys[i]};
      }
    }
    ok := Generate(S) == Plus(R.value, ScalarMult(h, A));
  }

  lemma Chosen(keys: KeySet, sig: seq<byte>, i: nat)
    requires Sized(keys, sig) && i < |keys|
    ensures keys[i] in PartKeys(keys, sig) <==> Bit(sig, i)
  {
    hide Bit;
  }

  method CryptoMultiPartKey(keys: KeySet, vchSig: seq<byte>) returns (part: set<Word>)
    ensures part == if Sized(keys, vchSig) then PartKeys(keys, vchSig) else {}
  {
    hide Bit;
    part := {};
    if keys == [] || vchSig == [] {
      return;
    }
    if |vchSig| != IndexLength(|keys|) + 64 {
      return;
    }
    for i := 0 to |keys|
      invariant part == set j | 0 <= j < i && Bit(vchSig, j) :: keys[j]
    {
      if Bit(vchSig, i) {
        part := part + {keys[i]};
      }
    }
  }
}
