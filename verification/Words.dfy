/** 256-bit words and their exclusive or. */
module Words {

  datatype Option<+T> = None | Some(value: T)

  const WORD_LIMIT: int :=
    0x1_0000000000000000_0000000000000000_0000000000000000_0000000000000000

  type Word = x: int | 0 <= x < WORD_LIMIT

  function Pow2(n: nat): (r: nat)
    ensures r > 0
  {
    if n == 0 then 1 else 2 * Pow2(n - 1)
  }

  lemma Pow2Zero()
    ensures Pow2(0) == 1
  {
  }

  lemma {:induction false} Pow2Add(m: nat, n: nat)
    ensures Pow2(m + n) == Pow2(m) * Pow2(n)
  {
    if m > 0 {
      Pow2Add(m - 1, n);
      TwiceProduct(Pow2(m - 1), Pow2(n));
    }
  }

  lemma TwiceProduct(a: int, b: int)
    ensures 2 * (a * b) == (2 * a) * b
  {
  }

  lemma Pow2Byte()
    ensures Pow2(8) == 256
  {
  }

  lemma WordLimit()
    ensures Pow2(256) == WORD_LIMIT
  {
    hide Pow2;
    Pow2Byte();
    Pow2Add(8, 8);
    Pow2Add(16, 16);
    Pow2Add(32, 32);
    Pow2Add(64, 64);
    Pow2Add(128, 128);
  }

  /** Exclusive or of the lowest n bits. */
  function XorBits(a: nat, b: nat, n: nat): (r: nat)
    ensures r < Pow2(n)
  {
    if n == 0 then 0
    else 2 * XorBits(a / 2, b / 2, n - 1) + if a % 2 == b % 2 then 0 else 1
  }

  lemma {:induction false} XorBitsCancel(a: nat, b: nat, n: nat)
    requires b < Pow2(n)
    ensures XorBits(a, XorBits(a, b, n), n) == b
  {
    if n > 0 { XorBitsCancel(a / 2, b / 2, n - 1); }
  }

  function Xor(a: Word, b: Word): Word {
    WordLimit();
    XorBits(a, b, 256)
  }

  /** Bit k, counted from the lowest. */
  function BitOf(b: nat, k: nat): bool {
    if k == 0 then b % 2 == 1 else BitOf(b / 2, k - 1)
  }

  lemma {:induction false} XorBitsAt(a: nat, b: nat, n: nat, k: nat)
    requires k < n
    ensures BitOf(XorBits(a, b, n), k) == (BitOf(a, k) != BitOf(b, k))
  {
    hide Pow2;
    if k > 0 { XorBitsAt(a / 2, b / 2, n - 1, k - 1); }
  }

  /** Bit k of an exclusive or is set exactly if the two bits differ. */
  lemma XorAt(a: Word, b: Word, k: nat)
    requires k < 256
    ensures BitOf(Xor(a, b), k) == (BitOf(a, k) != BitOf(b, k))
  {
    hide XorBits, BitOf;
    XorBitsAt(a, b, 256, k);
  }

  lemma XorCancel(a: Word, b: Word)
    ensures Xor(a, Xor(a, b)) == b
  {
    WordLimit();
    XorBitsCancel(a, b, 256);
  }
}
