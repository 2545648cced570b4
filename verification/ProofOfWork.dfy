/** Proof-of-work targets: retargeting over the recent blocks, and what it means for a whole chain. */
module ProofOfWork {
  import opened Words

  const BLOCK_TARGET_SPACING := 60
  const DECAY_STEP := BLOCK_TARGET_SPACING
  const BITS_LIMIT := 16
  const BITS_INIT := 20
  const ADJUST_COUNT := 16
  const ADJUST_DEBOUNCE := 10
  const TARGET_SPACING := BLOCK_TARGET_SPACING + BLOCK_TARGET_SPACING / 2
  const UPPER_TARGET := TARGET_SPACING + ADJUST_DEBOUNCE
  const LOWER_TARGET := TARGET_SPACING - ADJUST_DEBOUNCE
  const CM_BLAKE512 := 1
  const CM_MAX := 2

  /** The proof at the end of a block's proof bytes, if they are long enough to hold one. */
  datatype Proof = Proof(algo: nat, bits: nat)

  /** A block of the primary chain; hash is the hash of its proof-of-work data. */
  datatype Block = Block(work: bool, primary: bool, time: nat, proof: Option<Proof>, hash: Word)

  // The fields its index keeps.

  function ProofAlgo(b: Block): nat { if b.work && b.proof.Some? then b.proof.value.algo else 0 }

  function ProofBits(b: Block): nat { if b.work && b.proof.Some? then b.proof.value.bits else 0 }

  predicate Matches(b: Block, algo: int) { b.work && ProofAlgo(b) == algo }

  /** A chain starts with a genesis block, which is no work. */
  predicate Rooted(chain: seq<Block>) { chain != [] && !chain[0].work }

  // ----- the blocks that are averaged

  /** The newest matching block at or below n, or the genesis block. */
  function Latest(chain: seq<Block>, algo: int, n: nat): (i: nat)
    requires n < |chain|
    ensures i <= n && (i == 0 || Matches(chain[i], algo))
    ensures forall j :: i < j <= n ==> !Matches(chain[j], algo)
  {
    if n == 0 || Matches(chain[n], algo) then n else Latest(chain, algo, n - 1)
  }

  /** Up to k matching blocks at or below n, newest first. */
  function Recent(chain: seq<Block>, algo: int, n: nat, k: nat): (ms: seq<nat>)
    requires Rooted(chain) && n < |chain|
    ensures |ms| <= k && forall i :: 0 <= i < |ms| ==> 0 < ms[i] <= n && Matches(chain[ms[i]], algo)
    decreases k
  {
    var i := Latest(chain, algo, n);
    if k == 0 || i == 0 then [] else [i] + Recent(chain, algo, i - 1, k - 1)
  }

  /** They are exactly the newest: a matching block left out is older than all of them, and then there are k. */
  lemma {:induction false} RecentNewest(chain: seq<Block>, algo: int, n: nat, k: nat, j: nat)
    requires Rooted(chain) && n < |chain| && j <= n && Matches(chain[j], algo)
    ensures var ms := Recent(chain, algo, n, k); j in ms || (|ms| == k && forall i :: 0 <= i < |ms| ==> j < ms[i])
    decreases k
  {
    var i := Latest(chain, algo, n);
    if k > 0 && j < i {
      RecentNewest(chain, algo, i - 1, k - 1, j);
    }
  }

  predicate Within(chain: seq<Block>, ms: seq<nat>) { forall i :: 0 <= i < |ms| ==> 0 < ms[i] < |chain| }

  function Spacing(chain: seq<Block>, m: nat): int
    requires 0 < m < |chain|
  {
    chain[m].time - chain[m-1].time
  }

  function Weight(j: nat): nat { if j < ADJUST_COUNT then Pow2(ADJUST_COUNT - 1 - j) else 0 }

  function WeightSum(k: nat): nat { if k == 0 then 0 else WeightSum(k - 1) + Weight(k - 1) }

  /** The sum of the spacings, each half as heavy as the next newer one. */
  function SpacingSum(chain: seq<Block>, ms: seq<nat>): int
    requires Within(chain, ms)
  {
    if ms == [] then 0
    else SpacingSum(chain, ms[..|ms|-1]) + Spacing(chain, ms[|ms|-1]) * Weight(|ms| - 1)
  }

  /** Division toward zero. */
  function TruncDiv(a: int, b: nat): int
    requires b > 0
  {
    if a >= 0 then a / b else -(-a / b)
  }

  lemma {:induction false} WeightPositive(k: nat)
    requires k > 0
    ensures WeightSum(k) > 0
  {
    hide Pow2;
    if k > 1 { WeightPositive(k - 1); }
  }

  function Average(chain: seq<Block>, ms: seq<nat>): int
    requires ms != [] && Within(chain, ms)
  {
    WeightPositive(|ms|);
    TruncDiv(SpacingSum(chain, ms), WeightSum(|ms|))
  }

  function Adjusted(bits: nat, average: int): int {
    if average > UPPER_TARGET && bits > BITS_LIMIT then bits - 1
    else if average < LOWER_TARGET then bits + 1 else bits
  }

  /** The bits a block on top of the chain must carry. */
  function TargetBits(chain: seq<Block>, algo: int): int
    requires Rooted(chain)
  {
    var ms := Recent(chain, algo, |chain| - 1, ADJUST_COUNT);
    if ms == [] then BITS_INIT else Adjusted(ProofBits(chain[ms[0]]), Average(chain, ms))
  }

  // ----- the loops

  method WalkBack(chain: seq<Block>, algo: int, n: nat) returns (i: nat)
    requires n < |chain|
    ensures i == Latest(chain, algo, n) && i <= n && (i == 0 || Matches(chain[i], algo))
  {
    i := n;
    while !Matches(chain[i], algo) && i > 0
      invariant i <= n && Latest(chain, algo, i) == Latest(chain, algo, n)
    {
      i := i - 1;
    }
  }

  /** Fails for an unknown algorithm or off the primary chain; otherwise the bits are those of TargetBits. */
  method GetProofOfWorkTarget(chain: seq<Block>, algo: int) returns (nBits: Option<int>)
    requires Rooted(chain)
    ensures nBits.Some? <==> 0 < algo < CM_MAX && chain[|chain|-1].primary
    ensures nBits.Some? ==> nBits.value == TargetBits(chain, algo)
  {
    hide Latest, Pow2, Average, Recent;
    if algo <= 0 || algo >= CM_MAX || !chain[|chain|-1].primary {
      return None;
    }
    var index := WalkBack(chain, algo, |chain| - 1);
    if !chain[index].work {
      RecentStep(chain, algo, |chain| - 1, ADJUST_COUNT);
      RecentStep(chain, algo, index, ADJUST_COUNT);
      return Some(BITS_INIT);
    }
    var bits := ProofBits(chain[index]);
    RecentStep(chain, algo, |chain| - 1, ADJUST_COUNT);
    RecentStep(chain, algo, index, ADJUST_COUNT);
    var average := AverageSpacing(chain, algo, index);
    if average > UPPER_TARGET && bits > BITS_LIMIT {
      return Some(bits - 1);
    } else if average < LOWER_TARGET {
      return Some(bits + 1);
    }
    return Some(bits);
  }

  /** The weighted average over the work blocks from index back, at most ADJUST_COUNT of them. */
  method AverageSpacing(chain: seq<Block>, algo: int, start: nat) returns (average: int)
    requires Rooted(chain) && start < |chain| && Matches(chain[start], algo)
    ensures average == Average(chain, Recent(chain, algo, start, ADJUST_COUNT))
  {
    hide Pow2, Latest, Spacing, Recent, SpacingSum, WeightSum;
    var index: nat := start;
    var spacing, weight, wIndex: int := 0, 0, ADJUST_COUNT - 1;
    ghost var target := Recent(chain, algo, start, ADJUST_COUNT);
    ghost var ms: seq<nat> := [];
    SumNone(chain);
    while chain[index].work
      invariant 0 <= wIndex < ADJUST_COUNT && index < |chain| && |ms| == ADJUST_COUNT - 1 - wIndex
      invariant Within(chain, ms) && target == ms + Recent(chain, algo, index, wIndex + 1)
      invariant (index == 0 || Matches(chain[index], algo)) && (ms == [] ==> index == start)
      invariant spacing == SpacingSum(chain, ms) && weight == WeightSum(|ms|)
      decreases wIndex
    {
      assert index > 0;
      RecentStep(chain, algo, index, wIndex + 1);
      spacing := spacing + Spacing(chain, index) * Pow2(wIndex);
      weight := weight + Pow2(wIndex);
      SumStep(chain, ms, index);
      assert ms + ([index] + Recent(chain, algo, index - 1, wIndex))
             == ms + [index] + Recent(chain, algo, index - 1, wIndex);
      ms := ms + [index];
      if wIndex == 0 {
        break;
      }
      wIndex := wIndex - 1;
      RecentStep(chain, algo, index - 1, wIndex + 1);
      index := WalkBack(chain, algo, index - 1);
    }
    if !chain[index].work { RecentStep(chain, algo, index, wIndex + 1); }
    assert target == ms;
    WeightPositive(|ms|);
    average := TruncDiv(spacing, weight);
  }

  lemma SumNone(chain: seq<Block>)
    ensures SpacingSum(chain, []) == 0 && WeightSum(0) == 0
  {
  }

  lemma SumStep(chain: seq<Block>, ms: seq<nat>, m: nat)
    requires Within(chain, ms) && 0 < m < |chain| && |ms| < ADJUST_COUNT
    ensures var w := Pow2(ADJUST_COUNT - 1 - |ms|);
            && SpacingSum(chain, ms + [m]) == SpacingSum(chain, ms) + Spacing(chain, m) * w
            && WeightSum(|ms| + 1) == WeightSum(|ms|) + w
  {
    hide Pow2, Spacing;
    assert (ms + [m])[..|ms|] == ms;
  }

  /** Walking back to the next matching block first changes nothing. */
  lemma RecentStep(chain: seq<Block>, algo: int, n: nat, k: nat)
    requires Rooted(chain) && n < |chain| && k > 0
    ensures Recent(chain, algo, Latest(chain, algo, n), k) == Recent(chain, algo, n, k)
    ensures n > 0 && Matches(chain[n], algo) ==> Recent(chain, algo, n, k) == [n] + Recent(chain, algo, n - 1, k - 1)
    ensures n == 0 ==> Recent(chain, algo, n, k) == []
  {
  }

  /** Time passed since the previous block lowers what the hash must meet, but not below the limit. */
  function RunTimeBits(bits: nat, time: int, prevTime: int): (r: nat)
    ensures bits >= BITS_LIMIT ==> BITS_LIMIT <= r <= bits + 1
  {
    if time - prevTime < BLOCK_TARGET_SPACING then bits + 1
    else
      var b := bits - (time - prevTime - BLOCK_TARGET_SPACING) / DECAY_STEP;
      if b < BITS_LIMIT then BITS_LIMIT else b
  }

  /** One bit more than demanded within the first spacing, then one bit less for every full step after it, down
      to the limit; so waiting never makes a hash harder to accept. */
  lemma RunTimeDecay(bits: nat, time: int, later: int, prevTime: int, k: nat)
    requires bits >= BITS_LIMIT && time <= later
    ensures time - prevTime < 60 ==> RunTimeBits(bits, time, prevTime) == bits + 1
    ensures 60 + k * 60 <= time - prevTime < 60 + (k + 1) * 60
            ==> RunTimeBits(bits, time, prevTime) == if bits - k < 16 then 16 else bits - k
    ensures RunTimeBits(bits, later, prevTime) <= RunTimeBits(bits, time, prevTime)
    ensures HashTarget(RunTimeBits(bits, time, prevTime)) <= HashTarget(RunTimeBits(bits, later, prevTime))
  {
    hide HashTarget;
    HashTargetMonotone(RunTimeBits(bits, later, prevTime), RunTimeBits(bits, time, prevTime));
  }

  lemma {:induction false} HashTargetMonotone(a: nat, b: nat)
    requires a <= b
    ensures HashTarget(b) <= HashTarget(a)
    decreases b
  {
    if a < b {
      HashTargetMonotone(a, b - 1);
      HalfPower(WORD_LIMIT - 1, Pow2(b - 1));
    }
  }

  lemma HalfPower(x: int, p: nat)
    requires x >= 0 && p > 0
    ensures x / (2 * p) <= x / p
  {
    var q, r := x / (2 * p), x / p;
    assert x == q * (2 * p) + x % (2 * p) && x == r * p + x % p;
    assert q * (2 * p) == (2 * q) * p;
    Spread2(r, p);
    if q > r { Scaled(r + 1, 2 * q, p); }
  }

  /** All ones shifted right; nothing is left after 256 places. */
  function HashTarget(bits: nat): int { (WORD_LIMIT - 1) / Pow2(bits) }

  datatype WorkError = MvOk | ProofOfWorkInvalid | TimestampOutOfRange

  /** What a block must meet to be accepted as work on top of a chain. */
  ghost predicate Accepted(chain: seq<Block>, block: Block)
    requires Rooted(chain)
  {
    var prev := chain[|chain|-1];
    && block.proof.Some? && block.time >= prev.time && prev.primary && block.proof.value.algo == CM_BLAKE512
    && block.proof.value.bits == TargetBits(chain, CM_BLAKE512)
    && block.hash <= HashTarget(RunTimeBits(block.proof.value.bits, block.time, prev.time))
  }

  method VerifyProofOfWork(chain: seq<Block>, block: Block) returns (r: WorkError)
    requires Rooted(chain)
    ensures r == MvOk <==> Accepted(chain, block)
    ensures r == TimestampOutOfRange <==> block.proof.Some? && block.time < chain[|chain|-1].time
  {
    hide HashTarget, TargetBits, Recent;
    var prev := chain[|chain|-1];
    if block.proof.None? {
      return ProofOfWorkInvalid;
    }
    if block.time < prev.time {
      return TimestampOutOfRange;
    }
    var proof := block.proof.value;
    var nBits := GetProofOfWorkTarget(chain, proof.algo);
    if nBits.None? {
      return ProofOfWorkInvalid;
    }
    if nBits.value != proof.bits || proof.algo != CM_BLAKE512 {
      return ProofOfWorkInvalid;
    }
    if block.hash > HashTarget(RunTimeBits(nBits.value, block.time, prev.time)) {
      return ProofOfWorkInvalid;
    }
    return MvOk;
  }

  // ----- whole chains

  /** Every proof-of-work block was accepted on top of what came before it. */
  ghost predicate Verified(chain: seq<Block>) {
    Rooted(chain) && forall i :: 0 < i < |chain| && chain[i].work ==> Accepted(chain[..i], chain[i])
  }

  ghost predicate Bounded(chain: seq<Block>, ms: seq<nat>, lo: int, hi: int)
    requires Within(chain, ms)
  {
    forall i :: 0 <= i < |ms| ==> lo <= chain[ms[i]].time - chain[ms[i]-1].time <= hi
  }

  lemma {:induction false} SumBetween(chain: seq<Block>, ms: seq<nat>, lo: int, hi: int)
    requires Within(chain, ms) && Bounded(chain, ms, lo, hi)
    ensures lo * WeightSum(|ms|) <= SpacingSum(chain, ms) <= hi * WeightSum(|ms|)
  {
    hide Weight;
    if ms != [] {
      var before, s, w := ms[..|ms|-1], Spacing(chain, ms[|ms|-1]), Weight(|ms| - 1);
      SumBetween(chain, before, lo, hi);
      Scaled(lo, s, w);
      Scaled(s, hi, w);
      Spread(lo, WeightSum(|before|), w);
      Spread(hi, WeightSum(|before|), w);
    }
  }

  lemma Scaled(a: int, b: int, w: nat)
    requires a <= b
    ensures a * w <= b * w
  {
  }

  lemma Spread(a: int, v: int, w: int)
    ensures a * (v + w) == a * v + a * w
  {
  }

  lemma QuotientBetween(x: int, w: nat, lo: int, hi: int)
    requires w > 0 && lo * w <= x <= hi * w
    ensures lo <= TruncDiv(x, w) <= hi
  {
    if x >= 0 {
      FloorBetween(x, w, lo, hi);
    } else {
      FloorBetween(-x, w, -hi, -lo);
    }
  }

  lemma FloorBetween(x: int, w: nat, lo: int, hi: int)
    requires w > 0 && lo * w <= x <= hi * w
    ensures lo <= x / w <= hi
  {
    var q := x / w;
    assert x == q * w + x % w;
    if q < lo { Scaled(q + 1, lo, w); Spread2(q, w); }
    if q > hi { Scaled(hi + 1, q, w); Spread2(hi, w); }
  }

  lemma Spread2(q: int, w: int)
    ensures (q + 1) * w == q * w + w
  {
  }

  /** The average lies between any bounds of the spacings read. */
  lemma AverageBetween(chain: seq<Block>, ms: seq<nat>, lo: int, hi: int)
    requires ms != [] && Within(chain, ms) && Bounded(chain, ms, lo, hi)
    ensures lo <= Average(chain, ms) <= hi
  {
    hide WeightSum, SpacingSum;
    SumBetween(chain, ms, lo, hi);
    WeightPositive(|ms|);
    QuotientBetween(SpacingSum(chain, ms), WeightSum(|ms|), lo, hi);
  }

  lemma Extends(chain: seq<Block>, n: nat)
    requires Verified(chain) && 0 < n <= |chain|
    ensures Verified(chain[..n])
  {
    hide Accepted;
    forall i | 0 < i < n && chain[..n][i].work ensures Accepted(chain[..n][..i], chain[..n][i]) {
      assert chain[..n][..i] == chain[..i];
    }
  }

  /** Every work block of a verified chain is of the one algorithm and no older than its predecessor. */
  lemma WorkBlock(chain: seq<Block>, i: nat)
    requires Verified(chain) && 0 < i < |chain| && chain[i].work
    ensures Matches(chain[i], CM_BLAKE512) && chain[i].time >= chain[i-1].time
    ensures ProofBits(chain[i]) == TargetBits(chain[..i], CM_BLAKE512)
  {
    hide TargetBits, HashTarget, RunTimeBits;
    assert Accepted(chain[..i], chain[i]);
  }

  /** The bits demanded on top of a chain, from those of the last work block. */
  lemma TargetStep(chain: seq<Block>)
    requires Verified(chain)
    ensures var i := Latest(chain, CM_BLAKE512, |chain| - 1);
            var bits := TargetBits(chain, CM_BLAKE512);
            if i == 0 then bits == BITS_INIT
            else bits == ProofBits(chain[i]) || bits == ProofBits(chain[i]) + 1
                 || (bits == ProofBits(chain[i]) - 1 && ProofBits(chain[i]) > BITS_LIMIT)
  {
    hide Average;
  }

  /** In a verified chain every work block carries at least the limit of bits, its hash starts with as many
      zero bits, and its bits differ by at most one from those of the work block before it. */
  lemma {:induction false} ChainDifficulty(chain: seq<Block>, i: nat)
    requires Verified(chain) && 0 < i < |chain| && chain[i].work
    ensures ProofBits(chain[i]) >= BITS_LIMIT && chain[i].hash < Pow2(256 - BITS_LIMIT)
    ensures var j := Latest(chain[..i], CM_BLAKE512, i - 1);
            if j == 0 then ProofBits(chain[i]) == BITS_INIT else -1 <= ProofBits(chain[i]) - ProofBits(chain[j]) <= 1
  {
    hide TargetBits, Latest, HashTarget, Pow2, RunTimeBits;
    var before := chain[..i];
    Extends(chain, i);
    WorkBlock(chain, i);
    TargetStep(before);
    var j := Latest(before, CM_BLAKE512, i - 1);
    if j > 0 { ChainDifficulty(chain, j); }
    assert Accepted(before, chain[i]);
    RunTimeAtLeast(ProofBits(chain[i]), chain[i].time, chain[i-1].time);
    LeadingZeros(RunTimeBits(ProofBits(chain[i]), chain[i].time, chain[i-1].time), chain[i].hash);
  }

  lemma RunTimeAtLeast(bits: nat, time: int, prevTime: int)
    requires bits >= BITS_LIMIT
    ensures RunTimeBits(bits, time, prevTime) >= BITS_LIMIT
  {
  }

  lemma LeadingZeros(bits: nat, hash: Word)
    requires bits >= BITS_LIMIT && hash <= HashTarget(bits)
    ensures hash < Pow2(256 - BITS_LIMIT)
  {
    hide Pow2;
    WordLimit();
    Pow2Add(256 - BITS_LIMIT, BITS_LIMIT);
    Pow2Add(bits - BITS_LIMIT, BITS_LIMIT);
    BelowQuotient(hash, Pow2(256 - BITS_LIMIT), Pow2(BITS_LIMIT), Pow2(bits - BITS_LIMIT));
  }

  lemma BelowQuotient(x: nat, a: nat, b: nat, c: nat)
    requires b > 0 && c > 0 && c * b > 0 && x <= (a * b - 1) / (c * b)
    ensures x < a
  {
    if x >= a {
      var q := (a * b - 1) / (c * b);
      assert q * (c * b) <= a * b - 1;
      Scaled(a, q, c * b);
      assert a * (c * b) == (a * b) * c;
      Scaled(1, c, a * b);
      assert false;
    }
  }

  /** The difficulty answers the recent spacings: it rises when all of them were short, and falls, down to
      the limit, when all of them were long. */
  lemma TargetAnswers(chain: seq<Block>, lo: int, hi: int)
    requires Verified(chain)
    requires var ms := Recent(chain, CM_BLAKE512, |chain| - 1, ADJUST_COUNT);
             ms != [] && Bounded(chain, ms, lo, hi)
    ensures var last := ProofBits(chain[Latest(chain, CM_BLAKE512, |chain| - 1)]);
            && (hi < LOWER_TARGET ==> TargetBits(chain, CM_BLAKE512) == last + 1)
            && (lo > UPPER_TARGET ==> TargetBits(chain, CM_BLAKE512) == if last > BITS_LIMIT then last - 1 else last)
            && (LOWER_TARGET <= lo && hi <= UPPER_TARGET ==> TargetBits(chain, CM_BLAKE512) == last)
  {
    hide Average;
    AverageBetween(chain, Recent(chain, CM_BLAKE512, |chain| - 1, ADJUST_COUNT), lo, hi);
  }

  // ----- the average in closed form

  /** The time each block took, the newer ones counting double: the whole so far is doubled before an older block
      is added. */
  ghost function Doubled(chain: seq<Block>, ms: seq<nat>): int
    requires Within(chain, ms)
  {
    if ms == [] then 0
    else
      var m := ms[|ms|-1];
      2 * Doubled(chain, ms[..|ms|-1]) + (chain[m].time - chain[m-1].time)
  }

  lemma {:induction false} SumClosed(chain: seq<Block>, ms: seq<nat>)
    requires Within(chain, ms) && |ms| <= ADJUST_COUNT
    ensures SpacingSum(chain, ms) == Pow2(ADJUST_COUNT - |ms|) * Doubled(chain, ms)
    ensures WeightSum(|ms|) == Pow2(ADJUST_COUNT - |ms|) * (Pow2(|ms|) - 1)
  {
    hide Pow2;
    if ms == [] {
      Pow2Zero();
      assert Pow2(ADJUST_COUNT) * 0 == 0;
    } else {
      var k, before, m := |ms|, ms[..|ms|-1], ms[|ms|-1];
      SumClosed(chain, before);
      var p := Pow2(ADJUST_COUNT - k);
      PowerTwice(ADJUST_COUNT - k);
      PowerTwice(k - 1);
      OneMore(p, Doubled(chain, before), chain[m].time - chain[m-1].time);
      OneMore(p, Pow2(k - 1) - 1, 1);
    }
  }

  lemma PowerTwice(k: nat)
    ensures Pow2(k + 1) == 2 * Pow2(k)
  {
  }

  lemma OneMore(p: int, x: int, d: int)
    ensures (2 * p) * x + d * p == p * (2 * x + d)
  {
  }

  /** The average over k blocks: each counts twice the next older one, and the weights sum to 2^k - 1. */
  lemma AverageClosed(chain: seq<Block>, ms: seq<nat>)
    requires 0 < |ms| <= ADJUST_COUNT && Within(chain, ms)
    ensures Pow2(|ms|) - 1 > 0 && Average(chain, ms) == TruncDiv(Doubled(chain, ms), Pow2(|ms|) - 1)
  {
    hide Pow2, SpacingSum, WeightSum, Doubled;
    SumClosed(chain, ms);
    WeightPositive(|ms|);
    PowerAbove(|ms|);
    ScaledQuotient(Pow2(ADJUST_COUNT - |ms|), Doubled(chain, ms), Pow2(|ms|) - 1);
  }

  lemma PowerAbove(k: nat)
    requires k > 0
    ensures Pow2(k) > 1
  {
  }

  lemma ScaledQuotient(p: nat, x: int, w: nat)
    requires p > 0 && w > 0 && p * w > 0
    ensures TruncDiv(p * x, p * w) == TruncDiv(x, w)
  {
    if x >= 0 {
      ScaledFloor(p, x, w);
      assert p * x >= 0;
    } else {
      ScaledFloor(p, -x, w);
      assert p * -x == -(p * x) && p * x < 0;
    }
  }

  lemma ScaledFloor(p: nat, x: nat, w: nat)
    requires p > 0 && w > 0 && p * w > 0
    ensures p * x / (p * w) == x / w
  {
    var q, r := x / w, x % w;
    assert x == q * w + r;
    assert p * (q * w + r) == p * (q * w) + p * r && p * (q * w) == q * (p * w);
    assert 0 <= p * r < p * w by { Scaled(r + 1, w, p); Spread2(r, p); }
    FloorIs(p * x, p * w, q, p * r);
  }

  lemma FloorIs(x: int, d: int, q: int, s: int)
    requires d > 0 && x == q * d + s && 0 <= s < d
    ensures x / d == q
  {
    FloorBetween(x - s, d, q, q);
    FloorBetween(x, d, q, q + 1);
    Spread2(q, d);
    assert x == x / d * d + x % d;
  }

  /** With one work block the demand follows from two times: more than 100 seconds cost a bit above the limit of
      16, less than 80 add one. */
  lemma OneWorkBlock(chain: seq<Block>, m: nat)
    requires Rooted(chain) && 0 < m < |chain| && chain[m].work && chain[m].proof.Some? && chain[m].proof.value.algo == 1
    requires forall j :: 0 <= j < |chain| && j != m ==>
               !chain[j].work || chain[j].proof.None? || chain[j].proof.value.algo != 1
    ensures var took, bits := chain[m].time - chain[m-1].time, chain[m].proof.value.bits;
            TargetBits(chain, 1)
            == if took > 100 && bits > 16 then bits - 1 else if took < 80 then bits + 1 else bits
  {
    hide Pow2, Average;
    var ms := Recent(chain, CM_BLAKE512, |chain| - 1, ADJUST_COUNT);
    assert Latest(chain, CM_BLAKE512, |chain| - 1) == m;
    assert Latest(chain, CM_BLAKE512, m - 1) == 0;
    assert ms == [m];
    AverageClosed(chain, ms);
    assert ms[..0] == [] && Doubled(chain, ms) == chain[m].time - chain[m-1].time;
    PowerOne();
  }

  lemma PowerOne()
    ensures Pow2(1) == 2
  {
  }

  /** Without a work block the demand is 20 bits. */
  lemma NoWorkBlock(chain: seq<Block>)
    requires Rooted(chain)
    requires forall j :: 0 <= j < |chain| ==>
               !chain[j].work || chain[j].proof.None? || chain[j].proof.value.algo != 1
    ensures TargetBits(chain, 1) == 20
  {
    assert Latest(chain, CM_BLAKE512, |chain| - 1) == 0;
  }

  /** A hash meets the target exactly if it starts with that many zero bits. */
  lemma HashTargetExact(bits: nat, hash: Word)
    requires bits <= 256
    ensures hash <= HashTarget(bits) <==> hash < Pow2(256 - bits)
  {
    hide Pow2;
    WordLimit();
    Pow2Add(256 - bits, bits);
    var a, b := Pow2(256 - bits), Pow2(bits);
    AllOnes(a, b);
  }

  lemma AllOnes(a: nat, b: nat)
    requires a > 0 && b > 0
    ensures (a * b - 1) / b == a - 1
  {
    assert a * b - 1 == (a - 1) * b + (b - 1) by { Spread2(a - 1, b); }
    FloorIs(a * b - 1, b, a - 1, b - 1);
  }

  /** No hash but zero meets more than 256 bits. */
  lemma HashTargetNothing(bits: nat)
    requires bits >= 256
    ensures HashTarget(bits) == 0
  {
    hide Pow2;
    HashTargetMonotone(256, bits);
    HashTargetExact(256, 1);
    assert Pow2(0) == 1 by { Pow2Zero(); }
  }

  /** What acceptance asks, in numbers: the one algorithm, exactly the demanded bits, no time going back, and as
      many leading zero bits as the waiting time leaves of them. */
  lemma AcceptedExactly(chain: seq<Block>, block: Block)
    requires Rooted(chain) && block.proof.Some? && block.proof.value.bits <= 255
    ensures var prev, bits := chain[|chain|-1], block.proof.value.bits;
            var took := block.time - prev.time;
            var decayed := bits - (took - 60) / 60;
            var zeros := if took < 60 then bits + 1 else if decayed < 16 then 16 else decayed;
            Accepted(chain, block) <==>
              && prev.primary && took >= 0 && block.proof.value.algo == 1 && bits == TargetBits(chain, 1)
              && 0 <= zeros <= 256 && block.hash < Pow2(256 - zeros)
  {
    hide Pow2, TargetBits, HashTarget;
    var prev, bits := chain[|chain|-1], block.proof.value.bits;
    if block.time >= prev.time { HashTargetExact(RunTimeBits(bits, block.time, prev.time), block.hash); }
  }

  /** The demand looks at the sixteen newest work blocks. */
  lemma TargetWindow(chain: seq<Block>)
    requires Rooted(chain) && Recent(chain, CM_BLAKE512, |chain| - 1, 16) != []
    ensures var ms := Recent(chain, CM_BLAKE512, |chain| - 1, 16);
            var average := Average(chain, ms);
            var bits := ProofBits(chain[ms[0]]);
            TargetBits(chain, CM_BLAKE512)
            == if average > 100 && bits > 16 then bits - 1 else if average < 80 then bits + 1 else bits
  {
    hide Average, Recent;
  }
}
