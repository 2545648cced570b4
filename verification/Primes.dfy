/** Divisibility, powers, and a certificate for primes. */
module Primes {

  function Pow(x: int, i: nat): int {
    if i == 0 then 1 else x * Pow(x, i - 1)
  }

  ghost predicate Times(a: int, n: int, k: int) { a == k * n }

  ghost predicate Divides(n: int, a: int) { exists k :: Times(a, n, k) }

  ghost predicate IsPrime(n: int) { n > 1 && forall d :: 1 < d < n ==> !Divides(d, n) }

  // ----- divisibility

  lemma DividesBy(n: int, a: int, k: int)
    requires a == k * n
    ensures Divides(n, a)
  {
    assert Times(a, n, k);
  }

  lemma DividesMod(n: int, a: int)
    requires n > 0
    ensures Divides(n, a) <==> a % n == 0
  {
    if Divides(n, a) {
      var k :| Times(a, n, k);
      MultipleMod(n, k);
    }
    if a % n == 0 { DividesBy(n, a, a / n); }
  }

  lemma MultipleMod(n: int, k: int)
    requires n > 0
    ensures (k * n) % n == 0
  {
    var q, r := (k * n) / n, (k * n) % n;
    assert k * n == q * n + r;
    assert (k - q) * n == r;
    if k - q >= 1 { AtLeast(k - q, n); }
    if k - q <= -1 { AtLeast(q - k, n); }
  }

  lemma AtLeast(k: int, n: int)
    requires k >= 1 && n > 0
    ensures k * n >= n
  {
  }

  lemma DividesSum(n: int, a: int, b: int)
    requires Divides(n, a) && Divides(n, b)
    ensures Divides(n, a + b) && Divides(n, a - b)
  {
    var k :| Times(a, n, k);
    var l :| Times(b, n, l);
    DividesBy(n, a + b, k + l);
    DividesBy(n, a - b, k - l);
  }

  lemma DividesScale(n: int, a: int, c: int)
    requires Divides(n, a)
    ensures Divides(n, c * a)
  {
    var k :| Times(a, n, k);
    assert c * (k * n) == (c * k) * n;
    DividesBy(n, c * a, c * k);
  }

  lemma DividesTrans(n: int, m: int, a: int)
    requires Divides(n, m) && Divides(m, a)
    ensures Divides(n, a)
  {
    var k :| Times(a, m, k);
    DividesScale(n, m, k);
  }

  /** A product of two numbers that leave one leaves one. */
  lemma OneTimes(n: int, a: int, b: int)
    requires Divides(n, a - 1) && Divides(n, b - 1)
    ensures Divides(n, a * b - 1)
  {
    DividesScale(n, a - 1, b);
    DividesSum(n, b * (a - 1), b - 1);
    assert b * (a - 1) + (b - 1) == a * b - 1;
  }

  // ----- powers

  lemma {:induction false} PowAdd(b: int, i: nat, j: nat)
    ensures Pow(b, i + j) == Pow(b, i) * Pow(b, j)
  {
    if i > 0 {
      PowAdd(b, i - 1, j);
      assert b * (Pow(b, i - 1) * Pow(b, j)) == (b * Pow(b, i - 1)) * Pow(b, j);
    }
  }

  lemma {:induction false} PowTimes(b: int, i: nat, j: nat)
    ensures i * j >= 0 && Pow(b, i * j) == Pow(Pow(b, i), j)
  {
    if j > 0 {
      PowTimes(b, i, j - 1);
      assert i * j == i + i * (j - 1);
      PowAdd(b, i, i * (j - 1));
    }
  }

  /** A power of a number that leaves one leaves one. */
  lemma {:induction false} OnePow(n: int, a: int, k: nat)
    requires Divides(n, a - 1)
    ensures Divides(n, Pow(a, k) - 1)
  {
    if k == 0 {
      DividesBy(n, 0, 0);
    } else {
      OnePow(n, a, k - 1);
      OneTimes(n, a, Pow(a, k - 1));
    }
  }

  // ----- a prime has inverses

  lemma {:induction false} Inverse(q: int, r: int) returns (x: int, y: int)
    requires IsPrime(q) && 0 < r < q
    ensures x >= 0 && y >= 0 && x * r == 1 + y * q
    decreases r
  {
    if r == 1 {
      x, y := 1, 0;
    } else {
      var m, s := q / r, q % r;
      assert q == m * r + s;
      if s == 0 {
        DividesBy(r, q, m);
        assert false;
      }
      assert m >= 1 by { if m <= 0 { NotPositive(m, r); } }
      var v, w := Inverse(q, s);
      x, y := Descent(q, r, m, s, v, w);
    }
  }

  lemma NotPositive(m: int, r: int)
    requires m <= 0 && r > 0
    ensures m * r <= 0
  {
  }

  lemma Descent(q: int, r: int, m: int, s: int, v: int, w: int) returns (x: int, y: int)
    requires q > 0 && r > 0 && m >= 1 && q == m * r + s && v >= 0 && w >= 0 && v * s == 1 + w * q
    ensures x >= 0 && y >= 0 && x * r == 1 + y * q
  {
    var t := v * m;
    x, y := t * (q - 1), w - v + t * r;
    assert v * s == v * q - t * r by { assert v * (q - m * r) == v * q - v * m * r; }
    assert t * (q - 1) * r == t * r * q - t * r;
    assert (w - v + t * r) * q == w * q - v * q + t * r * q;
    assert t >= v by { Grows(v, m); }
    assert t * r >= t by { Grows(t, r); }
  }

  lemma Grows(v: int, m: int)
    requires v >= 0 && m >= 1
    ensures v * m >= v
  {
  }

  /** A prime that divides a product divides a factor. */
  lemma PrimeFactor(q: int, a: int, b: int)
    requires IsPrime(q) && Divides(q, a * b)
    ensures Divides(q, a) || Divides(q, b)
  {
    hide Divides;
    var r, k := a % q, a / q;
    DividesMod(q, a);
    if r != 0 {
      var x, y := Inverse(q, r);
      var c := x * k * b + y * b;
      // b is x * (a * b) less a multiple of q
      Expand(x, k, q, r, b, y);
      DividesScale(q, a * b, x);
      DividesBy(q, c * q, c);
      DividesSum(q, x * (a * b), c * q);
    }
  }

  lemma Expand(x: int, k: int, q: int, r: int, b: int, y: int)
    requires x * r == 1 + y * q
    ensures x * ((k * q + r) * b) - (x * k * b + y * b) * q == b
  {
    assert x * ((k * q + r) * b) == x * k * b * q + (x * r) * b;
    assert (1 + y * q) * b == b + y * b * q;
  }

  // ----- orders

  /** The order of c modulo p is the prime q. */
  lemma PrimeOrder(p: int, q: int, c: int, k: nat)
    requires IsPrime(q) && Divides(p, Pow(c, q) - 1) && !Divides(p, c - 1) && Divides(p, Pow(c, k) - 1)
    ensures Divides(q, k)
  {
    var r, m := k % q, k / q;
    DividesMod(q, k);
    if r != 0 {
      var x, y := Inverse(q, r);
      Remainder(p, q, c, k);
      OnePow(p, Pow(c, r), x);
      PowTimes(c, r, x);
      OnePow(p, Pow(c, q), y);
      PowTimes(c, q, y);
      PowAdd(c, 1, q * y);
      assert Pow(c, 1) == c * Pow(c, 0);
      assert r * x == 1 + q * y;
      var z := Pow(c, q * y);
      // c * z and z both leave one
      assert c * z - 1 - c * (z - 1) == c - 1;
      DividesScale(p, z - 1, c);
      DividesSum(p, c * z - 1, c * (z - 1));
    }
  }

  lemma Remainder(p: int, q: int, c: int, k: nat)
    requires q > 0 && Divides(p, Pow(c, q) - 1) && Divides(p, Pow(c, k) - 1)
    ensures Divides(p, Pow(c, k % q) - 1)
  {
    var r, m := k % q, k / q;
    assert k == q * m + r;
    PowAdd(c, q * m, r);
    PowTimes(c, q, m);
    OnePow(p, Pow(c, q), m);
    var z, w := Pow(c, q * m), Pow(c, r);
    DividesScale(p, z - 1, w);
    DividesSum(p, z * w - 1, w * (z - 1));
    assert z * w - 1 - w * (z - 1) == w - 1;
  }

  /** No power of b before F leaves one. */
  ghost predicate OrderAtLeast(p: int, b: int, F: int) { forall k: nat :: 0 < k < F ==> !Divides(p, Pow(b, k) - 1) }

  lemma TooSmall(q: int, k: int)
    requires 0 < k < q
    ensures !Divides(q, k)
  {
    if Divides(q, k) {
      var l :| Times(k, q, l);
      if l <= 0 { NotPositive(l, q); } else { AtLeast(l, q); }
    }
  }

  lemma PrimeOrderAtLeast(p: int, q: int, b: int)
    requires IsPrime(q) && Divides(p, Pow(b, q) - 1) && !Divides(p, b - 1)
    ensures OrderAtLeast(p, b, q)
  {
    hide Pow, Divides, IsPrime;
    forall k: nat | 0 < k < q && Divides(p, Pow(b, k) - 1)
      ensures false
    {
      PrimeOrder(p, q, b, k);
      TooSmall(q, k);
    }
  }

  /** The residues of the first n powers. */
  ghost function Residues(p: int, b: int, n: nat): set<int>
    requires p > 0
  {
    if n == 0 then {} else Residues(p, b, n - 1) + {Pow(b, n - 1) % p}
  }

  ghost function Below(p: nat): (s: set<int>)
    ensures |s| == p && forall i :: i in s <==> 0 <= i < p
  {
    if p == 0 then {} else Below(p - 1) + {p - 1}
  }

  /** Then there are F different residues, so F is at most p. */
  lemma OrderBounds(p: int, b: int, F: nat)
    requires p > 0 && F > 0 && Divides(p, Pow(b, F) - 1) && OrderAtLeast(p, b, F)
    ensures F <= p
  {
    hide Pow, Divides, OrderAtLeast, Residues;
    Counted(p, b, F, F);
    ResiduesBelow(p, b, F);
    Subset(Residues(p, b, F), Below(p));
  }

  lemma Subset(s: set<int>, t: set<int>)
    requires s <= t
    ensures |s| <= |t|
  {
    assert t == s + (t - s);
  }

  lemma {:induction false} ResiduesBelow(p: int, b: int, n: nat)
    requires p > 0
    ensures forall x :: x in Residues(p, b, n) ==> 0 <= x < p
  {
    hide Pow;
    if n > 0 { ResiduesBelow(p, b, n - 1); }
  }

  lemma {:induction false} ResidueOf(p: int, b: int, n: nat, x: int) returns (i: nat)
    requires p > 0 && x in Residues(p, b, n)
    ensures i < n && Pow(b, i) % p == x
  {
    hide Pow;
    if x == Pow(b, n - 1) % p { i := n - 1; } else { i := ResidueOf(p, b, n - 1, x); }
  }

  lemma {:induction false} Counted(p: int, b: int, F: nat, n: nat)
    requires p > 0 && n <= F && Divides(p, Pow(b, F) - 1) && OrderAtLeast(p, b, F)
    ensures |Residues(p, b, n)| == n
  {
    hide Pow, OrderAtLeast, Divides;
    if n > 0 {
      Counted(p, b, F, n - 1);
      var x := Pow(b, n - 1) % p;
      if x in Residues(p, b, n - 1) {
        var i := ResidueOf(p, b, n - 1, x);
        Different(p, b, F, i, n - 1);
      }
    }
  }

  lemma Different(p: int, b: int, F: nat, i: nat, j: nat)
    requires p > 0 && i < j < F && Divides(p, Pow(b, F) - 1) && OrderAtLeast(p, b, F)
    ensures Pow(b, i) % p != Pow(b, j) % p
  {
    hide Pow, Divides;
    var x, y, d, z, one := Pow(b, i), Pow(b, j), Pow(b, j - i), Pow(b, F - i), Pow(b, F);
    PowAdd(b, i, j - i);
    PowAdd(b, F - i, i);
    if x % p == y % p {
      SameResidue(p, x, y);
      CancelPower(p, x, y, d, z, one);
    }
  }

  lemma SameResidue(p: int, x: int, y: int)
    requires p > 0 && x % p == y % p
    ensures Divides(p, y - x)
  {
    DividesBy(p, y - x, y / p - x / p);
  }

  lemma CancelPower(p: int, x: int, y: int, d: int, z: int, one: int)
    requires Divides(p, y - x) && y == x * d && one == z * x && Divides(p, one - 1)
    ensures Divides(p, d - 1)
  {
    hide Divides;
    assert z * (x * d - x) == (z * x) * (d - 1);
    assert one * (d - 1) - (d - 1) * (one - 1) == d - 1;
    DividesScale(p, y - x, z);
    DividesScale(p, one - 1, d - 1);
    DividesSum(p, one * (d - 1), (d - 1) * (one - 1));
  }

  // ----- the certificates

  /** A number all of whose divisors have an element of large order is prime. */
  lemma LargeDivisors(n: int, F: nat)
    requires n > 1 && F * F > n && forall p :: 1 < p && Divides(p, n) ==> F <= p
    ensures IsPrime(n)
  {
    forall d | 1 < d < n
      ensures !Divides(d, n)
    {
      if Divides(d, n) {
        var k :| Times(n, d, k);
        DividesBy(k, n, d);
        assert k > 1 by {
          if k <= 0 { NotPositive(k, d); }
        }
        Product(F, d, k);
      }
    }
  }

  lemma Product(F: int, d: int, k: int)
    requires 0 <= F <= d && F <= k
    ensures F * F <= k * d
  {
    assert F * F <= F * d by { Ordered(F, d, F); }
    assert F * d <= k * d by { Ordered(F, k, d); }
  }

  lemma Ordered(a: int, b: int, c: int)
    requires a <= b && c >= 0
    ensures a * c <= b * c && c * a <= c * b
  {
  }

  /** What has an inverse modulo n does not vanish modulo a divisor of n. */
  lemma Unit(n: int, p: int, u: int, a: int)
    requires p > 1 && Divides(p, n) && Divides(n, u * a - 1)
    ensures !Divides(p, a)
  {
    DividesTrans(p, n, u * a - 1);
    if Divides(p, a) {
      DividesScale(p, a, u);
      DividesSum(p, u * a, u * a - 1);
      var k :| Times(1, p, k);
      if k >= 1 { AtLeast(k, p); } else { NotPositive(k, p); }
    }
  }

  /** n is prime if a prime q above its root is the order of an element b, and b - 1 has an inverse u. */
  lemma Certified(n: int, q: int, b: int, u: int)
    requires n > 1 && IsPrime(q) && q * q > n && Divides(n, Pow(b, q) - 1) && Divides(n, u * (b - 1) - 1)
    ensures IsPrime(n)
  {
    hide Pow, Divides, IsPrime, OrderAtLeast;
    PrimeAbove(q);
    forall p | 1 < p && Divides(p, n)
      ensures q <= p
    {
      DividesTrans(p, n, Pow(b, q) - 1);
      Unit(n, p, u, b - 1);
      PrimeOrderAtLeast(p, q, b);
      OrderBounds(p, b, q);
    }
    LargeDivisors(n, q);
  }

  /** The same with an element whose order is the product of two primes. */
  lemma CertifiedByTwo(n: int, q: int, r: int, b: int, u: int, v: int)
    requires n > 1 && IsPrime(q) && IsPrime(r) && q != r && (q * r) * (q * r) > n && q * r > 0
    requires Divides(n, Pow(b, q * r) - 1)
    requires Divides(n, u * (Pow(b, r) - 1) - 1) && Divides(n, v * (Pow(b, q) - 1) - 1)
    ensures IsPrime(n)
  {
    hide Pow, Divides, IsPrime;
    PrimeAbove(q);
    PrimeAbove(r);
    forall p | 1 < p && Divides(p, n)
      ensures q * r <= p
    {
      DividesTrans(p, n, Pow(b, q * r) - 1);
      Unit(n, p, u, Pow(b, r) - 1);
      Unit(n, p, v, Pow(b, q) - 1);
      forall k: nat | 0 < k < q * r && Divides(p, Pow(b, k) - 1)
        ensures false
      {
        assert q * r == r * q;
        PartOrder(p, q, r, b, k);
        PartOrder(p, r, q, b, k);
        BothDivide(q, r, k);
      }
      OrderBounds(p, b, q * r);
    }
    LargeDivisors(n, q * r);
  }

  lemma PartOrder(p: int, q: int, r: int, b: int, k: nat)
    requires IsPrime(q) && r > 0 && q * r > 0 && Divides(p, Pow(b, q * r) - 1) && !Divides(p, Pow(b, r) - 1)
    requires Divides(p, Pow(b, k) - 1)
    ensures Divides(q, k)
  {
    var c := Pow(b, r);
    assert q * r == r * q;
    PowTimes(b, r, q);
    OnePow(p, Pow(b, k), r);
    PowTimes(b, k, r);
    PowTimes(b, r, k);
    assert k * r == r * k;
    PrimeOrder(p, q, c, k);
  }

  lemma BothDivide(q: int, r: int, k: int)
    requires IsPrime(q) && IsPrime(r) && q != r && Divides(q, k) && Divides(r, k) && 0 < k
    ensures q * r <= k
  {
    hide IsPrime;
    var m :| Times(k, q, m);
    PrimeFactor(r, m, q);
    PrimesApart(q, r);
    var l :| Times(m, r, l);
    assert l * r * q == l * (q * r);
    assert q > 1 && r > 1 by { PrimeAbove(q); PrimeAbove(r); }
    Grows(q, r);
    if l <= 0 { NotPositive(l, q * r); } else { AtLeast(l, q * r); }
  }

  lemma PrimeAbove(q: int)
    requires IsPrime(q)
    ensures q > 1
  {
  }

  lemma PrimesApart(q: int, r: int)
    requires IsPrime(q) && IsPrime(r) && q != r
    ensures !Divides(r, q)
  {
    if Divides(r, q) {
      var l :| Times(q, r, l);
      if l <= 0 { NotPositive(l, r); } else { AtLeast(l, r); }
    }
  }

  /** No divisor from d up to the root. */
  predicate NoDivisor(n: nat, d: nat)
    requires d > 0
    decreases n - d
  {
    if d * d > n || d >= n then true else n % d != 0 && NoDivisor(n, d + 1)
  }

  lemma {:induction false} NoDivisorMeans(n: nat, d: nat, e: nat)
    requires 0 < d <= e && NoDivisor(n, d) && e * e <= n && e < n
    ensures n % e != 0
    decreases n - d
  {
    Ordered(d, e, d);
    Ordered(d, e, e);
    if d < e { NoDivisorMeans(n, d + 1, e); }
  }

  lemma TrialDivision(n: nat)
    requires n > 1 && NoDivisor(n, 2)
    ensures IsPrime(n)
  {
    forall d | 1 < d < n
      ensures !Divides(d, n)
    {
      if Divides(d, n) {
        var k :| Times(n, d, k);
        assert 1 < k < n by {
          if k <= 0 { NotPositive(k, d); }
          if k >= n { Ordered(n, k, d); Ordered(2, d, n); }
        }
        if d * d <= n {
          DividesMod(d, n);
          NoDivisorMeans(n, 2, d);
        } else {
          DividesBy(k, n, d);
          DividesMod(k, n);
          assert k * k <= n by { if k >= d { Ordered(d, k, d); } else { Ordered(k, d, k); } }
          NoDivisorMeans(n, 2, k);
        }
      }
    }
  }
}
