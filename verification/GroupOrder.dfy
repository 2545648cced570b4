/** The order of the base point is prime: a chain of certificates down to numbers small enough to divide. Each
    certificate names a prime above the root of the next number and an element of that order. */
module GroupOrder {
  import opened Primes
  import opened Scalars

  // ----- powers by octal digits

  /** b to the e leaves r modulo n. */
  ghost predicate Leaves(n: int, b: int, e: nat, r: int) { Divides(n, Pow(b, e) - r) }

  lemma Start(n: int, b: int)
    ensures Leaves(n, b, 0, 1) && Leaves(n, b, 1, b)
  {
    DividesBy(n, 0, 0);
    assert Pow(b, 1) == b * Pow(b, 0);
  }

  lemma Product(n: int, b: int, e: nat, r: int, f: nat, s: int)
    requires Leaves(n, b, e, r) && Leaves(n, b, f, s)
    ensures Leaves(n, b, e + f, r * s)
  {
    hide Pow, Divides;
    var x, y := Pow(b, e), Pow(b, f);
    PowAdd(b, e, f);
    assert y * (x - r) + r * (y - s) == x * y - r * s;
    DividesScale(n, x - r, y);
    DividesScale(n, y - s, r);
    DividesSum(n, y * (x - r), r * (y - s));
  }

  lemma Reduced(n: int, b: int, e: nat, r: int, t: int)
    requires n > 0 && Leaves(n, b, e, r) && r % n == t
    ensures Leaves(n, b, e, t)
  {
    hide Pow, Divides;
    DividesBy(n, r - t, r / n);
    DividesSum(n, Pow(b, e) - r, r - t);
  }

  lemma Another(n: int, b: int, d: nat, p: int, t: int)
    requires n > 0 && Leaves(n, b, d, p) && Leaves(n, b, 1, b) && p * b % n == t
    ensures Leaves(n, b, d + 1, t)
  {
    hide Leaves;
    Product(n, b, d, p, 1, b);
    Reduced(n, b, d + 1, p * b, t);
  }

  /** One more octal digit of the exponent. */
  lemma Digit(n: int, b: int, e: nat, r: int, d: nat, p: int, t: int)
    requires n > 0 && Leaves(n, b, e, r) && Leaves(n, b, d, p)
    requires r * r * r * r * r * r * r * r * p % n == t
    ensures Leaves(n, b, 8 * e + d, t)
  {
    hide Leaves;
    var r2 := r * r;
    var r4 := r2 * r2;
    var r8 := r4 * r4;
    Product(n, b, e, r, e, r);
    Product(n, b, 2 * e, r2, 2 * e, r2);
    Product(n, b, 4 * e, r4, 4 * e, r4);
    Product(n, b, 8 * e, r8, d, p);
    Eighth(r);
    Reduced(n, b, 8 * e + d, r8 * p, t);
  }

  lemma Eighth(r: int)
    ensures var r2 := r * r; var r4 := r2 * r2; r4 * r4 == r * r * r * r * r * r * r * r
  {
    var r2 := r * r;
    assert r2 * r2 == r * r * r * r;
    var r4 := r2 * r2;
    assert r4 * r4 == r4 * r * r * r * r;
  }

  /** The powers that one octal digit can need. */
  ghost predicate Small(n: int, b: int, b2: int, b3: int, b4: int, b5: int, b6: int, b7: int) {
    && Leaves(n, b, 0, 1) && Leaves(n, b, 1, b) && Leaves(n, b, 2, b2) && Leaves(n, b, 3, b3)
    && Leaves(n, b, 4, b4) && Leaves(n, b, 5, b5) && Leaves(n, b, 6, b6) && Leaves(n, b, 7, b7)
  }

  lemma SmallPowers(n: int, b: int, b2: int, b3: int, b4: int, b5: int, b6: int, b7: int)
    requires n > 0 && b * b % n == b2 && b2 * b % n == b3 && b3 * b % n == b4
    requires b4 * b % n == b5 && b5 * b % n == b6 && b6 * b % n == b7
    ensures Small(n, b, b2, b3, b4, b5, b6, b7)
  {
    hide Leaves;
    Start(n, b);
    Another(n, b, 1, b, b2);
    Another(n, b, 2, b2, b3);
    Another(n, b, 3, b3, b4);
    Another(n, b, 4, b4, b5);
    Another(n, b, 5, b5, b6);
    Another(n, b, 6, b6, b7);
  }

  /** A certificate in numbers that can be multiplied out. */
  lemma ByPower(n: int, q: int, b: int, u: int)
    requires n > 1 && q > 1 && IsPrime(q) && q * q > n && Leaves(n, b, q, 1) && u * (b - 1) % n == 1
    ensures IsPrime(n)
  {
    hide Pow, IsPrime, Divides;
    InverseLeft(n, u * (b - 1));
    Certified(n, q, b, u);
  }

  lemma InverseLeft(n: int, x: int)
    requires n > 1 && x % n == 1
    ensures Divides(n, x - 1)
  {
    DividesBy(n, x - 1, x / n);
  }

  lemma ByTwoPowers(n: int, q: int, r: int, b: int, s: int, t: int, u: int, v: int)
    requires n > 1 && q > 1 && r > 1 && IsPrime(q) && IsPrime(r) && q != r && (q * r) * (q * r) > n && q * r > 0
    requires Leaves(n, b, q * r, 1) && Leaves(n, b, r, s) && Leaves(n, b, q, t)
    requires u * (s - 1) % n == 1 && v * (t - 1) % n == 1
    ensures IsPrime(n)
  {
    hide Pow, IsPrime, Divides;
    InverseLeaves(n, b, r, s, u);
    InverseLeaves(n, b, q, t, v);
    CertifiedByTwo(n, q, r, b, u, v);
  }

  lemma InverseLeaves(n: int, b: int, e: nat, s: int, u: int)
    requires n > 1 && Leaves(n, b, e, s) && u * (s - 1) % n == 1
    ensures Divides(n, u * (Pow(b, e) - 1) - 1)
  {
    hide Pow, Divides;
    var x := Pow(b, e);
    assert u * (x - s) + (u * (s - 1) - 1) == u * (x - 1) - 1;
    InverseLeft(n, u * (s - 1));
    DividesScale(n, x - s, u);
    DividesSum(n, u * (x - s), u * (s - 1) - 1);
  }

  // ----- the small primes

  const P51: int := 0x477be711ecedd
  const P62: int := 0x3d89490a0e5537ef
  const P88: int := 0x8e51fa_3a480f89f9de5163
  const P134: int := 0x3a_0fc367dcf0ff0a5a_1db0b1b7c3093f33
  const P138: int := 0x32c_dcafae152df290ed_9fa9b80caa8174cb
  const P21: int := 1224481
  const P20: int := 531581

  lemma P2551Prime()
    ensures IsPrime(2551)
  {
    assert NoDivisor(2551, 44);
    assert NoDivisor(2551, 36);
    assert NoDivisor(2551, 28);
    assert NoDivisor(2551, 20);
    assert NoDivisor(2551, 11);
    TrialDivision(2551);
  }

  lemma P3797Prime()
    ensures IsPrime(3797)
  {
    assert NoDivisor(3797, 54);
    assert NoDivisor(3797, 46);
    assert NoDivisor(3797, 38);
    assert NoDivisor(3797, 29);
    assert NoDivisor(3797, 20);
    assert NoDivisor(3797, 11);
    TrialDivision(3797);
  }

  const P21_BASE: int := 0xe103b
  const P21_2: int := 0xf59fb
  const P21_3: int := 0x3ce87
  const P21_4: int := 0x48ff8
  const P21_5: int := 0x72a29
  const P21_6: int := 0x99004
  const P21_7: int := 0xf5f1

  lemma P21Small()
    ensures Small(P21, P21_BASE, P21_2, P21_3, P21_4, P21_5, P21_6, P21_7)
  {
    SmallPowers(P21, P21_BASE, P21_2, P21_3, P21_4, P21_5, P21_6, P21_7);
  }

  lemma P21Power()
    ensures Leaves(P21, P21_BASE, 0x9f7, 0x1)
  {
    hide Leaves;
    P21Small();
    Digit(P21, P21_BASE, 0x4, 0x48ff8, 7, P21_7, 0xd881f);
    Digit(P21, P21_BASE, 0x27, 0xd881f, 6, P21_6, 0x8d3a9);
    Digit(P21, P21_BASE, 0x13e, 0x8d3a9, 7, P21_7, 0x1);
  }

  lemma P21Prime()
    ensures IsPrime(P21)
  {
    hide IsPrime, Leaves;
    P2551Prime();
    P21Power();
    ByPower(P21, 2551, P21_BASE, 0x10cb57);
  }

  const P20_BASE: int := 0x7e2d
  const P20_2: int := 0x5fde7
  const P20_3: int := 0x62137
  const P20_4: int := 0x81b9
  const P20_5: int := 0x766a8
  const P20_6: int := 0x404e8
  const P20_7: int := 0x1f9d7

  lemma P20Small()
    ensures Small(P20, P20_BASE, P20_2, P20_3, P20_4, P20_5, P20_6, P20_7)
  {
    SmallPowers(P20, P20_BASE, P20_2, P20_3, P20_4, P20_5, P20_6, P20_7);
  }

  lemma P20Power()
    ensures Leaves(P20, P20_BASE, 0xed5, 0x1)
  {
    hide Leaves;
    P20Small();
    Digit(P20, P20_BASE, 0x7, 0x1f9d7, 3, P20_3, 0x4a88b);
    Digit(P20, P20_BASE, 0x3b, 0x4a88b, 2, P20_2, 0x1b2fa);
    Digit(P20, P20_BASE, 0x1da, 0x1b2fa, 5, P20_5, 0x1);
  }

  lemma P20Prime()
    ensures IsPrime(P20)
  {
    hide IsPrime, Leaves;
    P3797Prime();
    P20Power();
    ByPower(P20, 3797, P20_BASE, 0xc5f1);
  }

  const P51_BASE: int := 0x32eee2b5f3cd5
  const P51_2: int := 0x3bf0fc8647d4e
  const P51_3: int := 0x4decfbe1c567
  const P51_4: int := 0x27f5dc3bd325a
  const P51_5: int := 0x1a3244443cc34
  const P51_6: int := 0x45c29a68a75a7
  const P51_7: int := 0xa80bedce3820

  lemma P51Small()
    ensures Small(P51, P51_BASE, P51_2, P51_3, P51_4, P51_5, P51_6, P51_7)
  {
    SmallPowers(P51, P51_BASE, P51_2, P51_3, P51_4, P51_5, P51_6, P51_7);
  }

  lemma P51Power()
    ensures Leaves(P51, P51_BASE, 0x978d4f1f1d, 0x1)
  {
    hide Leaves;
    P51Small();
    Digit(P51, P51_BASE, 0x1, 0x32eee2b5f3cd5, 1, P51_BASE, 0x17f653babe402);
    Digit(P51, P51_BASE, 0x9, 0x17f653babe402, 3, P51_3, 0x18fd8db3a0aa0);
    Digit(P51, P51_BASE, 0x4b, 0x18fd8db3a0aa0, 6, P51_6, 0x410d837504704);
    Digit(P51, P51_BASE, 0x25e, 0x410d837504704, 1, P51_BASE, 0x1666b3e9fcf31);
    Digit(P51, P51_BASE, 0x12f1, 0x1666b3e9fcf31, 5, P51_5, 0x42ff2de5e4529);
    Digit(P51, P51_BASE, 0x978d, 0x42ff2de5e4529, 2, P51_2, 0x36bdfd84610c);
    Digit(P51, P51_BASE, 0x4bc6a, 0x36bdfd84610c, 3, P51_3, 0x330a6c442ccf5);
    Digit(P51, P51_BASE, 0x25e353, 0x330a6c442ccf5, 6, P51_6, 0x102f823f67813);
    Digit(P51, P51_BASE, 0x12f1a9e, 0x102f823f67813, 1, P51_BASE, 0x2f1dd9c00f5d0);
    Digit(P51, P51_BASE, 0x978d4f1, 0x2f1dd9c00f5d0, 7, P51_7, 0x29f3122be3caf);
    Digit(P51, P51_BASE, 0x4bc6a78f, 0x29f3122be3caf, 4, P51_4, 0x9061beb53376);
    Digit(P51, P51_BASE, 0x25e353c7c, 0x9061beb53376, 3, P51_3, 0x390a4a199e55e);
    Digit(P51, P51_BASE, 0x12f1a9e3e3, 0x390a4a199e55e, 5, P51_5, 0x1);
  }

  lemma P51Left()
    ensures Leaves(P51, P51_BASE, 0x81c7d, 0x4735c3113b127)
  {
    hide Leaves;
    P51Small();
    Digit(P51, P51_BASE, 0x2, 0x3bf0fc8647d4e, 0, 1, 0x2d74e85ee63a0);
    Digit(P51, P51_BASE, 0x10, 0x2d74e85ee63a0, 1, P51_BASE, 0x43e08f52695b);
    Digit(P51, P51_BASE, 0x81, 0x43e08f52695b, 6, P51_6, 0x2fb724eeb516);
    Digit(P51, P51_BASE, 0x40e, 0x2fb724eeb516, 1, P51_BASE, 0x1d23f43854e3e);
    Digit(P51, P51_BASE, 0x2071, 0x1d23f43854e3e, 7, P51_7, 0x37164d37318ce);
    Digit(P51, P51_BASE, 0x1038f, 0x37164d37318ce, 5, P51_5, 0x4735c3113b127);
  }

  lemma P51Right()
    ensures Leaves(P51, P51_BASE, 0x12af21, 0x40cae279246b8)
  {
    hide Leaves;
    P51Small();
    Digit(P51, P51_BASE, 0x4, 0x27f5dc3bd325a, 5, P51_5, 0x3eb77f4ea7570);
    Digit(P51, P51_BASE, 0x25, 0x3eb77f4ea7570, 2, P51_2, 0x1422c16d02e07);
    Digit(P51, P51_BASE, 0x12a, 0x1422c16d02e07, 7, P51_7, 0xdbf35d86549b);
    Digit(P51, P51_BASE, 0x957, 0xdbf35d86549b, 4, P51_4, 0x1430cde7533ac);
    Digit(P51, P51_BASE, 0x4abc, 0x1430cde7533ac, 4, P51_4, 0x342bedc651513);
    Digit(P51, P51_BASE, 0x255e4, 0x342bedc651513, 1, P51_BASE, 0x40cae279246b8);
  }

  lemma P51Prime()
    ensures IsPrime(P51)
  {
    hide IsPrime, Leaves;
    P21Prime();
    P20Prime();
    P51Power();
    P51Left();
    P51Right();
    ByTwoPowers(P51, P21, P20, P51_BASE, 0x4735c3113b127, 0x40cae279246b8,
                0x2cf51ccba75d1, 0xc1a8109e02f6);
  }

  const P62_BASE: int := 0x5c52cd00a1f4ba7
  const P62_2: int := 0x2b08f3b0cfee8c13
  const P62_3: int := 0x33ca8cc247f30940
  const P62_4: int := 0x189bd270085d3e75
  const P62_5: int := 0x248d423a0d8cab9e
  const P62_6: int := 0x2b31447192a91c5b
  const P62_7: int := 0x223f62b95b8918f4

  lemma P62Small()
    ensures Small(P62, P62_BASE, P62_2, P62_3, P62_4, P62_5, P62_6, P62_7)
  {
    SmallPowers(P62, P62_BASE, P62_2, P62_3, P62_4, P62_5, P62_6, P62_7);
  }

  lemma P62Power()
    ensures Leaves(P62, P62_BASE, 0x477be711ecedd, 0x1)
  {
    hide Leaves;
    P62Small();
    Digit(P62, P62_BASE, 0x4, 0x189bd270085d3e75, 3, P62_3, 0x2f4914ff9352ac16);
    Digit(P62, P62_BASE, 0x23, 0x2f4914ff9352ac16, 5, P62_5, 0x252d0447a20f9dba);
    Digit(P62, P62_BASE, 0x11d, 0x252d0447a20f9dba, 7, P62_7, 0x1c1bb8e6a45fb746);
    Digit(P62, P62_BASE, 0x8ef, 0x1c1bb8e6a45fb746, 3, P62_3, 0x39b9ac8e26cbca0a);
    Digit(P62, P62_BASE, 0x477b, 0x39b9ac8e26cbca0a, 7, P62_7, 0x92ac06ad7979b59);
    Digit(P62, P62_BASE, 0x23bdf, 0x92ac06ad7979b59, 1, P62_BASE, 0x23de926dae3ef8b);
    Digit(P62, P62_BASE, 0x11def9, 0x23de926dae3ef8b, 6, P62_6, 0xeecd4927a22108e);
    Digit(P62, P62_BASE, 0x8ef7ce, 0xeecd4927a22108e, 1, P62_BASE, 0x185d01be42a449e6);
    Digit(P62, P62_BASE, 0x477be71, 0x185d01be42a449e6, 0, 1, 0x32027d3b34a82055);
    Digit(P62, P62_BASE, 0x23bdf388, 0x32027d3b34a82055, 7, P62_7, 0xbbe6cd12656bc26);
    Digit(P62, P62_BASE, 0x11def9c47, 0xbbe6cd12656bc26, 5, P62_5, 0x113cf7dfed74e5db);
    Digit(P62, P62_BASE, 0x8ef7ce23d, 0x113cf7dfed74e5db, 4, P62_4, 0x1edb00ecfca951bb);
    Digit(P62, P62_BASE, 0x477be711ec, 0x1edb00ecfca951bb, 7, P62_7, 0x3cf02e349d10966b);
    Digit(P62, P62_BASE, 0x23bdf388f67, 0x3cf02e349d10966b, 3, P62_3, 0x3d4e9bf8b25db0f7);
    Digit(P62, P62_BASE, 0x11def9c47b3b, 0x3d4e9bf8b25db0f7, 3, P62_3, 0x198e2106b867e94a);
    Digit(P62, P62_BASE, 0x8ef7ce23d9db, 0x198e2106b867e94a, 5, P62_5, 0x1);
  }

  lemma P62Prime()
    ensures IsPrime(P62)
  {
    hide IsPrime, Leaves;
    P51Prime();
    P62Power();
    ByPower(P62, P51, P62_BASE,
            0xe0605543c5b9ae3);
  }

  const P88_BASE: int := 0x43d06a_01b28fc1632b40eb
  const P88_2: int := 0x317bbb_e1db5c5682596851
  const P88_3: int := 0x7f09a6_8d16f42ecb17621b
  const P88_4: int := 0x6ec574_0bf9d6a41b36533f
  const P88_5: int := 0x785480_306d2c4e1f8d8d24
  const P88_6: int := 0x33ab92_3f42290febed6b61
  const P88_7: int := 0x8ad026_4862f3696ce5be41

  lemma P88Small()
    ensures Small(P88, P88_BASE, P88_2, P88_3, P88_4, P88_5, P88_6, P88_7)
  {
    SmallPowers(P88, P88_BASE, P88_2, P88_3, P88_4, P88_5, P88_6, P88_7);
  }

  lemma P88Power1()
    ensures Leaves(P88, P88_BASE, 0xf6252428, 0x44d135_ee1312e5f12204cc)
  {
    hide Leaves;
    P88Small();
    Digit(P88, P88_BASE, 0x3, 0x7f09a6_8d16f42ecb17621b, 6, P88_6, 0x31760b_543c4e1aa8cf8d74);
    Digit(P88, P88_BASE, 0x1e, 0x31760b_543c4e1aa8cf8d74, 6, P88_6, 0x838c7c_7bbeb722d3ada4f8);
    Digit(P88, P88_BASE, 0xf6, 0x838c7c_7bbeb722d3ada4f8, 1, P88_BASE, 0x2b74db_da16cd3d60b5427a);
    Digit(P88, P88_BASE, 0x7b1, 0x2b74db_da16cd3d60b5427a, 1, P88_BASE, 0x5472f0_7359f6732cf91fed);
    Digit(P88, P88_BASE, 0x3d89, 0x5472f0_7359f6732cf91fed, 2, P88_2, 0x8d3bd7_08e741ae567e08c4);
    Digit(P88, P88_BASE, 0x1ec4a, 0x8d3bd7_08e741ae567e08c4, 2, P88_2, 0x3c43b6_5949372f6d6fc2c0);
    Digit(P88, P88_BASE, 0xf6252, 0x3c43b6_5949372f6d6fc2c0, 2, P88_2, 0x7c4420_1282269f960ea437);
    Digit(P88, P88_BASE, 0x7b1292, 0x7c4420_1282269f960ea437, 0, 1, 0x1b50c2_ecf543ae2da7c372);
    Digit(P88, P88_BASE, 0x3d89490, 0x1b50c2_ecf543ae2da7c372, 5, P88_5, 0x18429b_2ebcfac1008ea309);
    Digit(P88, P88_BASE, 0x1ec4a485, 0x18429b_2ebcfac1008ea309, 0, 1, 0x44d135_ee1312e5f12204cc);
  }

  lemma P88Power2()
    ensures Leaves(P88, P88_BASE, 0x3d89490a0e5537ef, 0x1)
  {
    hide Leaves;
    P88Small();
    P88Power1();
    Digit(P88, P88_BASE, 0xf6252428, 0x44d135_ee1312e5f12204cc, 1, P88_BASE, 0x5cd054_287601dc7d94b4c0);
    Digit(P88, P88_BASE, 0x7b1292141, 0x5cd054_287601dc7d94b4c0, 6, P88_6, 0xfcbe0_bab5bc5812a65c8b);
    Digit(P88, P88_BASE, 0x3d89490a0e, 0xfcbe0_bab5bc5812a65c8b, 2, P88_2, 0x27a8a_d2558448707cafa0);
    Digit(P88, P88_BASE, 0x1ec4a485072, 0x27a8a_d2558448707cafa0, 5, P88_5, 0x816968_afe8f717d8a9caf7);
    Digit(P88, P88_BASE, 0xf6252428395, 0x816968_afe8f717d8a9caf7, 2, P88_2, 0xaf902_c9b1339361274398);
    Digit(P88, P88_BASE, 0x7b1292141caa, 0xaf902_c9b1339361274398, 3, P88_3, 0x5ac47e_4df58617612a20f6);
    Digit(P88, P88_BASE, 0x3d89490a0e553, 0x5ac47e_4df58617612a20f6, 3, P88_3, 0x4a86da_45ef457a1505993d);
    Digit(P88, P88_BASE, 0x1ec4a485072a9b, 0x4a86da_45ef457a1505993d, 7, P88_7, 0xf3e50_89fde9d426524fb3);
    Digit(P88, P88_BASE, 0xf62524283954df, 0xf3e50_89fde9d426524fb3, 5, P88_5, 0x15c571_829053a3b58859b5);
    Digit(P88, P88_BASE, 0x7b1292141caa6fd, 0x15c571_829053a3b58859b5, 7, P88_7, 0x1);
  }

  lemma P88Prime()
    ensures IsPrime(P88)
  {
    hide IsPrime, Leaves;
    P62Prime();
    P88Power2();
    ByPower(P88, P62, P88_BASE,
            0x7f9d13_82843bc75f2bbbb0);
  }

  const P134_BASE: int := 0x1a_e2c2ca6b6676caa5_c3933f166ac4090c
  const P134_2: int := 0x33_4a11ddb34626865e_6f9ee42745f6e30e
  const P134_3: int := 0x1cb0dde6752afbee_37df93b57e49a196
  const P134_4: int := 0x2c_d5965fd9bb194a9c_1951d16a9bf9937c
  const P134_5: int := 0x31_8752018fc463ad42_3340f3f46e419975
  const P134_6: int := 0x12_8358c24a2666e8e6_ebd61ea51793ac5e
  const P134_7: int := 0x2e_6e23e68e0c57ad3c_4757e20324f1ec49

  lemma P134Small()
    ensures Small(P134, P134_BASE, P134_2, P134_3, P134_4, P134_5, P134_6, P134_7)
  {
    SmallPowers(P134, P134_BASE, P134_2, P134_3, P134_4, P134_5, P134_6, P134_7);
  }

  lemma P134Power1()
    ensures Leaves(P134, P134_BASE, 0x23947e8e9203, 0x31_1c15b2560609dbb7_c85c2373f5dd25af)
  {
    hide Leaves;
    P134Small();
    var r0 := 0x1a_e2c2ca6b6676caa5_c3933f166ac4090c;
    var r1 := 0x15_1e7ed66fcf06be08_94ceef457408531c;
    Digit(P134, P134_BASE, 0x1, r0, 0, 1, r1);
    var r2 := 0x8_efe863f059569b3c_108a73d2ea2c7571;
    Digit(P134, P134_BASE, 0x8, r1, 7, P134_7, r2);
    var r3 := 0x1b_65cc2505541066d4_f056eb093c196213;
    Digit(P134, P134_BASE, 0x47, r2, 1, P134_BASE, r3);
    var r4 := 0x24_78935d404c1f362d_77a835cb7349f11e;
    Digit(P134, P134_BASE, 0x239, r3, 2, P134_2, r4);
    var r5 := 0x13_5507b31bcff12e42_c6029d111ca78951;
    Digit(P134, P134_BASE, 0x11ca, r4, 1, P134_BASE, r5);
    var r6 := 0xd_d7debaaa615305d4_9238c98502b9d449;
    Digit(P134, P134_BASE, 0x8e51, r5, 7, P134_7, r6);
    var r7 := 0x546eda4615402d2_fe7c46283a6674b2;
    Digit(P134, P134_BASE, 0x4728f, r6, 6, P134_6, r7);
    var r8 := 0x9_12e29ec80c98e543_892a6fee820d8c13;
    Digit(P134, P134_BASE, 0x23947e, r7, 4, P134_4, r8);
    var r9 := 0x7_2fb5b304c111a484_76ab739f7ec60070;
    Digit(P134, P134_BASE, 0x11ca3f4, r8, 3, P134_3, r9);
    var r10 := 0x1d_3e49f81294f34c35_e5f7fbfaf4624a18;
    Digit(P134, P134_BASE, 0x8e51fa3, r9, 5, P134_5, r10);
    var r11 := 0x18_d2e09ebcd462af33_7069cfabc85b18c4;
    Digit(P134, P134_BASE, 0x4728fd1d, r10, 1, P134_BASE, r11);
    var r12 := 0xa_989ce1b1f5ce61da_f3b4bc98f8036fe0;
    Digit(P134, P134_BASE, 0x23947e8e9, r11, 1, P134_BASE, r12);
    var r13 := 0x18_904294e378cbc226_538d476b43cd9303;
    Digit(P134, P134_BASE, 0x11ca3f4749, r12, 0, 1, r13);
    var r14 := 0x32_4cd8da2acf184a79_6d4e38f7a6ff5e78;
    Digit(P134, P134_BASE, 0x8e51fa3a48, r13, 0, 1, r14);
    var r15 := 0x31_1c15b2560609dbb7_c85c2373f5dd25af;
    Digit(P134, P134_BASE, 0x4728fd1d240, r14, 3, P134_3, r15);
  }

  lemma P134Power2()
    ensures Leaves(P134, P134_BASE, 0x8e51fa_3a480f89f9de5163, 0x1)
  {
    hide Leaves;
    P134Small();
    P134Power1();
    var r0 := 0x31_1c15b2560609dbb7_c85c2373f5dd25af;
    var r1 := 0x6_5f3d23d4a555ee5e_8466200f2ec128d5;
    Digit(P134, P134_BASE, 0x23947e8e9203, r0, 7, P134_7, r1);
    var r2 := 0x19_7096472aa814b079_b80facb0ba781332;
    Digit(P134, P134_BASE, 0x11ca3f474901f, r1, 0, 1, r2);
    var r3 := 0x14_5abdf701cdfd4589_b9d571bd522fcbac;
    Digit(P134, P134_BASE, 0x8e51fa3a480f8, r2, 4, P134_4, r3);
    var r4 := 0x33_ad1d715d29b6659a_f4582f41f4b68e3c;
    Digit(P134, P134_BASE, 0x4728fd1d2407c4, r3, 7, P134_7, r4);
    var r5 := 0x39_0cdbbea9b311fd76_e6af3733a6dd751f;
    Digit(P134, P134_BASE, 0x23947e8e9203e27, r4, 7, P134_7, r5);
    var r6 := 0xa_d883b9dc6bb84088_05598cb096cf5e00;
    Digit(P134, P134_BASE, 0x11ca3f474901f13f, r5, 1, P134_BASE, r6);
    var r7 := 0x15_fbaa64e5f19339fe_cb236e1e1be87846;
    Digit(P134, P134_BASE, 0x8e51fa3a480f89f9, r6, 6, P134_6, r7);
    var r8 := 0x1e_7eeccb078713353c_7eeb4315b877cca4;
    Digit(P134, P134_BASE, 0x4_728fd1d2407c4fce, r7, 7, P134_7, r8);
    var r9 := 0x2c_371a2a4c7849819b_d5b7961d5b8a806e;
    Digit(P134, P134_BASE, 0x23_947e8e9203e27e77, r8, 4, P134_4, r9);
    var r10 := 0x39_01ad9e94ce7063e2_15952bff20e70062;
    Digit(P134, P134_BASE, 0x11c_a3f474901f13f3bc, r9, 5, P134_5, r10);
    var r11 := 0x3_f1199c8583ab7781_52a053f6dda8254f;
    Digit(P134, P134_BASE, 0x8e5_1fa3a480f89f9de5, r10, 0, 1, r11);
    var r12 := 0x1f_d09445e83a8d4b34_d9597f759d17d77b;
    Digit(P134, P134_BASE, 0x4728_fd1d2407c4fcef28, r11, 5, P134_5, r12);
    var r13 := 0x2c_d7dc38f576cbde3c_041d431e15adde01;
    Digit(P134, P134_BASE, 0x23947_e8e9203e27e77945, r12, 4, P134_4, r13);
    var r14 := 0x1;
    Digit(P134, P134_BASE, 0x11ca3f_474901f13f3bca2c, r13, 3, P134_3, r14);
  }

  lemma P134Prime()
    ensures IsPrime(P134)
  {
    hide IsPrime, Leaves;
    P88Prime();
    P134Power2();
    ByPower(P134, P88, P134_BASE,
            0x30_1ca9f38446aff6c3_063f39e6ef47be52);
  }

  const P138_BASE: int := 0x4000
  const P138_2: int := 0x10000000
  const P138_3: int := 0x40000000000
  const P138_4: int := 0x100000000000000
  const P138_5: int := 0x40_0000000000000000
  const P138_6: int := 0x100000_0000000000000000
  const P138_7: int := 0x400000000_0000000000000000

  lemma P138Small()
    ensures Small(P138, P138_BASE, P138_2, P138_3, P138_4, P138_5, P138_6, P138_7)
  {
    SmallPowers(P138, P138_BASE, P138_2, P138_3, P138_4, P138_5, P138_6, P138_7);
  }

  lemma P138Power1()
    ensures Leaves(P138, P138_BASE, 0x741f86cfb9e1, 0xec_af311a891586edda_8fc3b09e67621cc6)
  {
    hide Leaves;
    P138Small();
    var r0 := 0x40000000000;
    var r1 := 0x271_878a756acb6b6f13_286ef6c6775712d8;
    Digit(P138, P138_BASE, 0x3, r0, 5, P138_5, r1);
    var r2 := 0x2a1_92f9c6d64b754f5b_05e18a425fd8b142;
    Digit(P138, P138_BASE, 0x1d, r1, 0, 1, r2);
    var r3 := 0x38_11691944a83b0547_195d5aa74cce00ed;
    Digit(P138, P138_BASE, 0xe8, r2, 1, P138_BASE, r3);
    var r4 := 0x161_c2a55ae98d8a3439_5a6f6e989b5a2e5e;
    Digit(P138, P138_BASE, 0x741, r3, 7, P138_7, r4);
    var r5 := 0x44_4beb3193c6f96e68_606cd202ef07d9c3;
    Digit(P138, P138_BASE, 0x3a0f, r4, 6, P138_6, r5);
    var r6 := 0x26d_843fb412b55eefec_b24d56e5d7ee2dcc;
    Digit(P138, P138_BASE, 0x1d07e, r5, 0, 1, r6);
    var r7 := 0xd0_ef9f58cb4a3b9a38_29ee81b43d482445;
    Digit(P138, P138_BASE, 0xe83f0, r6, 6, P138_6, r7);
    var r8 := 0x240_39a9e7b63b84d565_300d98f2b5d47272;
    Digit(P138, P138_BASE, 0x741f86, r7, 6, P138_6, r8);
    var r9 := 0xc5_74016a61491c598e_d5666b6957a420b5;
    Digit(P138, P138_BASE, 0x3a0fc36, r8, 3, P138_3, r9);
    var r10 := 0x6f_d382b50d6f6daee2_24bc0b5a51392e92;
    Digit(P138, P138_BASE, 0x1d07e1b3, r9, 7, P138_7, r10);
    var r11 := 0x9c_305f0229e79019bb_9e950585c4f83834;
    Digit(P138, P138_BASE, 0xe83f0d9f, r10, 3, P138_3, r11);
    var r12 := 0x2a3_8f95ffd820620cfd_ed9d8b4eeeb0fead;
    Digit(P138, P138_BASE, 0x741f86cfb, r11, 4, P138_4, r12);
    var r13 := 0x76_3a7d6240c00d6d55_6935b16879e645a6;
    Digit(P138, P138_BASE, 0x3a0fc367dc, r12, 7, P138_7, r13);
    var r14 := 0x117_0c489bc74d396838_7181b3f49ad4057c;
    Digit(P138, P138_BASE, 0x1d07e1b3ee7, r13, 4, P138_4, r14);
    var r15 := 0xec_af311a891586edda_8fc3b09e67621cc6;
    Digit(P138, P138_BASE, 0xe83f0d9f73c, r14, 1, P138_BASE, r15);
  }

  lemma P138Power2()
    ensures Leaves(P138, P138_BASE, 0xe83f0d9_f73c3fc296876c2c, 0xe9_1b6458992704bf97_c49d0e6a2c1d57b0)
  {
    hide Leaves;
    P138Small();
    P138Power1();
    var r0 := 0xec_af311a891586edda_8fc3b09e67621cc6;
    var r1 := 0x144_7ccdf9004c739cc1_54f8fe33e5e94443;
    Digit(P138, P138_BASE, 0x741f86cfb9e1, r0, 7, P138_7, r1);
    var r2 := 0xa5_d142bedb201b5f9e_3ec2d78608618c84;
    Digit(P138, P138_BASE, 0x3a0fc367dcf0f, r1, 7, P138_7, r2);
    var r3 := 0x1b7_310b501800eab242_1547d20177521242;
    Digit(P138, P138_BASE, 0x1d07e1b3ee787f, r2, 4, P138_4, r3);
    var r4 := 0x3a_3c1def681ada30d2_7376177df4e3ade6;
    Digit(P138, P138_BASE, 0xe83f0d9f73c3fc, r3, 1, P138_BASE, r4);
    var r5 := 0x11b_29314701d9c8e243_8b86a33a9f063da2;
    Digit(P138, P138_BASE, 0x741f86cfb9e1fe1, r4, 2, P138_2, r5);
    var r6 := 0x17c_b508926454ab4768_8cb41ec1719994f8;
    Digit(P138, P138_BASE, 0x3a0fc367dcf0ff0a, r5, 2, P138_2, r6);
    var r7 := 0x232_7380af877dc23c0e_2413e21ffa662e46;
    Digit(P138, P138_BASE, 0x1_d07e1b3ee787f852, r6, 6, P138_6, r7);
    var r8 := 0x220_8350142842410663_2a9c33589220d5a4;
    Digit(P138, P138_BASE, 0xe_83f0d9f73c3fc296, r7, 4, P138_4, r8);
    var r9 := 0xba_c28d47201992dc0b_47be66dcc0173d6a;
    Digit(P138, P138_BASE, 0x74_1f86cfb9e1fe14b4, r8, 1, P138_BASE, r9);
    var r10 := 0x2e4_0b4e299ca1cac46c_538d61756b206dc5;
    Digit(P138, P138_BASE, 0x3a0_fc367dcf0ff0a5a1, r9, 6, P138_6, r10);
    var r11 := 0x165_58cabf3893517a95_9284844cd0c7c7bc;
    Digit(P138, P138_BASE, 0x1d07_e1b3ee787f852d0e, r10, 6, P138_6, r11);
    var r12 := 0x107_e314ef115dd3db73_b2f03fd8cbea35f0;
    Digit(P138, P138_BASE, 0xe83f_0d9f73c3fc296876, r11, 6, P138_6, r12);
    var r13 := 0x50_dd09e0f24696263f_741ccaf788614f7c;
    Digit(P138, P138_BASE, 0x741f8_6cfb9e1fe14b43b6, r12, 0, 1, r13);
    var r14 := 0x1c7_0ca700114fc4ee2b_895a13bb1a05f16d;
    Digit(P138, P138_BASE, 0x3a0fc3_67dcf0ff0a5a1db0, r13, 5, P138_5, r14);
    var r15 := 0xe9_1b6458992704bf97_c49d0e6a2c1d57b0;
    Digit(P138, P138_BASE, 0x1d07e1b_3ee787f852d0ed85, r14, 4, P138_4, r15);
  }

  lemma P138Power3()
    ensures Leaves(P138, P138_BASE, 0x3a_0fc367dcf0ff0a5a_1db0b1b7c3093f33, 0x1)
  {
    hide Leaves;
    P138Small();
    P138Power2();
    var r0 := 0xe9_1b6458992704bf97_c49d0e6a2c1d57b0;
    var r1 := 0x152_799e7c38f182e7ec_616a4f5631852a86;
    Digit(P138, P138_BASE, 0xe83f0d9_f73c3fc296876c2c, r0, 3, P138_3, r1);
    var r2 := 0x8a93800cc3ac6b25_fd592f22739f8e21;
    Digit(P138, P138_BASE, 0x741f86cf_b9e1fe14b43b6163, r1, 3, P138_3, r2);
    var r3 := 0x218_f2ed0c2bf5020c9c_0a448774976c4a8b;
    Digit(P138, P138_BASE, 0x3a0fc367d_cf0ff0a5a1db0b1b, r2, 3, P138_3, r3);
    var r4 := 0x21a_327d662f1dde4974_011979b7e85abd3d;
    Digit(P138, P138_BASE, 0x1d07e1b3ee_787f852d0ed858db, r3, 7, P138_7, r4);
    var r5 := 0x12a_66507b474847fd75_7f71b1ef394f44e1;
    Digit(P138, P138_BASE, 0xe83f0d9f73_c3fc296876c2c6df, r4, 0, 1, r5);
    var r6 := 0xb2_7ce908892a1f5e39_a86e0c18b16f1ac1;
    Digit(P138, P138_BASE, 0x741f86cfb9e_1fe14b43b61636f8, r5, 3, P138_3, r6);
    var r7 := 0x13c_0e2beff514b70e9d_25a93e94cf99571a;
    Digit(P138, P138_BASE, 0x3a0fc367dcf0_ff0a5a1db0b1b7c3, r6, 0, 1, r7);
    var r8 := 0x2e2_98ed5431867a1152_c55fc14fe629ac7c;
    Digit(P138, P138_BASE, 0x1d07e1b3ee787_f852d0ed858dbe18, r7, 2, P138_2, r8);
    var r9 := 0x18e_52465c2bfe578508_1830879b99072684;
    Digit(P138, P138_BASE, 0xe83f0d9f73c3f_c296876c2c6df0c2, r8, 2, P138_2, r9);
    var r10 := 0x1d7_17c0b8609d852244_67fcc312dd685ea5;
    Digit(P138, P138_BASE, 0x741f86cfb9e1fe_14b43b61636f8612, r9, 3, P138_3, r10);
    var r11 := 0x14e_375907e488f8c817_ccb7c98c1a0818bd;
    Digit(P138, P138_BASE, 0x3a0fc367dcf0ff0_a5a1db0b1b7c3093, r10, 7, P138_7, r11);
    var r12 := 0x1b1_d1947a0e70e4690a_5a21122d381b7f20;
    Digit(P138, P138_BASE, 0x1d07e1b3ee787f85_2d0ed858dbe1849f, r11, 4, P138_4, r12);
    var r13 := 0x310_6b18ff5cd8372730_e481aed56ab13f5e;
    Digit(P138, P138_BASE, 0xe83f0d9f73c3fc29_6876c2c6df0c24fc, r12, 6, P138_6, r13);
    var r14 := 0x1;
    Digit(P138, P138_BASE, 0x7_41f86cfb9e1fe14b_43b61636f86127e6, r13, 3, P138_3, r14);
  }

  lemma P138Prime()
    ensures IsPrime(P138)
  {
    hide IsPrime, Leaves;
    P134Prime();
    P138Power3();
    ByPower(P138, P134, P138_BASE,
            0x114_761f57a172761842_31256cbd81b2ad93);
  }

  const Q_BASE: int := 0x6941747825185c7_4c21c65c0572a638_494435ae0b3ba38e_09b97aa8d26faec1
  const Q_2: int := 0xfddb91168b9e9e4_61c670c7a19d2ba0_c61cd8aa1246b305_e598319e47d75b66
  const Q_3: int := 0x81a732e5e696fce_4dcf08a863dd06b9_e0963962ec8aa594_458f77b2a81a90cf
  const Q_4: int := 0xcc0cacd114ec3fd_125792d43a74d349_56705ef44fc9b6eb_7abbae7476b84860
  const Q_5: int := 0x7b2f1aaedc7f39e_1cf730d1facaa0c1_dc3ab81c7eee4a3f_a40ddbd225638e80
  const Q_6: int := 0x648dbd78a504132_02a236c9a126a9ed_29db336aaf72dc42_a03832d229afdd1c
  const Q_7: int := 0xa86d06e8c2fa3c8_359154bcd48f0acd_73b093b47a05356c_e7daa55006ee542d

  lemma QSmall()
    ensures Small(Q, Q_BASE, Q_2, Q_3, Q_4, Q_5, Q_6, Q_7)
  {
    SmallPowers(Q, Q_BASE, Q_2, Q_3, Q_4, Q_5, Q_6, Q_7);
  }

  lemma QPower1()
    ensures Leaves(Q, Q_BASE, 0xcb372beb854b,
                   0xef013c0fb1fc058_8726420459507234_78b9ae9038ee0b08_01f156f5b0a9f187)
  {
    hide Leaves;
    QSmall();
    var r0 := 0x648dbd78a504132_02a236c9a126a9ed_29db336aaf72dc42_a03832d229afdd1c;
    var r1 := 0xfdd6ff16c32ad2f_785160cb502d0cd7_a6ea0f4c5ab65bb9_557bf5f5e3d44d31;
    Digit(Q, Q_BASE, 0x6, r0, 2, Q_2, r1);
    var r2 := 0xf6b55bf77948b17_4c610ca851bbd715_c6d568f8a9f099ce_6ae6ecb37f3dfb95;
    Digit(Q, Q_BASE, 0x32, r1, 6, Q_6, r2);
    var r3 := 0x83ea22ee270e699_22bb8f51c90027c1_c0cb2ccc7b45763b_bde06025dba18364;
    Digit(Q, Q_BASE, 0x196, r2, 3, Q_3, r3);
    var r4 := 0xe2989e98e278710_6604932f0feac8f4_f54da482e898d993_8ccd7e3a7b9ff2ad;
    Digit(Q, Q_BASE, 0xcb3, r3, 3, Q_3, r4);
    var r5 := 0x21f5b6b8b294bb8_8e208064bade1919_a98b5a8d883c6580_7e2c42e31d74a95d;
    Digit(Q, Q_BASE, 0x659b, r4, 4, Q_4, r5);
    var r6 := 0xa10d5fd997ec80a_98fe37228321f7b9_b521fa7ed9c4929d_eebdc72ab4054cbe;
    Digit(Q, Q_BASE, 0x32cdc, r5, 5, Q_5, r6);
    var r7 := 0x6c3c437ec06c24e_310e0b578f6e7a88_ee0754744de67877_c9ded20076e6ead4;
    Digit(Q, Q_BASE, 0x1966e5, r6, 3, Q_3, r7);
    var r8 := 0x52bccc5d5fe2250_3c3866dc583de9ba_50c593a624dbcdfa_a0b272e63ed77971;
    Digit(Q, Q_BASE, 0xcb372b, r7, 7, Q_7, r8);
    var r9 := 0xffd318003b435e7_294a952044868956_88215a4fdf0aa956_7016dc0d92d62eee;
    Digit(Q, Q_BASE, 0x659b95f, r8, 2, Q_2, r9);
    var r10 := 0xa9090f416144ce0_cd503fc851c948ba_19c0b275b71ea514_13afe5f4f95c7445;
    Digit(Q, Q_BASE, 0x32cdcafa, r9, 7, Q_7, r10);
    var r11 := 0x3ba0fbdb737bd93_1801f7f4afb5d912_aff191aa239f2565_6f9df07ab8dcf509;
    Digit(Q, Q_BASE, 0x1966e57d7, r10, 0, 1, r11);
    var r12 := 0xfbd290821526031_7037f97576542c25_0655092f55eb9c2d_ca7b22096bf267e3;
    Digit(Q, Q_BASE, 0xcb372beb8, r11, 2, Q_2, r12);
    var r13 := 0xb347348fee86204_d0630914e11e01be_3813b3ebb5d45c49_078d3aa4bcec937d;
    Digit(Q, Q_BASE, 0x659b95f5c2, r12, 5, Q_5, r13);
    var r14 := 0xc379d2d7d85d9c9_a94da6fe4302b285_1feb330ad4d00341_8f2cd441529190b4;
    Digit(Q, Q_BASE, 0x32cdcafae15, r13, 1, Q_BASE, r14);
    var r15 := 0xef013c0fb1fc058_8726420459507234_78b9ae9038ee0b08_01f156f5b0a9f187;
    Digit(Q, Q_BASE, 0x1966e57d70a9, r14, 3, Q_3, r15);
  }

  lemma QPower2()
    ensures Leaves(Q, Q_BASE, 0x1966e57d_70a96f94876cfd4d,
                   0xc3bd13f74e687dd_c7a561600a49478e_9ecde4ed2f5746b2_35d0d852a0583b0a)
  {
    hide Leaves;
    QSmall();
    QPower1();
    var r0 := 0xef013c0fb1fc058_8726420459507234_78b9ae9038ee0b08_01f156f5b0a9f187;
    var r1 := 0x26a1eba5d039095_dc12605969e83ae9_1337c19eff61983e_9192130184c331b4;
    Digit(Q, Q_BASE, 0xcb372beb854b, r0, 3, Q_3, r1);
    var r2 := 0x2ddcff8f74ccd72_91f6eba6a662ce62_bcc2d3f1a6e8d083_5119e69a4cc47504;
    Digit(Q, Q_BASE, 0x659b95f5c2a5b, r1, 7, Q_7, r2);
    var r3 := 0x5a60827d54ae753_e7dfe50d0da824a2_e942e37f808109f3_c0aed3099e40b7d9;
    Digit(Q, Q_BASE, 0x32cdcafae152df, r2, 1, Q_BASE, r3);
    var r4 := 0x6ab35bd6b49054_3692a91d275acff3_b856a88368afbe85_42ffd1be8cdf1862;
    Digit(Q, Q_BASE, 0x1966e57d70a96f9, r3, 2, Q_2, r4);
    var r5 := 0xfbc65fccc57f0b0_b38e05485bdd764d_9c5a1f31e4a9d207_da5b3804de016333;
    Digit(Q, Q_BASE, 0xcb372beb854b7ca, r4, 2, Q_2, r5);
    var r6 := 0xcc98848802a930e_349dcd5979dce086_6d6e04808e0935aa_53885090d8bccf73;
    Digit(Q, Q_BASE, 0x659b95f5c2a5be52, r5, 0, 1, r6);
    var r7 := 0x1366ef3a98bf18_8b2259e2c55a9254_2142b54cd2ce8825_c6caf8570e14486e;
    Digit(Q, Q_BASE, 0x3_2cdcafae152df290, r6, 7, Q_7, r7);
    var r8 := 0x1aa7ecce1b93735_3cfb10a08018f2f5_b3f5e01eb8578d15_cbbebd26ba71dcc6;
    Digit(Q, Q_BASE, 0x19_66e57d70a96f9487, r7, 3, Q_3, r8);
    var r9 := 0x997dd58966d8a1f_fd174cd1ad9fd217_e367102833ccff3e_fba039cf7d8753bf;
    Digit(Q, Q_BASE, 0xcb_372beb854b7ca43b, r8, 3, Q_3, r9);
    var r10 := 0x5264a9477dbaf0_9536960a361b18e7_6b6a4ae7291320c8_1e8f2b745c367faa;
    Digit(Q, Q_BASE, 0x659_b95f5c2a5be521db, r9, 1, Q_BASE, r10);
    var r11 := 0xd1a0285c124efef_3c47e97b784fb291_c818c029c9171b3d_497105b1efd5df07;
    Digit(Q, Q_BASE, 0x32cd_cafae152df290ed9, r10, 7, Q_7, r11);
    var r12 := 0xae24ba53809dd57_5d68134292620b60_d61e032d86c726fd_b9338a48ee4edb53;
    Digit(Q, Q_BASE, 0x1966e_57d70a96f94876cf, r11, 6, Q_6, r12);
    var r13 := 0x13f5564235e6f25_45c3c011bb70be51_a8413a6e7878da4a_68d9e0c7f8d0931e;
    Digit(Q, Q_BASE, 0xcb372_beb854b7ca43b67e, r12, 5, Q_5, r13);
    var r14 := 0xe2ebb2f70d2abe_568d3427a59b460b_886dd92abcdfbb74_714cddd6ed8314d5;
    Digit(Q, Q_BASE, 0x659b95_f5c2a5be521db3f5, r13, 1, Q_BASE, r14);
    var r15 := 0xc3bd13f74e687dd_c7a561600a49478e_9ecde4ed2f5746b2_35d0d852a0583b0a;
    Digit(Q, Q_BASE, 0x32cdcaf_ae152df290ed9fa9, r14, 5, Q_5, r15);
  }

  lemma QPower3()
    ensures Leaves(Q, Q_BASE, 0x32c_dcafae152df290ed_9fa9b80caa8174cb, 0x1)
  {
    hide Leaves;
    QSmall();
    QPower2();
    var r0 := 0xc3bd13f74e687dd_c7a561600a49478e_9ecde4ed2f5746b2_35d0d852a0583b0a;
    var r1 := 0x2bfa20667f0bba2_193ac8827bcfdca5_90a9165656d9df20_fe2b05438ce3532f;
    Digit(Q, Q_BASE, 0x1966e57d_70a96f94876cfd4d, r0, 6, Q_6, r1);
    var r2 := 0xad625cd5b41d2d6_fb8481be0e1a591d_af837adb2daa25c5_ad24fac79c8c866a;
    Digit(Q, Q_BASE, 0xcb372beb_854b7ca43b67ea6e, r1, 0, 1, r2);
    var r3 := 0x6b94e397862dbc3_266f82f155428c74_bfa12f25caa5683e_732c78b72b905164;
    Digit(Q, Q_BASE, 0x659b95f5c_2a5be521db3f5370, r2, 0, 1, r3);
    var r4 := 0xe8abe89f7664e21_fd8cd88df5a147e9_4bf75ddf8149a88f_46f13799b2c6b983;
    Digit(Q, Q_BASE, 0x32cdcafae1_52df290ed9fa9b80, r3, 6, Q_6, r4);
    var r5 := 0x2afb492a8ecb926_cece00ce3ae6cc63_92e8fe85f1154b32_c849ca049de3fcfa;
    Digit(Q, Q_BASE, 0x1966e57d70a_96f94876cfd4dc06, r4, 2, Q_2, r5);
    var r6 := 0x457deb054ad6057_6feb81f52676fe25_8a9d2f1eb6e063f5_178ea7e5688f10f9;
    Digit(Q, Q_BASE, 0xcb372beb854_b7ca43b67ea6e032, r5, 5, Q_5, r6);
    var r7 := 0xd8e4993e231b4e0_fbe48d27c98a70e5_ec7071a7b04a9f04_4114e64e12f3106c;
    Digit(Q, Q_BASE, 0x659b95f5c2a5_be521db3f5370195, r6, 2, Q_2, r7);
    var r8 := 0x5f75221c9ba7773_896d2dc73a840540_db0404740e7446c4_7f9929cb38d7524d;
    Digit(Q, Q_BASE, 0x32cdcafae152d_f290ed9fa9b80caa, r7, 4, Q_4, r8);
    var r9 := 0x6e1d3b4c3e2af58_e5835b740f40b21b_58f003d5dbf7b9df_7db7b0aacfa6d742;
    Digit(Q, Q_BASE, 0x1966e57d70a96f_94876cfd4dc06554, r8, 0, 1, r9);
    var r10 := 0x410ea19f632cbf7_5af972cfa24c2307_513820d0934884cc_03f4e14e4e69a73b;
    Digit(Q, Q_BASE, 0xcb372beb854b7c_a43b67ea6e032aa0, r9, 2, Q_2, r10);
    var r11 := 0xfa249c5b0423d44_014bc1b21506f864_7cc7f0251d8eb95e_6372fc3341c28849;
    Digit(Q, Q_BASE, 0x659b95f5c2a5be5_21db3f5370195502, r10, 7, Q_7, r11);
    var r12 := 0xf1260b7284f253e_90cb1c7ee3c2a6ef_4b930055192b8ba5_deb910b583326f97;
    Digit(Q, Q_BASE, 0x32cdcafae152df29_0ed9fa9b80caa817, r11, 2, Q_2, r12);
    var r13 := 0x84d21ccfefd12ff_29934941efe60ee3_fbda4f0ca60f19ed_7f8b78160358ff87;
    Digit(Q, Q_BASE, 0x1_966e57d70a96f948_76cfd4dc065540ba, r12, 3, Q_3, r13);
    var r14 := 0xc6cb70f0c69b2_352bae4a1ccec803_fd3ff5b8a487e6cb_586e3448c23bf0b3;
    Digit(Q, Q_BASE, 0xc_b372beb854b7ca43_b67ea6e032aa05d3, r13, 1, Q_BASE, r14);
    var r15 := 0x1;
    Digit(Q, Q_BASE, 0x65_9b95f5c2a5be521d_b3f5370195502e99, r14, 3, Q_3, r15);
  }

  /** The order of the base point is prime. */
  lemma OrderPrime()
    ensures IsPrime(Q)
  {
    hide IsPrime, Leaves;
    P138Prime();
    QPower3();
    ByPower(Q, P138, Q_BASE,
            0x4f00a20dc254447_a5cb50de6926ccd2_09ebc28f00f1664a_7d2f3930fbe411ae);
  }

  // ----- the scalars are a field

  lemma CongDivides(a: int, b: int)
    ensures Cong(a, b) <==> Divides(Q, a - b)
  {
    if Cong(a, b) {
      var k :| Multiple(a, b, k);
      DividesBy(Q, a - b, k);
    }
    if Divides(Q, a - b) {
      var k :| Times(a - b, Q, k);
      CongBy(a, b, k);
    }
  }

  /** A factor that does not vanish can be cancelled. */
  lemma CongCancel(a: int, b: int, l: int)
    requires !Cong(l, 0)
    ensures Cong(a * l, b * l) <==> Cong(a, b)
  {
    hide Cong, Divides, IsPrime;
    CongDivides(l, 0);
    CongDivides(a, b);
    CongDivides(a * l, b * l);
    assert a * l - b * l == (a - b) * l;
    if Cong(a, b) {
      CongRefl(l);
      CongMul(a, b, l, l);
    }
    if Cong(a * l, b * l) {
      OrderPrime();
      PrimeFactor(Q, a - b, l);
    }
  }
}
