/** Arithmetic of the scalar class: integers modulo the prime order of the base point. */
module Scalars {

  /** 2^252 + 27742317777372353535851937790883648493 */
  const Q: int := 0x1000000000000000_0000000000000000_14def9dea2f79cd6_5812631a5cf5d3ed

  type Scalar = x: int | 0 <= x < Q

  /** Full reduction, as the scalar constructor from 32 bytes performs it. */
  function Reduce(x: int): (r: Scalar)
    ensures Cong(r, x)
  {
    ModCong(x);
    x % Q
  }

  function Add(a: int, b: int): Scalar { Reduce(a + b) }

  function Sub(a: int, b: int): Scalar { Reduce(a - b) }

  function Mul(a: int, b: int): Scalar { Reduce(a * b) }

  /** In-place negation subtracts from the prime and does not reduce: zero becomes the prime itself. */
  function Negative(a: Scalar): (r: int)
    ensures Cong(r, 0 - a)
  {
    CongBy(Q - a, 0 - a, 1);
    Q - a
  }

  // ----- congruence modulo Q

  ghost predicate Multiple(a: int, b: int, k: int) { a == b + k * Q }

  ghost predicate Cong(a: int, b: int) { exists k :: Multiple(a, b, k) }

  lemma CongBy(a: int, b: int, k: int)
    requires a == b + k * Q
    ensures Cong(a, b)
  {
    assert Multiple(a, b, k);
  }

  lemma ModCong(x: int)
    ensures Cong(x % Q, x)
  {
    CongBy(x % Q, x, -(x / Q));
  }

  lemma CongRefl(a: int)
    ensures Cong(a, a)
  {
    CongBy(a, a, 0);
  }

  lemma CongSym(a: int, b: int)
    requires Cong(a, b)
    ensures Cong(b, a)
  {
    var k :| Multiple(a, b, k);
    CongBy(b, a, -k);
  }

  lemma CongTrans(a: int, b: int, c: int)
    requires Cong(a, b) && Cong(b, c)
    ensures Cong(a, c)
  {
    var k :| Multiple(a, b, k);
    var l :| Multiple(b, c, l);
    CongBy(a, c, k + l);
  }

  lemma CongAdd(a: int, b: int, c: int, d: int)
    requires Cong(a, b) && Cong(c, d)
    ensures Cong(a + c, b + d)
  {
    var k :| Multiple(a, b, k);
    var l :| Multiple(c, d, l);
    CongBy(a + c, b + d, k + l);
  }

  lemma CongSub(a: int, b: int, c: int, d: int)
    requires Cong(a, b) && Cong(c, d)
    ensures Cong(a - c, b - d)
  {
    var k :| Multiple(a, b, k);
    var l :| Multiple(c, d, l);
    CongBy(a - c, b - d, k - l);
  }

  lemma CongMul(a: int, b: int, c: int, d: int)
    requires Cong(a, b) && Cong(c, d)
    ensures Cong(a * c, b * d)
  {
    var k :| Multiple(a, b, k);
    var l :| Multiple(c, d, l);
    calc {
      a * c;
      (b + k * Q) * (d + l * Q);
      b * d + (b * l + k * d + k * l * Q) * Q;
    }
    CongBy(a * c, b * d, b * l + k * d + k * l * Q);
  }

  /** Two scalars that agree modulo Q are the same scalar. */
  lemma CongScalar(a: Scalar, b: Scalar)
    requires Cong(a, b)
    ensures a == b
  {
    var k :| Multiple(a, b, k);
    assert k == 0;
  }

  lemma ReduceSmall(x: int)
    requires 0 <= x < Q
    ensures Reduce(x) == x
  {
  }

  /** Congruent numbers reduce to the same scalar, and only they do. */
  lemma CongReduce(a: int, b: int)
    ensures Cong(a, b) <==> Reduce(a) == Reduce(b)
  {
    CongSym(Reduce(a), a);
    CongSym(Reduce(b), b);
    if Cong(a, b) {
      CongTrans(Reduce(a), a, b);
      CongTrans(Reduce(a), b, Reduce(b));
      CongScalar(Reduce(a), Reduce(b));
    } else if Reduce(a) == Reduce(b) {
      CongTrans(a, Reduce(b), b);
    }
  }

  // ----- the table of inverses

  /** Entry i of the table holds the inverse of i - 50; the entry for a zero difference is zero. */
  function InverseEntry(i: int): int
    requires 0 <= i <= 100
  {
    match i
    case 0 => 0x2e147ae147ae147_ae147ae147ae147a_e5096a6aa2744012_1a17ca2895da543a
    case 1 => 0xd6343eb1a1f58d0_fac687d6343eb1a2_0703b6f3c1d4691b_d6c1048e38e29734
    case 2 => 0xc55555555555555_5555555555555555_656be09b9d9ede3a_8e8e2c645252d35c
    case 3 => 0x882b9310572620a_e4c415c9882b9310_624022dde9bf9fad_ed7c29d21ba8e31c
    case 4 => 0xcde9bd37a6f4de9_bd37a6f4de9bd37a_8017863313c72aac_683b4fb698af7860
    case 5 => 0xc16c16c16c16c16_c16c16c16c16c16c_26865663f298f3a7_a34117ad84d07dfd
    case 6 => 0x5d1745d1745d17_45d1745d1745d174_5d90b4396c6e5ad6_5374c8120dbfc4d1
    case 7 => 0xe82fa0be82fa0be_82fa0be82fa0be83_0cf9dcac28a50b45_61bd53ee3c7fb44e
    case 8 => 0x4f3cf3cf3cf3cf3_cf3cf3cf3cf3cf3c_fa450432a0281211_952a433f04647874
    case 9 => 0x1f3831f3831f383_1f3831f3831f3831_f60eb453588e963f_9a59a82eec1dfaa0
    case 10 => 0xb99999999999999_9999999999999999_a8bb41f49c8d1e81_cca6ee3fe9cbd33f
    case 11 => 0x2df2df2df2df2df_2df2df2df2df2df2_e2ecf1c57fb64a19_58034cdd58e3eaf6
    case 12 => 0xb5e50d79435e50d_79435e50d79435e5_1c4d969773cae1f6_9ce4a4bb271a74e5
    case 13 => 0x914c1bacf914c1b_acf914c1bacf914c_2785790fa89a5fef_46be53ec5e4655b0
    case 14 => 0xb1c71c71c71c71c_71c71c71c71c71c7_2af02d854681495b_f60cc4d24ec72881
    case 15 => 0xf8af8af8af8af8a_f8af8af8af8af8af_9f3f015beec4a6fc_1b0a8c283d0c0fb3
    case 16 => 0x70f0f0f0f0f0f0f_0f0f0f0f0f0f0f0f_1844410f6603d440_72263ac7ddb7bf61
    case 17 => 0x7c1f07c1f07c1f_07c1f07c1f07c1f0_7cc0f04c909323c8_6f4660181255066c
    case 18 => 0x280000000000000_0000000000000000_0342d70ac976b081_7dc2df7c1e86691d
    case 19 => 0xbdef7bdef7bdef7_bdef7bdef7bdef7b_ee73e2ad70a7324c_72e45a0b4d3a8476
    case 20 => 0xa22222222222222_2222222222222222_2f5a04a69a699f10_48d871f718bdd305
    case 21 => 0xb9611a7b9611a7b_9611a7b9611a7b96_20c4c698645b07a4_0acf858ead3f4130
    case 22 => 0x76db6db6db6db6d_b6db6db6db6db6db_7767864bf03c1b1a_5fbf64de8696b4ae
    case 23 => 0x425ed097b425ed0_97b425ed097b425e_d600eb729c074e96_62af6f06d5bafe0e
    case 24 => 0x44ec4ec4ec4ec4e_c4ec4ec4ec4ec4ec_54636aa83f916f26_0404f34c0555e071
    case 25 => 0x5c28f5c28f5c28f_5c28f5c28f5c28f5_ca12d4d544e88024_342f94512bb4a874
    case 26 => 0x8aaaaaaaaaaaaaa_aaaaaaaaaaaaaaaa_b5f8c75898461f9e_c509f5ae47afd2cb
    case 27 => 0x9bd37a6f4de9bd3_7a6f4de9bd37a6f4_eb5012878496b882_78643c52d4691cd3
    case 28 => 0xba2e8ba2e8ba2e_8ba2e8ba2e8ba2e8_bb216872d8dcb5ac_a6e990241b7f89a2
    case 29 => 0x9e79e79e79e79e7_9e79e79e79e79e79_f48a086540502423_2a54867e08c8f0e8
    case 30 => 0x733333333333333_3333333333333333_3c978a0a9622a02d_413b796576a1d291
    case 31 => 0x6bca1af286bca1a_f286bca1af286bca_23bc3350449e2716_e1b6e65bf13f15dd
    case 32 => 0x638e38e38e38e38_e38e38e38e38e38e_4101612bea0af5e1_9407268a40987d15
    case 33 => 0xe1e1e1e1e1e1e1e_1e1e1e1e1e1e1e1e_3088821ecc07a880_e44c758fbb6f7ec2
    case 34 => 0x500000000000000_0000000000000000_0685ae1592ed6102_fb85bef83d0cd23a
    case 35 => 0x444444444444444_4444444444444444_49d50f6e91dba14a_399e80d3d485d21d
    case 36 => 0xedb6db6db6db6db_6db6db6db6db6db6_eecf0c97e0783634_bf7ec9bd0d2d695c
    case 37 => 0x89d89d89d89d89d_89d89d89d89d89d8_a8c6d5507f22de4c_0809e6980aabc0e2
    case 38 => 0x155555555555555_5555555555555555_571294d28d94a267_320188423269d1a9
    case 39 => 0x1745d1745d1745d_1745d1745d1745d1_7642d0e5b1b96b59_4dd3204836ff1344
    case 40 => 0xe66666666666666_6666666666666666_792f14152c45405a_8276f2caed43a522
    case 41 => 0xc71c71c71c71c71_c71c71c71c71c71c_8202c257d415ebc3_280e4d148130fa2a
    case 42 => 0xa00000000000000_0000000000000000_0d0b5c2b25dac205_f70b7df07a19a474
    case 43 => 0xdb6db6db6db6db6_db6db6db6db6db6d_c8bf1f511df8cf93_26eb305fbd64fecb
    case 44 => 0x2aaaaaaaaaaaaaa_aaaaaaaaaaaaaaaa_ae2529a51b2944ce_6403108464d3a352
    case 45 => 0xccccccccccccccc_cccccccccccccccc_dd7f2e4bb592e3de_acdb827b7d917657
    case 46 => 0x400000000000000_0000000000000000_0537be77a8bde735_960498c6973d74fb
    case 47 => 0x555555555555555_5555555555555555_5c4a534a3652899c_c8062108c9a746a4
    case 48 => 0x800000000000000_0000000000000000_0a6f7cef517bce6b_2c09318d2e7ae9f6
    case 49 => 0x1000000000000000_0000000000000000_14def9dea2f79cd6_5812631a5cf5d3ec
    case 50 => 0x0
    case 51 => 0x1
    case 52 => 0x800000000000000_0000000000000000_0a6f7cef517bce6b_2c09318d2e7ae9f7
    case 53 => 0xaaaaaaaaaaaaaaa_aaaaaaaaaaaaaaaa_b894a6946ca51339_900c4211934e8d49
    case 54 => 0xc00000000000000_0000000000000000_0fa73b66fa39b5a0_c20dca53c5b85ef2
    case 55 => 0x333333333333333_3333333333333333_375fcb92ed64b8f7_ab36e09edf645d96
    case 56 => 0xd55555555555555_5555555555555555_66b9d03987ce5807_f40f5295f822309b
    case 57 => 0x249249249249249_2492492492492492_4c1fda8d84fecd43_312732ba9f90d522
    case 58 => 0x600000000000000_0000000000000000_07d39db37d1cdad0_6106e529e2dc2f79
    case 59 => 0x38e38e38e38e38e_38e38e38e38e38e3_92dc3786cee1b113_30041605dbc4d9c3
    case 60 => 0x199999999999999_9999999999999999_9bafe5c976b25c7b_d59b704f6fb22ecb
    case 61 => 0xe8ba2e8ba2e8ba2_e8ba2e8ba2e8ba2e_9e9c28f8f13e317d_0a3f42d225f6c0a9
    case 62 => 0xeaaaaaaaaaaaaaa_aaaaaaaaaaaaaaaa_bdcc650c1562fa6f_2610dad82a8c0244
    case 63 => 0x762762762762762_7627627627627627_6c18248e23d4be8a_50087c82524a130b
    case 64 => 0x124924924924924_9249249249249249_260fed46c27f66a1_9893995d4fc86a91
    case 65 => 0xbbbbbbbbbbbbbbb_bbbbbbbbbbbbbbbb_cb09ea70111bfb8c_1e73e246887001d0
    case 66 => 0xb00000000000000_0000000000000000_0e594bc9100a3bd3_5c8ca4221fe901b3
    case 67 => 0x1e1e1e1e1e1e1e1_e1e1e1e1e1e1e1e1_e45677bfd6eff455_73c5ed8aa186552b
    case 68 => 0x9c71c71c71c71c7_1c71c71c71c71c71_d3dd98b2b8eca6f4_c40b3c901c5d56d8
    case 69 => 0x9435e50d79435e5_0d79435e50d79435_f122c68e5e5975bf_765b7cbe6bb6be10
    case 70 => 0x8cccccccccccccc_cccccccccccccccc_d8476fd40cd4fca9_16d6e9b4e654015c
    case 71 => 0x618618618618618_6186186186186186_2054f17962a778b3_2dbddc9c542ce305
    case 72 => 0xf45d1745d1745d1_745d1745d1745d17_59bd916bca1ae729_b128d2f641764a4b
    case 73 => 0x642c8590b21642c_8590b21642c8590b_298ee7571e60e453_dfae26c7888cb71a
    case 74 => 0x755555555555555_5555555555555555_5ee632860ab17d37_93086d6c15460122
    case 75 => 0xa3d70a3d70a3d70_a3d70a3d70a3d70a_4acc25095e0f1cb2_23e2cec931412b79
    case 76 => 0xbb13b13b13b13b1_3b13b13b13b13b13_c07b8f3663662db0_540d6fce579ff37c
    case 77 => 0xbda12f684bda12f_684bda12f684bda1_3ede0e6c06f04e3f_f562f413873ad5df
    case 78 => 0x892492492492492_4924924924924924_9d777392b2bb81bb_f852fe3bd65f1f3f
    case 79 => 0x469ee58469ee584_69ee58469ee58469_f41a33463e9c9532_4d42dd8bafb692bd
    case 80 => 0x5dddddddddddddd_dddddddddddddddd_e584f538088dfdc6_0f39f123443800e8
    case 81 => 0x421084210842108_4210842108421084_266b173132506a89_e52e090f0fbb4f77
    case 82 => 0xd80000000000000_0000000000000000_119c22d3d980ec54_da4f839e3e6f6ad0
    case 83 => 0xf83e0f83e0f83e0_f83e0f83e0f83e0f_981e09921264790d_e8cc03024aa0cd81
    case 84 => 0x8f0f0f0f0f0f0f0_f0f0f0f0f0f0f0f0_fc9ab8cf3cf3c895_e5ec28527f3e148c
    case 85 => 0x75075075075075_0750750750750750_759ff882b432f5da_3d07d6f21fe9c43a
    case 86 => 0x4e38e38e38e38e3_8e38e38e38e38e38_e9eecc595c76537a_62059e480e2eab6c
    case 87 => 0x6eb3e45306eb3e4_5306eb3e45306eb3_ed5980cefa5d3ce7_11540f2dfeaf7e3d
    case 88 => 0x4a1af286bca1af2_86bca1af286bca1a_f89163472f2cbadf_bb2dbe5f35db5f08
    case 89 => 0xd20d20d20d20d20_d20d20d20d20d20d_31f20819234152bd_000f163d0411e8f7
    case 90 => 0x466666666666666_6666666666666666_6c23b7ea066a7e54_8b6b74da732a00ae
    case 91 => 0xe0c7ce0c7ce0c7c_e0c7ce0c7ce0c7ce_1ed0458b4a690696_bdb8baeb70d7d94d
    case 92 => 0xb0c30c30c30c30c_30c30c30c30c30c3_1a99f5ac02cf8ac4_c2e81fdb58915b79
    case 93 => 0x17d05f417d05f41_7d05f417d05f417d_07e51d327a529190_f6550f2c20761f9f
    case 94 => 0xfa2e8ba2e8ba2e8_ba2e8ba2e8ba2e8b_b74e45a536894200_049d9b084f360f1c
    case 95 => 0x3e93e93e93e93e9_3e93e93e93e93e93_ee58a37ab05ea92e_b4d14b6cd82555f0
    case 96 => 0x321642c8590b216_42c8590b21642c85_94c773ab8f307229_efd71363c4465b8d
    case 97 => 0x77d46cefa8d9df5_1b3bea3677d46cef_b29ed700b937fd28_6a963948414cf0d1
    case 98 => 0x3aaaaaaaaaaaaaa_aaaaaaaaaaaaaaaa_af7319430558be9b_c98436b60aa30091
    case 99 => 0x29cbc14e5e0a72f_05397829cbc14e5e_0ddb42eae12333ba_81515e8c24133cb9
    case 100 => 0xd1eb851eb851eb8_51eb851eb851eb85_2fd58f7400835cc4_3dfa98f1c71b7fb3
  }

  /** The inverse of a difference of two share indices. */
  function Inverse(d: int): int
    requires -50 <= d <= 50
  {
    InverseEntry(d + 50)
  }

  lemma InverseAbove(d: int)
    requires 1 <= d <= 50
    ensures (Inverse(d) * d) % Q == 1
  {
    if d > 25 { InverseFarAbove(d); }
  }

  lemma InverseFarAbove(d: int)
    requires 26 <= d <= 50
    ensures (Inverse(d) * d) % Q == 1
  {
  }

  lemma InverseBelow(d: int)
    requires -50 <= d <= -1
    ensures (Inverse(d) * d) % Q == 1
  {
  }

  /** Every non-zero difference the table covers is inverted by its entry, and every entry is reduced. */
  lemma InverseCorrect(d: int)
    requires -50 <= d <= 50
    ensures 0 <= Inverse(d) < Q
    ensures d != 0 ==> Cong(Inverse(d) * d, 1)
    ensures d == 0 ==> Inverse(d) == 0
  {
    if d != 0 {
      if d < 0 { InverseBelow(d); } else { InverseAbove(d); }
      CongBy(Inverse(d) * d, 1, (Inverse(d) * d) / Q);
    }
  }
}
