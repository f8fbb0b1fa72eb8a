/** Values of powers of the indeterminate, for the period of the LFSR. */
module LfsrPowers {
  import opened Arithmetic
  import opened Polynomials
  import opened Prng

  lemma {:induction false} StepsAdd(x: bv32, m: nat, n: nat)
    ensures Steps(x, m + n) == Steps(Steps(x, m), n)
  {
    hide LfsrStep;
    if n > 0 { StepsAdd(x, m, n - 1); }
  }

  lemma ProductOfPowers(m: nat, n: nat)
    ensures Product(Steps(ONE, m), Steps(ONE, n)) == Steps(ONE, m + n)
  {
    hide Product, Times, LfsrStep;
    ProductIsTimes(Steps(ONE, m), Steps(ONE, n));
    StepsAreProduct(Steps(ONE, n), m);
    StepsAdd(ONE, n, m);
  }

  /** The indeterminate, squared k times. */
  function Square(k: nat): bv32 {
    if k == 0 then LfsrStep(ONE) else Product(Square(k - 1), Square(k - 1))
  }

  lemma {:induction false} SquareIsPower(k: nat)
    ensures Square(k) == Steps(ONE, Pow2(k))
  {
    hide Product;
    if k == 0 {
      assert Steps(ONE, 1) == LfsrStep(Steps(ONE, 0));
    } else {
      SquareIsPower(k - 1);
      ProductOfPowers(Pow2(k - 1), Pow2(k - 1));
    }
  }

  /** The product of the squares at `start`, `start + stride`, ... */
  function Comb(start: nat, stride: nat, count: nat): bv32
    decreases count
  {
    if count == 0 then ONE else Product(Square(start), Comb(start + stride, stride, count - 1))
  }

  function Exponent(start: nat, stride: nat, count: nat): nat
    decreases count
  {
    if count == 0 then 0 else Pow2(start) + Exponent(start + stride, stride, count - 1)
  }

  lemma {:induction false} CombIsPower(start: nat, stride: nat, count: nat)
    ensures Comb(start, stride, count) == Steps(ONE, Exponent(start, stride, count))
    decreases count
  {
    hide Product, Square, Pow2;
    if count > 0 {
      SquareIsPower(start);
      CombIsPower(start + stride, stride, count - 1);
      ProductOfPowers(Pow2(start), Exponent(start + stride, stride, count - 1));
    }
  }

  lemma FirstSquare()
    ensures Square(0) == 0x4000_0000
  {}

  lemma NextSquare(k: nat, a: bv32, b: bv32)
    requires Square(k) == a && Product(a, a) == b
    ensures Square(k + 1) == b
  {
    hide Product;
  }

  lemma NoSquares(start: nat, stride: nat)
    ensures Comb(start, stride, 0) == ONE
  {}

  lemma NextComb(start: nat, stride: nat, count: nat, a: bv32, b: bv32, c: bv32)
    requires count > 0 && Square(start) == a && Comb(start + stride, stride, count - 1) == b && Product(a, b) == c
    ensures Comb(start, stride, count) == c
  {
    hide Product, Square;
  }

  // The repeated squares of the indeterminate; the thirty-second is the indeterminate again.

  lemma SquaresTo4()
    ensures Square(1) == 0x2000_0000 && Square(2) == 0x0800_0000 && Square(3) == 0x0080_0000 && Square(4) == 0x0000_8000
  {
    hide Square;
    FirstSquare();
    NextSquare(0, 0x4000_0000, 0x2000_0000);
    NextSquare(1, 0x2000_0000, 0x0800_0000);
    NextSquare(2, 0x0800_0000, 0x0080_0000);
    NextSquare(3, 0x0080_0000, 0x0000_8000);
  }

  lemma SquaresTo8()
    ensures Square(5) == 0xd000_0001 && Square(6) == 0x55ff_ffff && Square(7) == 0x13bb_3333 && Square(8) == 0x6fcf_4f4f
  {
    hide Square;
    SquaresTo4();
    NextSquare(4, 0x0000_8000, 0xd000_0001);
    NextSquare(5, 0xd000_0001, 0x55ff_ffff);
    NextSquare(6, 0x55ff_ffff, 0x13bb_3333);
    NextSquare(7, 0x13bb_3333, 0x6fcf_4f4f);
  }

  lemma SquaresTo16()
    ensures Square(9) == 0x530c_8cf3 && Square(10) == 0x9a56_5964 && Square(11) == 0x0ff9_0ac5 && Square(12) == 0x68e1_f690
    ensures Square(13) == 0x7157_e6c2 && Square(14) == 0x72ea_81d1 && Square(15) == 0x0df6_35b6 && Square(16) == 0x9a8f_dffe
  {
    hide Square;
    SquaresTo8();
    NextSquare(8, 0x6fcf_4f4f, 0x530c_8cf3);
    NextSquare(9, 0x530c_8cf3, 0x9a56_5964);
    NextSquare(10, 0x9a56_5964, 0x0ff9_0ac5);
    NextSquare(11, 0x0ff9_0ac5, 0x68e1_f690);
    NextSquare(12, 0x68e1_f690, 0x7157_e6c2);
    NextSquare(13, 0x7157_e6c2, 0x72ea_81d1);
    NextSquare(14, 0x72ea_81d1, 0x0df6_35b6);
    NextSquare(15, 0x0df6_35b6, 0x9a8f_dffe);
  }

  lemma SquaresTo24()
    ensures Square(17) == 0xdfee_e6cd && Square(18) == 0x9242_0b0a && Square(19) == 0x1dbd_e042 && Square(20) == 0xc5a2_9958
    ensures Square(21) == 0x7153_a579 && Square(22) == 0x96ef_0b85 && Square(23) == 0xea62_d8b8 && Square(24) == 0xf5f8_6278
  {
    hide Square;
    SquaresTo16();
    NextSquare(16, 0x9a8f_dffe, 0xdfee_e6cd);
    NextSquare(17, 0xdfee_e6cd, 0x9242_0b0a);
    NextSquare(18, 0x9242_0b0a, 0x1dbd_e042);
    NextSquare(19, 0x1dbd_e042, 0xc5a2_9958);
    NextSquare(20, 0xc5a2_9958, 0x7153_a579);
    NextSquare(21, 0x7153_a579, 0x96ef_0b85);
    NextSquare(22, 0x96ef_0b85, 0xea62_d8b8);
    NextSquare(23, 0xea62_d8b8, 0xf5f8_6278);
  }

  lemma SquaresTo32()
    ensures Square(25) == 0x22d9_bcf1 && Square(26) == 0x2a6b_04bc && Square(27) == 0x089b_9d16 && Square(28) == 0x4e1d_bc5d
    ensures Square(29) == 0x02cb_efc0 && Square(30) == 0xc751_3c8b && Square(31) == 0xcdb6_6db7 && Square(32) == 0x4000_0000
  {
    hide Square;
    SquaresTo24();
    NextSquare(24, 0xf5f8_6278, 0x22d9_bcf1);
    NextSquare(25, 0x22d9_bcf1, 0x2a6b_04bc);
    NextSquare(26, 0x2a6b_04bc, 0x089b_9d16);
    NextSquare(27, 0x089b_9d16, 0x4e1d_bc5d);
    NextSquare(28, 0x4e1d_bc5d, 0x02cb_efc0);
    NextSquare(29, 0x02cb_efc0, 0xc751_3c8b);
    NextSquare(30, 0xc751_3c8b, 0xcdb6_6db7);
    NextSquare(31, 0xcdb6_6db7, 0x4000_0000);
  }

  lemma Comb17By2Of8()
    ensures Comb(17, 2, 8) == 0xd8c6_c5f1
  {
    hide Square, Comb;
    SquaresTo24();
    SquaresTo32();
    NoSquares(33, 2);
    NextComb(31, 2, 1, 0xcdb6_6db7, 0x8000_0000, 0xcdb6_6db7);
    NextComb(29, 2, 2, 0x02cb_efc0, 0xcdb6_6db7, 0x6ea5_207e);
    NextComb(27, 2, 3, 0x089b_9d16, 0x6ea5_207e, 0xef15_94c1);
    NextComb(25, 2, 4, 0x22d9_bcf1, 0xef15_94c1, 0x3c04_2b33);
    NextComb(23, 2, 5, 0xea62_d8b8, 0x3c04_2b33, 0xc7b2_2480);
    NextComb(21, 2, 6, 0x7153_a579, 0xc7b2_2480, 0xe299_f989);
    NextComb(19, 2, 7, 0x1dbd_e042, 0xe299_f989, 0xd254_a62c);
    NextComb(17, 2, 8, 0xdfee_e6cd, 0xd254_a62c, 0xd8c6_c5f1);
  }

  lemma Comb1By2Of16()
    ensures Comb(1, 2, 16) == 0x7f32_beae
  {
    hide Square, Comb;
    SquaresTo4();
    SquaresTo8();
    SquaresTo16();
    Comb17By2Of8();
    NextComb(15, 2, 9, 0x0df6_35b6, 0xd8c6_c5f1, 0xd325_743d);
    NextComb(13, 2, 10, 0x7157_e6c2, 0xd325_743d, 0xf849_e692);
    NextComb(11, 2, 11, 0x0ff9_0ac5, 0xf849_e692, 0xc129_f626);
    NextComb(9, 2, 12, 0x530c_8cf3, 0xc129_f626, 0xfd2c_ceb0);
    NextComb(7, 2, 13, 0x13bb_3333, 0xfd2c_ceb0, 0x51d8_944d);
    NextComb(5, 2, 14, 0xd000_0001, 0x51d8_944d, 0xcafa_bba0);
    NextComb(3, 2, 15, 0x0080_0000, 0xcafa_bba0, 0x5cca_fabb);
    NextComb(1, 2, 16, 0x2000_0000, 0x5cca_fabb, 0x7f32_beae);
  }

  lemma Comb16By2Of8()
    ensures Comb(16, 2, 8) == 0x87b3_e482
  {
    hide Square, Comb;
    SquaresTo16();
    SquaresTo24();
    SquaresTo32();
    NoSquares(32, 2);
    NextComb(30, 2, 1, 0xc751_3c8b, 0x8000_0000, 0xc751_3c8b);
    NextComb(28, 2, 2, 0x4e1d_bc5d, 0xc751_3c8b, 0xbcf3_43bb);
    NextComb(26, 2, 3, 0x2a6b_04bc, 0xbcf3_43bb, 0xcc2b_8bca);
    NextComb(24, 2, 4, 0xf5f8_6278, 0xcc2b_8bca, 0x7672_7412);
    NextComb(22, 2, 5, 0x96ef_0b85, 0x7672_7412, 0x0cf3_e59a);
    NextComb(20, 2, 6, 0xc5a2_9958, 0x0cf3_e59a, 0xedc1_b2fa);
    NextComb(18, 2, 7, 0x9242_0b0a, 0xedc1_b2fa, 0x12db_8c2e);
    NextComb(16, 2, 8, 0x9a8f_dffe, 0x12db_8c2e, 0x87b3_e482);
  }

  lemma Comb0By2Of16()
    ensures Comb(0, 2, 16) == 0xff32_beae
  {
    hide Square, Comb;
    FirstSquare();
    SquaresTo4();
    SquaresTo8();
    SquaresTo16();
    Comb16By2Of8();
    NextComb(14, 2, 9, 0x72ea_81d1, 0x87b3_e482, 0x44d1_2371);
    NextComb(12, 2, 10, 0x68e1_f690, 0x44d1_2371, 0xcc55_e728);
    NextComb(10, 2, 11, 0x9a56_5964, 0xcc55_e728, 0x4df5_7ac3);
    NextComb(8, 2, 12, 0x6fcf_4f4f, 0x4df5_7ac3, 0x965d_6245);
    NextComb(6, 2, 13, 0x55ff_ffff, 0x965d_6245, 0x75fa_4313);
    NextComb(4, 2, 14, 0x0000_8000, 0x75fa_4313, 0x2657_d5fa);
    NextComb(2, 2, 15, 0x0800_0000, 0x2657_d5fa, 0x5e65_7d5f);
    NextComb(0, 2, 16, 0x4000_0000, 0x5e65_7d5f, 0xff32_beae);
  }

  lemma Comb2By4Of8()
    ensures Comb(2, 4, 8) == 0xdcd4_1ff2
  {
    hide Square, Comb;
    SquaresTo4();
    SquaresTo8();
    SquaresTo16();
    SquaresTo24();
    SquaresTo32();
    NoSquares(34, 4);
    NextComb(30, 4, 1, 0xc751_3c8b, 0x8000_0000, 0xc751_3c8b);
    NextComb(26, 4, 2, 0x2a6b_04bc, 0xc751_3c8b, 0x5ffb_5a41);
    NextComb(22, 4, 3, 0x96ef_0b85, 0x5ffb_5a41, 0x0a6b_f050);
    NextComb(18, 4, 4, 0x9242_0b0a, 0x0a6b_f050, 0xefaa_530e);
    NextComb(14, 4, 5, 0x72ea_81d1, 0xefaa_530e, 0x8de1_ce23);
    NextComb(10, 4, 6, 0x9a56_5964, 0x8de1_ce23, 0xc980_0317);
    NextComb(6, 4, 7, 0x55ff_ffff, 0xc980_0317, 0xcd41_ff38);
    NextComb(2, 4, 8, 0x0800_0000, 0xcd41_ff38, 0xdcd4_1ff2);
  }

  lemma Comb0By4Of8()
    ensures Comb(0, 4, 8) == 0x23e6_a15c
  {
    hide Square, Comb;
    FirstSquare();
    SquaresTo4();
    SquaresTo8();
    SquaresTo16();
    SquaresTo24();
    SquaresTo32();
    NoSquares(32, 4);
    NextComb(28, 4, 1, 0x4e1d_bc5d, 0x8000_0000, 0x4e1d_bc5d);
    NextComb(24, 4, 2, 0xf5f8_6278, 0x4e1d_bc5d, 0xd1ed_9997);
    NextComb(20, 4, 3, 0xc5a2_9958, 0xd1ed_9997, 0x8416_8d4e);
    NextComb(16, 4, 4, 0x9a8f_dffe, 0x8416_8d4e, 0xde35_2ac0);
    NextComb(12, 4, 5, 0x68e1_f690, 0xde35_2ac0, 0x8903_76ca);
    NextComb(8, 4, 6, 0x6fcf_4f4f, 0x8903_76ca, 0x82b8_93ca);
    NextComb(4, 4, 7, 0x0000_8000, 0x82b8_93ca, 0x47cd_42b8);
    NextComb(0, 4, 8, 0x4000_0000, 0x47cd_42b8, 0x23e6_a15c);
  }

  lemma Comb4By8Of4()
    ensures Comb(4, 8, 4) == 0x70b8_b6cd
  {
    hide Square, Comb;
    SquaresTo4();
    SquaresTo16();
    SquaresTo24();
    SquaresTo32();
    NoSquares(36, 8);
    NextComb(28, 8, 1, 0x4e1d_bc5d, 0x8000_0000, 0x4e1d_bc5d);
    NextComb(20, 8, 2, 0xc5a2_9958, 0x4e1d_bc5d, 0xaf9e_ec76);
    NextComb(12, 8, 3, 0x68e1_f690, 0xaf9e_ec76, 0xd6cd_f5a9);
    NextComb(4, 8, 4, 0x0000_8000, 0xd6cd_f5a9, 0x70b8_b6cd);
  }

  lemma Comb0By8Of4()
    ensures Comb(0, 8, 4) == 0xac4c_cc78
  {
    hide Square, Comb;
    FirstSquare();
    SquaresTo8();
    SquaresTo16();
    SquaresTo24();
    NoSquares(32, 8);
    NextComb(24, 8, 1, 0xf5f8_6278, 0x8000_0000, 0xf5f8_6278);
    NextComb(16, 8, 2, 0x9a8f_dffe, 0xf5f8_6278, 0x33a7_ff22);
    NextComb(8, 8, 3, 0x6fcf_4f4f, 0x33a7_ff22, 0xf899_98f3);
    NextComb(0, 8, 4, 0x4000_0000, 0xf899_98f3, 0xac4c_cc78);
  }

  lemma Comb8By16Of2()
    ensures Comb(8, 16, 2) == 0xccf6_3153
  {
    hide Square, Comb;
    SquaresTo8();
    SquaresTo24();
    NoSquares(40, 16);
    NextComb(24, 16, 1, 0xf5f8_6278, 0x8000_0000, 0xf5f8_6278);
    NextComb(8, 16, 2, 0x6fcf_4f4f, 0xf5f8_6278, 0xccf6_3153);
  }

  lemma Comb0By16Of2()
    ensures Comb(0, 16, 2) == 0x4d47_efff
  {
    hide Square, Comb;
    FirstSquare();
    SquaresTo16();
    NoSquares(32, 16);
    NextComb(16, 16, 1, 0x9a8f_dffe, 0x8000_0000, 0x9a8f_dffe);
    NextComb(0, 16, 2, 0x4000_0000, 0x9a8f_dffe, 0x4d47_efff);
  }

  lemma Comb16By32Of1()
    ensures Comb(16, 32, 1) == 0x9a8f_dffe
  {
    hide Square, Comb;
    SquaresTo16();
    NoSquares(48, 32);
    NextComb(16, 32, 1, 0x9a8f_dffe, 0x8000_0000, 0x9a8f_dffe);
  }

  lemma Comb0By32Of1()
    ensures Comb(0, 32, 1) == 0x4000_0000
  {
    hide Square, Comb;
    FirstSquare();
    NoSquares(32, 32);
    NextComb(0, 32, 1, 0x4000_0000, 0x8000_0000, 0x4000_0000);
  }
}
