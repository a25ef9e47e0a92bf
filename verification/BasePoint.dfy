/** The constants of the curve: p, d, m and the base point. */
module BasePoint {
  import opened Powers
  import opened Bytes
  import opened ModP
  import opened AbelianGroup
  import opened Edwards
  import opened Field
  import opened Tracked
  import opened PointOps
  import opened Encoding
  import opened BaseMult
  import Scalar

  const BASE_X: int := 0x2169_36d3_cd6e_53fe_c0a4_e231_fdd6_dc5c_692c_c760_9525_a7b2_c956_2d60_8f25_d51a

  const BASE_Y: int := 0x6666_6666_6666_6666_6666_6666_6666_6666_6666_6666_6666_6666_6666_6666_6666_6658

  const BASE_T: int := 0x6787_5f0f_d78b_7665_66ea_4e8e_64ab_e37d_20f0_9f80_7751_52f5_6dde_8ab3_a5b7_dda3

  /** ge25519_basepoint */
  const GE_BASEPOINT: Ge := Ge(
    Fe(0x0006_2d60_8f25_d51a, 0x0004_12a4_b4f6_592a, 0x0007_5b71_71a4_b31d, 0x0001_ff60_5271_18fe,
       0x0002_1693_6d3c_d6e5),
    Fe(0x0006_6666_6666_6658, 0x0004_cccc_cccc_cccc, 0x0001_9999_9999_9999, 0x0003_3333_3333_3333,
       0x0006_6666_6666_6666),
    Fe(1, 0, 0, 0, 0),
    Fe(0x0006_8ab3_a5b7_dda3, 0x0000_0eea_2a5e_adbb, 0x0002_af8d_f483_c27e, 0x0003_32b3_7527_4732,
       0x0006_7875_f0fd_78b7))

  /** The first entry of ge25519_niels_sliding_multiples. */
  const SLIDING_FIRST: GeNiels := GeNiels(
    Fe(0x0000_3905_d740_913e, 0x0000_ba28_17d6_73a2, 0x0002_3e28_27f4_e67c, 0x0001_33d2_e0c2_1a34,
       0x0004_4fd2_f929_8f81),
    Fe(0x0004_93c6_f58c_3b85, 0x0000_df71_81c3_25f7, 0x0000_f50b_0b3e_4cb7, 0x0005_3293_85a4_4c32,
       0x0000_7cf9_d3a3_3d4b),
    Fe(0x0001_1205_877a_aa68, 0x0004_7995_5893_d579, 0x0005_0d66_309b_67a0, 0x0002_d42d_0dbe_e5ee,
       0x0006_f117_b689_f0c6))

  // ---- section 5.1 of RFC 8032 ----

  /** p is 2^255 - 19. */
  lemma FieldPrime(n: nat)
    requires n == 255
    ensures P == Pow2(n) - 19
  {
    Pow2Of255(n);
  }

  /** d is -121665/121666. */
  lemma CurveConstant()
    ensures Cong(121666 * D, -121665) && 0 <= D < P
  {
    CongBy(121666 * D, -121665, 0x1_3083);
  }

  /** The order m is 2^252 + 27742317777372353535851937790883648493. */
  lemma GroupOrder(n: nat)
    requires n == 252
    ensures Scalar.M == Pow2(n) + 27742317777372353535851937790883648493
  {
    Pow2Of255(n + 3);
    assert Pow2(n + 3) == 2 * Pow2(n + 2) && Pow2(n + 2) == 2 * Pow2(n + 1) && Pow2(n + 1) == 2 * Pow2(n);
  }

  lemma BaseSquares(a: int, b: int, c: int)
    requires a == 0x39e5_a76b_6f33_fadb_c92a_232f_db1c_32f2_ebe3_9c55_5ccb_6a7d_690b_8a0f_82e8_1c67
      && b == 0x51eb_851e_b851_eb85_1eb8_51eb_851e_b851_eb85_1eb8_51eb_851e_b851_eb85_1eb8_51e0
      && c == 0x43c6_2db5_65e3_d3bf_dce7_c499_81fd_913f_4f49_fda7_45a0_e7fe_57b5_7714_2ad1_fdae
    ensures Cong(BASE_X * BASE_X, a) && Cong(BASE_Y * BASE_Y, b) && Cong(a * b, c)
  {
    CongBy(BASE_X * BASE_X, a, 0x8b8_96c1_40e6_001e_d198_b5b7_b564_c5e7_c4ce_a765_6ac9_2ed1_492b_a585_5328_6991);
    CongBy(BASE_Y * BASE_Y, b, 0x51eb_851e_b851_eb85_1eb8_51eb_851e_b851_eb85_1eb8_51eb_851e_b851_eb85_1eb8_51e0);
    CongBy(a * b, c, 0x250d_dbc9_e0c5_1b6d_f162_a5e1_3012_0c20_96f8_1222_26e8_9612_d296_bec2_3f4c_defa);
  }

  /** The base point is on the curve; its y is 4/5 and its x is even. */
  lemma BaseOnCurve()
    ensures OnCurve(Point(BASE_X, BASE_Y)) && Cong(5 * BASE_Y, 4) && BASE_X % 2 == 0
  {
    var x, y := BASE_X, BASE_Y;
    var a := 0x39e5_a76b_6f33_fadb_c92a_232f_db1c_32f2_ebe3_9c55_5ccb_6a7d_690b_8a0f_82e8_1c67;
    var b := 0x51eb_851e_b851_eb85_1eb8_51eb_851e_b851_eb85_1eb8_51eb_851e_b851_eb85_1eb8_51e0;
    var c := 0x43c6_2db5_65e3_d3bf_dce7_c499_81fd_913f_4f49_fda7_45a0_e7fe_57b5_7714_2ad1_fdae;
    var e := 0x1805_ddb3_491d_f0a9_558e_2ebb_aa02_855e_ffa1_8262_f520_1aa1_4f46_6175_9bd0_3578;
    BaseSquares(a, b, c);
    CongSub(y * y, b, x * x, a);
    CongMul(x * x, a, y * y, b);
    CongTrans((x * x) * (y * y), a * b, c);
    CongScale(D, (x * x) * (y * y), c);
    CongBy(D * c, e, 0x2b6c_c59a_9994_4230_931f_709d_d615_4114_df37_73c1_4313_160c_6e00_01c2_40b8_a35a);
    CongTrans(D * ((x * x) * (y * y)), D * c, e);
    CongRefl(1);
    CongAdd(1, 1, D * ((x * x) * (y * y)), e);
    CongSym(1 + D * ((x * x) * (y * y)), 1 + e);
    assert b - a == 1 + e;
    CongTrans(y * y - x * x, 1 + e, 1 + D * ((x * x) * (y * y)));
    CongBy(5 * y, 4, 4);
  }

  /** ge25519_basepoint represents it, with a fresh t. */
  lemma BaseFull()
    ensures Full(GE_BASEPOINT, Point(BASE_X, BASE_Y))
  {
    var e := Ext(BASE_X, BASE_Y, 1, BASE_T);
    var p := Point(BASE_X, BASE_Y);
    CongRefl(BASE_X);
    CongRefl(BASE_Y);
    CongRefl(1);
    CongRefl(BASE_T);
    OneNonZero();
    CongBy(BASE_T, (BASE_X * BASE_Y) * 1,
      -0x1aba_9243_0abe_a998_9a1d_81c1_97df_16b0_5423_d2b3_aa84_8628_a111_bde6_d8eb_10e1);
    assert Stands(GE_BASEPOINT, e) && Is(GE_BASEPOINT.t, e.t, 0) && RepT(e, p);
  }

  /** The 64-bit word at position i of a string. */
  lemma WordIs(b: seq<Byte>, i: nat, w: int)
    requires i + 8 <= |b|
    requires w == b[i] as int + 0x100 * (b[i + 1] as int) + 0x1_0000 * (b[i + 2] as int)
      + 0x100_0000 * (b[i + 3] as int) + 0x1_0000_0000 * (b[i + 4] as int) + 0x100_0000_0000 * (b[i + 5] as int)
      + 0x1_0000_0000_0000 * (b[i + 6] as int) + 0x100_0000_0000_0000 * (b[i + 7] as int)
    ensures LE(b[i..i + 8]) == w
  {
    LEUnfold(b[i..i + 8]);
  }

  /** A string of 32 bytes from its four words. */
  lemma StringIs(b: seq<Byte>, w0: int, w1: int, w2: int, w3: int)
    requires |b| == 32 && LE(b[0..8]) == w0 && LE(b[8..16]) == w1 && LE(b[16..24]) == w2 && LE(b[24..32]) == w3
    ensures LE(b) == w0 + 0x1_0000_0000_0000_0000 * w1 + 0x1_0000_0000_0000_0000_0000_0000_0000_0000 * w2
      + 0x1_0000_0000_0000_0000_0000_0000_0000_0000_0000_0000_0000_0000 * w3
  {
    assert b[..8] == b[0..8] && b[24..] == b[24..32];
    LEWords(b);
  }

  lemma EvenEncoding(p: Point, b: seq<Byte>)
    requires |b| == 32 && 0 <= p.y == LE(b) && p.x % 2 == 0
    ensures Encode(p) == b
  {
    ToLEOfLE(b);
  }

  /** The encoding of the base point is the byte 58 and then 31 bytes 66. */
  lemma BaseEncoding(p: Point, b: seq<Byte>)
    requires p == Point(BASE_X, BASE_Y)
    requires |b| == 32 && b[0] == 0x58 && forall i :: 1 <= i < 32 ==> b[i] == 0x66
    ensures Encode(p) == b
  {
    WordIs(b, 0, 0x6666_6666_6666_6658);
    WordIs(b, 8, 0x6666_6666_6666_6666);
    WordIs(b, 16, 0x6666_6666_6666_6666);
    WordIs(b, 24, 0x6666_6666_6666_6666);
    StringIs(b, 0x6666_6666_6666_6658, 0x6666_6666_6666_6666, 0x6666_6666_6666_6666, 0x6666_6666_6666_6666);
    EvenEncoding(p, b);
  }

  /** The first entry of the sliding table prepares it. */
  lemma SlidingFirst()
    ensures AffineAddend(SLIDING_FIRST, Point(BASE_X, BASE_Y))
  {
    var p := Point(BASE_X, BASE_Y);
    var n := PNiels(BASE_Y - BASE_X, BASE_Y + BASE_X, 1, 2 * D * (BASE_X * BASE_Y));
    CongBy(Val(SLIDING_FIRST.ysubx), BASE_Y - BASE_X, 0);
    CongBy(Val(SLIDING_FIRST.xaddy), BASE_Y + BASE_X, -1);
    CongRefl(n.ysubx);
    CongRefl(n.xaddy);
    CongRefl(n.t2d);
    OneNonZero();
    SlidingT2d();
    assert StandsA(SLIDING_FIRST, n) && RepN(n, p);
  }

  lemma SlidingT2d()
    ensures Cong(Val(SLIDING_FIRST.t2d), 2 * D * (BASE_X * BASE_Y))
  {
    CongBy(2 * D * BASE_T, Val(SLIDING_FIRST.t2d),
      0x84aa_fc5a_7701_2724_0f94_18e4_9a14_3bd0_e298_6649_48bc_e781_f252_3193_0b10_6692);
    CongSym(2 * D * BASE_T, Val(SLIDING_FIRST.t2d));
    CongBy(BASE_T, BASE_X * BASE_Y,
      -0x1aba_9243_0abe_a998_9a1d_81c1_97df_16b0_5423_d2b3_aa84_8628_a111_bde6_d8eb_10e1);
    CongScale(2 * D, BASE_T, BASE_X * BASE_Y);
    CongTrans(Val(SLIDING_FIRST.t2d), 2 * D * BASE_T, 2 * D * (BASE_X * BASE_Y));
  }

  // ---- the first row of ge25519_niels_base_multiples ----

  lemma RowYsubx(b: seq<Byte>)
    requires |b| == 32
    requires b[0] == 0x3e && b[1] == 0x91 && b[2] == 0x40 && b[3] == 0xd7 && b[4] == 0x05 && b[5] == 0x39
      && b[6] == 0x10 && b[7] == 0x9d && b[8] == 0xb3 && b[9] == 0xbe && b[10] == 0x40 && b[11] == 0xd1
      && b[12] == 0x05 && b[13] == 0x9f && b[14] == 0x39 && b[15] == 0xfd && b[16] == 0x09 && b[17] == 0x8a
      && b[18] == 0x8f && b[19] == 0x68 && b[20] == 0x34 && b[21] == 0x84 && b[22] == 0xc1 && b[23] == 0xa5
      && b[24] == 0x67 && b[25] == 0x12 && b[26] == 0xf8 && b[27] == 0x98 && b[28] == 0x92 && b[29] == 0x2f
      && b[30] == 0xfd && b[31] == 0x44
    ensures LE(b) == 0x44fd_2f92_98f8_1267_a5c1_8434_688f_8a09_fd39_9f05_d140_beb3_9d10_3905_d740_913e
  {
    WordIs(b, 0, 0x9d10_3905_d740_913e);
    WordIs(b, 8, 0xfd39_9f05_d140_beb3);
    WordIs(b, 16, 0xa5c1_8434_688f_8a09);
    WordIs(b, 24, 0x44fd_2f92_98f8_1267);
    StringIs(b, 0x9d10_3905_d740_913e, 0xfd39_9f05_d140_beb3, 0xa5c1_8434_688f_8a09, 0x44fd_2f92_98f8_1267);
  }

  lemma RowXaddy(b: seq<Byte>)
    requires |b| == 32
    requires b[0] == 0x85 && b[1] == 0x3b && b[2] == 0x8c && b[3] == 0xf5 && b[4] == 0xc6 && b[5] == 0x93
      && b[6] == 0xbc && b[7] == 0x2f && b[8] == 0x19 && b[9] == 0x0e && b[10] == 0x8c && b[11] == 0xfb
      && b[12] == 0xc6 && b[13] == 0x2d && b[14] == 0x93 && b[15] == 0xcf && b[16] == 0xc2 && b[17] == 0x42
      && b[18] == 0x3d && b[19] == 0x64 && b[20] == 0x98 && b[21] == 0x48 && b[22] == 0x0b && b[23] == 0x27
      && b[24] == 0x65 && b[25] == 0xba && b[26] == 0xd4 && b[27] == 0x33 && b[28] == 0x3a && b[29] == 0x9d
      && b[30] == 0xcf && b[31] == 0x07
    ensures LE(b) == 0x7cf_9d3a_33d4_ba65_270b_4898_643d_42c2_cf93_2dc6_fb8c_0e19_2fbc_93c6_f58c_3b85
  {
    WordIs(b, 0, 0x2fbc_93c6_f58c_3b85);
    WordIs(b, 8, 0xcf93_2dc6_fb8c_0e19);
    WordIs(b, 16, 0x270b_4898_643d_42c2);
    WordIs(b, 24, 0x7cf_9d3a_33d4_ba65);
    StringIs(b, 0x2fbc_93c6_f58c_3b85, 0xcf93_2dc6_fb8c_0e19, 0x270b_4898_643d_42c2, 0x7cf_9d3a_33d4_ba65);
  }

  lemma RowT2d(b: seq<Byte>)
    requires |b| == 32
    requires b[0] == 0x59 && b[1] == 0xbb && b[2] == 0x6f && b[3] == 0x4b && b[4] == 0x67 && b[5] == 0x15
      && b[6] == 0xbd && b[7] == 0xdb && b[8] == 0xea && b[9] == 0xa5 && b[10] == 0xa2 && b[11] == 0xee
      && b[12] == 0x00 && b[13] == 0x3f && b[14] == 0xe1 && b[15] == 0x41 && b[16] == 0xfa && b[17] == 0xc6
      && b[18] == 0x57 && b[19] == 0xc9 && b[20] == 0x1c && b[21] == 0x9d && b[22] == 0xd4 && b[23] == 0xcd
      && b[24] == 0xca && b[25] == 0xec && b[26] == 0x16 && b[27] == 0xaf && b[28] == 0x1f && b[29] == 0xbe
      && b[30] == 0x0e && b[31] == 0x4f
    ensures LE(b) == 0x4f0e_be1f_af16_ecca_cdd4_9d1c_c957_c6fa_41e1_3f00_eea2_a5ea_dbbd_1567_4b6f_bb59
  {
    WordIs(b, 0, 0xdbbd_1567_4b6f_bb59);
    WordIs(b, 8, 0x41e1_3f00_eea2_a5ea);
    WordIs(b, 16, 0xcdd4_9d1c_c957_c6fa);
    WordIs(b, 24, 0x4f0e_be1f_af16_ecca);
    StringIs(b, 0xdbbd_1567_4b6f_bb59, 0x41e1_3f00_eea2_a5ea, 0xcdd4_9d1c_c957_c6fa, 0x4f0e_be1f_af16_ecca);
  }

  lemma RowPacks(b: seq<Byte>, u: seq<Byte>, v: seq<Byte>, w: seq<Byte>)
    requires |u| == |v| == |w| == 32 && b == u + v + w
    requires LE(u) == 0x44fd_2f92_98f8_1267_a5c1_8434_688f_8a09_fd39_9f05_d140_beb3_9d10_3905_d740_913e
      && LE(v) == 0x7cf_9d3a_33d4_ba65_270b_4898_643d_42c2_cf93_2dc6_fb8c_0e19_2fbc_93c6_f58c_3b85
      && LE(w) == 0x4f0e_be1f_af16_ecca_cdd4_9d1c_c957_c6fa_41e1_3f00_eea2_a5ea_dbbd_1567_4b6f_bb59
    ensures Row(b, Point(BASE_X, BASE_Y), 2)
  {
    assert b[..32] == u && b[32..64] == v && b[64..] == w;
    CongBy(LE(u), BASE_Y - BASE_X, 0);
    CongBy(LE(v), BASE_Y + BASE_X, -1);
    CongBy(LE(w), 2 * BASE_T, -1);
    CongBy(BASE_T, BASE_X * BASE_Y,
      -0x1aba_9243_0abe_a998_9a1d_81c1_97df_16b0_5423_d2b3_aa84_8628_a111_bde6_d8eb_10e1);
    CongScale(2, BASE_T, BASE_X * BASE_Y);
    CongTrans(LE(w), 2 * BASE_T, 2 * (BASE_X * BASE_Y));
  }

  /** It packs the base point; its third part is 2xy, without d. */
  lemma FirstRow(table: seq<seq<Byte>>, u: seq<Byte>, v: seq<Byte>, w: seq<Byte>, g: Group<CurvePoint>,
        base: CurvePoint)
    requires CurveGroup(g) && base == Point(BASE_X, BASE_Y) && |table| >= 8 && table[0] == u + v + w
      && |u| == |v| == |w| == 32
    requires u[0] == 0x3e && u[1] == 0x91 && u[2] == 0x40 && u[3] == 0xd7 && u[4] == 0x05 && u[5] == 0x39
      && u[6] == 0x10 && u[7] == 0x9d && u[8] == 0xb3 && u[9] == 0xbe && u[10] == 0x40 && u[11] == 0xd1
      && u[12] == 0x05 && u[13] == 0x9f && u[14] == 0x39 && u[15] == 0xfd && u[16] == 0x09 && u[17] == 0x8a
      && u[18] == 0x8f && u[19] == 0x68 && u[20] == 0x34 && u[21] == 0x84 && u[22] == 0xc1 && u[23] == 0xa5
      && u[24] == 0x67 && u[25] == 0x12 && u[26] == 0xf8 && u[27] == 0x98 && u[28] == 0x92 && u[29] == 0x2f
      && u[30] == 0xfd && u[31] == 0x44
    requires v[0] == 0x85 && v[1] == 0x3b && v[2] == 0x8c && v[3] == 0xf5 && v[4] == 0xc6 && v[5] == 0x93
      && v[6] == 0xbc && v[7] == 0x2f && v[8] == 0x19 && v[9] == 0x0e && v[10] == 0x8c && v[11] == 0xfb
      && v[12] == 0xc6 && v[13] == 0x2d && v[14] == 0x93 && v[15] == 0xcf && v[16] == 0xc2 && v[17] == 0x42
      && v[18] == 0x3d && v[19] == 0x64 && v[20] == 0x98 && v[21] == 0x48 && v[22] == 0x0b && v[23] == 0x27
      && v[24] == 0x65 && v[25] == 0xba && v[26] == 0xd4 && v[27] == 0x33 && v[28] == 0x3a && v[29] == 0x9d
      && v[30] == 0xcf && v[31] == 0x07
    requires w[0] == 0x59 && w[1] == 0xbb && w[2] == 0x6f && w[3] == 0x4b && w[4] == 0x67 && w[5] == 0x15
      && w[6] == 0xbd && w[7] == 0xdb && w[8] == 0xea && w[9] == 0xa5 && w[10] == 0xa2 && w[11] == 0xee
      && w[12] == 0x00 && w[13] == 0x3f && w[14] == 0xe1 && w[15] == 0x41 && w[16] == 0xfa && w[17] == 0xc6
      && w[18] == 0x57 && w[19] == 0xc9 && w[20] == 0x1c && w[21] == 0x9d && w[22] == 0xd4 && w[23] == 0xcd
      && w[24] == 0xca && w[25] == 0xec && w[26] == 0x16 && w[27] == 0xaf && w[28] == 0x1f && w[29] == 0xbe
      && w[30] == 0x0e && w[31] == 0x4f
    ensures RowOf(table, 0, 1, g, base)
  {
    RowYsubx(u);
    RowXaddy(v);
    RowT2d(w);
    RowPacks(table[0], u, v, w);
    TimesOne(g, base);
    assert Pow(256, 0) == 1;
  }
}
