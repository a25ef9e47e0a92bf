/** Barrett reduction modulo m, and the operations built on it. */
module Barrett {
  import opened Powers
  import opened Words
  import opened Bits
  import opened Scalar

  /** A sum of 128-bit products: nothing is lost below 2^128. */
  method Sum128(x: nat) returns (c: nat)
    requires x < 0x1_0000_0000_0000_0000_0000_0000_0000_0000
    ensures c == x
  {
    c := U128(x);
  }

  /** The low 56 bits and shr128(f, c, 56). */
  method Split56(c: nat) returns (lo: nat, f: nat)
    requires c < 0x100_0000_0000_0000_0000_0000_0000_0000
    ensures lo < 0x100_0000_0000_0000 && f < 0x1_0000_0000_0000_0000 && c == lo + 0x100_0000_0000_0000 * f
  {
    ghost var z := U64(c);
    ModUnique(c, 0x100_0000_0000_0000, 0x100 * (c / 0x1_0000_0000_0000_0000) + z / 0x100_0000_0000_0000,
      z % 0x100_0000_0000_0000);
    lo := U64(c) % 0x100_0000_0000_0000;
    f := U64(c / 0x100_0000_0000_0000);
  }

  /** hi | ((f << 16) & (2^56 - 1)): a limb of q3 from the tail of one column and the head of the next. */
  method Join16(hi: nat, f: nat) returns (r: nat)
    requires hi < 0x1_0000 && f < 0x100_0000_0000_0000
    ensures r == hi + 0x1_0000 * (f % 0x100_0000_0000) && r < 0x100_0000_0000_0000
  {
    var piece := U64(f * 0x1_0000) % 0x100_0000_0000_0000;
    JoinPiece16(f);
    assert Pow2(16) == 0x1_0000 by { Pow2Table(); }
    OrDisjoint(hi, f % 0x100_0000_0000, 16);
    r := Or(hi, piece);
  }

  lemma JoinPiece16(f: nat)
    requires f < 0x100_0000_0000_0000
    ensures U64(f * 0x1_0000) % 0x100_0000_0000_0000 == 0x1_0000 * (f % 0x100_0000_0000)
  {
    var a, b := f / 0x100_0000_0000, f % 0x100_0000_0000;
    assert f * 0x1_0000 == 0x100_0000_0000_0000 * a + 0x1_0000 * b;
    assert f * 0x1_0000 < 0x100_0000_0000_0000_0000 * 1;
  }

  // ---- the quotient ----

  /** The columns of mu * q1 from 2^168 on; the three below are never computed. */
  ghost predicate Columns(q1: Limbs, c3: nat, c4: nat, c5: nat, c6: nat, c7: nat, c8: nat) {
    && c3 == 0x9c_e5a3_0a2c_131b * q1[3] + 0x21_5d08_6329_a7ed * q1[2] + 0xff_ffff_ffeb_2106 * q1[1]
      + 0xff_ffff_ffff_ffff * q1[0]
    && c4 == 0x9c_e5a3_0a2c_131b * q1[4] + 0x21_5d08_6329_a7ed * q1[3] + 0xff_ffff_ffeb_2106 * q1[2]
      + 0xff_ffff_ffff_ffff * q1[1] + 0xf_ffff_ffff * q1[0]
    && c5 == 0x21_5d08_6329_a7ed * q1[4] + 0xff_ffff_ffeb_2106 * q1[3] + 0xff_ffff_ffff_ffff * q1[2]
      + 0xf_ffff_ffff * q1[1]
    && c6 == 0xff_ffff_ffeb_2106 * q1[4] + 0xff_ffff_ffff_ffff * q1[3] + 0xf_ffff_ffff * q1[2]
    && c7 == 0xff_ffff_ffff_ffff * q1[4] + 0xf_ffff_ffff * q1[3]
    && c8 == 0xf_ffff_ffff * q1[4]
  }

  /** mu * q1, with the three columns below 2^168 as one remainder. */
  lemma ColumnsProduct(q1: Limbs, c3: nat, c4: nat, c5: nat, c6: nat, c7: nat, c8: nat) returns (rest: nat)
    requires Carried(q1) && Columns(q1, c3, c4, c5, c6, c7, c8)
    ensures rest < 0x4_0000_0000_0000_0000_0000_0000_0000_0000_0000_0000_0000_0000_0000_0000
    ensures 0xf_ffff_ffff_ffff_ffff_ffff_ffff_ffff_ffeb_2106_215d_0863_29a7_ed9c_e5a3_0a2c_131b * Val(q1)
      == rest + 0x100_0000_0000_0000_0000_0000_0000_0000_0000_0000_0000 * (c3 + 0x100_0000_0000_0000 * (c4
        + 0x100_0000_0000_0000 * (c5 + 0x100_0000_0000_0000 * (c6 + 0x100_0000_0000_0000 * (c7
        + 0x100_0000_0000_0000 * c8)))))
  {
    var c0 := 0x9c_e5a3_0a2c_131b * q1[0];
    var c1 := 0x9c_e5a3_0a2c_131b * q1[1] + 0x21_5d08_6329_a7ed * q1[0];
    var c2 := 0x9c_e5a3_0a2c_131b * q1[2] + 0x21_5d08_6329_a7ed * q1[1] + 0xff_ffff_ffeb_2106 * q1[0];
    rest := c0 + 0x100_0000_0000_0000 * c1 + 0x1_0000_0000_0000_0000_0000_0000_0000 * c2;
  }

  /** mu * q1 is 2^264 q3 plus a remainder below 2^264 + 2^227. */
  lemma QuotientBounds(q1: Limbs, c3: nat, c4: nat, c5: nat, c6: nat, c7: nat, c8: nat, f3: nat, l3: nat, low: nat,
        q3: nat)
    requires Carried(q1) && Columns(q1, c3, c4, c5, c6, c7, c8)
    requires c3 == l3 + 0x100_0000_0000_0000 * f3 && l3 < 0x100_0000_0000_0000 && low < 0x100_0000_0000
    requires c4 + f3 + 0x100_0000_0000_0000 * (c5 + 0x100_0000_0000_0000 * (c6 + 0x100_0000_0000_0000 * (c7
      + 0x100_0000_0000_0000 * c8))) == low + 0x100_0000_0000 * q3
    ensures 0 <= 0xf_ffff_ffff_ffff_ffff_ffff_ffff_ffff_ffeb_2106_215d_0863_29a7_ed9c_e5a3_0a2c_131b * Val(q1)
      - 0x100_0000_0000_0000_0000_0000_0000_0000_0000_0000_0000_0000_0000_0000_0000_0000_0000 * q3
      < 0x100_0000_0000_0000_0000_0000_0000_0000_0000_0000_0000_0000_0000_0000_0000_0000_0000
      + 0x8_0000_0000_0000_0000_0000_0000_0000_0000_0000_0000_0000_0000_0000_0000
  {
    var rest := ColumnsProduct(q1, c3, c4, c5, c6, c7, c8);
    assert 0xf_ffff_ffff_ffff_ffff_ffff_ffff_ffff_ffeb_2106_215d_0863_29a7_ed9c_e5a3_0a2c_131b * Val(q1)
      == rest + 0x100_0000_0000_0000_0000_0000_0000_0000_0000_0000_0000 * l3
      + 0x1_0000_0000_0000_0000_0000_0000_0000_0000_0000_0000_0000_0000_0000_0000 * (low + 0x100_0000_0000 * q3);
  }

  /** The remainder before correction is below 2m, so one conditional subtraction would do. */
  lemma RemainderBounds(x: nat, q1: nat, q3: nat)
    requires x < TWO_TO_512
      && q1 == x / 0x100_0000_0000_0000_0000_0000_0000_0000_0000_0000_0000_0000_0000_0000_0000_0000
    requires 0 <= 0xf_ffff_ffff_ffff_ffff_ffff_ffff_ffff_ffeb_2106_215d_0863_29a7_ed9c_e5a3_0a2c_131b * q1
      - 0x100_0000_0000_0000_0000_0000_0000_0000_0000_0000_0000_0000_0000_0000_0000_0000_0000 * q3
      < 0x100_0000_0000_0000_0000_0000_0000_0000_0000_0000_0000_0000_0000_0000_0000_0000_0000
      + 0x8_0000_0000_0000_0000_0000_0000_0000_0000_0000_0000_0000_0000_0000_0000
    ensures 0 <= x - q3 * 0x1000_0000_0000_0000_0000_0000_0000_0000_14de_f9de_a2f7_9cd6_5812_631a_5cf5_d3ed
      < 2 * 0x1000_0000_0000_0000_0000_0000_0000_0000_14de_f9de_a2f7_9cd6_5812_631a_5cf5_d3ed
  {
  }

  /** Carries the six columns and packs the bits from 40 on into limbs. */
  method CarryQuotient(c3: nat, c4: nat, c5: nat, c6: nat, c7: nat, c8: nat) returns (q3: Limbs, ghost l3: nat,
        ghost f3: nat, ghost low: nat)
    requires c3 < 0x10_0000_0000_0000_0000_0000_0000_0000 && c4 < 0x10_0000_0000_0000_0000_0000_0000_0000
      && c5 < 0x10_0000_0000_0000_0000_0000_0000_0000 && c6 < 0x10_0000_0000_0000_0000_0000_0000_0000
      && c7 < 0x10_0000_0000_0000_0000_0000_0000_0000 && c8 < 0x1000_0000_0000_0000_0000_0000
    ensures Carried(q3)
    ensures c3 == l3 + 0x100_0000_0000_0000 * f3 && l3 < 0x100_0000_0000_0000 && low < 0x100_0000_0000
    ensures c4 + f3 + 0x100_0000_0000_0000 * c5 + 0x1_0000_0000_0000_0000_0000_0000_0000 * c6
      + 0x100_0000_0000_0000_0000_0000_0000_0000_0000_0000_0000 * c7
      + 0x1_0000_0000_0000_0000_0000_0000_0000_0000_0000_0000_0000_0000_0000_0000 * c8
      == low + 0x100_0000_0000 * Val(q3)
  {
    var f, f4, f5, f6, f7, f8, l4, l5, l6, l7, l8;
    l3, f := Split56(c3);
    f3 := f;
    var s4 := Sum128(c4 + f);
    l4, f4 := Split56(s4);
    var s5 := Sum128(c5 + f4);
    l5, f5 := Split56(s5);
    var s6 := Sum128(c6 + f5);
    l6, f6 := Split56(s6);
    var s7 := Sum128(c7 + f6);
    l7, f7 := Split56(s7);
    var s8 := Sum128(c8 + f7);
    l8, f8 := Split56(s8);
    var o0 := Join16(l4 / 0x100_0000_0000, l5);
    var o1 := Join16(l5 / 0x100_0000_0000, l6);
    var o2 := Join16(l6 / 0x100_0000_0000, l7);
    var o3 := Join16(l7 / 0x100_0000_0000, l8);
    var o4 := Join16(l8 / 0x100_0000_0000, f8);
    q3 := [o0, o1, o2, o3, o4];
    low := l4 % 0x100_0000_0000;
    PackQuotient(l4, l5, l6, l7, l8, f8, q3);
  }

  /** q3 = (mu * q1) >> 264, up to the dropped columns. */
  method Quotient(q1: Limbs) returns (q3: Limbs)
    requires Carried(q1) && q1[4] < 0x100_0000_0000
    ensures Carried(q3) && 0
      <= 0xf_ffff_ffff_ffff_ffff_ffff_ffff_ffff_ffeb_2106_215d_0863_29a7_ed9c_e5a3_0a2c_131b * Val(q1)
      - 0x100_0000_0000_0000_0000_0000_0000_0000_0000_0000_0000_0000_0000_0000_0000_0000_0000 * Val(q3)
      < 0x100_0000_0000_0000_0000_0000_0000_0000_0000_0000_0000_0000_0000_0000_0000_0000_0000
      + 0x8_0000_0000_0000_0000_0000_0000_0000_0000_0000_0000_0000_0000_0000_0000
  {
    var c3 := Sum128(0x9c_e5a3_0a2c_131b * q1[3] + 0x21_5d08_6329_a7ed * q1[2] + 0xff_ffff_ffeb_2106 * q1[1]
      + 0xff_ffff_ffff_ffff * q1[0]);
    var c4 := Sum128(0x9c_e5a3_0a2c_131b * q1[4] + 0x21_5d08_6329_a7ed * q1[3] + 0xff_ffff_ffeb_2106 * q1[2]
      + 0xff_ffff_ffff_ffff * q1[1] + 0xf_ffff_ffff * q1[0]);
    var c5 := Sum128(0x21_5d08_6329_a7ed * q1[4] + 0xff_ffff_ffeb_2106 * q1[3] + 0xff_ffff_ffff_ffff * q1[2]
      + 0xf_ffff_ffff * q1[1]);
    var c6 := Sum128(0xff_ffff_ffeb_2106 * q1[4] + 0xff_ffff_ffff_ffff * q1[3] + 0xf_ffff_ffff * q1[2]);
    var c7 := Sum128(0xff_ffff_ffff_ffff * q1[4] + 0xf_ffff_ffff * q1[3]);
    var c8 := Sum128(0xf_ffff_ffff * q1[4]);
    ghost var l3, f3, low;
    q3, l3, f3, low := CarryQuotient(c3, c4, c5, c6, c7, c8);
    QuotientBounds(q1, c3, c4, c5, c6, c7, c8, f3, l3, low, Val(q3));
  }

  lemma PackQuotient(l4: nat, l5: nat, l6: nat, l7: nat, l8: nat, f8: nat, q3: Limbs)
    requires f8 < 0x100_0000_0000
    requires q3[0] == l4 / 0x100_0000_0000 + 0x1_0000 * (l5 % 0x100_0000_0000)
      && q3[1] == l5 / 0x100_0000_0000 + 0x1_0000 * (l6 % 0x100_0000_0000)
    requires q3[2] == l6 / 0x100_0000_0000 + 0x1_0000 * (l7 % 0x100_0000_0000)
      && q3[3] == l7 / 0x100_0000_0000 + 0x1_0000 * (l8 % 0x100_0000_0000)
    requires q3[4] == l8 / 0x100_0000_0000 + 0x1_0000 * (f8 % 0x100_0000_0000)
    ensures l4 + 0x100_0000_0000_0000 * l5 + 0x1_0000_0000_0000_0000_0000_0000_0000 * l6
      + 0x100_0000_0000_0000_0000_0000_0000_0000_0000_0000_0000 * l7
      + 0x1_0000_0000_0000_0000_0000_0000_0000_0000_0000_0000_0000_0000_0000_0000 * l8
      + 0x100_0000_0000_0000_0000_0000_0000_0000_0000_0000_0000_0000_0000_0000_0000_0000_0000_0000 * f8
      == l4 % 0x100_0000_0000 + 0x100_0000_0000 * Val(q3)
  {
  }

  // ---- the remainder ----

  lemma Mod264(v: int, r: int, k: int)
    requires v == r + 0x100_0000_0000_0000_0000_0000_0000_0000_0000_0000_0000_0000_0000_0000_0000_0000_0000 * k
      && 0 <= r < 0x100_0000_0000_0000_0000_0000_0000_0000_0000_0000_0000_0000_0000_0000_0000_0000_0000
    ensures r == v % 0x100_0000_0000_0000_0000_0000_0000_0000_0000_0000_0000_0000_0000_0000_0000_0000_0000
  {
  }

  /** Five columns carried into limbs, the last cut at 40 bits. */
  method CarryLow(c0: nat, c1: nat, c2: nat, c3: nat, c4: nat) returns (r2: Limbs, ghost s4: nat)
    requires c0 < 0x10_0000_0000_0000_0000_0000_0000_0000 && c1 < 0x10_0000_0000_0000_0000_0000_0000_0000
      && c2 < 0x10_0000_0000_0000_0000_0000_0000_0000 && c3 < 0x10_0000_0000_0000_0000_0000_0000_0000
      && c4 < 0x10_0000_0000_0000_0000_0000_0000_0000
    ensures Carried(r2) && r2[4] == s4 % 0x100_0000_0000
    ensures c0 + 0x100_0000_0000_0000 * c1 + 0x1_0000_0000_0000_0000_0000_0000_0000 * c2
      + 0x100_0000_0000_0000_0000_0000_0000_0000_0000_0000_0000 * c3
      + 0x1_0000_0000_0000_0000_0000_0000_0000_0000_0000_0000_0000_0000_0000_0000 * c4
      == r2[0] + 0x100_0000_0000_0000 * r2[1] + 0x1_0000_0000_0000_0000_0000_0000_0000 * r2[2]
        + 0x100_0000_0000_0000_0000_0000_0000_0000_0000_0000_0000 * r2[3]
        + 0x1_0000_0000_0000_0000_0000_0000_0000_0000_0000_0000_0000_0000_0000_0000 * s4
  {
    var f, r20, r21, r22, r23;
    var s := Sum128(c0);
    r20, f := Split56(s);
    s := Sum128(c1 + f);
    r21, f := Split56(s);
    s := Sum128(c2 + f);
    r22, f := Split56(s);
    s := Sum128(c3 + f);
    r23, f := Split56(s);
    s := Sum128(c4 + f);
    s4 := s;
    r2 := [r20, r21, r22, r23, U64(s) % 0x100_0000_0000];
  }

  /** q3 * m modulo 2^264. */
  method TimesM(q3: Limbs) returns (r2: Limbs)
    requires Carried(q3)
    ensures Carried(r2) && r2[4] < 0x100_0000_0000
      && Val(r2) == (Val(q3) * 0x1000_0000_0000_0000_0000_0000_0000_0000_14de_f9de_a2f7_9cd6_5812_631a_5cf5_d3ed)
      % 0x100_0000_0000_0000_0000_0000_0000_0000_0000_0000_0000_0000_0000_0000_0000_0000_0000
  {
    var c0 := 0x12_631a_5cf5_d3ed * q3[0];
    var c1 := 0x12_631a_5cf5_d3ed * q3[1] + 0xf9_dea2_f79c_d658 * q3[0];
    var c2 := 0x12_631a_5cf5_d3ed * q3[2] + 0xf9_dea2_f79c_d658 * q3[1] + 0x14de * q3[0];
    var c3 := 0x12_631a_5cf5_d3ed * q3[3] + 0xf9_dea2_f79c_d658 * q3[2] + 0x14de * q3[1];
    var c4 := 0x12_631a_5cf5_d3ed * q3[4] + 0xf9_dea2_f79c_d658 * q3[3] + 0x14de * q3[2] + 0x1000_0000 * q3[0];
    ghost var s4;
    r2, s4 := CarryLow(c0, c1, c2, c3, c4);
    ghost var high := ProductLow(q3, c0, c1, c2, c3, c4);
    LowLimbs(Val(q3) * 0x1000_0000_0000_0000_0000_0000_0000_0000_14de_f9de_a2f7_9cd6_5812_631a_5cf5_d3ed, r2, s4, high);
  }

  lemma ProductLow(q3: Limbs, c0: nat, c1: nat, c2: nat, c3: nat, c4: nat) returns (high: nat)
    requires c0 == 0x12_631a_5cf5_d3ed * q3[0] && c1 == 0x12_631a_5cf5_d3ed * q3[1] + 0xf9_dea2_f79c_d658 * q3[0]
    requires c2 == 0x12_631a_5cf5_d3ed * q3[2] + 0xf9_dea2_f79c_d658 * q3[1] + 0x14de * q3[0]
    requires c3 == 0x12_631a_5cf5_d3ed * q3[3] + 0xf9_dea2_f79c_d658 * q3[2] + 0x14de * q3[1]
    requires c4 == 0x12_631a_5cf5_d3ed * q3[4] + 0xf9_dea2_f79c_d658 * q3[3] + 0x14de * q3[2] + 0x1000_0000 * q3[0]
    ensures Val(q3) * 0x1000_0000_0000_0000_0000_0000_0000_0000_14de_f9de_a2f7_9cd6_5812_631a_5cf5_d3ed
      == c0 + 0x100_0000_0000_0000 * c1 + 0x1_0000_0000_0000_0000_0000_0000_0000 * c2
      + 0x100_0000_0000_0000_0000_0000_0000_0000_0000_0000_0000 * c3
      + 0x1_0000_0000_0000_0000_0000_0000_0000_0000_0000_0000_0000_0000_0000_0000 * c4
      + 0x100_0000_0000_0000_0000_0000_0000_0000_0000_0000_0000_0000_0000_0000_0000_0000_0000_0000 * high
  {
    high := (0xf9_dea2_f79c_d658 * q3[4] + 0x14de * q3[3] + 0x1000_0000 * q3[1])
      + 0x100_0000_0000_0000 * (0x14de * q3[4] + 0x1000_0000 * q3[2])
      + 0x1_0000_0000_0000_0000_0000_0000_0000 * (0x1000_0000 * q3[3])
        + 0x100_0000_0000_0000_0000_0000_0000_0000_0000_0000_0000 * (0x1000_0000 * q3[4]);
  }

  lemma LowLimbs(v: nat, r2: Limbs, s4: nat, high: nat)
    requires v == r2[0] + 0x100_0000_0000_0000 * r2[1] + 0x1_0000_0000_0000_0000_0000_0000_0000 * r2[2]
      + 0x100_0000_0000_0000_0000_0000_0000_0000_0000_0000_0000 * r2[3]
      + 0x1_0000_0000_0000_0000_0000_0000_0000_0000_0000_0000_0000_0000_0000_0000 * s4
      + 0x100_0000_0000_0000_0000_0000_0000_0000_0000_0000_0000_0000_0000_0000_0000_0000_0000_0000 * high
    requires Carried(r2) && r2[4] == s4 % 0x100_0000_0000
    ensures Val(r2) == v % 0x100_0000_0000_0000_0000_0000_0000_0000_0000_0000_0000_0000_0000_0000_0000_0000_0000
  {
    Mod264(v, Val(r2), s4 / 0x100_0000_0000 + 0x1_0000 * high);
  }

  /** r1 - r2 modulo 2^264. */
  method SubMod264(r1: Limbs, r2: Limbs) returns (r: Limbs)
    requires Carried(r1) && Carried(r2) && r1[4] < 0x100_0000_0000 && r2[4] < 0x100_0000_0000
    ensures Carried(r) && Val(r)
      == (Val(r1) - Val(r2)) % 0x100_0000_0000_0000_0000_0000_0000_0000_0000_0000_0000_0000_0000_0000_0000_0000_0000
  {
    var o0, o1, o2, o3, o4, b;
    o0, b := SubLimb(r1[0], r2[0]);
    o1, b := SubLimb(r1[1], b + r2[1]);
    o2, b := SubLimb(r1[2], b + r2[2]);
    o3, b := SubLimb(r1[3], b + r2[3]);
    o4, b := SubTop(r1[4], b + r2[4]);
    r := [o0, o1, o2, o3, o4];
    Mod264(Val(r1) - Val(r2), Val(r), -(b as int));
  }

  /** The top limb of the subtraction borrows from bit 264. */
  method SubTop(r: nat, pb: nat) returns (t: nat, b: nat)
    requires r < 0x100_0000_0000 && pb <= 0x100_0000_0000
    ensures 0 <= b <= 1 && t < 0x100_0000_0000 && t + pb == r + 0x100_0000_0000 * b
  {
    b := LtModm(r, pb);
    t := U64(r - pb + b * 0x100_0000_0000);
  }

  /** x modulo m, for every x below 2^512 given as q1 = x >> 248 and r1 = x modulo 2^264. */
  method BarrettReduce(q1: Limbs, r1: Limbs, ghost x: nat) returns (r: Limbs)
    requires Carried(q1) && Carried(r1)
      && x < TWO_TO_512
    requires Val(q1) == x / 0x100_0000_0000_0000_0000_0000_0000_0000_0000_0000_0000_0000_0000_0000_0000_0000
      && Val(r1) == x % 0x100_0000_0000_0000_0000_0000_0000_0000_0000_0000_0000_0000_0000_0000_0000_0000_0000
    ensures Reduced(r) && Val(r) == x % M
  {
    assert q1[4] < 0x100_0000_0000 && r1[4] < 0x100_0000_0000;
    var q3 := Quotient(q1);
    var r2 := TimesM(q3);
    r := SubMod264(r1, r2);
    RemainderBounds(x, Val(q1), Val(q3));
    SameRemainder(x, Val(q3) * 0x1000_0000_0000_0000_0000_0000_0000_0000_14de_f9de_a2f7_9cd6_5812_631a_5cf5_d3ed);
    ghost var rem := Val(r);
    r := Reduce256(r);
    r := Reduce256(r);
    ExactRemainder(x, Val(q3), rem, Val(r));
  }

  lemma SameRemainder(x: nat, y: nat)
    requires 0 <= x - y < 0x100_0000_0000_0000_0000_0000_0000_0000_0000_0000_0000_0000_0000_0000_0000_0000_0000
    ensures (x % 0x100_0000_0000_0000_0000_0000_0000_0000_0000_0000_0000_0000_0000_0000_0000_0000_0000
      - y % 0x100_0000_0000_0000_0000_0000_0000_0000_0000_0000_0000_0000_0000_0000_0000_0000_0000)
      % 0x100_0000_0000_0000_0000_0000_0000_0000_0000_0000_0000_0000_0000_0000_0000_0000_0000 == x - y
  {
  }

  lemma ExactRemainder(x: nat, q: nat, rem: nat, r: nat)
    requires rem == x - q * 0x1000_0000_0000_0000_0000_0000_0000_0000_14de_f9de_a2f7_9cd6_5812_631a_5cf5_d3ed
      && rem < 2 * 0x1000_0000_0000_0000_0000_0000_0000_0000_14de_f9de_a2f7_9cd6_5812_631a_5cf5_d3ed
      && (r == rem || r == rem - 0x1000_0000_0000_0000_0000_0000_0000_0000_14de_f9de_a2f7_9cd6_5812_631a_5cf5_d3ed)
      && r < 0x1000_0000_0000_0000_0000_0000_0000_0000_14de_f9de_a2f7_9cd6_5812_631a_5cf5_d3ed
    ensures r == x % 0x1000_0000_0000_0000_0000_0000_0000_0000_14de_f9de_a2f7_9cd6_5812_631a_5cf5_d3ed
  {
  }
}
