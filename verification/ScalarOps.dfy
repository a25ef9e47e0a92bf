/** Addition and multiplication modulo m. */
module ScalarOps {
  import opened Powers
  import opened Words
  import opened Bits
  import opened Scalar
  import opened Barrett

  // ---- addition ----

  method AddLimbs(x: Limbs, y: Limbs) returns (sum: Limbs)
    requires Reduced(x) && Reduced(y)
    ensures Carried(sum) && Val(sum) == Val(x) + Val(y)
  {
    var r0, r1, r2, r3, r4, c;
    r0, c := AddLimb(x[0], y[0], 0);
    r1, c := AddLimb(x[1], y[1], c);
    r2, c := AddLimb(x[2], y[2], c);
    r3, c := AddLimb(x[3], y[3], c);
    r4 := U64(c + x[4] + y[4]);
    sum := [r0, r1, r2, r3, r4];
  }

  method Add256(x: Limbs, y: Limbs) returns (r: Limbs)
    requires Reduced(x) && Reduced(y)
    ensures Reduced(r) && Val(r) == (Val(x) + Val(y)) % M
  {
    var sum := AddLimbs(x, y);
    r := Reduce256(sum);
    ExactRemainder(Val(x) + Val(y), 0, Val(sum), Val(r));
  }

  method AddLimb(x: nat, y: nat, c: nat) returns (r: nat, carry: nat)
    requires x < 0x100_0000_0000_0000 && y < 0x100_0000_0000_0000 && c <= 1
    ensures r < 0x100_0000_0000_0000 && carry <= 1 && r + 0x100_0000_0000_0000 * carry == x + y + c
  {
    var sum := U64(c + x + y);
    r := sum % 0x100_0000_0000_0000;
    carry := sum / 0x100_0000_0000_0000;
  }

  // ---- multiplication ----

  /** A carried number below 2^256. */
  predicate Below256(s: Limbs) {
    Carried(s) && s[4] < 0x1_0000_0000
  }

  lemma ReducedBelow256(s: Limbs)
    requires Reduced(s)
    ensures Below256(s)
  {
  }

  method Product(a: nat, b: nat) returns (p: nat)
    requires a < 0x100_0000_0000_0000 && b < 0x100_0000_0000_0000
    ensures p == a * b && p < 0x1_0000_0000_0000_0000_0000_0000_0000
  {
    MulBounds(a, b, 0xff_ffff_ffff_ffff, 0xff_ffff_ffff_ffff);
    p := U128(a * b);
  }

  /** The nine columns of the schoolbook product. */
  ghost predicate ProductColumns(x: Limbs, y: Limbs, c: seq<int>) {
    && |c| == 9
    && c[0] == x[0] * y[0]
    && c[1] == x[0] * y[1] + x[1] * y[0]
    && c[2] == x[0] * y[2] + x[2] * y[0] + x[1] * y[1]
    && c[3] == x[0] * y[3] + x[3] * y[0] + x[1] * y[2] + x[2] * y[1]
    && c[4] == x[0] * y[4] + x[4] * y[0] + x[3] * y[1] + x[1] * y[3] + x[2] * y[2]
    && c[5] == x[4] * y[1] + x[1] * y[4] + x[2] * y[3] + x[3] * y[2]
    && c[6] == x[4] * y[2] + x[2] * y[4] + x[3] * y[3]
    && c[7] == x[4] * y[3] + x[3] * y[4]
    && c[8] == x[4] * y[4]
  }

  /** Five numbers weighted by the powers of 2^56. */
  ghost function Radix5(a: int, b: int, c: int, d: int, e: int): int {
    a + 0x100_0000_0000_0000 * (b + 0x100_0000_0000_0000 * (c + 0x100_0000_0000_0000 * (d + 0x100_0000_0000_0000 * e)))
  }

  /** Nine columns and what is carried out of them. */
  ghost function Radix9(c: seq<int>, top: int): int
    requires |c| == 9
  {
    Radix5(c[0], c[1], c[2], c[3], Radix5(c[4], c[5], c[6], c[7], c[8] + 0x100_0000_0000_0000 * top))
  }

  lemma RowProduct(a: int, y: Limbs, v: int)
    requires v == Val(y)
    ensures a * v == Radix5(a * y[0], a * y[1], a * y[2], a * y[3], a * y[4])
  {
  }

  lemma ColumnProduct(x: Limbs, v: int)
    ensures Val(x) * v == Radix5(x[0] * v, x[1] * v, x[2] * v, x[3] * v, x[4] * v)
  {
  }

  lemma ProductVal(x: Limbs, y: Limbs, v: int, c: seq<int>)
    requires ProductColumns(x, y, c) && v == Val(y)
    ensures Val(x) * v == Radix9(c, 0)
  {
    ColumnProduct(x, v);
    RowProduct(x[0], y, v);
    RowProduct(x[1], y, v);
    RowProduct(x[2], y, v);
    RowProduct(x[3], y, v);
    RowProduct(x[4], y, v);
    SumColumns(x[0] * y[0], x[0] * y[1], x[0] * y[2], x[0] * y[3], x[0] * y[4], x[1] * y[0], x[1] * y[1], x[1] * y[2],
      x[1] * y[3], x[1] * y[4], x[2] * y[0], x[2] * y[1], x[2] * y[2], x[2] * y[3], x[2] * y[4], x[3] * y[0],
      x[3] * y[1], x[3] * y[2], x[3] * y[3], x[3] * y[4], x[4] * y[0], x[4] * y[1], x[4] * y[2], x[4] * y[3],
      x[4] * y[4], c);
  }

  lemma SumColumns(p00: int, p01: int, p02: int, p03: int, p04: int, p10: int, p11: int, p12: int, p13: int, p14: int,
        p20: int, p21: int, p22: int, p23: int, p24: int, p30: int, p31: int, p32: int, p33: int, p34: int, p40: int,
        p41: int, p42: int, p43: int, p44: int, c: seq<int>)
    requires c == [p00, p01 + p10, p02 + p20 + p11, p03 + p30 + p12 + p21, p04 + p40 + p31 + p13 + p22,
                   p41 + p14 + p23 + p32, p42 + p24 + p33, p43 + p34, p44]
    ensures Radix5(Radix5(p00, p01, p02, p03, p04), Radix5(p10, p11, p12, p13, p14), Radix5(p20, p21, p22, p23, p24),
              Radix5(p30, p31, p32, p33, p34), Radix5(p40, p41, p42, p43, p44)) == Radix9(c, 0)
  {
  }

  /** Each column is a sum of at most five products. */
  method MulColumns(x: Limbs, y: Limbs) returns (c: seq<nat>)
    requires Carried(x) && Carried(y)
    ensures ProductColumns(x, y, c)
    ensures forall k :: 0 <= k < 9 ==> c[k] < 0x5_0000_0000_0000_0000_0000_0000_0000
  {
    var p;
    var c0 := Product(x[0], y[0]);
    var c1 := Product(x[0], y[1]);
    p := Product(x[1], y[0]);
    c1 := Sum128(c1 + p);
    var c2 := Product(x[0], y[2]);
    p := Product(x[2], y[0]);
    c2 := Sum128(c2 + p);
    p := Product(x[1], y[1]);
    c2 := Sum128(c2 + p);
    var c3 := Product(x[0], y[3]);
    p := Product(x[3], y[0]);
    c3 := Sum128(c3 + p);
    p := Product(x[1], y[2]);
    c3 := Sum128(c3 + p);
    p := Product(x[2], y[1]);
    c3 := Sum128(c3 + p);
    var c4 := Product(x[0], y[4]);
    p := Product(x[4], y[0]);
    c4 := Sum128(c4 + p);
    p := Product(x[3], y[1]);
    c4 := Sum128(c4 + p);
    p := Product(x[1], y[3]);
    c4 := Sum128(c4 + p);
    p := Product(x[2], y[2]);
    c4 := Sum128(c4 + p);
    var c5 := Product(x[4], y[1]);
    p := Product(x[1], y[4]);
    c5 := Sum128(c5 + p);
    p := Product(x[2], y[3]);
    c5 := Sum128(c5 + p);
    p := Product(x[3], y[2]);
    c5 := Sum128(c5 + p);
    var c6 := Product(x[4], y[2]);
    p := Product(x[2], y[4]);
    c6 := Sum128(c6 + p);
    p := Product(x[3], y[3]);
    c6 := Sum128(c6 + p);
    var c7 := Product(x[4], y[3]);
    p := Product(x[3], y[4]);
    c7 := Sum128(c7 + p);
    var c8 := Product(x[4], y[4]);
    c := [c0, c1, c2, c3, c4, c5, c6, c7, c8];
  }

  /** hi | ((f << 32) & (2^56 - 1)) */
  method Join32(hi: nat, f: nat) returns (r: nat)
    requires hi < 0x1_0000_0000 && f < 0x100_0000_0000_0000
    ensures r == hi + 0x1_0000_0000 * (f % 0x100_0000) && r < 0x100_0000_0000_0000
  {
    var piece := U64(f * 0x1_0000_0000) % 0x100_0000_0000_0000;
    JoinPiece32(f);
    assert Pow2(32) == 0x1_0000_0000 by { Pow2Table(); }
    OrDisjoint(hi, f % 0x100_0000, 32);
    r := Or(hi, piece);
  }

  lemma JoinPiece32(f: nat)
    requires f < 0x100_0000_0000_0000
    ensures U64(f * 0x1_0000_0000) % 0x100_0000_0000_0000 == 0x1_0000_0000 * (f % 0x100_0000)
  {
    var a, b := f / 0x100_0000, f % 0x100_0000;
    assert f * 0x1_0000_0000 == 0x100_0000_0000_0000 * a + 0x1_0000_0000 * b;
    var a1, a2 := a / 0x100, a % 0x100;
    var rest := 0x100_0000_0000_0000 * a2 + 0x1_0000_0000 * b;
    assert f * 0x1_0000_0000 == 0x1_0000_0000_0000_0000 * a1 + rest;
    WordRest(f * 0x1_0000_0000, a1, rest);
    PieceRest(rest, a2, 0x1_0000_0000 * b);
  }

  lemma WordRest(x: nat, k: nat, r: nat)
    requires x == 0x1_0000_0000_0000_0000 * k + r && r < 0x1_0000_0000_0000_0000
    ensures U64(x) == r
  {
  }

  lemma PieceRest(x: nat, k: nat, r: nat)
    requires x == 0x100_0000_0000_0000 * k + r && r < 0x100_0000_0000_0000
    ensures x % 0x100_0000_0000_0000 == r
  {
  }

  /** The nine limbs and the last carry of the product. */
  method CarryProduct(c: seq<nat>) returns (l: seq<nat>, f8: nat)
    requires |c| == 9 && forall k :: 0 <= k < 9 ==> c[k] < 0x5_0000_0000_0000_0000_0000_0000_0000
    ensures |l| == 9 && (forall k :: 0 <= k < 9 ==> l[k] < 0x100_0000_0000_0000)
    ensures Radix9(c, 0) == Radix9(l, f8)
  {
    var f, l0, l1, l2, l3, l4, l5, l6, l7, l8;
    l0, f := Split56(c[0]);
    var s1 := Sum128(c[1] + f);
    l1, f := Split56(s1);
    var s2 := Sum128(c[2] + f);
    l2, f := Split56(s2);
    var s3 := Sum128(c[3] + f);
    l3, f := Split56(s3);
    var s4 := Sum128(c[4] + f);
    l4, f := Split56(s4);
    var s5 := Sum128(c[5] + f);
    l5, f := Split56(s5);
    var s6 := Sum128(c[6] + f);
    l6, f := Split56(s6);
    var s7 := Sum128(c[7] + f);
    l7, f := Split56(s7);
    var s8 := Sum128(c[8] + f);
    l8, f := Split56(s8);
    f8 := f;
    l := [l0, l1, l2, l3, l4, l5, l6, l7, l8];
  }

  /** The low 264 bits, and the bits from 248 on. */
  method SplitProduct(l: seq<nat>, f8: nat, ghost x: nat) returns (q1: Limbs, r1: Limbs)
    requires |l| == 9 && (forall k :: 0 <= k < 9 ==> l[k] < 0x100_0000_0000_0000)
    requires x == Radix9(l, f8) && x < TWO_TO_512
    ensures Carried(q1) && Carried(r1)
    ensures Val(q1) == x / 0x100_0000_0000_0000_0000_0000_0000_0000_0000_0000_0000_0000_0000_0000_0000_0000
      && Val(r1) == x % 0x100_0000_0000_0000_0000_0000_0000_0000_0000_0000_0000_0000_0000_0000_0000_0000_0000
  {
    assert f8 < 0x100;
    r1 := [l[0], l[1], l[2], l[3], l[4] % 0x100_0000_0000];
    var o0 := Join32(l[4] / 0x100_0000, l[5]);
    var o1 := Join32(l[5] / 0x100_0000, l[6]);
    var o2 := Join32(l[6] / 0x100_0000, l[7]);
    var o3 := Join32(l[7] / 0x100_0000, l[8]);
    var o4 := Join32(l[8] / 0x100_0000, f8);
    q1 := [o0, o1, o2, o3, o4];
    PackHigh(l[4], l[5], l[6], l[7], l[8], f8, q1);
    ghost var low := l[0] + 0x100_0000_0000_0000 * l[1] + 0x1_0000_0000_0000_0000_0000_0000_0000 * l[2]
          + 0x100_0000_0000_0000_0000_0000_0000_0000_0000_0000_0000 * l[3];
    assert low < 0x1_0000_0000_0000_0000_0000_0000_0000_0000_0000_0000_0000_0000_0000_0000;
    ghost var high := l[4] + 0x100_0000_0000_0000 * l[5] + 0x1_0000_0000_0000_0000_0000_0000_0000 * l[6]
          + 0x100_0000_0000_0000_0000_0000_0000_0000_0000_0000_0000 * l[7]
          + 0x1_0000_0000_0000_0000_0000_0000_0000_0000_0000_0000_0000_0000_0000_0000 * l[8]
          + 0x100_0000_0000_0000_0000_0000_0000_0000_0000_0000_0000_0000_0000_0000_0000_0000_0000_0000 * f8;
    ghost var rest := l[5] + 0x100_0000_0000_0000 * l[6] + 0x1_0000_0000_0000_0000_0000_0000_0000 * l[7]
          + 0x100_0000_0000_0000_0000_0000_0000_0000_0000_0000_0000 * l[8]
          + 0x1_0000_0000_0000_0000_0000_0000_0000_0000_0000_0000_0000_0000_0000_0000 * f8;
    assert x == low + 0x1_0000_0000_0000_0000_0000_0000_0000_0000_0000_0000_0000_0000_0000_0000 * high;
    HighBits(x, low, high, l[4], rest, Val(q1), Val(r1));
  }

  lemma PackHigh(l4: nat, l5: nat, l6: nat, l7: nat, l8: nat, f8: nat, q1: Limbs)
    requires f8 < 0x100_0000
    requires q1[0] == l4 / 0x100_0000 + 0x1_0000_0000 * (l5 % 0x100_0000)
      && q1[1] == l5 / 0x100_0000 + 0x1_0000_0000 * (l6 % 0x100_0000)
    requires q1[2] == l6 / 0x100_0000 + 0x1_0000_0000 * (l7 % 0x100_0000)
      && q1[3] == l7 / 0x100_0000 + 0x1_0000_0000 * (l8 % 0x100_0000)
    requires q1[4] == l8 / 0x100_0000 + 0x1_0000_0000 * (f8 % 0x100_0000)
    ensures l4 + 0x100_0000_0000_0000 * l5 + 0x1_0000_0000_0000_0000_0000_0000_0000 * l6
      + 0x100_0000_0000_0000_0000_0000_0000_0000_0000_0000_0000 * l7
      + 0x1_0000_0000_0000_0000_0000_0000_0000_0000_0000_0000_0000_0000_0000_0000 * l8
      + 0x100_0000_0000_0000_0000_0000_0000_0000_0000_0000_0000_0000_0000_0000_0000_0000_0000_0000 * f8
      == l4 % 0x100_0000 + 0x100_0000 * Val(q1)
  {
  }

  lemma HighBits(x: nat, low: nat, high: nat, l4: nat, rest: nat, q: nat, r: nat)
    requires low < 0x1_0000_0000_0000_0000_0000_0000_0000_0000_0000_0000_0000_0000_0000_0000
      && x == low + 0x1_0000_0000_0000_0000_0000_0000_0000_0000_0000_0000_0000_0000_0000_0000 * high
      && l4 < 0x100_0000_0000_0000
    requires high == l4 % 0x100_0000 + 0x100_0000 * q && high == l4 + 0x100_0000_0000_0000 * rest
      && r == low + 0x1_0000_0000_0000_0000_0000_0000_0000_0000_0000_0000_0000_0000_0000_0000 * (l4 % 0x100_0000_0000)
    ensures q == x / 0x100_0000_0000_0000_0000_0000_0000_0000_0000_0000_0000_0000_0000_0000_0000_0000
      && r == x % 0x100_0000_0000_0000_0000_0000_0000_0000_0000_0000_0000_0000_0000_0000_0000_0000_0000
  {
    assert x == (low + 0x1_0000_0000_0000_0000_0000_0000_0000_0000_0000_0000_0000_0000_0000_0000 * (l4 % 0x100_0000))
      + 0x100_0000_0000_0000_0000_0000_0000_0000_0000_0000_0000_0000_0000_0000_0000_0000 * q;
    Mod264(x, r, l4 / 0x100_0000_0000 + 0x1_0000 * rest);
  }

  /** Also for factors that are not reduced, as long as they are below 2^256. */
  method Mul256(x: Limbs, y: Limbs) returns (r: Limbs)
    requires Below256(x) && Below256(y)
    ensures Reduced(r) && Val(r) == (Val(x) * Val(y)) % M
  {
    var c := MulColumns(x, y);
    var l, f8 := CarryProduct(c);
    ghost var v := Val(y);
    ProductVal(x, y, v, c);
    MulBounds(Val(x), v, 0xffff_ffff_ffff_ffff_ffff_ffff_ffff_ffff_ffff_ffff_ffff_ffff_ffff_ffff_ffff_ffff,
      0xffff_ffff_ffff_ffff_ffff_ffff_ffff_ffff_ffff_ffff_ffff_ffff_ffff_ffff_ffff_ffff);
    ghost var prod := Val(x) * v;
    var q1, r1 := SplitProduct(l, f8, prod);
    r := BarrettReduce(q1, r1, prod);
  }
}
