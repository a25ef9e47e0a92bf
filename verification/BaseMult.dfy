/** [s]B from the packed table of multiples of the base point, every row of a window read each time. */
module BaseMult {
  import opened Powers
  import opened Bits
  import opened Bytes
  import opened ModP
  import opened AbelianGroup
  import opened Edwards
  import opened Field
  import FieldBytes
  import opened Tracked
  import opened PointOps
  import Encoding
  import opened Digits
  import opened Recoding
  import opened ScalarMult
  import S = Scalar

  // ---- selection without branches ----

  /** The top bit of x - 1 in a 32-bit word. */
  method BorrowBit(x: nat) returns (r: nat)
    requires x < 0x1_0000_0000
    ensures r == if x == 0 || x > 0x8000_0000 then 1 else 0
  {
    r := ((x - 1) % 0x1_0000_0000) / 0x8000_0000;
  }

  lemma XorRange(b: nat, c: nat, n: nat, m: nat)
    requires n == 32 && m == 31 && b < 0x1_0000_0000 && c < 0x1_0000_0000
    ensures Xor(b, c) < 0x1_0000_0000 && (Xor(b, c) == 0 <==> b == c)
    ensures b < 0x8000_0000 && c < 0x8000_0000 ==> Xor(b, c) < 0x8000_0000
  {
    Pow2Table();
    XorZero(b, c);
    XorBound(b, c, n);
    assert Pow2(n) == 2 * Pow2(m);
    if b < 0x8000_0000 && c < 0x8000_0000 {
      XorBound(b, c, m);
    }
  }

  /**
   * ge25519_windowb_equal: (b ^ c) - 1 wraps to a word with its top bit set when b == c. For 32-bit numbers it also
   * has it set when they differ in their top bit and in another one; below 2^31, as in the window, they cannot.
   */
  method WindowbEqual(b: nat, c: nat) returns (r: nat)
    requires b < 0x1_0000_0000 && c < 0x1_0000_0000
    ensures r == if b == c || Xor(b, c) > 0x8000_0000 then 1 else 0
    ensures b < 0x8000_0000 && c < 0x8000_0000 ==> r == if b == c then 1 else 0
  {
    XorRange(b, c, 32, 31);
    r := BorrowBit(Xor(b, c));
  }

  lemma {:induction false} XorOnes(x: nat, n: nat)
    requires x < Pow2(n)
    ensures Xor(x, Pow2(n) - 1) == Pow2(n) - 1 - x
  {
    if n > 0 {
      var m := Pow2(n) - 1;
      assert m / 2 == Pow2(n - 1) - 1 && m % 2 == 1;
      XorOnes(x / 2, n - 1);
      XorHalf(x, m);
      HalvesEqual(Xor(x, m), m - x);
    }
  }

  lemma XorWordOnes(v: nat, n: nat)
    requires n == 32 && v < 0x1_0000_0000
    ensures Xor(v, 0xffff_ffff) == 0xffff_ffff - v && Xor(v, 0) == v
  {
    Pow2Table();
    XorOnes(v, n);
    XorNothing(v);
  }

  /** mask = ~(sign - 1), u = (b + mask) ^ mask on 32-bit words: the magnitude of a signed char. */
  method AbsoluteByMask(b: int, sign: int) returns (u: nat)
    requires -128 <= b < 128 && sign == SignBit(b)
    ensures u == Magnitude(b)
  {
    var mask := 0xffff_ffff - (sign - 1) % 0x1_0000_0000;
    assert mask == if b < 0 then 0xffff_ffff else 0;
    var v := (b + mask) % 0x1_0000_0000;
    assert v == if b < 0 then 0xffff_ffff + b else b;
    XorWordOnes(v, 32);
    u := Xor(v, mask);
  }

  lemma ByteMasks(x: nat, m: nat)
    requires m == 255 && x <= m
    ensures And(x, m) == x && And(x, 0) == 0 && Or(x, 0) == x && Or(0, x) == x
  {
    assert Pow2(8) == m + 1 by { Pow2Table(); }
    AllMask(x, m, 8);
    AndNothing(x);
    OrNothing(x);
  }

  /** (x & nb) | (y & b) for complementary all-or-nothing masks. */
  method SelectByte(x: Byte, y: Byte, flag: nat) returns (r: Byte)
    requires flag <= 1
    ensures r == if flag == 1 then y else x
  {
    var nb: nat := (flag - 1) % 256;
    var b: nat := 255 - nb;
    ByteMasks(x as int, 255);
    ByteMasks(y as int, 255);
    r := Or(And(x as int, nb), And(y as int, b));
  }

  /** curve25519_move_conditional_bytes */
  method MoveConditional(out: array<Byte>, inp: seq<Byte>, flag: nat)
    requires out.Length == |inp| == 96 && flag <= 1
    modifies out
    ensures out[..] == if flag == 1 then inp else old(out[..])
  {
    var i := 0;
    while i < 96
      invariant 0 <= i <= 96
      invariant forall k :: 0 <= k < i ==> out[k] == if flag == 1 then inp[k] else old(out[k])
      invariant forall k :: i <= k < 96 ==> out[k] == old(out[k])
    {
      out[i] := SelectByte(out[i], inp[i], flag);
      i := i + 1;
    }
  }

  lemma {:induction false} XorComm(a: nat, b: nat)
    ensures Xor(a, b) == Xor(b, a)
    decreases a + b
  {
    if a != 0 || b != 0 {
      XorComm(a / 2, b / 2);
    }
  }

  method SwapLimb(a: nat, b: nat, swap: nat) returns (a': nat, b': nat)
    requires a < 0x1_0000_0000_0000_0000 && b < 0x1_0000_0000_0000_0000 && (swap == 0 || swap == 0xffff_ffff_ffff_ffff)
    ensures if swap == 0 then a' == a && b' == b else a' == b && b' == a
  {
    Pow2Of64();
    Select(a, b, 64);
    Select(b, a, 64);
    XorComm(a, b);
    var x := And(swap, Xor(a, b));
    a' := Xor(a, x);
    b' := Xor(b, x);
  }

  /** curve25519_swap_conditional */
  method SwapConditional(a: Fe, b: Fe, iswap: nat) returns (a': Fe, b': Fe)
    requires iswap <= 1 && Below(a, 0x1_0000_0000_0000_0000) && Below(b, 0x1_0000_0000_0000_0000)
    ensures if iswap == 1 then a' == b && b' == a else a' == a && b' == b
  {
    var swap := (0 - iswap) % 0x1_0000_0000_0000_0000;
    var a0, b0 := SwapLimb(a.l0, b.l0, swap);
    var a1, b1 := SwapLimb(a.l1, b.l1, swap);
    var a2, b2 := SwapLimb(a.l2, b.l2, swap);
    var a3, b3 := SwapLimb(a.l3, b.l3, swap);
    var a4, b4 := SwapLimb(a.l4, b.l4, swap);
    a', b' := Fe(a0, a1, a2, a3, a4), Fe(b0, b1, b2, b3, b4);
  }

  // ---- the table ----

  function Field255(b: seq<Byte>): int {
    LE(b) % 0x8000_0000_0000_0000_0000_0000_0000_0000_0000_0000_0000_0000_0000_0000_0000_0000
  }

  /** A packed row: y - x, y + x and c x y, with c = 2d for most rows and c = 2 for the first eight. */
  ghost predicate Row(b: seq<Byte>, p: Point, c: int) {
    && |b| == 96
    && Cong(Field255(b[..32]), p.y - p.x) && Cong(Field255(b[32..64]), p.y + p.x)
    && Cong(Field255(b[64..]), c * (p.x * p.y))
  }

  ghost function Weight(pos: nat): int {
    if pos == 0 then 2 else 2 * D
  }

  ghost predicate Window(table: seq<seq<Byte>>, pos: nat, g: Group<CurvePoint>, base: CurvePoint)
    requires 8 * pos + 8 <= |table|
  {
    forall u: nat :: 1 <= u <= 8 ==> RowOf(table, pos, u, g, base)
  }

  ghost predicate RowOf(table: seq<seq<Byte>>, pos: nat, u: nat, g: Group<CurvePoint>, base: CurvePoint)
    requires 8 * pos + 8 <= |table| && 1 <= u <= 8
  {
    Row(table[8 * pos + u - 1], Times(g, u * Pow(256, pos), base), Weight(pos))
  }

  /** What the constant ge25519_niels_base_multiples holds: [u][256^pos]B at row 8 pos + u - 1. */
  ghost predicate BaseTable(table: seq<seq<Byte>>, g: Group<CurvePoint>, base: CurvePoint) {
    |table| == 256 && forall pos: nat :: pos < 32 ==> Window(table, pos, g, base)
  }

  ghost predicate Entry(q: GeNiels, p: Point, c: int) {
    Is(q.ysubx, p.y - p.x, 0) && Is(q.xaddy, p.y + p.x, 0) && Is(q.t2d, c * (p.x * p.y), 0)
  }

  lemma OneBytes(b: seq<Byte>)
    requires |b| > 0 && b[0] == 1 && forall i :: 1 <= i < |b| ==> b[i] == 0
    ensures LE(b) == 1
  {
    ZeroBytes(b[1..]);
  }

  lemma NeutralRow(b: seq<Byte>, c: int)
    requires |b| == 96 && b[0] == 1 && b[32] == 1 && forall i :: 0 <= i < 96 && i != 0 && i != 32 ==> b[i] == 0
    ensures Row(b, Point(0, 1), c)
  {
    OneBytes(b[..32]);
    OneBytes(b[32..64]);
    ZeroBytes(b[64..]);
    CongRefl(1);
    CongRefl(0);
  }

  method InitialRow(ghost c: int) returns (packed: array<Byte>)
    ensures fresh(packed) && packed.Length == 96 && Row(packed[..], Point(0, 1), c)
  {
    packed := new Byte[96](_ => 0);
    packed[0] := 1;
    packed[32] := 1;
    NeutralRow(packed[..], c);
  }

  /** Reads all eight rows of a window and keeps the u-th, or the neutral one for u = 0. */
  method ChooseRow(table: seq<seq<Byte>>, pos: nat, u: nat, ghost g: Group<CurvePoint>, ghost base: CurvePoint)
    returns (packed: array<Byte>)
    requires CurveGroup(g) && |table| == 256 && pos < 32 && Window(table, pos, g, base) && u <= 8
    ensures fresh(packed) && Row(packed[..], Times(g, u * Pow(256, pos), base), Weight(pos))
  {
    packed := InitialRow(Weight(pos));
    Neutral(g);
    ghost var initial := packed[..];
    var i := 0;
    while i < 8
      invariant 0 <= i <= 8 && packed.Length == 96
      invariant packed[..] == if 1 <= u <= i then table[8 * pos + u - 1] else initial
    {
      var flag := WindowbEqual(u, i + 1);
      assert RowOf(table, pos, i + 1, g, base);
      MoveConditional(packed, table[8 * pos + i], flag);
      i := i + 1;
    }
    if u > 0 {
      assert RowOf(table, pos, u, g, base);
    }
  }

  method ExpandRow(b: seq<Byte>, ghost v: int) returns (out: Fe)
    requires |b| == 32 && Cong(Field255(b), v)
    ensures Is(out, v, 0)
  {
    out := FieldBytes.Expand(b);
    IsClose(out, v, 0);
  }

  lemma NegativeEntry(p: Point, q: Point, c: int, k: int)
    requires q.x + p.x == k * 0x7fff_ffff_ffff_ffff_ffff_ffff_ffff_ffff_ffff_ffff_ffff_ffff_ffff_ffff_ffff_ffed
      && q.y == p.y
    ensures Cong(p.y + p.x, q.y - q.x) && Cong(p.y - p.x, q.y + q.x) && Cong(-(c * (p.x * p.y)), c * (q.x * q.y))
  {
    CongBy(p.y + p.x, q.y - q.x, k);
    CongBy(p.y - p.x, q.y + q.x, -k);
    CongBy(-p.x, q.x, -k);
    CongScale(p.y, -p.x, q.x);
    CongScale(c, p.y * (-p.x), p.y * q.x);
    CongEq(c * (p.y * (-p.x)), c * (p.y * q.x), -(c * (p.x * p.y)), c * (q.x * q.y));
  }

  method SwapT(a: Fe, b: Fe, sign: nat, ghost v: int, ghost w: int) returns (a': Fe, b': Fe)
    requires Is(a, v, 0) && Is(b, w, 0) && sign <= 1
    ensures Is(a', if sign == 1 then w else v, 0) && Is(b', if sign == 1 then v else w, 0)
  {
    IsOpen(a, v, 0);
    IsOpen(b, w, 0);
    a', b' := SwapConditional(a, b, sign);
  }

  lemma NegatedEntry(t: GeNiels, g: Group<CurvePoint>, p: CurvePoint, c: int)
    requires CurveGroup(g) && Is(t.ysubx, p.y + p.x, 0) && Is(t.xaddy, p.y - p.x, 0) && Is(t.t2d, -(c * (p.x * p.y)), 0)
    ensures Entry(t, Inv(g, p), c)
  {
    var n := Inv(g, p);
    NegIsInverse(g, p);
    CongMod(-p.x);
    var k := CongFactor(n.x, -p.x);
    NegativeEntry(p, n, c, k);
    IsCong(t.ysubx, p.y + p.x, n.y - n.x, 0);
    IsCong(t.xaddy, p.y - p.x, n.y + n.x, 0);
    IsCong(t.t2d, -(c * (p.x * p.y)), c * (n.x * n.y), 0);
  }

  /** Exchanging the halves and negating t2d gives the negative point. */
  method SignEntry(q: GeNiels, sign: nat, ghost g: Group<CurvePoint>, ghost p: CurvePoint,
        ghost c: int) returns (t: GeNiels)
    requires CurveGroup(g) && Entry(q, p, c) && sign <= 1
    ensures Entry(t, if sign == 1 then Inv<CurvePoint>(g, p) else p, c)
  {
    ghost var w := c * (p.x * p.y);
    var ysubx, xaddy := SwapT(q.ysubx, q.xaddy, sign, p.y - p.x, p.y + p.x);
    ghost var v;
    var neg;
    neg, v := NegT(q.t2d, w);
    var t2d, other := SwapT(q.t2d, neg, sign, w, v);
    t := GeNiels(ysubx, xaddy, t2d);
    if sign == 1 {
      NegatedEntry(t, g, p, c);
    }
  }

  /** ge25519_scalarmult_base_choose_niels: the entry for [b][256^pos]B, for every digit from -8 to 8. */
  method ChooseNiels(table: seq<seq<Byte>>, pos: nat, b: int, ghost g: Group<CurvePoint>,
        ghost base: CurvePoint) returns (t: GeNiels)
    requires CurveGroup(g) && |table| == 256 && pos < 32 && Window(table, pos, g, base) && -8 <= b <= 8
    ensures Entry(t, Times(g, b * Pow(256, pos), base), Weight(pos))
  {
    var sign := (b % 256) / 128;
    var u := AbsoluteByMask(b, sign);
    var packed := ChooseRow(table, pos, u, g, base);
    ghost var p, c := Times(g, u * Pow(256, pos), base), Weight(pos);
    var ysubx := ExpandRow(packed[..][..32], p.y - p.x);
    var xaddy := ExpandRow(packed[..][32..64], p.y + p.x);
    var t2d := ExpandRow(packed[..][64..], c * (p.x * p.y));
    t := SignEntry(GeNiels(ysubx, xaddy, t2d), sign, g, p, c);
    SignedMultiple(g, b, Pow(256, pos), base);
  }

  lemma SignedMultiple<G(!new)>(g: Group<G>, b: int, w: int, base: G)
    requires Abelian(g)
    ensures Times(g, b * w, base) == if b < 0 then Inv(g, Times(g, Magnitude(b) * w, base))
      else Times(g, Magnitude(b) * w, base)
  {
    if b < 0 {
      TimesNeg(g, Magnitude(b) * w, base);
      assert b * w == -(Magnitude(b) * w);
    }
  }

  // ---- [s]B ----

  lemma EntryAddend(q: GeNiels, p: Point)
    requires Entry(q, p, 2 * D)
    ensures AffineAddend(q, p)
  {
    var n := PNiels(p.y - p.x, p.y + p.x, 1, 2 * D * (p.x * p.y));
    CongRefl(n.ysubx);
    CongRefl(n.xaddy);
    CongRefl(n.t2d);
    CongEq(n.ysubx, n.ysubx, n.ysubx, (p.y - p.x) * n.z);
    CongEq(n.xaddy, n.xaddy, n.xaddy, (p.y + p.x) * n.z);
    CongEq(n.t2d, n.t2d, n.t2d, (2 * D * (p.x * p.y)) * n.z);
    OneNonZero();
    assert StandsA(q, n) && RepN(n, p);
  }

  /** The entry for the first digit: its stored 2xy times d. */
  method ScaleEntry(q: GeNiels, ghost p: Point) returns (t: GeNiels)
    requires Entry(q, p, 2)
    ensures AffineAddend(t, p)
  {
    ghost var v;
    var t2d;
    Encoding.ECDVal();
    t2d, v := MulT(q.t2d, Encoding.ECD, 2 * (p.x * p.y), D, 0, 0);
    t := GeNiels(q.ysubx, q.xaddy, t2d);
    CongRefl(v);
    CongEq(v, v, v, 2 * D * (p.x * p.y));
    IsCong(t2d, v, 2 * D * (p.x * p.y), 0);
    EntryAddend(t, p);
  }

  lemma StartRep(x: int, y: int, e: Ext)
    requires e == Ext((y + x) - (y - x), (y + x) + (y - x), 2, 2 * (x * y))
    ensures RepT(e, Point(x, y))
  {
    CongRefl(e.x);
    CongEq(e.x, e.x, e.x, x * e.z);
    CongRefl(e.y);
    CongEq(e.y, e.y, e.y, y * e.z);
    CongRefl(e.t);
    CongEq(e.t, e.t, e.t, (x * y) * e.z);
    TwoNonZero();
  }

  /** The first point in extended form with z = 2, so that 2xy serves as t. */
  method StartPoint(q: GeNiels, ghost p: Point) returns (r: Ge)
    requires Entry(q, p, 2)
    ensures Full(r, p)
  {
    ghost var vx, vy;
    var x, y;
    x, vx := SubReduceT(q.xaddy, q.ysubx, p.y + p.x, p.y - p.x);
    y, vy := AddReduceT(q.xaddy, q.ysubx, p.y + p.x, p.y - p.x);
    var two := Fe(2, 0, 0, 0, 0);
    SmallVal(2);
    r := Ge(x, y, two, q.t2d);
    ghost var e := Ext(vx, vy, 2, 2 * (p.x * p.y));
    StartRep(p.x, p.y, e);
    assert Stands(r, e) && Is(r.t, e.t, 0) && RepT(e, p);
  }

  /** d[o] + 256 d[o + 2] + ... + 256^(n-1) d[o + 2n - 2] */
  ghost function Strand(d: seq<int>, o: nat, n: nat): int
    requires n == 0 || o + 2 * n - 2 < |d|
  {
    if n == 0 then 0 else Strand(d, o, n - 1) + d[o + 2 * n - 2] * Pow(256, n - 1)
  }

  lemma {:induction false} EvenPower(n: nat)
    ensures Pow(16, 2 * n) == Pow(256, n)
  {
    if n > 0 {
      EvenPower(n - 1);
      assert Pow(16, 2 * n) == 16 * (16 * Pow(16, 2 * n - 2));
    }
  }

  /** The digits at even and at odd positions make up the number. */
  lemma {:induction false} Strands(d: seq<int>, n: nat)
    requires 2 * n <= |d|
    ensures Low(d, 2 * n, 16) == Strand(d, 0, n) + 16 * Strand(d, 1, n)
  {
    if n > 0 {
      Strands(d, n - 1);
      EvenPower(n - 1);
      var p := Pow(256, n - 1);
      assert Low(d, 2 * n, 16) == Low(d, 2 * n - 1, 16) + Pow(16, 2 * n - 1) * d[2 * n - 1];
      assert Pow(16, 2 * n - 1) == 16 * p;
      assert (16 * p) * d[2 * n - 1] == 16 * (d[2 * n - 1] * p);
    }
  }

  lemma StrandsValue(d: seq<int>, n: nat)
    requires |d| == 2 * n
    ensures Value(d, 0, 16) == Strand(d, 0, n) + 16 * Strand(d, 1, n)
  {
    Strands(d, n);
    ValueSplit(d, |d|, 16);
  }

  method AddWindow(r: Ge, table: seq<seq<Byte>>, pos: nat, b: int,
                   ghost g: Group<CurvePoint>, ghost base: CurvePoint, ghost n: int) returns (r': Ge)
    requires CurveGroup(g) && BaseTable(table, g, base) && 1 <= pos < 32 && -8 <= b <= 8 && Full(r, Times(g, n, base))
    ensures Full(r', Times(g, n + b * Pow(256, pos), base))
  {
    assert Window(table, pos, g, base);
    var t := ChooseNiels(table, pos, b, g, base);
    ghost var q := Times(g, b * Pow(256, pos), base);
    EntryAddend(t, q);
    r' := Nielsadd2(r, t, g, Times(g, n, base), q);
    TimesAdd(g, n, b * Pow(256, pos), base);
  }

  /** r is the multiple n of the base point plus the digits at o + 2, o + 4, ... below i. */
  ghost predicate Strung(r: Ge, b: seq<int>, o: nat, i: nat, n: int, g: Group<CurvePoint>, base: CurvePoint) {
    o <= 1 && i % 2 == o && o + 2 <= i <= |b| + o && Full(r, Times(g, n + Strand(b, o, i / 2) - Strand(b, o, 1), base))
  }

  lemma StrungStart(r: Ge, b: seq<int>, o: nat, n: int, g: Group<CurvePoint>, base: CurvePoint)
    requires o <= 1 && |b| >= 2 && Full(r, Times(g, n, base))
    ensures Strung(r, b, o, o + 2, n, g, base)
  {
    assert (o + 2) / 2 == 1;
    assert n + Strand(b, o, 1) - Strand(b, o, 1) == n;
  }

  lemma StrungEnd(r: Ge, b: seq<int>, o: nat, i: nat, n: int, m: int, g: Group<CurvePoint>, base: CurvePoint)
    requires |b| == 64 && Strung(r, b, o, i, n, g, base) && i >= 64 && m == n + Strand(b, o, 32) - Strand(b, o, 1)
    ensures Full(r, Times(g, m, base))
  {
    assert i / 2 == 32;
  }

  method StrandStep(r: Ge, table: seq<seq<Byte>>, b: seq<int>, o: nat, i: nat,
                    ghost g: Group<CurvePoint>, ghost base: CurvePoint, ghost n: int) returns (r': Ge)
    requires CurveGroup(g) && BaseTable(table, g, base) && |b| == 64 && i < 64 && Strung(r, b, o, i, n, g, base)
    requires forall k :: 0 <= k < 64 ==> -8 <= b[k] <= 8
    ensures Strung(r', b, o, i + 2, n, g, base)
  {
    ghost var j: nat := i / 2;
    r' := AddWindow(r, table, i / 2, b[i], g, base, n + Strand(b, o, j) - Strand(b, o, 1));
    assert (i + 2) / 2 == j + 1;
    assert Strand(b, o, j + 1) == Strand(b, o, j) + b[i] * Pow(256, j);
  }

  /** Adds the digits at o + 2, o + 4, ... to the multiple n, which then is m. */
  method AddStrand(r: Ge, table: seq<seq<Byte>>, b: seq<int>, o: nat,
                   ghost g: Group<CurvePoint>, ghost base: CurvePoint, ghost n: int, ghost m: int) returns (r': Ge)
    requires CurveGroup(g) && BaseTable(table, g, base) && |b| == 64 && o <= 1 && Full(r, Times(g, n, base))
    requires forall k :: 0 <= k < 64 ==> -8 <= b[k] <= 8
    requires m == n + Strand(b, o, 32) - Strand(b, o, 1)
    ensures Full(r', Times(g, m, base))
  {
    StrungStart(r, b, o, n, g, base);
    r' := r;
    var i := o + 2;
    while i < 64
      invariant i >= 2 && Strung(r', b, o, i, n, g, base)
      decreases 64 - i
    {
      r' := StrandStep(r', table, b, o, i, g, base, n);
      i := i + 2;
    }
    StrungEnd(r', b, o, i, n, m, g, base);
  }

  method FourDoublings(r: Ge, ghost g: Group<CurvePoint>, ghost base: CurvePoint, ghost n: int) returns (r': Ge)
    requires CurveGroup(g) && Full(r, Times(g, n, base))
    ensures Full(r', Times(g, 16 * n, base))
  {
    FullIsPartial(r, Times(g, n, base));
    r' := DoublePartial(r, g, Times(g, n, base));
    Doubled(g, n, 2 * n, base);
    r' := DoublePartial(r', g, Times(g, 2 * n, base));
    Doubled(g, 2 * n, 4 * n, base);
    r' := DoublePartial(r', g, Times(g, 4 * n, base));
    Doubled(g, 4 * n, 8 * n, base);
    r' := Double(r', g, Times(g, 8 * n, base));
    Doubled(g, 8 * n, 16 * n, base);
  }

  /** The digits at odd positions, times 16. */
  method OddHalf(table: seq<seq<Byte>>, b: seq<int>, ghost g: Group<CurvePoint>, ghost base: CurvePoint,
        ghost odd: int) returns (r: Ge)
    requires CurveGroup(g) && BaseTable(table, g, base) && |b| == 64 && odd == Strand(b, 1, 32)
    requires forall k :: 0 <= k < 64 ==> -8 <= b[k] <= 8
    ensures Full(r, Times(g, 16 * odd, base))
  {
    assert Window(table, 0, g, base);
    FirstStrand(b);
    var t := ChooseNiels(table, 0, b[1], g, base);
    r := StartPoint(t, Times(g, b[1] * Pow(256, 0), base));
    assert b[1] * Pow(256, 0) == b[1];
    r := AddStrand(r, table, b, 1, g, base, b[1], odd);
    r := FourDoublings(r, g, base, odd);
  }

  /** Adds the digits at even positions. */
  method EvenHalf(r: Ge, table: seq<seq<Byte>>, b: seq<int>, ghost g: Group<CurvePoint>, ghost base: CurvePoint,
        ghost x: int, ghost even: int)
    returns (r': Ge)
    requires CurveGroup(g) && BaseTable(table, g, base) && |b| == 64 && even == Strand(b, 0, 32)
    requires forall k :: 0 <= k < 64 ==> -8 <= b[k] <= 8
    requires Full(r, Times(g, x, base))
    ensures Full(r', Times(g, x + even, base))
  {
    assert Window(table, 0, g, base);
    FirstStrand(b);
    var t := ChooseNiels(table, 0, b[0], g, base);
    ghost var p := Times(g, b[0], base);
    assert b[0] * Pow(256, 0) == b[0];
    t := ScaleEntry(t, p);
    TimesAdd(g, x, b[0], base);
    r' := Nielsadd2(r, t, g, Times(g, x, base), p);
    r' := AddStrand(r', table, b, 0, g, base, x + b[0], x + even);
  }

  /** ge25519_scalarmult_base_niels over a digit string. */
  method Comb(table: seq<seq<Byte>>, b: seq<int>, ghost g: Group<CurvePoint>, ghost base: CurvePoint) returns (r: Ge)
    requires CurveGroup(g) && BaseTable(table, g, base) && |b| == 64
    requires forall k :: 0 <= k < 64 ==> -8 <= b[k] <= 8
    ensures Full(r, Times(g, Value(b, 0, 16), base))
  {
    ghost var odd, even := Strand(b, 1, 32), Strand(b, 0, 32);
    StrandsValue(b, 32);
    r := OddHalf(table, b, g, base, odd);
    r := EvenHalf(r, table, b, g, base, 16 * odd, even);
  }

  lemma FirstStrand(b: seq<int>)
    requires |b| >= 2
    ensures Strand(b, 0, 1) == b[0] && Strand(b, 1, 1) == b[1] && Pow(256, 0) == 1
  {
    assert Strand(b, 0, 1) == Strand(b, 0, 0) + b[0] * Pow(256, 0);
    assert Strand(b, 1, 1) == Strand(b, 1, 0) + b[1] * Pow(256, 0);
  }

  /** ge25519_scalarmult_base_niels: for every scalar below 2^255 the result is [s]B, with a fresh t. */
  method ScalarmultBase(table: seq<seq<Byte>>, s: S.Limbs, ghost g: Group<CurvePoint>,
        ghost base: CurvePoint) returns (r: Ge)
    requires CurveGroup(g) && BaseTable(table, g, base) && Below255(s)
    ensures Full(r, Times(g, S.Val(s), base))
  {
    var b := new int[64];
    Window4(b, s);
    assert forall k :: 0 <= k < 64 ==> -8 <= b[..][k] <= 8;
    r := Comb(table, b[..], g, base);
  }
}
