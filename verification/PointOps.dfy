/** Point arithmetic on limbs: every formula stays inside the limb bounds and follows the group law. */
module PointOps {
  import opened ModP
  import opened AbelianGroup
  import opened Edwards
  import opened Field
  import opened Tracked
  import Powers

  /** ge25519: extended coordinates. */
  datatype Ge = Ge(x: Fe, y: Fe, z: Fe, t: Fe)

  /** ge25519_p1p1: completed coordinates. */
  datatype GeP1p1 = GeP1p1(x: Fe, y: Fe, z: Fe, t: Fe)

  /** ge25519_niels: an affine point ready to be added. */
  datatype GeNiels = GeNiels(ysubx: Fe, xaddy: Fe, t2d: Fe)

  /** ge25519_pniels: a projective point ready to be added. */
  datatype GePniels = GePniels(ysubx: Fe, xaddy: Fe, z: Fe, t2d: Fe)

  const EC2D: Fe := Fe(0x0006_9b94_26b2_f159, 0x0003_5050_762a_dd7a, 0x0003_cf44_c003_8052, 0x0006_738c_c740_7977,
    0x0002_406d_9dc5_6dff)

  lemma EC2DVal()
    ensures Is(EC2D, 2 * D, 0)
  {
    CongBy(Val(EC2D), 2 * D, -1);
  }

  ghost predicate Stands(r: Ge, e: Ext) {
    Is(r.x, e.x, 0) && Is(r.y, e.y, 0) && Is(r.z, e.z, 0)
  }

  ghost predicate StandsC(r: GeP1p1, e: Ext) {
    Is(r.x, e.x, 3) && Is(r.y, e.y, 3) && Is(r.z, e.z, 3) && Is(r.t, e.t, 3)
  }

  ghost predicate StandsN(q: GePniels, n: PNiels) {
    Is(q.ysubx, n.ysubx, 3) && Is(q.xaddy, n.xaddy, 3) && Is(q.z, n.z, 3) && Is(q.t2d, n.t2d, 3)
  }

  ghost predicate StandsA(q: GeNiels, n: PNiels) {
    Is(q.ysubx, n.ysubx, 0) && Is(q.xaddy, n.xaddy, 0) && n.z == 1 && Is(q.t2d, n.t2d, 0)
  }

  /** r represents p, its x, y and z tight; its t may be stale. */
  ghost predicate Partial(r: Ge, p: Point) {
    exists e: Ext :: Stands(r, e) && Rep(e, p)
  }

  /** r represents p, and its t is tight and fresh. */
  ghost predicate Full(r: Ge, p: Point) {
    exists e: Ext :: Stands(r, e) && Is(r.t, e.t, 0) && RepT(e, p)
  }

  ghost predicate Completed(r: GeP1p1, p: Point) {
    exists e: Ext :: StandsC(r, e) && RepC(e, p)
  }

  ghost predicate Addend(q: GePniels, p: Point) {
    exists n: PNiels :: StandsN(q, n) && RepN(n, p)
  }

  ghost predicate AffineAddend(q: GeNiels, p: Point) {
    exists n: PNiels :: StandsA(q, n) && RepN(n, p)
  }

  lemma LooseC(r: GeP1p1, e: Ext, kx: nat, ky: nat, kz: nat, kt: nat)
    requires Is(r.x, e.x, kx) && Is(r.y, e.y, ky) && Is(r.z, e.z, kz) && Is(r.t, e.t, kt)
    ensures StandsC(r, e)
  {
    IsLoose(r.x, e.x, kx);
    IsLoose(r.y, e.y, ky);
    IsLoose(r.z, e.z, kz);
    IsLoose(r.t, e.t, kt);
  }

  lemma LooseN(q: GePniels, n: PNiels)
    requires Is(q.ysubx, n.ysubx, 2) && Is(q.xaddy, n.xaddy, 1) && Is(q.z, n.z, 0) && Is(q.t2d, n.t2d, 0)
    ensures StandsN(q, n)
  {
    IsLoose(q.ysubx, n.ysubx, 2);
    IsLoose(q.xaddy, n.xaddy, 1);
    IsLoose(q.z, n.z, 0);
    IsLoose(q.t2d, n.t2d, 0);
  }

  // ---- conversions ----

  /** ge25519_p1p1_to_partial leaves the old t in place. */
  method P1p1ToPartial(t: Fe, p: GeP1p1, ghost pt: Point) returns (r: Ge)
    requires NoZeroDivisors() && Completed(p, pt)
    ensures Partial(r, pt) && r.t == t
  {
    ghost var c :| StandsC(p, c) && RepC(c, pt);
    ghost var vx, vy, vz;
    var x, y, z;
    x, vx := MulT(p.x, p.t, c.x, c.t, 3, 3);
    y, vy := MulT(p.y, p.z, c.y, c.z, 3, 3);
    z, vz := MulT(p.z, p.t, c.z, c.t, 3, 3);
    r := Ge(x, y, z, t);
    ghost var e := Ext(vx, vy, vz, 0);
    ExtendedTrace(c, pt, e);
    assert Stands(r, e);
  }

  method P1p1ToFull(p: GeP1p1, ghost pt: Point) returns (r: Ge)
    requires NoZeroDivisors() && Completed(p, pt)
    ensures Full(r, pt)
  {
    ghost var c :| StandsC(p, c) && RepC(c, pt);
    ghost var vx, vy, vz, vt;
    var x, y, z, t;
    x, vx := MulT(p.x, p.t, c.x, c.t, 3, 3);
    y, vy := MulT(p.y, p.z, c.y, c.z, 3, 3);
    z, vz := MulT(p.z, p.t, c.z, c.t, 3, 3);
    t, vt := MulT(p.x, p.y, c.x, c.y, 3, 3);
    r := Ge(x, y, z, t);
    ghost var e := Ext(vx, vy, vz, vt);
    ExtendedTrace(c, pt, e);
    assert Stands(r, e);
  }

  lemma ExtendedTrace(c: Ext, p: Point, e: Ext)
    requires NoZeroDivisors() && RepC(c, p)
    requires e.x == c.x * c.t && e.y == c.y * c.z && e.z == c.z * c.t
    ensures Rep(e, p)
    ensures e.t == c.x * c.y ==> RepT(e, p)
  {
    CongRefl(e.x);
    CongRefl(e.y);
    CongRefl(e.z);
    CongRefl(e.t);
    CompletedToExtended(c, p, e);
  }

  method FullToPniels(r: Ge, ghost pt: Point) returns (p: GePniels)
    requires Full(r, pt)
    ensures Addend(p, pt)
  {
    ghost var e :| Stands(r, e) && Is(r.t, e.t, 0) && RepT(e, pt);
    ghost var vs, va, vt;
    var ysubx, xaddy, t2d;
    ysubx, vs := SubT(r.y, r.x, e.y, e.x);
    xaddy, va := AddT(r.y, r.x, e.y, e.x);
    EC2DVal();
    t2d, vt := MulT(r.t, EC2D, e.t, 2 * D, 0, 0);
    p := GePniels(ysubx, xaddy, r.z, t2d);
    ghost var n := PNiels(vs, va, e.z, vt);
    NielsTrace(e, pt, n);
    LooseN(p, n);
  }

  lemma NielsTrace(e: Ext, p: Point, n: PNiels)
    requires RepT(e, p)
    requires n.ysubx == e.y - e.x && n.xaddy == e.y + e.x && n.z == e.z && n.t2d == e.t * (2 * D)
    ensures RepN(n, p)
  {
    assert Extends(e, p, 0) && Fresh(e, p, 0);
    SumRep(e, p);
    CongScale(2 * D, e.t, (p.x * p.y) * e.z);
    CongEq(2 * D * e.t, 2 * D * ((p.x * p.y) * e.z), n.t2d, (2 * D * (p.x * p.y)) * e.z);
  }

  // ---- addition and doubling ----

  /** The values of the unified addition, in the order the source computes them. */
  ghost predicate AddTrace(e: Ext, n: PNiels, a: int, b: int, c: int, d: int, out: Ext) {
    && a == (e.y - e.x) * n.ysubx && b == (e.y + e.x) * n.xaddy
    && c == e.t * n.t2d && d == e.z * n.z + e.z * n.z
    && out == Ext(b - a, b + a, d + c, d - c)
  }

  lemma AddTraceSum(e: Ext, p: CurvePoint, n: PNiels, q: CurvePoint, g: Group<CurvePoint>, a: int, b: int, c: int,
        d: int, out: Ext)
    requires CurveGroup(g) && RepT(e, p) && RepN(n, q) && AddTrace(e, n, a, b, c, d, out)
    ensures RepC(out, Op(g, p, q))
  {
    CongRefl(a);
    CongRefl(b);
    CongRefl(c);
    CongRefl(d);
    CongEq(d, d, d, 2 * (e.z * n.z));
    CongRefl(out.x);
    CongRefl(out.y);
    CongRefl(out.z);
    CongRefl(out.t);
    GroupLaw(g, p, q);
    AddCompleted(e, p, n, q, Op(g, p, q), a, b, c, d, out);
  }

  method AddP1p1(p: Ge, q: Ge, ghost g: Group<CurvePoint>, ghost pp: CurvePoint,
        ghost qq: CurvePoint) returns (r: GeP1p1)
    requires CurveGroup(g) && Full(p, pp) && Full(q, qq)
    ensures Completed(r, Op(g, pp, qq))
  {
    ghost var e :| Stands(p, e) && Is(p.t, e.t, 0) && RepT(e, pp);
    ghost var f :| Stands(q, f) && Is(q.t, f.t, 0) && RepT(f, qq);
    ghost var v1, v2, vt, vu, va, vb, v3, vc, v4, vd, w1, w2, w3, w4;
    var a, b, c, d, t, u, x, y, z;
    EC2DVal();
    a, v1 := SubT(p.y, p.x, e.y, e.x);
    b, v2 := AddT(p.y, p.x, e.y, e.x);
    t, vt := SubT(q.y, q.x, f.y, f.x);
    u, vu := AddT(q.y, q.x, f.y, f.x);
    a, va := MulT(a, t, v1, vt, 2, 2);
    b, vb := MulT(b, u, v2, vu, 1, 1);
    c, v3 := MulT(p.t, q.t, e.t, f.t, 0, 0);
    c, vc := MulT(c, EC2D, v3, 2 * D, 0, 0);
    d, v4 := MulT(p.z, q.z, e.z, f.z, 0, 0);
    d, vd := AddT(d, d, v4, v4);
    x, w1 := SubT(b, a, vb, va);
    y, w2 := AddT(b, a, vb, va);
    z, w3 := AddAfterBasicT(d, c, vd, vc);
    t, w4 := SubAfterBasicT(d, c, vd, vc, 1, 0);
    r := GeP1p1(x, y, z, t);
    ghost var out := Ext(w1, w2, w3, w4);
    AddValues(e, pp, f, qq, g, v1, v2, vt, vu, va, vb, v3, vc, v4, vd, out);
    LooseC(r, out, 2, 1, 2, 3);
  }

  lemma AddValues(e: Ext, p: CurvePoint, f: Ext, q: CurvePoint, g: Group<CurvePoint>, v1: int, v2: int, vt: int,
        vu: int,
                  va: int, vb: int, v3: int, vc: int, v4: int, vd: int, out: Ext)
    requires CurveGroup(g) && RepT(e, p) && RepT(f, q)
    requires v1 == e.y - e.x && v2 == e.y + e.x && vt == f.y - f.x && vu == f.y + f.x && va == v1 * vt && vb == v2 * vu
    requires v3 == e.t * f.t && vc == v3 * (2 * D) && v4 == e.z * f.z && vd == v4 + v4
    requires out == Ext(vb - va, vb + va, vd + vc, vd - vc)
    ensures RepC(out, Op(g, p, q))
  {
    var n := PNiels(vt, vu, f.z, f.t * (2 * D));
    NielsTrace(f, q, n);
    Powers.MulAssoc(e.t, f.t, 2 * D);
    AddTraceSum(e, p, n, q, g, va, vb, vc, vd, out);
  }

  /** The doubling formula represents the same point as the unified addition of the point with itself. */
  lemma DoubleTrace(e: Ext, p: CurvePoint, g: Group<CurvePoint>, a: int, b: int, c0: int, c: int, s0: int, s: int,
        out: Ext)
    requires CurveGroup(g) && Rep(e, p)
    requires a == e.x * e.x && b == e.y * e.y && c0 == e.z * e.z && c == c0 + c0 && s0 == e.x + e.y && s == s0 * s0
    requires out == Ext(s - (b + a), b + a, b - a, c - (b - a))
    ensures RepC(out, Op(g, p, p))
  {
    CongRefl(a);
    CongRefl(b);
    CongRefl(s);
    CongRefl(c);
    CongEq(c, c, c, 2 * (e.z * e.z));
    CongRefl(out.x);
    CongRefl(out.y);
    CongRefl(out.z);
    CongRefl(out.t);
    GroupLaw(g, p, p);
    DoubleCompleted(e, p, Op(g, p, p), a, b, c, s, out);
  }

  method DoubleP1p1(p: Ge, ghost g: Group<CurvePoint>, ghost pp: CurvePoint) returns (r: GeP1p1)
    requires CurveGroup(g) && Partial(p, pp)
    ensures Completed(r, Op(g, pp, pp))
  {
    ghost var e :| Stands(p, e) && Rep(e, pp);
    ghost var va, vb, v1, vc, v2, vs, wx, wy, wz, wt;
    var a, b, c, x, y, z, t;
    a, va := SquareT(p.x, e.x, 0);
    b, vb := SquareT(p.y, e.y, 0);
    c, v1 := SquareT(p.z, e.z, 0);
    c, vc := AddReduceT(c, c, v1, v1);
    x, v2 := AddT(p.x, p.y, e.x, e.y);
    x, vs := SquareT(x, v2, 1);
    y, wy := AddT(b, a, vb, va);
    z, wz := SubT(b, a, vb, va);
    x, wx := SubAfterBasicT(x, y, vs, wy, 0, 1);
    t, wt := SubAfterBasicT(c, z, vc, wz, 0, 2);
    r := GeP1p1(x, y, z, t);
    ghost var out := Ext(wx, wy, wz, wt);
    DoubleTrace(e, pp, g, va, vb, v1, vc, v2, vs, out);
    LooseC(r, out, 3, 1, 2, 3);
  }

  method DoublePartial(p: Ge, ghost g: Group<CurvePoint>, ghost pp: CurvePoint) returns (r: Ge)
    requires CurveGroup(g) && Partial(p, pp)
    ensures Partial(r, Op(g, pp, pp))
  {
    var t := DoubleP1p1(p, g, pp);
    r := P1p1ToPartial(p.t, t, Op(g, pp, pp));
  }

  method Double(p: Ge, ghost g: Group<CurvePoint>, ghost pp: CurvePoint) returns (r: Ge)
    requires CurveGroup(g) && Partial(p, pp)
    ensures Full(r, Op(g, pp, pp))
  {
    var t := DoubleP1p1(p, g, pp);
    r := P1p1ToFull(t, Op(g, pp, pp));
  }

  method AddPoints(p: Ge, q: Ge, ghost g: Group<CurvePoint>, ghost pp: CurvePoint, ghost qq: CurvePoint) returns (r: Ge)
    requires CurveGroup(g) && Full(p, pp) && Full(q, qq)
    ensures Full(r, Op(g, pp, qq))
  {
    var t := AddP1p1(p, q, g, pp, qq);
    r := P1p1ToFull(t, Op(g, pp, qq));
  }

  // ---- adding a prepared point, or its negative ----

  lemma NielsNegative(n: PNiels, q: CurvePoint, g: Group<CurvePoint>, m: PNiels)
    requires CurveGroup(g) && RepN(n, q)
    requires m == PNiels(n.xaddy, n.ysubx, n.z, -n.t2d)
    ensures RepN(m, Inv(g, q))
  {
    assert Prepares(n, q, 0);
    var q' := Inv(g, q);
    NegIsInverse(g, q);
    CongMod(-q.x);
    NegSum(q.x, q.y, n.z, q'.x);
    CongTrans(m.ysubx, (q.y + q.x) * n.z, (q'.y - q'.x) * n.z);
    CongTrans(m.xaddy, (q.y - q.x) * n.z, (q'.y + q'.x) * n.z);
    NegT2d(q.x, q.y, n.z, q'.x);
    CongScale(-1, n.t2d, (2 * D * (q.x * q.y)) * n.z);
    CongEq(-1 * n.t2d, -1 * ((2 * D * (q.x * q.y)) * n.z), m.t2d, -1 * ((2 * D * (q.x * q.y)) * n.z));
    CongTrans(m.t2d, -1 * ((2 * D * (q.x * q.y)) * n.z), (2 * D * (q'.x * q'.y)) * n.z);
  }

  lemma NegSum(x: int, y: int, z: int, x': int)
    requires Cong(x', -x)
    ensures Cong((y + x) * z, (y - x') * z) && Cong((y - x) * z, (y + x') * z)
  {
    CongSym(x', -x);
    CongRefl(y);
    CongSub(y, y, -x, x');
    CongScale(z, y - -x, y - x');
    CongAdd(y, y, -x, x');
    CongScale(z, y + -x, y + x');
    CongEq(z * (y - -x), z * (y - x'), (y + x) * z, (y - x') * z);
    CongEq(z * (y + -x), z * (y + x'), (y - x) * z, (y + x') * z);
  }

  lemma NegT2d(x: int, y: int, z: int, x': int)
    requires Cong(x', -x)
    ensures Cong(-1 * ((2 * D * (x * y)) * z), (2 * D * (x' * y)) * z)
  {
    CongSym(x', -x);
    CongScale(y, -x, x');
    CongScale(2 * D, y * (-x), y * x');
    CongScale(z, 2 * D * (y * (-x)), 2 * D * (y * x'));
    CongEq(z * (2 * D * (y * (-x))), z * (2 * D * (y * x')), -1 * ((2 * D * (x * y)) * z), (2 * D * (x' * y)) * z);
  }

  /** The sum, or for signbit 1 the difference. */
  ghost function Signed(g: Group<CurvePoint>, p: CurvePoint, q: CurvePoint, signbit: int): CurvePoint {
    if signbit == 0 then Op(g, p, q) else Op(g, p, Inv(g, q))
  }

  /** A niels form read with its halves exchanged for signbit 1. */
  lemma SignedValues(e: Ext, p: CurvePoint, n: PNiels, q: CurvePoint, g: Group<CurvePoint>, signbit: int,
                     n0: int, n1: int, a: int, b: int, c: int, d: int, out: Ext)
    requires CurveGroup(g) && RepT(e, p) && RepN(n, q) && 0 <= signbit <= 1
    requires if signbit == 0 then n0 == n.ysubx && n1 == n.xaddy else n0 == n.xaddy && n1 == n.ysubx
    requires a == (e.y - e.x) * n0 && b == (e.y + e.x) * n1 && c == e.t * n.t2d && d == e.z * n.z + e.z * n.z
    requires out == if signbit == 0 then Ext(b - a, b + a, d + c, d - c) else Ext(b - a, b + a, d - c, d + c)
    ensures RepC(out, Signed(g, p, q, signbit))
  {
    if signbit == 0 {
      AddTraceSum(e, p, n, q, g, a, b, c, d, out);
    } else {
      var m := PNiels(n.xaddy, n.ysubx, n.z, -n.t2d);
      NielsNegative(n, q, g, m);
      assert e.t * m.t2d == -c;
      AddTraceSum(e, p, m, Inv(g, q), g, a, b, -c, d, out);
    }
  }

  method PnielsaddP1p1(p: Ge, q: GePniels, signbit: int, ghost g: Group<CurvePoint>, ghost pp: CurvePoint,
        ghost qq: CurvePoint)
    returns (r: GeP1p1)
    requires CurveGroup(g) && Full(p, pp) && Addend(q, qq) && 0 <= signbit <= 1
    ensures Completed(r, Signed(g, pp, qq, signbit))
  {
    ghost var e :| Stands(p, e) && Is(p.t, e.t, 0) && RepT(e, pp);
    ghost var n :| StandsN(q, n) && RepN(n, qq);
    var q0, q1 := if signbit == 0 then q.ysubx else q.xaddy, if signbit == 0 then q.xaddy else q.ysubx;
    ghost var n0, n1 := if signbit == 0 then n.ysubx else n.xaddy, if signbit == 0 then n.xaddy else n.ysubx;
    ghost var v1, v2, va, vb, vc, v3, vd, wx, wy, wz, wt;
    var a, b, c, x, y, z, t;
    a, v1 := SubT(p.y, p.x, e.y, e.x);
    b, v2 := AddT(p.y, p.x, e.y, e.x);
    a, va := MulT(a, q0, v1, n0, 2, 3);
    x, vb := MulT(b, q1, v2, n1, 1, 3);
    y, wy := AddT(x, a, vb, va);
    x, wx := SubT(x, a, vb, va);
    c, vc := MulT(p.t, q.t2d, e.t, n.t2d, 0, 3);
    t, v3 := MulT(p.z, q.z, e.z, n.z, 0, 3);
    t, vd := AddReduceT(t, t, v3, v3);
    z := t;
    if signbit == 0 {
      z, wz := AddT(z, c, vd, vc);
      t, wt := SubT(t, c, vd, vc);
    } else {
      t, wt := AddT(t, c, vd, vc);
      z, wz := SubT(z, c, vd, vc);
    }
    r := GeP1p1(x, y, z, t);
    ghost var out := Ext(wx, wy, wz, wt);
    SignedValues(e, pp, n, qq, g, signbit, n0, n1, va, vb, vc, vd, out);
    LooseC(r, out, 2, 1, if signbit == 0 then 1 else 2, if signbit == 0 then 2 else 1);
  }

  method Nielsadd2P1p1(p: Ge, q: GeNiels, signbit: int, ghost g: Group<CurvePoint>, ghost pp: CurvePoint,
        ghost qq: CurvePoint)
    returns (r: GeP1p1)
    requires CurveGroup(g) && Full(p, pp) && AffineAddend(q, qq) && 0 <= signbit <= 1
    ensures Completed(r, Signed(g, pp, qq, signbit))
  {
    ghost var e :| Stands(p, e) && Is(p.t, e.t, 0) && RepT(e, pp);
    ghost var n :| StandsA(q, n) && RepN(n, qq);
    var q0, q1 := if signbit == 0 then q.ysubx else q.xaddy, if signbit == 0 then q.xaddy else q.ysubx;
    ghost var n0, n1 := if signbit == 0 then n.ysubx else n.xaddy, if signbit == 0 then n.xaddy else n.ysubx;
    ghost var v1, v2, va, vb, vc, vd, wx, wy, wz, wt;
    var a, b, c, x, y, z, t;
    a, v1 := SubT(p.y, p.x, e.y, e.x);
    b, v2 := AddT(p.y, p.x, e.y, e.x);
    a, va := MulT(a, q0, v1, n0, 2, 0);
    x, vb := MulT(b, q1, v2, n1, 1, 0);
    y, wy := AddT(x, a, vb, va);
    x, wx := SubT(x, a, vb, va);
    c, vc := MulT(p.t, q.t2d, e.t, n.t2d, 0, 0);
    t, vd := AddReduceT(p.z, p.z, e.z, e.z);
    z := t;
    if signbit == 0 {
      z, wz := AddT(z, c, vd, vc);
      t, wt := SubT(t, c, vd, vc);
    } else {
      t, wt := AddT(t, c, vd, vc);
      z, wz := SubT(z, c, vd, vc);
    }
    r := GeP1p1(x, y, z, t);
    ghost var out := Ext(wx, wy, wz, wt);
    assert e.z * n.z == e.z;
    SignedValues(e, pp, n, qq, g, signbit, n0, n1, va, vb, vc, vd, out);
    LooseC(r, out, 2, 1, if signbit == 0 then 1 else 2, if signbit == 0 then 2 else 1);
  }

  /** ge25519_nielsadd2 adds into r. */
  method Nielsadd2(r: Ge, q: GeNiels, ghost g: Group<CurvePoint>, ghost pp: CurvePoint,
        ghost qq: CurvePoint) returns (r': Ge)
    requires CurveGroup(g) && Full(r, pp) && AffineAddend(q, qq)
    ensures Full(r', Op(g, pp, qq))
  {
    ghost var s :| Stands(r, s) && Is(r.t, s.t, 0) && RepT(s, pp);
    ghost var n :| StandsA(q, n) && RepN(n, qq);
    ghost var v1, v2, va, vb, vc, vd, ve, vh, vg, vf, wx, wy, wz, wt;
    var a, b, c, e, f, g', h, x, y, z, t;
    a, v1 := SubT(r.y, r.x, s.y, s.x);
    b, v2 := AddT(r.y, r.x, s.y, s.x);
    a, va := MulT(a, q.ysubx, v1, n.ysubx, 2, 0);
    e, vb := MulT(b, q.xaddy, v2, n.xaddy, 1, 0);
    h, vh := AddT(e, a, vb, va);
    e, ve := SubT(e, a, vb, va);
    c, vc := MulT(r.t, q.t2d, s.t, n.t2d, 0, 0);
    f, vd := AddT(r.z, r.z, s.z, s.z);
    g', vg := AddAfterBasicT(f, c, vd, vc);
    f, vf := SubAfterBasicT(f, c, vd, vc, 1, 0);
    x, wx := MulT(e, f, ve, vf, 2, 3);
    y, wy := MulT(h, g', vh, vg, 1, 2);
    z, wz := MulT(g', f, vg, vf, 2, 3);
    t, wt := MulT(e, h, ve, vh, 2, 1);
    r' := Ge(x, y, z, t);
    ghost var done := Ext(ve, vh, vg, vf);
    assert s.z * n.z == s.z;
    SignedValues(s, pp, n, qq, g, 0, n.ysubx, n.xaddy, va, vb, vc, vd, done);
    GroupLaw(g, pp, qq);
    ghost var out := Ext(wx, wy, wz, wt);
    ExtendedTrace(done, Op(g, pp, qq), out);
    assert Stands(r', out);
  }

  /** ge25519_pnielsadd: the sum, again in prepared form. */
  method Pnielsadd(p: Ge, q: GePniels, ghost g: Group<CurvePoint>, ghost pp: CurvePoint,
        ghost qq: CurvePoint) returns (r: GePniels)
    requires CurveGroup(g) && Full(p, pp) && Addend(q, qq)
    ensures Addend(r, Op(g, pp, qq))
  {
    ghost var s :| Stands(p, s) && Is(p.t, s.t, 0) && RepT(s, pp);
    ghost var n :| StandsN(q, n) && RepN(n, qq);
    ghost var v1, v2, va, vb, vc, v3, vd, vx, vy, vz, vt, wx, wy, wz, wt, ws, wa, w2;
    var a, b, c, x, y, z, t, xaddy, ysubx, rz, t2d;
    a, v1 := SubT(p.y, p.x, s.y, s.x);
    b, v2 := AddT(p.y, p.x, s.y, s.x);
    a, va := MulT(a, q.ysubx, v1, n.ysubx, 2, 3);
    x, vb := MulT(b, q.xaddy, v2, n.xaddy, 1, 3);
    y, vy := AddT(x, a, vb, va);
    x, vx := SubT(x, a, vb, va);
    c, vc := MulT(p.t, q.t2d, s.t, n.t2d, 0, 3);
    t, v3 := MulT(p.z, q.z, s.z, n.z, 0, 3);
    t, vd := AddT(t, t, v3, v3);
    z, vz := AddAfterBasicT(t, c, vd, vc);
    t, vt := SubAfterBasicT(t, c, vd, vc, 1, 0);
    xaddy, wx := MulT(x, t, vx, vt, 2, 3);
    ysubx, wy := MulT(y, z, vy, vz, 1, 2);
    rz, wz := MulT(z, t, vz, vt, 2, 3);
    t2d, wt := MulT(x, y, vx, vy, 2, 1);
    y := ysubx;
    ysubx, ws := SubT(ysubx, xaddy, wy, wx);
    xaddy, wa := AddT(xaddy, y, wx, wy);
    EC2DVal();
    t2d, w2 := MulT(t2d, EC2D, wt, 2 * D, 0, 0);
    r := GePniels(ysubx, xaddy, rz, t2d);
    ghost var done := Ext(vx, vy, vz, vt);
    SignedValues(s, pp, n, qq, g, 0, n.ysubx, n.xaddy, va, vb, vc, vd, done);
    GroupLaw(g, pp, qq);
    ghost var out := Ext(wx, wy, wz, wt);
    ExtendedTrace(done, Op(g, pp, qq), out);
    ghost var m := PNiels(ws, wa, wz, w2);
    NielsTrace(out, Op(g, pp, qq), m);
    LooseN(r, m);
  }
}
