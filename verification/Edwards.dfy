/** The curve -x^2 + y^2 = 1 + d x^2 y^2 modulo p, its group law, and coordinates that represent its points. */
module Edwards {
  import opened ModP
  import opened AbelianGroup

  const D: int := 0x52036cee2b6ffe738cc740797779e89800700a4d4141d8ab75eb4dca135978a3

  datatype Point = Point(x: int, y: int)

  ghost predicate OnCurve(p: Point) {
    0 <= p.x < P && 0 <= p.y < P && Equation(p)
  }

  /** The equation opens only where a proof names Solve. */
  ghost predicate Equation(p: Point) {
    forall key: int {:trigger Solve(p, key)} :: Solve(p, key) ==>
      Cong(p.y * p.y - p.x * p.x, 1 + D * ((p.x * p.x) * (p.y * p.y)))
  }

  ghost predicate Solve(p: Point, key: int) {
    true
  }

  lemma CurveEquality(p: Point)
    requires OnCurve(p)
    ensures Cong(p.y * p.y - p.x * p.x, 1 + D * ((p.x * p.x) * (p.y * p.y)))
  {
    assert Solve(p, 0);
  }

  lemma OriginOnCurve()
    ensures OnCurve(Point(0, 1))
  {
    CongRefl(1);
  }

  type CurvePoint = p: Point | OnCurve(p) witness (OriginOnCurve(); Point(0, 1))

  // ---- what is taken for granted about p and about the curve ----

  /** p has no zero divisors: it is prime. */
  ghost predicate NoZeroDivisors() {
    forall a: int, b: int {:trigger Factors(a, b)} :: Factors(a, b) && Cong(a * b, 0) ==> Cong(a, 0) || Cong(b, 0)
  }

  ghost predicate Factors(a: int, b: int) {
    true
  }

  /** d x1 x2 y1 y2 */
  function Cross(p: Point, q: Point): int {
    D * ((p.x * q.x) * (p.y * q.y))
  }

  /**
   * Section 5.1.4 of RFC 8032: r is the sum of p and q, and no denominator vanishes. Opens only where a proof names
   * Adds.
   */
  ghost predicate Law(p: Point, q: Point, r: Point) {
    forall key: int {:trigger Adds(p, q, r, key)} :: Adds(p, q, r, key) ==>
      && Cong(r.x * (1 + Cross(p, q)), p.x * q.y + q.x * p.y)
      && Cong(r.y * (1 - Cross(p, q)), p.y * q.y + p.x * q.x)
      && !Cong(1 + Cross(p, q), 0) && !Cong(1 - Cross(p, q), 0)
  }

  ghost predicate Adds(p: Point, q: Point, r: Point, key: int) {
    true
  }

  /** g is the group of the curve: an Abelian group whose addition follows the law. */
  ghost predicate CurveGroup(g: Group<CurvePoint>) {
    && NoZeroDivisors()
    && Abelian(g)
    && forall p: CurvePoint, q: CurvePoint {:trigger Pair(p, q)} :: Pair(p, q) ==> Law(p, q, Op(g, p, q))
  }

  ghost predicate Pair(p: Point, q: Point) {
    true
  }

  lemma NonZeroProduct(a: int, b: int)
    requires NoZeroDivisors() && !Cong(a, 0) && !Cong(b, 0)
    ensures !Cong(a * b, 0)
  {
    assert Factors(a, b);
  }

  lemma CancelFactor(c: int, a: int, b: int)
    requires NoZeroDivisors() && !Cong(c, 0) && Cong(c * a, c * b)
    ensures Cong(a, b)
  {
    CongRefl(c * b);
    CongSub(c * a, c * b, c * b, c * b);
    assert Factors(c, a - b);
    CongEq(c * a - c * b, c * b - c * b, c * (a - b), 0);
    CongRefl(b);
    CongAdd(a - b, 0, b, b);
    CongEq(a - b + b, 0 + b, a, b);
  }

  lemma NonZeroCong(a: int, b: int)
    requires Cong(a, b) && !Cong(b, 0)
    ensures !Cong(a, 0)
  {
    if Cong(a, 0) {
      CongSym(a, b);
      CongTrans(b, a, 0);
    }
  }

  // ---- extended and completed coordinates ----

  datatype Ext = Ext(x: int, y: int, z: int, t: int)

  // The equations below open only where a proof names Extends, Fresh, Completes or Prepares.

  /** x/z and y/z are the coordinates of p; t is not looked at. */
  ghost predicate Rep(e: Ext, p: Point) {
    forall key: int {:trigger Extends(e, p, key)} :: Extends(e, p, key) ==>
      Cong(e.x, p.x * e.z) && Cong(e.y, p.y * e.z) && !Cong(e.z, 0)
  }

  ghost predicate Extends(e: Ext, p: Point, key: int) {
    true
  }

  /** Moreover t is fresh: t = xy/z. */
  ghost predicate RepT(e: Ext, p: Point) {
    Rep(e, p) && forall key: int {:trigger Fresh(e, p, key)} :: Fresh(e, p, key) ==> Cong(e.t, (p.x * p.y) * e.z)
  }

  ghost predicate Fresh(e: Ext, p: Point, key: int) {
    true
  }

  /** Completed coordinates: x/z and y/t are the coordinates of p. */
  ghost predicate RepC(e: Ext, p: Point) {
    forall key: int {:trigger Completes(e, p, key)} :: Completes(e, p, key) ==>
      Cong(e.x, p.x * e.z) && Cong(e.y, p.y * e.t) && !Cong(e.z, 0) && !Cong(e.t, 0)
  }

  ghost predicate Completes(e: Ext, p: Point, key: int) {
    true
  }

  /** A point ready to be added: y - x, y + x and 2dxy, all times z. */
  datatype PNiels = PNiels(ysubx: int, xaddy: int, z: int, t2d: int)

  ghost predicate RepN(q: PNiels, p: Point) {
    forall key: int {:trigger Prepares(q, p, key)} :: Prepares(q, p, key) ==>
      && Cong(q.ysubx, (p.y - p.x) * q.z) && Cong(q.xaddy, (p.y + p.x) * q.z)
      && Cong(q.t2d, (2 * D * (p.x * p.y)) * q.z) && !Cong(q.z, 0)
  }

  ghost predicate Prepares(q: PNiels, p: Point, key: int) {
    true
  }

  lemma CongScaled(x: int, a: int, z: int, y: int, b: int, w: int)
    requires Cong(x, a * z) && Cong(y, b * w)
    ensures Cong(x * y, (z * w) * (a * b))
  {
    CongMul(x, a * z, y, b * w);
    Regroup(a, z, b, w);
    CongEq(x * y, (a * z) * (b * w), x * y, (z * w) * (a * b));
  }

  lemma Regroup(a: int, z: int, b: int, w: int)
    ensures (a * z) * (b * w) == (z * w) * (a * b)
  {
    assert (a * z) * (b * w) == a * (z * (b * w));
    assert z * (b * w) == (z * w) * b;
    assert a * ((z * w) * b) == (z * w) * (a * b);
  }

  /** Completed to extended: three multiplications give Rep, the fourth gives a fresh t. */
  lemma CompletedToExtended(c: Ext, p: Point, e: Ext)
    requires NoZeroDivisors() && RepC(c, p)
    requires Cong(e.x, c.x * c.t) && Cong(e.y, c.y * c.z) && Cong(e.z, c.z * c.t)
    ensures Rep(e, p)
    ensures Cong(e.t, c.x * c.y) ==> RepT(e, p)
  {
    assert Completes(c, p, 0);
    NonZeroProduct(c.z, c.t);
    NonZeroCong(e.z, c.z * c.t);
    ToExtended(c.x, p.x, c.z, c.t, e.x, e.z);
    CongEq(e.z, c.z * c.t, e.z, c.t * c.z);
    ToExtended(c.y, p.y, c.t, c.z, e.y, e.z);
    if Cong(e.t, c.x * c.y) {
      CongScaled(c.x, p.x, c.z, c.y, p.y, c.t);
      CongTrans(e.t, c.x * c.y, (c.z * c.t) * (p.x * p.y));
      CongSym(e.z, c.z * c.t);
      CongScale(p.x * p.y, c.z * c.t, e.z);
      CongEq((p.x * p.y) * (c.z * c.t), (p.x * p.y) * e.z, (c.z * c.t) * (p.x * p.y), (p.x * p.y) * e.z);
      CongTrans(e.t, (c.z * c.t) * (p.x * p.y), (p.x * p.y) * e.z);
    }
  }

  lemma ToExtended(x: int, a: int, z: int, t: int, ex: int, ez: int)
    requires Cong(x, a * z) && Cong(ex, x * t) && Cong(ez, z * t)
    ensures Cong(ex, a * ez)
  {
    CongScale(t, x, a * z);
    CongEq(t * x, t * (a * z), x * t, a * (z * t));
    CongSym(ez, z * t);
    CongScale(a, z * t, ez);
    CongTrans(ex, x * t, a * (z * t));
    CongTrans(ex, a * (z * t), a * ez);
  }

  /** The four completed coordinates of a sum, up to a common factor u. */
  lemma CompletedSum(u: int, p: Point, q: Point, r: Point, c: Ext)
    requires NoZeroDivisors() && Law(p, q, r) && !Cong(u, 0)
    requires Cong(c.x, u * (p.x * q.y + q.x * p.y)) && Cong(c.y, u * (p.y * q.y + p.x * q.x))
    requires Cong(c.z, u * (1 + Cross(p, q))) && Cong(c.t, u * (1 - Cross(p, q)))
    ensures RepC(c, r)
  {
    assert Adds(p, q, r, 0);
    var e := Cross(p, q);
    NonZeroProduct(u, 1 + e);
    NonZeroCong(c.z, u * (1 + e));
    NonZeroProduct(u, 1 - e);
    NonZeroCong(c.t, u * (1 - e));
    Quotient(u, r.x, 1 + e, p.x * q.y + q.x * p.y, c.x, c.z);
    Quotient(u, r.y, 1 - e, p.y * q.y + p.x * q.x, c.y, c.t);
  }

  lemma Quotient(u: int, r: int, den: int, num: int, x: int, z: int)
    requires Cong(r * den, num) && Cong(x, u * num) && Cong(z, u * den)
    ensures Cong(x, r * z)
  {
    CongSym(r * den, num);
    CongScale(u, num, r * den);
    CongTrans(x, u * num, u * (r * den));
    assert u * (r * den) == r * (u * den);
    CongSym(z, u * den);
    CongScale(r, u * den, z);
    CongTrans(x, r * (u * den), r * z);
  }

  // ---- the addition and doubling formulas ----

  lemma TwoNonZero()
    ensures !Cong(2, 0)
  {
    if Cong(2, 0) {
      var k := CongFactor(2, 0);
      assert false;
    }
  }

  lemma SumIdentities(w: int, x1: int, y1: int, x2: int, y2: int)
    ensures w * ((y1 + x1) * (y2 + x2)) - w * ((y1 - x1) * (y2 - x2)) == (2 * w) * (x1 * y2 + x2 * y1)
    ensures w * ((y1 + x1) * (y2 + x2)) + w * ((y1 - x1) * (y2 - x2)) == (2 * w) * (y1 * y2 + x1 * x2)
  {
    assert (y1 + x1) * (y2 + x2) - (y1 - x1) * (y2 - x2) == 2 * (x1 * y2 + x2 * y1);
    assert (y1 + x1) * (y2 + x2) + (y1 - x1) * (y2 - x2) == 2 * (y1 * y2 + x1 * x2);
    Factor(w, (y1 + x1) * (y2 + x2), (y1 - x1) * (y2 - x2), x1 * y2 + x2 * y1, y1 * y2 + x1 * x2);
  }

  lemma Factor(w: int, b: int, a: int, s: int, t: int)
    requires b - a == 2 * s && b + a == 2 * t
    ensures w * b - w * a == (2 * w) * s && w * b + w * a == (2 * w) * t
  {
    assert w * b - w * a == w * (b - a);
    assert w * b + w * a == w * (b + a);
  }

  lemma CrossIdentity(w: int, p: Point, q: Point)
    ensures w * ((p.x * p.y) * (2 * D * (q.x * q.y))) == (2 * w) * Cross(p, q)
  {
    var a, b := p.x * p.y, q.x * q.y;
    Regroup(p.x, p.y, q.x, q.y);
    assert a * b == (p.x * q.x) * (p.y * q.y) by {
      assert (p.x * p.y) * (q.x * q.y) == (p.y * q.y) * (p.x * q.x);
    }
    assert a * (2 * D * b) == 2 * (D * (a * b));
    assert w * (2 * (D * (a * b))) == (2 * w) * (D * (a * b));
  }

  /** Sum and difference of coordinates scale with z. */
  lemma SumRep(e: Ext, p: Point)
    requires Rep(e, p)
    ensures Cong(e.y - e.x, (p.y - p.x) * e.z) && Cong(e.y + e.x, (p.y + p.x) * e.z)
  {
    assert Extends(e, p, 0);
    CongSub(e.y, p.y * e.z, e.x, p.x * e.z);
    CongAdd(e.y, p.y * e.z, e.x, p.x * e.z);
    CongEq(e.y - e.x, p.y * e.z - p.x * e.z, e.y - e.x, (p.y - p.x) * e.z);
    CongEq(e.y + e.x, p.y * e.z + p.x * e.z, e.y + e.x, (p.y + p.x) * e.z);
  }

  /** The unified addition, as ge25519_add_p1p1 and the niels variants compute it. */
  lemma AddCompleted(e: Ext, p: Point, n: PNiels, q: Point, r: Point, a: int, b: int, c: int, d: int, out: Ext)
    requires NoZeroDivisors() && RepT(e, p) && RepN(n, q) && Law(p, q, r)
    requires Cong(a, (e.y - e.x) * n.ysubx) && Cong(b, (e.y + e.x) * n.xaddy)
    requires Cong(c, e.t * n.t2d) && Cong(d, 2 * (e.z * n.z))
    requires Cong(out.x, b - a) && Cong(out.y, b + a) && Cong(out.z, d + c) && Cong(out.t, d - c)
    ensures RepC(out, r)
  {
    assert Extends(e, p, 0) && Fresh(e, p, 0) && Prepares(n, q, 0);
    var w := e.z * n.z;
    var u := 2 * w;
    SumRep(e, p);
    CongScaled(e.y - e.x, p.y - p.x, e.z, n.ysubx, q.y - q.x, n.z);
    CongTrans(a, (e.y - e.x) * n.ysubx, w * ((p.y - p.x) * (q.y - q.x)));
    CongScaled(e.y + e.x, p.y + p.x, e.z, n.xaddy, q.y + q.x, n.z);
    CongTrans(b, (e.y + e.x) * n.xaddy, w * ((p.y + p.x) * (q.y + q.x)));
    SumIdentities(w, p.x, p.y, q.x, q.y);
    Combine(a, b, w * ((p.y - p.x) * (q.y - q.x)), w * ((p.y + p.x) * (q.y + q.x)), out.x, out.y,
            u * (p.x * q.y + q.x * p.y), u * (p.y * q.y + p.x * q.x));
    CongScaled(e.t, p.x * p.y, e.z, n.t2d, 2 * D * (q.x * q.y), n.z);
    CrossIdentity(w, p, q);
    CongTrans(c, e.t * n.t2d, u * Cross(p, q));
    Distribute(u, Cross(p, q));
    Combine(c, d, u * Cross(p, q), u, out.t, out.z, u * (1 - Cross(p, q)), u * (1 + Cross(p, q)));
    NonZeroProduct(e.z, n.z);
    TwoNonZero();
    NonZeroProduct(2, w);
    CompletedSum(u, p, q, r, out);
  }

  lemma Distribute(u: int, e: int)
    ensures u - u * e == u * (1 - e) && u + u * e == u * (1 + e)
  {
  }

  lemma Combine(a: int, b: int, a': int, b': int, x: int, y: int, diff: int, sum: int)
    requires Cong(a, a') && Cong(b, b') && Cong(x, b - a) && Cong(y, b + a)
    requires diff == b' - a' && sum == b' + a'
    ensures Cong(x, diff) && Cong(y, sum)
  {
    CongSub(b, b', a, a');
    CongAdd(b, b', a, a');
    CongTrans(x, b - a, b' - a');
    CongTrans(y, b + a, b' + a');
  }

  /** ge25519_double_p1p1 computes the unified sum of the point with itself; t is not read. */
  lemma DoubleCompleted(e: Ext, p: Point, r: Point, a: int, b: int, c: int, s: int, out: Ext)
    requires NoZeroDivisors() && OnCurve(p) && Rep(e, p) && Law(p, p, r)
    requires Cong(a, e.x * e.x) && Cong(b, e.y * e.y) && Cong(c, 2 * (e.z * e.z)) && Cong(s, (e.x + e.y) * (e.x + e.y))
    requires Cong(out.y, b + a) && Cong(out.z, b - a) && Cong(out.x, s - out.y) && Cong(out.t, c - out.z)
    ensures RepC(out, r)
  {
    assert Extends(e, p, 0);
    var u := e.z * e.z;
    var xx, yy, xy := p.x * p.x, p.y * p.y, p.x * p.y;
    CongScaled(e.x, p.x, e.z, e.x, p.x, e.z);
    CongTrans(a, e.x * e.x, u * xx);
    CongScaled(e.y, p.y, e.z, e.y, p.y, e.z);
    CongTrans(b, e.y * e.y, u * yy);
    Expand2(u, yy, xx);
    Combine(a, b, u * xx, u * yy, out.z, out.y, u * (yy - xx), u * (yy + xx));
    // x = (X + Y)^2 - (X^2 + Y^2) = 2XY
    SumRep(e, p);
    CongEq(e.y + e.x, (p.y + p.x) * e.z, e.x + e.y, (p.y + p.x) * e.z);
    CongScaled(e.x + e.y, p.y + p.x, e.z, e.x + e.y, p.y + p.x, e.z);
    CongTrans(s, (e.x + e.y) * (e.x + e.y), u * ((p.y + p.x) * (p.y + p.x)));
    SquareOfSum(u, p.x, p.y);
    Difference(s, u * ((p.y + p.x) * (p.y + p.x)), out.y, u * (yy + xx), out.x, u * (xy + xy));
    // z = Y^2 - X^2 = Z^2 (1 + d x^2 y^2), t = 2Z^2 - z
    CurveEquality(p);
    CongScale(u, yy - xx, 1 + Cross(p, p));
    CongTrans(out.z, u * (yy - xx), u * (1 + Cross(p, p)));
    Distribute(u, Cross(p, p));
    Difference(c, 2 * u, out.z, u * (1 + Cross(p, p)), out.t, u * (1 - Cross(p, p)));
    NonZeroProduct(e.z, e.z);
    CompletedSum(u, p, p, r, out);
  }

  lemma Expand2(u: int, b: int, a: int)
    ensures u * (b - a) == u * b - u * a && u * (b + a) == u * b + u * a
  {
  }

  lemma SquareOfSum(u: int, x: int, y: int)
    ensures u * ((y + x) * (y + x)) - u * (y * y + x * x) == u * (x * y + x * y)
  {
    assert (y + x) * (y + x) == (y * y + x * x) + (x * y + x * y);
  }

  lemma Difference(a: int, a': int, b: int, b': int, x: int, diff: int)
    requires Cong(a, a') && Cong(b, b') && Cong(x, a - b) && diff == a' - b'
    ensures Cong(x, diff)
  {
    CongSub(a, a', b, b');
    CongTrans(x, a - b, a' - b');
  }

  // ---- the neutral element and negation ----

  lemma GroupLaw(g: Group<CurvePoint>, p: CurvePoint, q: CurvePoint)
    requires CurveGroup(g)
    ensures Law(p, q, Op(g, p, q)) && NoZeroDivisors() && Abelian(g)
  {
    assert Pair(p, q);
  }

  /** The points of the curve: reduced coordinates that satisfy its equation. */
  lemma CurveExactly(p: Point)
    ensures OnCurve(p) <==>
              && 0 <= p.x < P && 0 <= p.y < P
              && Cong(p.y * p.y - p.x * p.x, 1 + D * ((p.x * p.x) * (p.y * p.y)))
  {
    assert Solve(p, 0);
  }

  /** The sum of two points by section 5.1.4 of RFC 8032, with denominators that do not vanish. */
  lemma SumExactly(g: Group<CurvePoint>, p: CurvePoint, q: CurvePoint, r: CurvePoint, c: int)
    requires CurveGroup(g) && r == Op(g, p, q) && c == D * ((p.x * q.x) * (p.y * q.y))
    ensures Cong(r.x * (1 + c), p.x * q.y + q.x * p.y) && Cong(r.y * (1 - c), p.y * q.y + p.x * q.x)
    ensures !Cong(1 + c, 0) && !Cong(1 - c, 0)
  {
    GroupLaw(g, p, q);
    assert Adds(p, q, r, 0);
  }

  lemma OneNonZero()
    ensures !Cong(1, 0)
  {
    if Cong(1, 0) {
      var k := CongFactor(1, 0);
      assert false;
    }
  }

  lemma Neutral(g: Group<CurvePoint>)
    requires CurveGroup(g)
    ensures g.zero == Point(0, 1)
  {
    OriginOnCurve();
    var o: CurvePoint := Point(0, 1);
    GroupLaw(g, o, o);
    var r := Op(g, o, o);
    assert Adds(o, o, r, 0);
    assert Cross(o, o) == 0;
    CongEq(r.x * (1 + Cross(o, o)), 0 * 1 + 0 * 1, r.x, 0);
    CongEq(r.y * (1 - Cross(o, o)), 1 * 1 + 0 * 0, r.y, 1);
    CongUnique(r.x, 0);
    CongUnique(r.y, 1);
    Zero(g, o);
    Cancel(g, o, o, g.zero);
  }

  function NegPoint(p: Point): Point {
    Point((-p.x) % P, p.y)
  }

  lemma NegOnCurve(p: CurvePoint)
    ensures OnCurve(NegPoint(p))
  {
    var x := (-p.x) % P;
    CurveEquality(p);
    CongMod(-p.x);
    CongMul(x, -p.x, x, -p.x);
    CongEq(x * x, (-p.x) * (-p.x), x * x, p.x * p.x);
    CongRefl(p.y * p.y);
    CongSub(p.y * p.y, p.y * p.y, x * x, p.x * p.x);
    CongTrans(p.y * p.y - x * x, p.y * p.y - p.x * p.x, 1 + D * ((p.x * p.x) * (p.y * p.y)));
    CongSym(x * x, p.x * p.x);
    CongMul(p.x * p.x, x * x, p.y * p.y, p.y * p.y);
    CongScale(D, (p.x * p.x) * (p.y * p.y), (x * x) * (p.y * p.y));
    CongRefl(1);
    CongAdd(1, 1, D * ((p.x * p.x) * (p.y * p.y)), D * ((x * x) * (p.y * p.y)));
    CongTrans(p.y * p.y - x * x, 1 + D * ((p.x * p.x) * (p.y * p.y)), 1 + D * ((x * x) * (p.y * p.y)));
  }

  /** The inverse of (x, y) is (-x, y). */
  lemma NegIsInverse(g: Group<CurvePoint>, p: CurvePoint)
    requires CurveGroup(g)
    ensures Inv(g, p) == NegPoint(p)
  {
    NegOnCurve(p);
    var q: CurvePoint := NegPoint(p);
    var r := Op(g, p, q);
    GroupLaw(g, p, q);
    CongMod(-p.x);
    NegX(p, q, r);
    NegY(p, q, r);
    Neutral(g);
    NegUnique(g, p, q);
  }

  /** The numerator of x is xy + (-x)y. */
  lemma NegX(p: CurvePoint, q: CurvePoint, r: CurvePoint)
    requires NoZeroDivisors() && Law(p, q, r) && Cong(q.x, -p.x) && q.y == p.y
    ensures r.x == 0
  {
    assert Adds(p, q, r, 0);
    var den, num := 1 + Cross(p, q), p.x * q.y + q.x * p.y;
    NegNumerator(p.x, p.y, q.x);
    CongTrans(r.x * den, num, 0);
    ZeroQuotient(r.x, den);
    CongUnique(r.x, 0);
  }

  lemma NegNumerator(x: int, y: int, x': int)
    requires Cong(x', -x)
    ensures Cong(x * y + x' * y, 0)
  {
    CongScale(y, x', -x);
    CongRefl(x * y);
    CongAdd(x * y, x * y, y * x', y * (-x));
    CongEq(x * y + y * x', x * y + y * (-x), x * y + x' * y, 0);
  }

  lemma ZeroQuotient(x: int, den: int)
    requires NoZeroDivisors() && Cong(x * den, 0) && !Cong(den, 0)
    ensures Cong(x, 0)
  {
    assert Factors(x, den);
  }

  /** The numerator of y is y^2 - x^2 = 1 + d x^2 y^2, which is the denominator. */
  lemma NegY(p: CurvePoint, q: CurvePoint, r: CurvePoint)
    requires NoZeroDivisors() && Law(p, q, r) && Cong(q.x, -p.x) && q.y == p.y
    ensures r.y == 1
  {
    assert Adds(p, q, r, 0);
    var den := 1 - Cross(p, q);
    var num := p.y * q.y + p.x * q.x;
    CongScale(p.x, q.x, -p.x);
    CongRefl(p.y * p.y);
    CongAdd(p.y * p.y, p.y * p.y, p.x * q.x, p.x * (-p.x));
    CongEq(p.y * p.y + p.x * q.x, p.y * p.y + p.x * (-p.x), num, p.y * p.y - p.x * p.x);
    CurveEquality(p);
    CongTrans(num, p.y * p.y - p.x * p.x, 1 + D * ((p.x * p.x) * (p.y * p.y)));
    NegCross(p, q);
    CongTrans(num, 1 + D * ((p.x * p.x) * (p.y * p.y)), den);
    CongTrans(r.y * den, num, den);
    CongEq(r.y * den, den, den * r.y, den * 1);
    CancelFactor(den, r.y, 1);
    CongUnique(r.y, 1);
  }

  lemma NegCross(p: Point, q: Point)
    requires Cong(p.x * q.x, p.x * (-p.x)) && q.y == p.y
    ensures Cong(1 + D * ((p.x * p.x) * (p.y * p.y)), 1 - Cross(p, q))
  {
    var yy := p.y * p.y;
    CongRefl(yy);
    CongMul(p.x * q.x, p.x * (-p.x), yy, yy);
    CongScale(D, (p.x * q.x) * yy, (p.x * (-p.x)) * yy);
    CongRefl(1);
    CongSub(1, 1, Cross(p, q), D * ((p.x * (-p.x)) * yy));
    assert D * ((p.x * (-p.x)) * yy) == -(D * ((p.x * p.x) * yy));
    CongSym(1 - Cross(p, q), 1 - D * ((p.x * (-p.x)) * yy));
    CongEq(1 - D * ((p.x * (-p.x)) * yy), 1 - Cross(p, q), 1 + D * ((p.x * p.x) * yy), 1 - Cross(p, q));
  }
}
