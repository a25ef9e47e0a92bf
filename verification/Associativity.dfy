/** The addition law of the curve is associative. */
module Associativity {
  import opened Powers
  import opened ModP
  import opened Edwards
  import opened Encoding
  import opened EdwardsLaw

  // ---- products of coordinates ----

  // For two points: a = x1 x3 - y1 y3, b = x3 y1 - x1 y3, c = x1 y3 + x3 y1, g = x1 x3 + y1 y3;
  // for one point: m = xy, n = y^2 - x^2, s = y^2 + x^2.

  lemma Foil(p: int, q: int, r: int, s: int)
    ensures (p + q) * (r + s) == p * r + p * s + q * r + q * s
    ensures (p - q) * (r - s) == p * r - p * s - q * r + q * s
    ensures (p - q) * (r + s) == p * r + p * s - q * r - q * s
  {
  }

  lemma ProductAB(x1: int, y1: int, x3: int, y3: int)
    ensures (x3 * y3) * (y1 * y1 + x1 * x1) - (x1 * y1) * (y3 * y3 + x3 * x3)
      == -((x1 * x3 - y1 * y3) * (x3 * y1 - x1 * y3))
  {
    Foil(x1 * x3, y1 * y3, x3 * y1, x1 * y3);
    MulSwap(x3, x1, x3, y1);
    MulSwap(x1, x3, x1, y3);
    MulSwap(y1, y3, y1, x3);
    MulSwap(y3, y1, y3, x1);
  }

  lemma ProductAC(x1: int, y1: int, x3: int, y3: int)
    ensures (x1 * y1) * (y3 * y3 - x3 * x3) + (x3 * y3) * (y1 * y1 - x1 * x1)
      == -((x1 * x3 - y1 * y3) * (x1 * y3 + x3 * y1))
  {
    Foil(x1 * x3, y1 * y3, x1 * y3, x3 * y1);
    MulSwap(x3, x1, x3, y1);
    MulSwap(x1, x3, x1, y3);
    MulSwap(y1, y3, y1, x3);
    MulSwap(y3, y1, y3, x1);
  }

  lemma ProductBG(x1: int, y1: int, x3: int, y3: int)
    ensures (y1 * y1 - x1 * x1) * (x3 * y3) - (y3 * y3 - x3 * x3) * (x1 * y1)
      == (x3 * y1 - x1 * y3) * (x1 * x3 + y1 * y3)
  {
    Foil(x3 * y1, x1 * y3, x1 * x3, y1 * y3);
    MulSwap(x3, y1, x3, x1);
    MulSwap(x1, y3, x1, x3);
    MulSwap(y1, x3, y1, y3);
    MulSwap(y3, x1, y3, y1);
  }

  lemma ProductAG(x1: int, y1: int, x3: int, y3: int)
    ensures (y1 * y1 - x1 * x1) * (y3 * y3 + x3 * x3) + (y3 * y3 - x3 * x3) * (y1 * y1 + x1 * x1)
      == -2 * ((x1 * x3 - y1 * y3) * (x1 * x3 + y1 * y3))
  {
    Foil(x1 * x3, y1 * y3, x1 * x3, y1 * y3);
    Foil(y1 * y1, x1 * x1, y3 * y3, x3 * x3);
    Foil(y3 * y3, x3 * x3, y1 * y1, x1 * x1);
    MulSwap(x1, x3, x1, x3);
    MulSwap(y1, y3, y1, y3);
  }

  lemma ProductBC(x1: int, y1: int, x3: int, y3: int)
    ensures (y1 * y1 - x1 * x1) * (y3 * y3 + x3 * x3) - (y3 * y3 - x3 * x3) * (y1 * y1 + x1 * x1)
      == 2 * ((x3 * y1 - x1 * y3) * (x1 * y3 + x3 * y1))
  {
    Foil(x3 * y1, x1 * y3, x1 * y3, x3 * y1);
    Foil(y1 * y1, x1 * x1, y3 * y3, x3 * x3);
    Foil(y3 * y3, x3 * x3, y1 * y1, x1 * x1);
    MulSwap(x1, y3, x1, y3);
    MulSwap(x3, y1, x3, y1);
  }

  lemma SumC(x1: int, y1: int, x3: int, y3: int)
    ensures (x1 * y3 + x3 * y1) * ((y3 * y3 - x3 * x3) - (y1 * y1 - x1 * x1))
         == 2 * ((x1 * x3 - y1 * y3) * (x1 * y1 - x3 * y3))
           - (x3 * y1 - x1 * y3) * ((y1 * y1 + x1 * x1) + (y3 * y3 + x3 * x3))
  {
    Foil(x1 * x3, y1 * y3, x1 * y1, x3 * y3);
    MulSwap(x1, x3, x1, y1);
    MulSwap(x3, x1, x3, y3);
    MulSwap(y1, y3, y1, x1);
    MulSwap(y3, y1, y3, x3);
    MixC(x1 * y3, x3 * y1, x1 * x1, y1 * y1, x3 * x3, y3 * y3);
  }

  lemma MixC(p: int, q: int, u: int, v: int, w: int, z: int)
    ensures (p + q) * ((z - w) - (v - u)) == 2 * (u * q - w * p - v * p + z * q) - (q - p) * ((v + u) + (z + w))
  {
  }

  lemma SumG(x1: int, y1: int, x3: int, y3: int)
    ensures (x1 * x3 + y1 * y3) * ((y3 * y3 - x3 * x3) - (y1 * y1 - x1 * x1))
         == (x1 * x3 - y1 * y3) * ((y1 * y1 + x1 * x1) - (y3 * y3 + x3 * x3))
           - 2 * ((x3 * y1 - x1 * y3) * (x1 * y1 + x3 * y3))
  {
    Foil(x3 * y1, x1 * y3, x1 * y1, x3 * y3);
    MulSwap(y1, x3, y1, x1);
    MulSwap(x3, y1, x3, y3);
    MulSwap(x1, y3, x1, y1);
    MulSwap(y3, x1, y3, x3);
    MixG(x1 * x3, y1 * y3, x1 * x1, y1 * y1, x3 * x3, y3 * y3);
  }

  lemma MixG(p: int, q: int, u: int, v: int, w: int, z: int)
    ensures (p + q) * ((z - w) - (v - u)) == (p - q) * ((v + u) - (z + w)) - 2 * (v * p + w * q - u * q - z * p)
  {
  }

  // ---- the two sums of three points, cleared of denominators ----

  /** The x coordinate of (p1 + p2) + p3 is NumX / DenX. */
  function NumX(x1: int, y1: int, x2: int, y2: int, x3: int, y3: int): int {
    var e := Cross4(x1, y1, x2, y2);
    ((x1 * y2 + x2 * y1) * (1 - e)) * y3 + x3 * ((y1 * y2 + x1 * x2) * (1 + e))
  }

  function DenX(x1: int, y1: int, x2: int, y2: int, x3: int, y3: int): int {
    var e := Cross4(x1, y1, x2, y2);
    (1 - e * e) + D * (((x1 * y2 + x2 * y1) * (y1 * y2 + x1 * x2)) * (x3 * y3))
  }

  lemma NumForm(x1: int, y1: int, x2: int, y2: int, x3: int, y3: int, e: int)
    ensures ((x1 * y2 + x2 * y1) * (1 - e)) * y3 + x3 * ((y1 * y2 + x1 * x2) * (1 + e))
         == (y2 * (x1 * y3 + x3 * y1) + x2 * (x1 * x3 + y1 * y3))
           + e * (x2 * (x1 * x3 - y1 * y3) + y2 * (x3 * y1 - x1 * y3))
  {
    var u, v := (x1 * y2 + x2 * y1) * y3, x3 * (y1 * y2 + x1 * x2);
    assert ((x1 * y2 + x2 * y1) * (1 - e)) * y3 == u - e * u by { MulAssoc(x1 * y2 + x2 * y1, 1 - e, y3); }
    assert x3 * ((y1 * y2 + x1 * x2) * (1 + e)) == v + e * v by { MulAssoc(x3, y1 * y2 + x1 * x2, 1 + e); }
    assert u + v == y2 * (x1 * y3 + x3 * y1) + x2 * (x1 * x3 + y1 * y3);
    assert v - u == x2 * (x1 * x3 - y1 * y3) + y2 * (x3 * y1 - x1 * y3);
  }

  lemma DenForm(x1: int, y1: int, x2: int, y2: int)
    ensures (x1 * y2 + x2 * y1) * (y1 * y2 + x1 * x2)
      == (x1 * y1) * (y2 * y2 + x2 * x2) + (x2 * y2) * (y1 * y1 + x1 * x1)
  {
  }

  // ---- the difference of the cross products, for abstract m, s and k = d m^2 ----

  lemma DenDifference(d: int, m1: int, m2: int, m3: int, s1: int, s2: int, s3: int, k1: int, k2: int, k3: int, l: int,
        r: int)
    requires k2 == d * (m2 * m2)
    requires l == 1 - k1 * k2 + d * ((m1 * s2 + m2 * s1) * m3) && r == 1 - k2 * k3 + d * ((m2 * s3 + m3 * s2) * m1)
    ensures l - r == (d * m2) * (m2 * (k3 - k1) + (m3 * s1 - m1 * s3))
  {
    var u, v, w := (m1 * s2 + m2 * s1) * m3, (m2 * s3 + m3 * s2) * m1, m3 * s1 - m1 * s3;
    assert u - v == m2 * w;
    assert d * u - d * v == d * (u - v);
    MulAssoc(d, m2, w);
    assert k2 * k3 - k1 * k2 == k2 * (k3 - k1);
    assert k2 * (k3 - k1) == (d * m2) * (m2 * (k3 - k1)) by {
      MulAssoc(d, m2, m2);
      MulAssoc(d * m2, m2, k3 - k1);
    }
    assert (d * m2) * (m2 * (k3 - k1) + w) == (d * m2) * (m2 * (k3 - k1)) + (d * m2) * w;
  }

  lemma ScaledDen(d: int, m1: int, m2: int, m3: int, s1: int, s2: int, k: int, k3: int)
    requires k3 == d * (m3 * m3)
    ensures m3 * (1 - k + d * ((m1 * s2 + m2 * s1) * m3)) == m3 - k * m3 + s2 * (k3 * m1) + m2 * (k3 * s1)
  {
    var w := m1 * s2 + m2 * s1;
    assert m3 * (d * (w * m3)) == k3 * w by {
      MulAssoc(d, m3 * m3, w);
      MulAssoc(m3, m3, w);
      MulAssoc(m3, d, w * m3);
      MulAssoc(d, m3, w * m3);
    }
    assert k3 * w == k3 * (m1 * s2) + k3 * (m2 * s1);
    MulAssoc(k3, m1, s2);
    assert k3 * (m2 * s1) == m2 * (k3 * s1) by { MulAssoc(k3, m2, s1); MulAssoc(m2, k3, s1); }
  }

  lemma DenSums(d: int, m1: int, m2: int, m3: int, s1: int, s2: int, s3: int, k1: int, k2: int, k3: int, l: int, r: int)
    requires k1 == d * (m1 * m1) && k3 == d * (m3 * m3)
    requires l == 1 - k1 * k2 + d * ((m1 * s2 + m2 * s1) * m3) && r == 1 - k2 * k3 + d * ((m2 * s3 + m3 * s2) * m1)
    ensures m1 * r - m3 * l == (m1 - m3) + (k2 + s2) * (k1 * m3 - k3 * m1) + m2 * (k1 * s3 - k3 * s1)
    ensures m1 * r + m3 * l == (m1 + m3) + (s2 - k2) * (k1 * m3 + k3 * m1) + m2 * (k1 * s3 + k3 * s1)
  {
    ScaledDen(d, m1, m2, m3, s1, s2, k1 * k2, k3);
    ScaledDen(d, m3, m2, m1, s3, s2, k2 * k3, k1);
    assert (k1 * k2) * m3 == k2 * (k1 * m3) by { MulAssoc(k2, k1, m3); }
    MulAssoc(k2, k3, m1);
    Gather(m1, m3, k2, s2, m2, k1 * m3, k3 * m1, k1 * s3, k3 * s1, m1 * r, m3 * l);
  }

  lemma Gather(m1: int, m3: int, k2: int, s2: int, m2: int, u: int, v: int, p: int, q: int, r: int, l: int)
    requires l == m3 - k2 * u + s2 * v + m2 * q && r == m1 - k2 * v + s2 * u + m2 * p
    ensures r - l == (m1 - m3) + (k2 + s2) * (u - v) + m2 * (p - q)
    ensures r + l == (m1 + m3) + (s2 - k2) * (u + v) + m2 * (p + q)
  {
  }

  lemma CrossDifference(t: int, al: int, be: int, c: int, m1: int, m3: int, l: int, r: int, q: int)
    requires l - r == c * q
    ensures (t + (c * m1) * (al + be)) * r - (t + (c * m3) * (al - be)) * l
         == c * (al * (m1 * r - m3 * l) + be * (m1 * r + m3 * l) - t * q)
  {
    var u, v := m1 * r, m3 * l;
    MoveFactor(c, m1, al + be, r);
    MoveFactor(c, m3, al - be, l);
    assert t * r - t * l == -(c * (t * q)) by {
      assert t * r - t * l == -(t * (l - r));
      MulAssoc(t, c, q);
      MulAssoc(c, t, q);
    }
    Halves(al, be, u, v);
    var p, p', w := (al + be) * u, (al - be) * v, t * q;
    assert c * (p - p' - w) == c * p - c * p' - c * w;
  }

  lemma MoveFactor(c: int, m: int, w: int, r: int)
    ensures ((c * m) * w) * r == c * (w * (m * r))
  {
    MulAssoc(c * m, w, r);
    MulAssoc(c, m, w * r);
    MulAssoc(m, w, r);
    MulAssoc(w, m, r);
  }

  lemma Halves(al: int, be: int, u: int, v: int)
    ensures (al + be) * u - (al - be) * v == al * (u - v) + be * (u + v)
  {
  }

  // ---- the combination that vanishes ----

  lemma Spread2(x2: int, y2: int, m2: int, a: int, u: int, h: int, v: int)
    requires m2 == x2 * y2
    ensures (x2 * a) * (2 * ((y2 * y2) * u) + h + m2 * v) == (y2 * m2) * (2 * (a * u)) + x2 * (a * h)
      + (x2 * m2) * (a * v)
  {
    var p, q := 2 * ((y2 * y2) * u), m2 * v;
    assert (x2 * a) * p == (y2 * m2) * (2 * (a * u)) by {
      MulSwap(x2, a, y2 * y2, u);
      MulAssoc(x2, y2, y2);
    }
    MulAssoc(x2, a, h);
    MulSwap(x2, a, m2, v);
    assert (x2 * a) * (p + h + q) == (x2 * a) * p + (x2 * a) * h + (x2 * a) * q;
  }

  lemma SpreadProduct(x2: int, y2: int, m2: int, c: int, g: int, dn: int, h: int)
    ensures (y2 * c + x2 * g) * (m2 * dn - h) == (y2 * m2) * (c * dn) + (x2 * m2) * (g * dn) - y2 * (c * h)
      - x2 * (g * h)
  {
    MulSwap(y2, c, m2, dn);
    MulSwap(x2, g, m2, dn);
    MulAssoc(y2, c, h);
    MulAssoc(x2, g, h);
    var p := m2 * dn;
    assert (y2 * c + x2 * g) * (p - h) == (y2 * c) * p + (x2 * g) * p - (y2 * c) * h - (x2 * g) * h;
  }

  lemma Coefficients(a: int, b: int, c: int, g: int, dn: int, md: int, ms: int, sd: int, ss: int)
    requires c * dn == 2 * (a * md) - b * ss && g * dn == a * sd - 2 * (b * ms)
    ensures 2 * (a * (b * g + md)) + b * (-2 * (a * g) - ss) == c * dn
    ensures a * (2 * (b * c) + sd) + 2 * (b * (-(a * c) - ms)) == g * dn
    ensures a * -(b * g) == -(g * (a * b)) && b * -(a * c) == -(c * (a * b))
  {
    MulAssoc(a, b, g);
    MulAssoc(b, a, g);
    MulAssoc(a, b, c);
    MulAssoc(b, a, c);
  }

  /** The coefficients of y2, of x2, of y2 m2 and of x2 m2 all vanish. */
  lemma Vanishing(x2: int, y2: int, m2: int, a: int, b: int, c: int, g: int, dn: int, ab: int, u: int, h: int, v: int,
        u': int, h': int, v': int)
    requires m2 == x2 * y2 && 2 * (a * u) + b * v' == c * dn && a * v + 2 * (b * u') == g * dn
    requires a * h == -(g * ab) && b * h' == -(c * ab)
    ensures (x2 * a) * (2 * ((y2 * y2) * u) + h + m2 * v) + (y2 * b) * (2 * ((x2 * x2) * u') + h' + m2 * v')
         == (y2 * c + x2 * g) * (m2 * dn - ab)
  {
    Spread2(x2, y2, m2, a, u, h, v);
    Spread2(y2, x2, m2, b, u', h', v');
    SpreadProduct(x2, y2, m2, c, g, dn, ab);
    Match(y2 * m2, 2 * (a * u), b * v', c * dn);
    Match(x2 * m2, a * v, 2 * (b * u'), g * dn);
    Match(x2, a * h, g * ab, 0);
    Match(y2, b * h', c * ab, 0);
  }

  lemma Match(k: int, p: int, q: int, r: int)
    requires p + q == r
    ensures k * p + k * q == k * r
  {
  }

  // ---- on the curve d m^2 is n - 1 ----

  lemma CurveProduct(x: int, y: int)
    requires Curve(x, y)
    ensures Cong(D * ((x * y) * (x * y)), (y * y - x * x) - 1)
  {
    var k := D * ((x * y) * (x * y));
    MulSwap(x, x, y, y);
    CongSym(y * y - x * x, 1 + k);
    CongRefl(1);
    CongSub(1 + k, y * y - x * x, 1, 1);
    CongEq(1 + k - 1, y * y - x * x - 1, k, (y * y - x * x) - 1);
  }

  lemma ReplacedSum(h: int, f: int, f': int, u: int, u': int, m: int, v: int, v': int)
    requires Cong(f, f') && Cong(u, u') && Cong(v, v')
    ensures Cong(h + f * u + m * v, h + f' * u' + m * v')
  {
    CongMul(f, f', u, u');
    CongScale(m, v, v');
    CongRefl(h);
    CongAdd(h, h, f * u, f' * u');
    CongAdd(h + f * u, h + f' * u', m * v, m * v');
  }

  lemma CongTimes(a: int, b: int, c: int)
    requires Cong(a, b)
    ensures Cong(a * c, b * c)
  {
    CongScale(c, a, b);
  }

  lemma CongOffset(k: int, l: int, s: int)
    requires Cong(k, l)
    ensures Cong(k + s, l + s) && Cong(s - k, s - l)
  {
    CongRefl(s);
    CongAdd(k, l, s, s);
    CongSub(s, s, k, l);
  }

  lemma CombinedCong(al: int, be: int, t: int, p: int, p': int, q: int, q': int, r: int, r': int)
    requires Cong(p, p') && Cong(q, q') && Cong(r, r') && al * p' + be * q' == t * r'
    ensures Cong(al * p + be * q - t * r, 0)
  {
    CongScale(al, p, p');
    CongScale(be, q, q');
    CongScale(t, r, r');
    CongAdd(al * p, al * p', be * q, be * q');
    CongSub(al * p + be * q, al * p' + be * q', t * r, t * r');
    CongEq(al * p + be * q - t * r, al * p' + be * q' - t * r', al * p + be * q - t * r, 0);
  }

  /** The three replaced expressions, in the products of the coordinates. */
  lemma ReplacedForms(m1: int, m3: int, n1: int, n3: int, s1: int, s3: int, ab: int, ac: int, bg: int, ag: int,
        bc: int, m2: int, xx: int, yy: int)
    requires m3 * s1 - m1 * s3 == -ab && m1 * n3 + m3 * n1 == -ac && n1 * m3 - n3 * m1 == bg
    requires n1 * s3 + n3 * s1 == -2 * ag && n1 * s3 - n3 * s1 == 2 * bc
    ensures m2 * ((n3 - 1) - (n1 - 1)) + (m3 * s1 - m1 * s3) == m2 * (n3 - n1) - ab
    ensures (m1 - m3) + ((yy - xx - 1) + (yy + xx)) * ((n1 - 1) * m3 - (n3 - 1) * m1)
      + m2 * ((n1 - 1) * s3 - (n3 - 1) * s1)
         == 2 * (yy * (bg + (m1 - m3))) + -bg + m2 * (2 * bc + (s1 - s3))
    ensures (m1 + m3) + ((yy + xx) - (yy - xx - 1)) * ((n1 - 1) * m3 + (n3 - 1) * m1)
      + m2 * ((n1 - 1) * s3 + (n3 - 1) * s1)
         == 2 * (xx * (-ac - (m1 + m3))) + -ac + m2 * (-2 * ag - (s1 + s3))
  {
    var u, w := bg + (m1 - m3), -ac - (m1 + m3);
    assert (n1 - 1) * m3 - (n3 - 1) * m1 == u;
    assert (n1 - 1) * m3 + (n3 - 1) * m1 == w;
    assert (n1 - 1) * s3 - (n3 - 1) * s1 == 2 * bc + (s1 - s3);
    assert (n1 - 1) * s3 + (n3 - 1) * s1 == -2 * ag - (s1 + s3);
    assert (2 * yy - 1) * u == 2 * (yy * u) - u;
    assert (2 * xx + 1) * w == 2 * (xx * w) + w;
  }

  /** The combination vanishes on the curve. */
  lemma CurveVanishing(x1: int, y1: int, x2: int, y2: int, x3: int, y3: int, k1: int, k2: int, k3: int)
    requires Curve(x1, y1) && Curve(x2, y2) && Curve(x3, y3)
    requires k1 == D * ((x1 * y1) * (x1 * y1)) && k2 == D * ((x2 * y2) * (x2 * y2)) && k3 == D * ((x3 * y3) * (x3 * y3))
    ensures var m1, m2, m3, s1, s2, s3 := x1 * y1, x2 * y2, x3 * y3, y1 * y1 + x1 * x1, y2 * y2 + x2 * x2,
      y3 * y3 + x3 * x3;
            Cong((x2 * (x1 * x3 - y1 * y3)) * ((m1 - m3) + (k2 + s2) * (k1 * m3 - k3 * m1) + m2 * (k1 * s3 - k3 * s1))
               + (y2 * (x3 * y1 - x1 * y3)) * ((m1 + m3) + (s2 - k2) * (k1 * m3 + k3 * m1) + m2 * (k1 * s3 + k3 * s1))
               - (y2 * (x1 * y3 + x3 * y1) + x2 * (x1 * x3 + y1 * y3)) * (m2 * (k3 - k1) + (m3 * s1 - m1 * s3)), 0)
  {
    var m1, m2, m3, s1, s2, s3 := x1 * y1, x2 * y2, x3 * y3, y1 * y1 + x1 * x1, y2 * y2 + x2 * x2, y3 * y3 + x3 * x3;
    var n1, n3 := y1 * y1 - x1 * x1, y3 * y3 - x3 * x3;
    var a, b, c, g := x1 * x3 - y1 * y3, x3 * y1 - x1 * y3, x1 * y3 + x3 * y1, x1 * x3 + y1 * y3;
    CurveProduct(x1, y1);
    CurveProduct(x2, y2);
    CurveProduct(x3, y3);
    PointProducts(x1, y1, x3, y3, m1, m3, n1, n3, s1, s3, a, b, c, g);
    ProductsVanish(x2, y2, m1, m2, m3, n1, n3, s1, s2, s3, k1, k2, k3, a, b, c, g);
  }

  lemma ProductsVanish(x2: int, y2: int, m1: int, m2: int, m3: int, n1: int, n3: int, s1: int, s2: int, s3: int,
                       k1: int, k2: int, k3: int, a: int, b: int, c: int, g: int)
    requires m2 == x2 * y2 && s2 == y2 * y2 + x2 * x2 && Cong(k1, n1 - 1) && Cong(k2, (y2 * y2 - x2 * x2) - 1)
      && Cong(k3, n3 - 1)
    requires m3 * s1 - m1 * s3 == -(a * b) && m1 * n3 + m3 * n1 == -(a * c) && n1 * m3 - n3 * m1 == b * g
    requires n1 * s3 + n3 * s1 == -2 * (a * g) && n1 * s3 - n3 * s1 == 2 * (b * c)
    requires c * (n3 - n1) == 2 * (a * (m1 - m3)) - b * (s1 + s3)
      && g * (n3 - n1) == a * (s1 - s3) - 2 * (b * (m1 + m3))
    ensures Cong((x2 * a) * ((m1 - m3) + (k2 + s2) * (k1 * m3 - k3 * m1) + m2 * (k1 * s3 - k3 * s1))
               + (y2 * b) * ((m1 + m3) + (s2 - k2) * (k1 * m3 + k3 * m1) + m2 * (k1 * s3 + k3 * s1))
               - (y2 * c + x2 * g) * (m2 * (k3 - k1) + (m3 * s1 - m1 * s3)), 0)
  {
    CurveReplaced(m1, m2, m3, s1, s2, s3, k1, k2, k3, n1 - 1, y2 * y2 - x2 * x2 - 1, n3 - 1);
    ReplacedForms(m1, m3, n1, n3, s1, s3, a * b, a * c, b * g, a * g, b * c, m2, x2 * x2, y2 * y2);
    Coefficients(a, b, c, g, n3 - n1, m1 - m3, m1 + m3, s1 - s3, s1 + s3);
    var u, v, u', v' := b * g + (m1 - m3), 2 * (b * c) + (s1 - s3), -(a * c) - (m1 + m3), -2 * (a * g) - (s1 + s3);
    Vanishing(x2, y2, m2, a, b, c, g, n3 - n1, a * b, u, -(b * g), v, u', -(a * c), v');
    CombinedCong(x2 * a, y2 * b, y2 * c + x2 * g,
      (m1 - m3) + (k2 + s2) * (k1 * m3 - k3 * m1) + m2 * (k1 * s3 - k3 * s1), 2 * ((y2 * y2) * u) + -(b * g) + m2 * v,
      (m1 + m3) + (s2 - k2) * (k1 * m3 + k3 * m1) + m2 * (k1 * s3 + k3 * s1), 2 * ((x2 * x2) * u') + -(a * c) + m2 * v',
      m2 * (k3 - k1) + (m3 * s1 - m1 * s3), m2 * (n3 - n1) - a * b);
  }

  lemma PointProducts(x1: int, y1: int, x3: int, y3: int, m1: int, m3: int, n1: int, n3: int, s1: int, s3: int, a: int,
        b: int, c: int, g: int)
    requires m1 == x1 * y1 && m3 == x3 * y3 && n1 == y1 * y1 - x1 * x1 && n3 == y3 * y3 - x3 * x3
    requires s1 == y1 * y1 + x1 * x1 && s3 == y3 * y3 + x3 * x3
    requires a == x1 * x3 - y1 * y3 && b == x3 * y1 - x1 * y3 && c == x1 * y3 + x3 * y1 && g == x1 * x3 + y1 * y3
    ensures m3 * s1 - m1 * s3 == -(a * b) && m1 * n3 + m3 * n1 == -(a * c) && n1 * m3 - n3 * m1 == b * g
    ensures n1 * s3 + n3 * s1 == -2 * (a * g) && n1 * s3 - n3 * s1 == 2 * (b * c)
    ensures c * (n3 - n1) == 2 * (a * (m1 - m3)) - b * (s1 + s3) && g * (n3 - n1) == a * (s1 - s3) - 2 * (b * (m1 + m3))
  {
    ProductAB(x1, y1, x3, y3);
    ProductAC(x1, y1, x3, y3);
    ProductBG(x1, y1, x3, y3);
    ProductAG(x1, y1, x3, y3);
    ProductBC(x1, y1, x3, y3);
    SumC(x1, y1, x3, y3);
    SumG(x1, y1, x3, y3);
  }

  lemma CurveReplaced(m1: int, m2: int, m3: int, s1: int, s2: int, s3: int, k1: int, k2: int, k3: int, l1: int,
        l2: int, l3: int)
    requires Cong(k1, l1) && Cong(k2, l2) && Cong(k3, l3)
    ensures Cong((m1 - m3) + (k2 + s2) * (k1 * m3 - k3 * m1) + m2 * (k1 * s3 - k3 * s1),
                 (m1 - m3) + (l2 + s2) * (l1 * m3 - l3 * m1) + m2 * (l1 * s3 - l3 * s1))
    ensures Cong((m1 + m3) + (s2 - k2) * (k1 * m3 + k3 * m1) + m2 * (k1 * s3 + k3 * s1),
                 (m1 + m3) + (s2 - l2) * (l1 * m3 + l3 * m1) + m2 * (l1 * s3 + l3 * s1))
    ensures Cong(m2 * (k3 - k1) + (m3 * s1 - m1 * s3), m2 * (l3 - l1) + (m3 * s1 - m1 * s3))
  {
    CongOffset(k2, l2, s2);
    CongTimes(k1, l1, m3);
    CongTimes(k3, l3, m1);
    CongTimes(k1, l1, s3);
    CongTimes(k3, l3, s1);
    CongSub(k1 * m3, l1 * m3, k3 * m1, l3 * m1);
    CongAdd(k1 * m3, l1 * m3, k3 * m1, l3 * m1);
    CongSub(k1 * s3, l1 * s3, k3 * s1, l3 * s1);
    CongAdd(k1 * s3, l1 * s3, k3 * s1, l3 * s1);
    ReplacedSum(m1 - m3, k2 + s2, l2 + s2, k1 * m3 - k3 * m1, l1 * m3 - l3 * m1, m2, k1 * s3 - k3 * s1,
      l1 * s3 - l3 * s1);
    ReplacedSum(m1 + m3, s2 - k2, s2 - l2, k1 * m3 + k3 * m1, l1 * m3 + l3 * m1, m2, k1 * s3 + k3 * s1,
      l1 * s3 + l3 * s1);
    CongSub(k3, l3, k1, l1);
    CongScale(m2, k3 - k1, l3 - l1);
    CongOffset(m2 * (k3 - k1), m2 * (l3 - l1), m3 * s1 - m1 * s3);
  }

  // ---- the quotients agree ----

  lemma RotatedForms(x1: int, y1: int, x2: int, y2: int, x3: int, y3: int)
    ensures y3 * (x2 * y1 + x1 * y2) + x3 * (x2 * x1 + y2 * y1) == y2 * (x1 * y3 + x3 * y1) + x2 * (x1 * x3 + y1 * y3)
    ensures x3 * (x2 * x1 - y2 * y1) + y3 * (x1 * y2 - x2 * y1) == x2 * (x1 * x3 - y1 * y3) - y2 * (x3 * y1 - x1 * y3)
  {
    Triple(y3, x2, y1);
    Triple(y3, y2, x1);
    Triple(x3, x2, x1);
    Triple(x3, y2, y1);
  }

  lemma Triple(a: int, b: int, c: int)
    ensures a * (b * c) == b * (a * c)
  {
    MulAssoc(a, b, c);
    MulAssoc(b, a, c);
  }

  lemma CrossForm(x1: int, y1: int, x2: int, y2: int)
    ensures Cross4(x1, y1, x2, y2) == (D * (x2 * y2)) * (x1 * y1)
    ensures Cross4(x1, y1, x2, y2) == (D * (x1 * y1)) * (x2 * y2)
  {
    MulSwap(x1, x2, y1, y2);
    MulAssoc(D, x2 * y2, x1 * y1);
    MulAssoc(D, x1 * y1, x2 * y2);
  }

  /** Both ways of adding three points give the same x coordinate. */
  lemma SameRatio(x1: int, y1: int, x2: int, y2: int, x3: int, y3: int)
    requires Curve(x1, y1) && Curve(x2, y2) && Curve(x3, y3)
    ensures Cong(NumX(x1, y1, x2, y2, x3, y3) * DenX(x2, y2, x3, y3, x1, y1),
      NumX(x2, y2, x3, y3, x1, y1) * DenX(x1, y1, x2, y2, x3, y3))
  {
    var m1, m2, m3, s1, s2, s3 := x1 * y1, x2 * y2, x3 * y3, y1 * y1 + x1 * x1, y2 * y2 + x2 * x2, y3 * y3 + x3 * x3;
    var k1, k2, k3 := D * (m1 * m1), D * (m2 * m2), D * (m3 * m3);
    var t, al, be := y2 * (x1 * y3 + x3 * y1) + x2 * (x1 * x3 + y1 * y3), x2 * (x1 * x3 - y1 * y3),
      y2 * (x3 * y1 - x1 * y3);
    var l, r := DenX(x1, y1, x2, y2, x3, y3), DenX(x2, y2, x3, y3, x1, y1);
    Numerators(x1, y1, x2, y2, x3, y3);
    Denominator(x1, y1, x2, y2, x3, y3);
    Denominator(x2, y2, x3, y3, x1, y1);
    CurveVanishing(x1, y1, x2, y2, x3, y3, k1, k2, k3);
    DenDifference(D, m1, m2, m3, s1, s2, s3, k1, k2, k3, l, r);
    DenSums(D, m1, m2, m3, s1, s2, s3, k1, k2, k3, l, r);
    var q := m2 * (k3 - k1) + (m3 * s1 - m1 * s3);
    var e := al * (m1 * r - m3 * l) + be * (m1 * r + m3 * l) - t * q;
    CrossDifference(t, al, be, D * m2, m1, m3, l, r, q);
    CongScale(D * m2, e, 0);
    DifferenceZero(NumX(x1, y1, x2, y2, x3, y3) * r, NumX(x2, y2, x3, y3, x1, y1) * l);
  }

  lemma Numerators(x1: int, y1: int, x2: int, y2: int, x3: int, y3: int)
    ensures var t, al, be, c := y2 * (x1 * y3 + x3 * y1) + x2 * (x1 * x3 + y1 * y3), x2 * (x1 * x3 - y1 * y3),
      y2 * (x3 * y1 - x1 * y3), D * (x2 * y2);
            && NumX(x1, y1, x2, y2, x3, y3) == t + (c * (x1 * y1)) * (al + be)
            && NumX(x2, y2, x3, y3, x1, y1) == t + (c * (x3 * y3)) * (al - be)
  {
    CrossForm(x1, y1, x2, y2);
    CrossForm(x2, y2, x3, y3);
    NumForm(x1, y1, x2, y2, x3, y3, Cross4(x1, y1, x2, y2));
    NumForm(x2, y2, x3, y3, x1, y1, Cross4(x2, y2, x3, y3));
    RotatedForms(x1, y1, x2, y2, x3, y3);
  }

  lemma Denominator(x1: int, y1: int, x2: int, y2: int, x3: int, y3: int)
    ensures var m1, m2, m3, s1, s2 := x1 * y1, x2 * y2, x3 * y3, y1 * y1 + x1 * x1, y2 * y2 + x2 * x2;
            DenX(x1, y1, x2, y2, x3, y3) == 1 - (D * (m1 * m1)) * (D * (m2 * m2)) + D * ((m1 * s2 + m2 * s1) * m3)
  {
    DenForm(x1, y1, x2, y2);
    SquareOfCross4(x1, y1, x2, y2);
    MulSwap(x1, x1, y1, y1);
    MulSwap(x2, x2, y2, y2);
  }

  /** A sum with a sum, cleared of the inner denominators. */
  lemma ClearedX(ax: int, ux: int, uy: int, e: int, x: int, y: int, x3: int, y3: int)
    requires Cong(ux * (1 + e), x) && Cong(uy * (1 - e), y)
    requires Cong(ax * (1 + D * ((ux * x3) * (uy * y3))), ux * y3 + x3 * uy)
    ensures Cong((1 - e * e) * (1 + D * ((ux * x3) * (uy * y3))), (1 - e * e) + D * ((x * y) * (x3 * y3)))
    ensures Cong(ax * ((1 - e * e) + D * ((x * y) * (x3 * y3))), (x * (1 - e)) * y3 + x3 * (y * (1 + e)))
  {
    var n, k, d := 1 - e * e, D * ((ux * x3) * (uy * y3)), (1 - e * e) + D * ((x * y) * (x3 * y3));
    InnerProduct(ux, uy, e, x, y, x3, y3);
    InnerSum(ux, uy, e, x, y, x3, y3);
    CongScale(n, ax * (1 + k), ux * y3 + x3 * uy);
    CongScale(ax, n * (1 + k), d);
    CongSym(ax * (n * (1 + k)), ax * d);
    assert n * (ax * (1 + k)) == ax * (n * (1 + k)) by { MulAssoc(n, ax, 1 + k); MulAssoc(ax, n, 1 + k); }
    CongTrans(ax * d, n * (ax * (1 + k)), n * (ux * y3 + x3 * uy));
    CongTrans(ax * d, n * (ux * y3 + x3 * uy), (x * (1 - e)) * y3 + x3 * (y * (1 + e)));
  }

  lemma InnerProduct(ux: int, uy: int, e: int, x: int, y: int, x3: int, y3: int)
    requires Cong(ux * (1 + e), x) && Cong(uy * (1 - e), y)
    ensures Cong((1 - e * e) * (1 + D * ((ux * x3) * (uy * y3))), (1 - e * e) + D * ((x * y) * (x3 * y3)))
  {
    var n, w := 1 - e * e, x3 * y3;
    CongMul(ux * (1 + e), x, uy * (1 - e), y);
    CongScale(D * w, (ux * (1 + e)) * (uy * (1 - e)), x * y);
    CongRefl(n);
    CongAdd(n, n, (D * w) * ((ux * (1 + e)) * (uy * (1 - e))), (D * w) * (x * y));
    MulSwap(ux, x3, uy, y3);
    MulSwap(ux, 1 + e, uy, 1 - e);
    assert (1 + e) * (1 - e) == n;
    assert (D * w) * (x * y) == D * ((x * y) * w) by { MulAssoc(D, w, x * y); }
    assert (D * w) * ((ux * uy) * n) == n * (D * ((ux * uy) * w)) by {
      MulAssoc(D, w, (ux * uy) * n);
      MulAssoc(w, ux * uy, n);
      MulAssoc(D, (ux * uy) * w, n);
    }
    Distribute(n, D * ((ux * uy) * w));
    CongEq(n + (D * w) * ((ux * (1 + e)) * (uy * (1 - e))), n + (D * w) * (x * y),
           n * (1 + D * ((ux * x3) * (uy * y3))), n + D * ((x * y) * w));
  }

  lemma InnerSum(ux: int, uy: int, e: int, x: int, y: int, x3: int, y3: int)
    requires Cong(ux * (1 + e), x) && Cong(uy * (1 - e), y)
    ensures Cong((1 - e * e) * (ux * y3 + x3 * uy), (x * (1 - e)) * y3 + x3 * (y * (1 + e)))
  {
    InnerTerm(ux, 1 + e, 1 - e, x, y3);
    InnerTerm(uy, 1 - e, 1 + e, y, x3);
    var n := 1 - e * e;
    assert (1 + e) * (1 - e) == n && (1 - e) * (1 + e) == n;
    CongAdd(n * (ux * y3), (x * (1 - e)) * y3, n * (uy * x3), (y * (1 + e)) * x3);
    assert n * (ux * y3) + n * (uy * x3) == n * (ux * y3 + x3 * uy);
  }

  lemma InnerTerm(u: int, den: int, other: int, x: int, z: int)
    requires Cong(u * den, x)
    ensures Cong((den * other) * (u * z), (x * other) * z)
  {
    CongScale(other * z, u * den, x);
    MulSwap(other, z, den, u);
    MulAssoc(x, other, z);
    CongEq((other * z) * (u * den), (other * z) * x, (den * other) * (u * z), (x * other) * z);
  }

  /** The x coordinate of u + r, for u = p + q. */
  lemma SumOfThreeX(p: Point, q: Point, r: Point, u: Point, a: Point)
    requires NoZeroDivisors() && Law(p, q, u) && Law(u, r, a)
    ensures Cong(a.x * DenX(p.x, p.y, q.x, q.y, r.x, r.y), NumX(p.x, p.y, q.x, q.y, r.x, r.y))
    ensures !Cong(DenX(p.x, p.y, q.x, q.y, r.x, r.y), 0)
  {
    assert Adds(p, q, u, 0) && Adds(u, r, a, 0);
    var e, x, y := Cross(p, q), p.x * q.y + q.x * p.y, p.y * q.y + p.x * q.x;
    ClearedX(a.x, u.x, u.y, e, x, y, r.x, r.y);
    NonZeroProduct(1 + e, 1 - e);
    assert (1 + e) * (1 - e) == 1 - e * e;
    NonZeroProduct(1 - e * e, 1 + Cross(u, r));
    CongSym((1 - e * e) * (1 + Cross(u, r)), DenX(p.x, p.y, q.x, q.y, r.x, r.y));
    NonZeroCong(DenX(p.x, p.y, q.x, q.y, r.x, r.y), (1 - e * e) * (1 + Cross(u, r)));
  }

  lemma SameFraction(a: int, b: int, num: int, den: int, num': int, den': int)
    requires NoZeroDivisors() && Cong(a * den, num) && Cong(b * den', num') && Cong(num * den', num' * den)
      && !Cong(den, 0) && !Cong(den', 0)
    ensures Cong(a, b)
  {
    CongScale(den', a * den, num);
    CongScale(den, b * den', num');
    CongSym(den * (b * den'), den * num');
    CongEq(num * den', num' * den, den' * num, den * num');
    CongTrans(den' * (a * den), den' * num, den * num');
    CongTrans(den' * (a * den), den * num', den * (b * den'));
    assert den' * (a * den) == (den * den') * a by { MulAssoc(den, den', a); MulAssoc(den', den, a); }
    assert den * (b * den') == (den * den') * b by { MulAssoc(den, den', b); }
    NonZeroProduct(den, den');
    CancelFactor(den * den', a, b);
  }

  /** The two sums of three points have the same x coordinate. */
  lemma SameX(p: Point, q: Point, r: Point, u: Point, v: Point, a: Point, b: Point)
    requires NoZeroDivisors() && Curve(p.x, p.y) && Curve(q.x, q.y) && Curve(r.x, r.y)
    requires Law(p, q, u) && Law(u, r, a) && Law(q, r, v) && Law(v, p, b)
    ensures Cong(a.x, b.x)
  {
    SumOfThreeX(p, q, r, u, a);
    SumOfThreeX(q, r, p, v, b);
    SameRatio(p.x, p.y, q.x, q.y, r.x, r.y);
    SameFraction(a.x, b.x, NumX(p.x, p.y, q.x, q.y, r.x, r.y), DenX(p.x, p.y, q.x, q.y, r.x, r.y),
                 NumX(q.x, q.y, r.x, r.y, p.x, p.y), DenX(q.x, q.y, r.x, r.y, p.x, p.y));
  }

  // ---- the y coordinate, by a rotation of the third point ----

  /** Adding the point (i, 0), of order four. */
  function Rotate(p: Point): Point {
    Point(I * p.y, I * p.x)
  }

  lemma RotatedProduct(x: int, y: int)
    ensures Cong((I * y) * (I * x), -(x * y))
  {
    SqrtNeg1Val();
    MulSwap(I, y, I, x);
    CongScale(x * y, I * I, -1);
    CongEq((x * y) * (I * I), (x * y) * -1, (I * y) * (I * x), -(x * y));
  }

  lemma RotatedCurve(x: int, y: int)
    requires Curve(x, y)
    ensures Curve(I * y, I * x)
  {
    RotatedProduct(x, x);
    RotatedProduct(y, y);
    CongSub((I * x) * (I * x), -(x * x), (I * y) * (I * y), -(y * y));
    CongEq((I * x) * (I * x) - (I * y) * (I * y), -(x * x) - -(y * y), (I * x) * (I * x) - (I * y) * (I * y),
      y * y - x * x);
    CongMul((I * y) * (I * y), -(y * y), (I * x) * (I * x), -(x * x));
    assert -(y * y) * -(x * x) == (x * x) * (y * y);
    CongScale(D, ((I * y) * (I * y)) * ((I * x) * (I * x)), (x * x) * (y * y));
    CongRefl(1);
    CongAdd(1, 1, D * (((I * y) * (I * y)) * ((I * x) * (I * x))), D * ((x * x) * (y * y)));
    CongSym(1 + D * (((I * y) * (I * y)) * ((I * x) * (I * x))), 1 + D * ((x * x) * (y * y)));
    CongTrans((I * x) * (I * x) - (I * y) * (I * y), y * y - x * x, 1 + D * ((x * x) * (y * y)));
    CongTrans((I * x) * (I * x) - (I * y) * (I * y), 1 + D * ((x * x) * (y * y)),
      1 + D * (((I * y) * (I * y)) * ((I * x) * (I * x))));
  }

  /** Rotating one summand rotates the sum. */
  lemma RotatedLaw(p: Point, q: Point, r: Point)
    requires Law(p, q, r)
    ensures Law(p, Rotate(q), Rotate(r))
  {
    assert Adds(p, q, r, 0);
    var c, c', q' := Cross(p, q), Cross(p, Rotate(q)), Rotate(q);
    RotatedCross(p, q);
    Flipped(c, c');
    CongScale(I, r.y * (1 - c), p.y * q.y + p.x * q.x);
    CongScale(I * r.y, 1 + c', 1 - c);
    MulAssoc(I, r.y, 1 - c);
    CongTrans((I * r.y) * (1 + c'), I * (r.y * (1 - c)), I * (p.y * q.y + p.x * q.x));
    assert I * (p.y * q.y + p.x * q.x) == p.x * q'.y + q'.x * p.y by { Rotations(p.x, p.y, q.x, q.y, I); }
    CongScale(I, r.x * (1 + c), p.x * q.y + q.x * p.y);
    CongScale(I * r.x, 1 - c', 1 + c);
    MulAssoc(I, r.x, 1 + c);
    CongTrans((I * r.x) * (1 - c'), I * (r.x * (1 + c)), I * (p.x * q.y + q.x * p.y));
    assert I * (p.x * q.y + q.x * p.y) == p.y * q'.y + p.x * q'.x by { Rotations(p.x, p.y, q.x, q.y, I); }
    NonZeroCong(1 + c', 1 - c);
    NonZeroCong(1 - c', 1 + c);
  }

  lemma Rotations(x1: int, y1: int, x2: int, y2: int, i: int)
    ensures i * (y1 * y2 + x1 * x2) == x1 * (i * x2) + (i * y2) * y1
    ensures i * (x1 * y2 + x2 * y1) == y1 * (i * x2) + x1 * (i * y2)
  {
    MulAssoc(i, x1, x2);
    MulAssoc(x1, i, x2);
    MulAssoc(i, y2, y1);
    MulAssoc(i, x1, y2);
    MulAssoc(x1, i, y2);
    MulAssoc(i, y1, x2);
    MulAssoc(y1, i, x2);
  }

  lemma RotatedCross(p: Point, q: Point)
    ensures Cong(Cross(p, Rotate(q)), -Cross(p, q))
  {
    var w := D * (p.x * p.y);
    RotatedProduct(q.x, q.y);
    CongScale(w, (I * q.y) * (I * q.x), -(q.x * q.y));
    CrossForm(p.x, p.y, q.x, q.y);
    CrossForm(p.x, p.y, I * q.y, I * q.x);
    CongEq(w * ((I * q.y) * (I * q.x)), w * -(q.x * q.y), Cross(p, Rotate(q)), -Cross(p, q));
  }

  lemma Flipped(c: int, c': int)
    requires Cong(c', -c)
    ensures Cong(1 + c', 1 - c) && Cong(1 - c', 1 + c)
  {
    CongRefl(1);
    CongAdd(1, 1, c', -c);
    CongSub(1, 1, c', -c);
    CongEq(1 + c', 1 + -c, 1 + c', 1 - c);
    CongEq(1 - c', 1 - -c, 1 - c', 1 + c);
  }

  lemma LawSymmetric(p: Point, q: Point, r: Point)
    requires Law(p, q, r)
    ensures Law(q, p, r)
  {
    assert Adds(p, q, r, 0);
    assert Cross(p, q) == Cross(q, p);
  }

  lemma SameY(p: Point, q: Point, r: Point, u: Point, v: Point, a: Point, b: Point)
    requires NoZeroDivisors() && Curve(p.x, p.y) && Curve(q.x, q.y) && Curve(r.x, r.y)
    requires Law(p, q, u) && Law(u, r, a) && Law(q, r, v) && Law(p, v, b)
    ensures Cong(a.y, b.y)
  {
    RotatedCurve(r.x, r.y);
    RotatedLaw(u, r, a);
    RotatedLaw(q, r, v);
    RotatedLaw(p, v, b);
    LawSymmetric(p, Rotate(v), Rotate(b));
    SameX(p, q, Rotate(r), u, Rotate(v), Rotate(a), Rotate(b));
    INonZero();
    CancelFactor(I, a.y, b.y);
  }

  /** The addition law is associative. */
  lemma LawAssociative(p: CurvePoint, q: CurvePoint, r: CurvePoint, u: CurvePoint, v: CurvePoint, a: CurvePoint,
        b: CurvePoint)
    requires NoZeroDivisors() && Law(p, q, u) && Law(u, r, a) && Law(q, r, v) && Law(p, v, b)
    ensures a == b
  {
    CurveEquality(p);
    CurveEquality(q);
    CurveEquality(r);
    SameY(p, q, r, u, v, a, b);
    LawSymmetric(p, v, b);
    SameX(p, q, r, u, v, a, b);
    CongUnique(a.x, b.x);
    CongUnique(a.y, b.y);
  }

  lemma INonZero()
    ensures !Cong(I, 0)
  {
    if Cong(I, 0) {
      CongUnique(I, 0);
      assert false;
    }
  }
}
