/**
 * The addition law of section 5.1.4 of RFC 8032. For p prime, d is not a square, no denominator of the law vanishes,
 * and the sum of two points of the curve is on the curve.
 */
module EdwardsLaw {
  import opened Powers
  import opened ModP
  import opened NumberTheory
  import opened Edwards
  import opened Encoding

  // ---- what the primality of p gives ----

  lemma CongMultiple(x: int, y: int)
    ensures Cong(x, y) <==> Multiple(x - y, P)
  {
    if Cong(x, y) {
      var k := CongFactor(x, y);
      MultipleBy(x - y, k, P);
    }
    if Multiple(x - y, P) {
      var k: int :| x - y == k * P;
      CongBy(x, y, k);
    }
  }

  lemma PrimeProduct(a: int, b: int)
    requires Prime(P) && Cong(a * b, 0) && !Cong(a, 0)
    ensures Cong(b, 0)
  {
    var r := a % P;
    CongMod(a);
    if r == 0 {
      CongSym(r, a);
    }
    CongScale(b, r, a);
    CongEq(b * r, b * a, r * b, a * b);
    CongTrans(r * b, a * b, 0);
    CongMultiple(r * b, 0);
    Euclid(r, b, P);
    CongMultiple(b, 0);
  }

  lemma PrimePower(z: int)
    requires Prime(P) && !Cong(z, 0)
    ensures Cong(Pow(z, P - 1), 1)
  {
    var r := z % P;
    CongMod(z);
    if r == 0 {
      CongSym(r, z);
    }
    FermatLittle(P, r);
    CongMultiple(Pow(r, P - 1), 1);
    CongSym(r, z);
    CongPow(z, r, P - 1);
    CongTrans(Pow(z, P - 1), Pow(r, P - 1), 1);
  }

  /** A prime p has no zero divisors and satisfies Fermat's little theorem. */
  lemma PrimeField()
    requires Prime(P)
    ensures NoZeroDivisors() && Fermat()
  {
    forall a: int, b: int | Factors(a, b) && Cong(a * b, 0) ensures Cong(a, 0) || Cong(b, 0) {
      if !Cong(a, 0) {
        PrimeProduct(a, b);
      }
    }
    forall z: int | Base(z) && !Cong(z, 0) ensures Cong(Pow(z, P - 1), 1) {
      PrimePower(z);
    }
  }

  // ---- the law is complete ----

  /** d is not a square modulo p. */
  ghost predicate NonSquare() {
    forall r: int {:trigger RootAt(r)} :: RootAt(r) ==> !Cong(r * r, D)
  }

  ghost predicate RootAt(r: int) {
    true
  }

  lemma Reciprocal(s: int, w: int)
    requires Fermat() && !Cong(s, 0) && w == Pow(s, P - 2)
    ensures Cong(s * w, 1)
  {
    assert Base(s);
    assert s * w == Pow(s, P - 1);
  }

  /** Half of d has this square root. */
  const HALF_ROOT: int := 0x3d5671927e8563448865a06318255b5beddb1ff0d0e0aed6ae23bd0dc8a14c58

  lemma HalfRoot()
    ensures Cong(2 * (HALF_ROOT * HALF_ROOT), D)
  {
    CongBy(2 * (HALF_ROOT * HALF_ROOT), D, 0x3ac93d41446ce9cead6d821026412935074dc86d67e6c1826dbe0e6ce2f875b1);
  }

  lemma {:induction false} OddPowerOfMinusOne(n: nat)
    ensures Pow(-1, 2 * n + 1) == -1
  {
    if n == 0 {
      PowExpOne(-1);
    } else {
      OddPowerOfMinusOne(n - 1);
      PowAdd(-1, 2, 2 * n - 1);
      assert Pow(-1, 2) == 1;
    }
  }

  lemma MinusOneIsNotOne(v: int)
    requires Cong(v, -1)
    ensures !Cong(v, 1)
  {
    if Cong(v, 1) {
      CongSub(v, 1, v, -1);
      CongSym(v - v, 1 - -1);
      CongEq(1 - -1, v - v, 2, 0);
      TwoNonZero();
    }
  }

  /** s^(8n + 4) = -1 if s^4 = -1. */
  lemma OddFourthPower(s: int, n: nat)
    requires Cong((s * s) * (s * s), -1)
    ensures Cong(Pow(s, 8 * n + 4), -1)
  {
    PowExpOne(s);
    PowAdd(s, 1, 1);
    PowAdd(s, 2, 2);
    CongPow(Pow(s, 4), -1, 2 * n + 1);
    PowTimes(s, 4, 2 * n + 1);
    OddPowerOfMinusOne(n);
    assert 4 * (2 * n + 1) == 8 * n + 4;
  }

  /** p is 5 modulo 8, so the square root of -1 is not a square. */
  lemma NoEighthRoot(s: int)
    requires Fermat()
    ensures !Cong(s * s, I)
  {
    if Cong(s * s, I) {
      SqrtNeg1Val();
      CongMul(s * s, I, s * s, I);
      CongTrans((s * s) * (s * s), I * I, -1);
      var n := 0xffffffffffffffffffffffffffffffffffffffffffffffffffffffffffffffd;
      OddFourthPower(s, n);
      MinusOneIsNotOne(Pow(s, 8 * n + 4));
      assert Base(s);
      assert 8 * n + 4 == P - 1;
      if Cong(s, 0) {
        CongScale((s * s) * s, s, 0);
        CongEq(((s * s) * s) * s, ((s * s) * s) * 0, (s * s) * (s * s), 0);
        CongSym((s * s) * (s * s), -1);
        CongTrans(-1, (s * s) * (s * s), 0);
        UnitNonZero(-1);
      }
    }
  }

  lemma UnitNonZero(e: int)
    requires e * e == 1
    ensures !Cong(e, 0)
  {
    if Cong(e, 0) {
      CongMul(e, 0, e, 0);
      CongEq(e * e, 0 * 0, 1, 0);
      OneNonZero();
    }
  }

  /** (1 + i)^2 = 2i, so a square root of d would give one of i. */
  lemma RootsMeet(r: int, w: int, t: int)
    requires Cong(r * r, 2 * (t * t)) && Cong(r * w, 1)
    ensures var s := ((1 + I) * t) * w; Cong(s * s, I)
  {
    var c := 1 + I;
    SqrtNeg1Val();
    SquareBinomial(1, I);
    CongRefl(1 + 2 * I);
    CongAdd(1 + 2 * I, 1 + 2 * I, I * I, -1);
    CongEq(1 + 2 * I + I * I, 1 + 2 * I + -1, c * c, 2 * I);
    CongScale((t * t) * (w * w), c * c, 2 * I);
    CongMul(r * w, 1, r * w, 1);
    MulSwap(r, w, r, w);
    CongSym(r * r, 2 * (t * t));
    CongScale(I * (w * w), 2 * (t * t), r * r);
    CongScale(I, (r * w) * (r * w), 1 * 1);
    Shuffle(c, t, w, I, r);
    CongTrans(((t * t) * (w * w)) * (2 * I), (I * (w * w)) * (r * r), I * (1 * 1));
    CongTrans(((t * t) * (w * w)) * (c * c), ((t * t) * (w * w)) * (2 * I), I * (1 * 1));
    CongEq(((t * t) * (w * w)) * (c * c), I * (1 * 1), ((c * t) * w) * ((c * t) * w), I);
  }

  lemma Shuffle(c: int, t: int, w: int, i: int, r: int)
    ensures ((c * t) * w) * ((c * t) * w) == ((t * t) * (w * w)) * (c * c)
    ensures ((t * t) * (w * w)) * (2 * i) == (i * (w * w)) * (2 * (t * t))
    ensures (i * (w * w)) * (r * r) == i * ((r * r) * (w * w))
  {
    MulSwap(c * t, w, c * t, w);
    MulSwap(c, t, c, t);
    MulAssoc(c * c, t * t, w * w);
    MulSwap(t * t, w * w, 2, i);
    MulAssoc(i, w * w, r * r);
  }

  /** If p is prime, d is not a square. */
  lemma DNonSquare()
    requires Fermat()
    ensures NonSquare()
  {
    forall r: int | RootAt(r) ensures !Cong(r * r, D) {
      if Cong(r * r, D) {
        var t := HALF_ROOT;
        HalfRoot();
        CongSym(2 * (t * t), D);
        CongTrans(r * r, D, 2 * (t * t));
        if Cong(r, 0) {
          CongMul(r, 0, r, 0);
          CongSym(r * r, D);
          CongTrans(D, r * r, 0 * 0);
          CongUnique(D, 0);
          assert false;
        }
        var w := Pow(r, P - 2);
        Reciprocal(r, w);
        RootsMeet(r, w, t);
        NoEighthRoot(((1 + I) * t) * w);
      }
    }
  }

  /** d is no quotient of squares either. */
  lemma NoSquareRatio(t: int, s: int)
    requires Fermat() && NonSquare() && Cong(t * t, D * (s * s))
    ensures Cong(s, 0)
  {
    if !Cong(s, 0) {
      var w := Pow(s, P - 2);
      Reciprocal(s, w);
      var r := t * w;
      MulSwap(t, w, t, w);
      CongScale(w * w, t * t, D * (s * s));
      CongMul(s * w, 1, s * w, 1);
      MulSwap(s, w, s, w);
      CongScale(D, (s * w) * (s * w), 1 * 1);
      CongEq(D * ((s * w) * (s * w)), D * (1 * 1), (w * w) * (D * (s * s)), D);
      CongTrans((w * w) * (t * t), (w * w) * (D * (s * s)), D);
      CongEq((w * w) * (t * t), D, r * r, D);
      assert RootAt(r);
    }
  }

  ghost predicate Curve(x: int, y: int) {
    Cong(y * y - x * x, 1 + D * ((x * x) * (y * y)))
  }

  /** d x1 x2 y1 y2 */
  function Cross4(x1: int, y1: int, x2: int, y2: int): int {
    D * ((x1 * x2) * (y1 * y2))
  }

  lemma SquareOfCross4(x1: int, y1: int, x2: int, y2: int)
    ensures Cross4(x1, y1, x2, y2) * Cross4(x1, y1, x2, y2)
      == (D * ((x1 * x1) * (y1 * y1))) * (D * ((x2 * x2) * (y2 * y2)))
  {
    var a, b := x1 * x2, y1 * y2;
    MulSwap(D, a * b, D, a * b);
    MulSwap(a, b, a, b);
    MulSwap(x1, x2, x1, x2);
    MulSwap(y1, y2, y1, y2);
    MulSwap(x1 * x1, x2 * x2, y1 * y1, y2 * y2);
    MulSwap(D, (x1 * x1) * (y1 * y1), D, (x2 * x2) * (y2 * y2));
  }

  /** If d x1 x2 y1 y2 is 1 or -1, the two points are tied together. */
  lemma TiedPoints(x1: int, y1: int, x2: int, y2: int, e: int)
    requires Curve(x1, y1) && Curve(x2, y2) && Cong(Cross4(x1, y1, x2, y2), e) && e * e == 1
    ensures Cong((D * ((x1 * x1) * (y1 * y1))) * (y2 * y2 - x2 * x2), y1 * y1 - x1 * x1)
  {
    var k, l, p := D * ((x1 * x1) * (y1 * y1)), D * ((x2 * x2) * (y2 * y2)), Cross4(x1, y1, x2, y2);
    CongScale(k, y2 * y2 - x2 * x2, 1 + l);
    CongMul(p, e, p, e);
    SquareOfCross4(x1, y1, x2, y2);
    CongEq(p * p, e * e, k * l, 1);
    CongRefl(k);
    CongAdd(k, k, k * l, 1);
    CongEq(k + k * l, k + 1, k * (1 + l), 1 + k);
    CongSym(y1 * y1 - x1 * x1, 1 + k);
    CongTrans(k * (1 + l), 1 + k, y1 * y1 - x1 * x1);
    CongTrans(k * (y2 * y2 - x2 * x2), k * (1 + l), y1 * y1 - x1 * x1);
  }

  lemma SquareBinomial(u: int, v: int)
    ensures (u + v) * (u + v) == u * u + 2 * (u * v) + v * v
  {
  }

  /** (i x + e y)^2 = y^2 - x^2 + 2 e i x y */
  lemma LeftSquare(x: int, y: int, i: int, e: int)
    requires Cong(i * i, -1) && e * e == 1
    ensures Cong((i * x + e * y) * (i * x + e * y), (y * y - x * x) + 2 * (e * (i * (x * y))))
  {
    SquareBinomial(i * x, e * y);
    MulSwap(i, x, i, x);
    MulSwap(e, y, e, y);
    MulSwap(i, x, e, y);
    MulAssoc(e, i, x * y);
    var m := e * (i * (x * y));
    assert (i * x) * (e * y) == m;
    CongScale(x * x, i * i, -1);
    CongRefl(y * y + 2 * m);
    CongAdd((x * x) * (i * i), (x * x) * (-1), y * y + 2 * m, y * y + 2 * m);
    CongEq((x * x) * (i * i) + (y * y + 2 * m), (x * x) * (-1) + (y * y + 2 * m), (i * x + e * y) * (i * x + e * y),
      (y * y - x * x) + 2 * m);
  }

  /** d x1^2 y1^2 times i x2 y2 is i x1 y1 times d x1 x2 y1 y2. */
  lemma CrossTerm(x1: int, y1: int, x2: int, y2: int, i: int)
    ensures (D * ((x1 * x1) * (y1 * y1))) * (i * (x2 * y2)) == (i * (x1 * y1)) * Cross4(x1, y1, x2, y2)
  {
    var a, b := x1 * y1, x2 * y2;
    MulSwap(x1, x1, y1, y1);
    MulSwap(x1, x2, y1, y2);
    assert (D * (a * a)) * (i * b) == (i * a) * (D * (a * b)) by {
      MulSwap(D, a * a, i, b);
      MulSwap(i, a, D, a * b);
      MulAssoc(a, a, b);
    }
  }

  lemma ScaledSquare(x1: int, y1: int, q: int)
    ensures D * (((x1 * y1) * q) * ((x1 * y1) * q)) == (D * ((x1 * x1) * (y1 * y1))) * (q * q)
  {
    MulSwap(x1 * y1, q, x1 * y1, q);
    MulSwap(x1, y1, x1, y1);
    MulAssoc(D, (x1 * x1) * (y1 * y1), q * q);
  }

  lemma RightSquare(x1: int, y1: int, x2: int, y2: int, i: int, e: int)
    requires Curve(x1, y1) && Curve(x2, y2) && Cong(Cross4(x1, y1, x2, y2), e) && e * e == 1 && Cong(i * i, -1)
    ensures var s := (x1 * y1) * (i * x2 + y2); Cong(D * (s * s), (y1 * y1 - x1 * x1) + 2 * (e * (i * (x1 * y1))))
  {
    var q, k, p := i * x2 + y2, D * ((x1 * x1) * (y1 * y1)), Cross4(x1, y1, x2, y2);
    var n, m := y2 * y2 - x2 * x2, i * (x2 * y2);
    ScaledSquare(x1, y1, q);
    LeftSquare(x2, y2, i, 1);
    CongEq((i * x2 + 1 * y2) * (i * x2 + 1 * y2), n + 2 * (1 * m), q * q, n + 2 * m);
    CongScale(k, q * q, n + 2 * m);
    TiedPoints(x1, y1, x2, y2, e);
    CrossTerm(x1, y1, x2, y2, i);
    CongScale(2 * (i * (x1 * y1)), p, e);
    Spread(k, n, m, i * (x1 * y1), p, e);
    CongAdd(k * n, y1 * y1 - x1 * x1, (2 * (i * (x1 * y1))) * p, (2 * (i * (x1 * y1))) * e);
    CongEq(k * n + (2 * (i * (x1 * y1))) * p, (y1 * y1 - x1 * x1) + (2 * (i * (x1 * y1))) * e, k * (n + 2 * m),
      (y1 * y1 - x1 * x1) + 2 * (e * (i * (x1 * y1))));
    CongTrans(k * (q * q), k * (n + 2 * m), (y1 * y1 - x1 * x1) + 2 * (e * (i * (x1 * y1))));
  }

  lemma Spread(k: int, n: int, m: int, j: int, p: int, e: int)
    requires k * m == j * p
    ensures k * (n + 2 * m) == k * n + (2 * j) * p && (2 * j) * e == 2 * (e * j)
  {
    assert k * (n + 2 * m) == k * n + 2 * (k * m);
    MulAssoc(2, j, p);
    MulAssoc(2, j, e);
  }

  /** Such points would make d a square, unless i x2 + y2 or x1 y1 vanishes. */
  lemma TiedSquare(x1: int, y1: int, x2: int, y2: int, e: int)
    requires Fermat() && NonSquare() && Curve(x1, y1) && Curve(x2, y2) && Cong(Cross4(x1, y1, x2, y2), e) && e * e == 1
    ensures Cong((x1 * y1) * (I * x2 + y2), 0)
  {
    var s, t, v := (x1 * y1) * (I * x2 + y2), I * x1 + e * y1, (y1 * y1 - x1 * x1) + 2 * (e * (I * (x1 * y1)));
    SqrtNeg1Val();
    LeftSquare(x1, y1, I, e);
    RightSquare(x1, y1, x2, y2, I, e);
    CongSym(D * (s * s), v);
    CongTrans(t * t, v, D * (s * s));
    NoSquareRatio(t, s);
  }

  lemma NegatedCurve(x: int, y: int)
    requires Curve(x, y)
    ensures Curve(x, -y)
  {
    assert (-y) * (-y) == y * y;
  }

  lemma NegatedProduct(x1: int, y1: int, x2: int, y2: int, e: int)
    requires Cong(Cross4(x1, y1, x2, y2), e)
    ensures Cong(Cross4(x1, y1, x2, -y2), -e)
  {
    var p := Cross4(x1, y1, x2, y2);
    CongScale(-1, p, e);
    assert (x1 * x2) * (y1 * (-y2)) == -((x1 * x2) * (y1 * y2)) by {
      assert y1 * (-y2) == -(y1 * y2);
    }
    CongEq(-1 * p, -1 * e, Cross4(x1, y1, x2, -y2), -e);
  }

  /** d x1 x2 y1 y2 is never 1 or -1 on the curve. */
  lemma NeverUnit(x1: int, y1: int, x2: int, y2: int, e: int)
    requires NoZeroDivisors() && Fermat() && NonSquare() && Curve(x1, y1) && Curve(x2, y2) && e * e == 1
    ensures !Cong(Cross4(x1, y1, x2, y2), e)
  {
    var p := Cross4(x1, y1, x2, y2);
    if Cong(p, e) {
      TiedSquare(x1, y1, x2, y2, e);
      NegatedCurve(x2, y2);
      NegatedProduct(x1, y1, x2, y2, e);
      assert (-e) * (-e) == 1;
      TiedSquare(x1, y1, x2, -y2, -e);
      VanishingProduct(x1, y1, x2, y2);
      UnitNonZero(e);
      CongSym(p, e);
      CongTrans(e, p, 0);
    }
  }

  lemma VanishingProduct(x1: int, y1: int, x2: int, y2: int)
    requires NoZeroDivisors() && Cong((x1 * y1) * (I * x2 + y2), 0) && Cong((x1 * y1) * (I * x2 + -y2), 0)
    ensures Cong(Cross4(x1, y1, x2, y2), 0)
  {
    var a := x1 * y1;
    CongSub(a * (I * x2 + y2), 0, a * (I * x2 + -y2), 0);
    assert a * (I * x2 + y2) - a * (I * x2 + -y2) == 2 * (a * y2);
    CongEq(a * (I * x2 + y2) - a * (I * x2 + -y2), 0 - 0, 2 * (a * y2), 0);
    assert Factors(2, a * y2);
    TwoNonZero();
    CongScale(D * x2, a * y2, 0);
    assert (D * x2) * (a * y2) == Cross4(x1, y1, x2, y2) by {
      MulAssoc(x1, y1, y2);
      MulAssoc(D, x2, x1 * (y1 * y2));
      MulAssoc(x2, x1, y1 * y2);
    }
    CongEq((D * x2) * (a * y2), (D * x2) * 0, Cross4(x1, y1, x2, y2), 0);
  }

  /** No denominator of the law vanishes. */
  lemma Complete(p: CurvePoint, q: CurvePoint)
    requires NoZeroDivisors() && Fermat() && NonSquare()
    ensures !Cong(1 + Cross(p, q), 0) && !Cong(1 - Cross(p, q), 0)
  {
    var c := Cross(p, q);
    CurveEquality(p);
    CurveEquality(q);
    NeverUnit(p.x, p.y, q.x, q.y, 1);
    NeverUnit(p.x, p.y, q.x, q.y, -1);
    CongRefl(1);
    CongRefl(c);
    if Cong(1 + c, 0) {
      CongSub(1 + c, 0, 1, 1);
      CongEq(1 + c - 1, 0 - 1, c, -1);
    }
    if Cong(1 - c, 0) {
      CongAdd(1 - c, 0, c, c);
      CongSym(1 - c + c, 0 + c);
      CongEq(0 + c, 1 - c + c, c, 1);
    }
  }

  // ---- the law is closed ----

  /** The canonical quotient. */
  function Ratio(num: int, den: int): (r: int)
    ensures 0 <= r < P
  {
    (num * Pow(den, P - 2)) % P
  }

  lemma RatioTimes(num: int, den: int)
    requires Fermat() && !Cong(den, 0)
    ensures Cong(Ratio(num, den) * den, num)
  {
    var w := Pow(den, P - 2);
    CongMod(num * w);
    CongScale(den, Ratio(num, den), num * w);
    Reciprocal(den, w);
    CongScale(num, den * w, 1);
    assert den * (num * w) == num * (den * w) by { MulAssoc(den, num, w); MulAssoc(num, den, w); }
    CongTrans(den * Ratio(num, den), num * (den * w), num * 1);
    CongEq(den * Ratio(num, den), num * 1, Ratio(num, den) * den, num);
  }

  function LawSum(p: Point, q: Point): Point {
    Point(Ratio(p.x * q.y + q.x * p.y, 1 + Cross(p, q)), Ratio(p.y * q.y + p.x * q.x, 1 - Cross(p, q)))
  }

  lemma SumLaw(p: CurvePoint, q: CurvePoint)
    requires NoZeroDivisors() && Fermat() && NonSquare()
    ensures Law(p, q, LawSum(p, q))
  {
    Complete(p, q);
    RatioTimes(p.x * q.y + q.x * p.y, 1 + Cross(p, q));
    RatioTimes(p.y * q.y + p.x * q.x, 1 - Cross(p, q));
  }

  /** The identity behind closure, in the squares a, b, c, f of the coordinates and w = x1 x2 y1 y2. */
  lemma ClosureIdentity(a: int, b: int, c: int, f: int, w: int)
    requires w * w == (a * b) * (c * f)
    ensures (a * f + c * b) * (b * f + a * c) - 4 * (w * w)
      == (c * f) * ((b - a) * (b - a)) + (a * b) * ((f - c) * (f - c))
  {
    ProductOfSums(a, b, c, f);
    SquareBinomial(b, -a);
    SquareBinomial(f, -c);
    Distribute3(c * f, b * b, a * b, a * a);
    Distribute3(a * b, f * f, c * f, c * c);
  }

  lemma ProductOfSums(a: int, b: int, c: int, f: int)
    ensures (a * f + c * b) * (b * f + a * c) == (a * b) * (f * f) + (c * f) * (a * a) + (c * f) * (b * b)
      + (a * b) * (c * c)
  {
    MulSwap(a, f, b, f);
    MulSwap(a, f, a, c);
    MulSwap(c, b, b, f);
    MulSwap(c, b, a, c);
  }

  lemma Distribute3(k: int, u: int, v: int, w: int)
    ensures k * (u - 2 * v + w) == k * u - 2 * (k * v) + k * w
  {
  }

  lemma LeftIdentity(s: int, t: int, w: int, e: int, q: int, h: int, k: int)
    requires e == D * w && h == 1 + 2 * e + q && k == 1 - 2 * e + q
    ensures h * (t + 2 * w) - k * (s + 2 * w) - D * ((s + 2 * w) * (t + 2 * w))
      == (t - s) * (1 + q) + 4 * (w * e) - D * (s * t)
  {
    WeightedDifference(e, q, h, k, t + 2 * w, s + 2 * w);
    MixedProduct(s, t, w, e);
    assert e * ((t + 2 * w) + (s + 2 * w)) == e * s + e * t + 4 * (w * e);
    Distribute(t - s, q);
  }

  lemma WeightedDifference(e: int, q: int, h: int, k: int, x: int, y: int)
    requires h == 1 + 2 * e + q && k == 1 - 2 * e + q
    ensures h * x - k * y == (x - y) + 2 * (e * (x + y)) + (x - y) * q
  {
  }

  lemma MixedProduct(s: int, t: int, w: int, e: int)
    requires e == D * w
    ensures D * ((s + 2 * w) * (t + 2 * w)) == D * (s * t) + 2 * (e * s) + 2 * (e * t) + 4 * (w * e)
  {
    assert (s + 2 * w) * (t + 2 * w) == s * t + 2 * (w * s) + 2 * (w * t) + 4 * (w * w);
    MulAssoc(D, w, s);
    MulAssoc(D, w, t);
    MulAssoc(D, w, w);
  }

  /** n1 - n2 k1 times n2 - n1 k2 */
  lemma RightIdentity(n1: int, n2: int, k1: int, k2: int)
    ensures (n1 - n2 * k1) * (n2 - n1 * k2) == (n1 * n2) * (1 + k1 * k2) - k2 * (n1 * n1) - k1 * (n2 * n2)
  {
    MulSwap(n2, k1, n1, k2);
    assert n1 * (n1 * k2) == k2 * (n1 * n1) by { MulAssoc(n1, n1, k2); }
    assert (n2 * k1) * n2 == k1 * (n2 * n2) by { MulAssoc(k1, n2, n2); }
    assert (n1 - n2 * k1) * (n2 - n1 * k2) == n1 * n2 - n1 * (n1 * k2) - (n2 * k1) * n2 + (n2 * k1) * (n1 * k2);
  }

  /** Both sides of the closure identity agree, for k1 = d a b and k2 = d c f. */
  lemma SidesAgree(a: int, b: int, c: int, f: int, w: int, e: int, k1: int, k2: int, s: int, t: int)
    requires w * w == (a * b) * (c * f) && e == D * w && k1 == D * (a * b) && k2 == D * (c * f)
    requires s == a * f + c * b && t == b * f + a * c
    ensures ((1 + e) * (1 + e)) * (t + 2 * w) - ((1 - e) * (1 - e)) * (s + 2 * w) - D * ((s + 2 * w) * (t + 2 * w))
         == ((b - a) - (f - c) * k1) * ((f - c) - (b - a) * k2)
  {
    var n1, n2 := b - a, f - c;
    SquareBinomial(1, e);
    SquareBinomial(1, -e);
    LeftIdentity(s, t, w, e, e * e, (1 + e) * (1 + e), (1 - e) * (1 - e));
    RightIdentity(n1, n2, k1, k2);
    ClosureIdentity(a, b, c, f, w);
    assert n1 * n2 == t - s;
    assert k1 * k2 == e * e by { MulSwap(D, a * b, D, c * f); MulSwap(D, w, D, w); }
    SameRest(s * t, w * w, w * e, k1, k2, a * b, c * f, n1 * n1, n2 * n2, w);
  }

  lemma SameRest(st: int, ww: int, we: int, k1: int, k2: int, ab: int, cf: int, m1: int, m2: int, w: int)
    requires ww == w * w && we == w * (D * w) && k1 == D * ab && k2 == D * cf && st - 4 * ww == cf * m1 + ab * m2
    ensures 4 * we - D * st == 0 - k2 * m1 - k1 * m2
  {
    MulAssoc(D, w, w);
    MulAssoc(D, cf, m1);
    MulAssoc(D, ab, m2);
    assert D * (st - 4 * ww) == D * st - 4 * (D * ww);
    assert D * (cf * m1 + ab * m2) == D * (cf * m1) + D * (ab * m2);
  }

  lemma Deviation(n1: int, n2: int, k1: int, k2: int)
    requires Cong(n1, 1 + k1) && Cong(n2, 1 + k2)
    ensures Cong(n1 - n2 * k1, 1 - k1 * k2)
  {
    CongScale(k1, n2, 1 + k2);
    CongSub(n1, 1 + k1, k1 * n2, k1 * (1 + k2));
    Distribute(k1, k2);
    CongEq(n1 - k1 * n2, 1 + k1 - k1 * (1 + k2), n1 - n2 * k1, 1 - k1 * k2);
  }

  /** The squares of the two numerators. */
  lemma NumeratorSquares(x1: int, y1: int, x2: int, y2: int)
    ensures var a, b, c, f, w := x1 * x1, y1 * y1, x2 * x2, y2 * y2, (x1 * x2) * (y1 * y2);
            && (x1 * y2 + x2 * y1) * (x1 * y2 + x2 * y1) == (a * f + c * b) + 2 * w
            && (y1 * y2 + x1 * x2) * (y1 * y2 + x1 * x2) == (b * f + a * c) + 2 * w
            && w * w == (a * b) * (c * f)
  {
    SquareBinomial(x1 * y2, x2 * y1);
    SquareBinomial(y1 * y2, x1 * x2);
    MulSwap(x1, y2, x1, y2);
    MulSwap(x2, y1, x2, y1);
    MulSwap(x1, y2, x2, y1);
    MulSwap(y1, y2, y1, y2);
    MulSwap(x1, x2, x1, x2);
    MulSwap(x1 * x2, y1 * y2, x1 * x2, y1 * y2);
    MulSwap(x1 * x1, x2 * x2, y1 * y1, y2 * y2);
  }

  lemma ClearedSquares(a: int, b: int, c: int, f: int, w: int, e: int, k1: int, k2: int, xx: int, yy: int)
    requires w * w == (a * b) * (c * f) && e == D * w && k1 == D * (a * b) && k2 == D * (c * f)
    requires xx == (a * f + c * b) + 2 * w && yy == (b * f + a * c) + 2 * w && Cong(b - a, 1 + k1)
      && Cong(f - c, 1 + k2) && k1 * k2 == e * e
    ensures Cong(((1 + e) * (1 + e)) * yy - ((1 - e) * (1 - e)) * xx - D * (xx * yy), (1 - e * e) * (1 - e * e))
  {
    SidesAgree(a, b, c, f, w, e, k1, k2, a * f + c * b, b * f + a * c);
    Deviation(b - a, f - c, k1, k2);
    Deviation(f - c, b - a, k2, k1);
    CongMul((b - a) - (f - c) * k1, 1 - k1 * k2, (f - c) - (b - a) * k2, 1 - k2 * k1);
  }

  /**
   * The equation of the curve for x / (1 + e) and y / (1 - e), cleared of denominators; opens only where a proof names
   * Clear.
   */
  ghost predicate Cleared(e: int, x: int, y: int) {
    forall key: int {:trigger Clear(e, x, y, key)} :: Clear(e, x, y, key) ==>
      Cong(((1 + e) * (1 + e)) * (y * y) - ((1 - e) * (1 - e)) * (x * x) - D * ((x * x) * (y * y)),
        (1 - e * e) * (1 - e * e))
  }

  ghost predicate Clear(e: int, x: int, y: int, key: int) {
    true
  }

  /** r is num / den; opens only where a proof names Over. */
  ghost predicate Fraction(r: int, den: int, num: int) {
    forall key: int {:trigger Over(r, den, num, key)} :: Over(r, den, num, key) ==> Cong(r * den, num)
  }

  ghost predicate Over(r: int, den: int, num: int, key: int) {
    true
  }

  /** The numerators and denominators of a sum satisfy the cleared equation. */
  lemma ClearedEquation(x1: int, y1: int, x2: int, y2: int, e: int, x: int, y: int)
    requires Curve(x1, y1) && Curve(x2, y2)
    requires e == Cross4(x1, y1, x2, y2) && x == x1 * y2 + x2 * y1 && y == y1 * y2 + x1 * x2
    ensures Cleared(e, x, y)
  {
    var a, b, c, f, w := x1 * x1, y1 * y1, x2 * x2, y2 * y2, (x1 * x2) * (y1 * y2);
    NumeratorSquares(x1, y1, x2, y2);
    SquareOfCross4(x1, y1, x2, y2);
    ClearedSquares(a, b, c, f, w, e, D * (a * b), D * (c * f), x * x, y * y);
  }

  lemma ScaledDifference(u: int, v: int, xx: int, yy: int, x: int, y: int)
    requires Cong(xx * u, x) && Cong(yy * v, y)
    ensures Cong((u * v) * (yy - xx), u * y - v * x)
  {
    CongScale(u, yy * v, y);
    CongScale(v, xx * u, x);
    CongSub(u * (yy * v), u * y, v * (xx * u), v * x);
    assert (u * v) * yy == u * (yy * v) by { MulAssoc(u, v, yy); }
    assert (u * v) * xx == v * (xx * u) by { MulAssoc(v, u, xx); }
    assert (u * v) * (yy - xx) == (u * v) * yy - (u * v) * xx;
    CongEq(u * (yy * v) - v * (xx * u), u * y - v * x, (u * v) * (yy - xx), u * y - v * x);
  }

  lemma ScaledRight(u: int, v: int, xx: int, yy: int, x: int, y: int)
    requires Cong(xx * u, x) && Cong(yy * v, y)
    ensures Cong((u * v) * (1 + D * (xx * yy)), u * v + D * (x * y))
  {
    var n, m := u * v, D * (xx * yy);
    CongMul(xx * u, x, yy * v, y);
    CongScale(D, (xx * u) * (yy * v), x * y);
    CongRefl(n);
    CongAdd(n, n, D * ((xx * u) * (yy * v)), D * (x * y));
    Distribute(n, m);
    assert D * ((xx * u) * (yy * v)) == n * m by {
      MulSwap(xx, u, yy, v);
      MulAssoc(D, xx * yy, n);
    }
    CongEq(n + D * ((xx * u) * (yy * v)), n + D * (x * y), n * (1 + m), n + D * (x * y));
  }

  lemma SquaredQuotient(r: int, den: int, num: int)
    requires Cong(r * den, num)
    ensures Cong((r * r) * (den * den), num * num)
  {
    CongMul(r * den, num, r * den, num);
    MulSwap(r, den, r, den);
  }

  /** Whatever has the right quotients satisfies the equation. */
  lemma ClearedToCurve(r: Point, e: int, x: int, y: int)
    requires NoZeroDivisors() && !Cong(1 + e, 0) && !Cong(1 - e, 0)
    requires Fraction(r.x, 1 + e, x) && Fraction(r.y, 1 - e, y) && Cleared(e, x, y)
    ensures Equation(r)
  {
    var rx, ry, u, v, xx, yy := r.x, r.y, (1 + e) * (1 + e), (1 - e) * (1 - e), x * x, y * y;
    var n := u * v;
    assert Cong(n * (ry * ry - rx * rx), u * yy - v * xx)
      && Cong(n * (1 + D * ((rx * rx) * (ry * ry))), n + D * (xx * yy)) by {
      assert Over(rx, 1 + e, x, 0) && Over(ry, 1 - e, y, 0);
      SquaredQuotient(rx, 1 + e, x);
      SquaredQuotient(ry, 1 - e, y);
      ScaledDifference(u, v, rx * rx, ry * ry, xx, yy);
      ScaledRight(u, v, rx * rx, ry * ry, xx, yy);
    }
    assert Cong(u * yy - v * xx - D * (xx * yy), n) by {
      assert Clear(e, x, y, 0);
      MulSwap(1 + e, 1 + e, 1 - e, 1 - e);
      assert (1 + e) * (1 - e) == 1 - e * e;
    }
    assert !Cong(n, 0) by {
      NonZeroProduct(1 + e, 1 + e);
      NonZeroProduct(1 - e, 1 - e);
      NonZeroProduct(u, v);
    }
    Rejoin(n, u * yy - v * xx, D * (xx * yy), ry * ry - rx * rx, 1 + D * ((rx * rx) * (ry * ry)));
  }

  lemma Rejoin(n: int, l: int, k: int, g: int, h: int)
    requires NoZeroDivisors() && !Cong(n, 0) && Cong(l - k, n) && Cong(n * g, l) && Cong(n * h, n + k)
    ensures Cong(g, h)
  {
    CongRefl(k);
    CongAdd(l - k, n, k, k);
    CongEq(l - k + k, n + k, l, n + k);
    CongSym(n * h, n + k);
    CongTrans(l, n + k, n * h);
    CongTrans(n * g, l, n * h);
    CancelFactor(n, g, h);
  }

  /** The sum of two points of the curve is on the curve. */
  lemma Closed(p: CurvePoint, q: CurvePoint)
    requires NoZeroDivisors() && Fermat() && NonSquare()
    ensures OnCurve(LawSum(p, q))
  {
    var r := LawSum(p, q);
    SumLaw(p, q);
    assert Adds(p, q, r, 0);
    CurveEquality(p);
    CurveEquality(q);
    ClearedEquation(p.x, p.y, q.x, q.y, Cross(p, q), p.x * q.y + q.x * p.y, p.y * q.y + p.x * q.x);
    ClearedToCurve(r, Cross(p, q), p.x * q.y + q.x * p.y, p.y * q.y + p.x * q.x);
  }
}
