/** The points of the curve form an Abelian group under the law, provided p is prime. */
module EdwardsGroup {
  import opened ModP
  import opened NumberTheory
  import opened AbelianGroup
  import opened Edwards
  import opened Encoding
  import opened EdwardsLaw
  import opened Associativity

  ghost function Add(p: CurvePoint, q: CurvePoint): CurvePoint {
    OriginOnCurve();
    if OnCurve(LawSum(p, q)) then LawSum(p, q) else Point(0, 1)
  }

  ghost function Negate(p: CurvePoint): CurvePoint {
    NegOnCurve(p);
    NegPoint(p)
  }

  /** The points of the curve with the law as addition. */
  ghost function TheGroup(): Group<CurvePoint> {
    OriginOnCurve();
    Group(Point(0, 1), imap s: (CurvePoint, CurvePoint) | Pair(s.0, s.1) ::
      Add(s.0, s.1), imap p: CurvePoint | Pair(p, p) :: Negate(p))
  }

  lemma TheSum(p: CurvePoint, q: CurvePoint)
    requires NoZeroDivisors() && Fermat()
    ensures Op(TheGroup(), p, q) == Add(p, q) && Law(p, q, Add(p, q))
  {
    DNonSquare();
    Closed(p, q);
    SumLaw(p, q);
    var s: (CurvePoint, CurvePoint) := (p, q);
    assert Pair(s.0, s.1);
    assert s in TheGroup().sum;
  }

  lemma TheNegative(p: CurvePoint)
    ensures Inv(TheGroup(), p) == NegPoint(p)
  {
    assert Pair(p, p);
    assert p in TheGroup().negative;
  }

  /** The law determines the sum. */
  lemma LawDetermines(p: CurvePoint, q: CurvePoint, r: CurvePoint, s: CurvePoint)
    requires NoZeroDivisors() && Law(p, q, r) && Law(p, q, s)
    ensures r == s
  {
    assert Adds(p, q, r, 0) && Adds(p, q, s, 0);
    SameQuotient(r.x, s.x, 1 + Cross(p, q), p.x * q.y + q.x * p.y);
    SameQuotient(r.y, s.y, 1 - Cross(p, q), p.y * q.y + p.x * q.x);
  }

  lemma SameQuotient(r: int, s: int, den: int, num: int)
    requires NoZeroDivisors() && !Cong(den, 0) && Cong(r * den, num) && Cong(s * den, num) && 0 <= r < P && 0 <= s < P
    ensures r == s
  {
    CongSym(s * den, num);
    CongTrans(r * den, num, s * den);
    CongEq(r * den, s * den, den * r, den * s);
    CancelFactor(den, r, s);
    CongUnique(r, s);
  }

  lemma NeutralLaw(p: CurvePoint)
    ensures Law(p, Point(0, 1), p)
  {
    assert Cross(p, Point(0, 1)) == 0;
    CongRefl(p.x);
    CongRefl(p.y);
    OneNonZero();
  }

  lemma InverseLaw(p: CurvePoint, q: CurvePoint, r: CurvePoint)
    requires NoZeroDivisors() && q == NegPoint(p) && Law(p, q, r)
    ensures r == Point(0, 1)
  {
    CongMod(-p.x);
    NegX(p, q, r);
    NegY(p, q, r);
  }

  /** What an Abelian group asks of three of its elements. */
  ghost predicate Laws(g: Group<CurvePoint>, p: CurvePoint, q: CurvePoint, r: CurvePoint) {
    && Op(g, Op(g, p, q), r) == Op(g, p, Op(g, q, r))
    && Op(g, p, q) == Op(g, q, p)
    && Op(g, p, g.zero) == p
    && Op(g, p, Inv(g, p)) == g.zero
  }

  lemma GroupLaws(p: CurvePoint, q: CurvePoint, r: CurvePoint)
    requires NoZeroDivisors() && Fermat()
    ensures Laws(TheGroup(), p, q, r)
  {
    TheSum(p, q);
    TheSum(q, r);
    TheSum(Add(p, q), r);
    TheSum(p, Add(q, r));
    LawAssociative(p, q, r, Add(p, q), Add(q, r), Add(Add(p, q), r), Add(p, Add(q, r)));
    TheSum(q, p);
    LawSymmetric(p, q, Add(p, q));
    LawDetermines(q, p, Add(p, q), Add(q, p));
    NeutralLaw(p);
    TheSum(p, Point(0, 1));
    LawDetermines(p, Point(0, 1), p, Add(p, Point(0, 1)));
    TheNegative(p);
    TheSum(p, Negate(p));
    InverseLaw(p, Negate(p), Add(p, Negate(p)));
  }

  /** The points of the curve form the group that the results about points, signatures and batches are stated for. */
  lemma GroupExists()
    requires Prime(P)
    ensures CurveGroup(TheGroup()) && Fermat()
  {
    PrimeField();
    forall p: CurvePoint, q: CurvePoint, r: CurvePoint | At<CurvePoint>(p, q, r)
      ensures var g := TheGroup();
              && Op(g, Op(g, p, q), r) == Op(g, p, Op(g, q, r))
              && Op(g, p, q) == Op(g, q, p)
              && Op(g, p, g.zero) == p
              && Op(g, p, Inv(g, p)) == g.zero
    {
      GroupLaws(p, q, r);
    }
    forall p: CurvePoint, q: CurvePoint | Pair(p, q) ensures Law(p, q, Op(TheGroup(), p, q)) {
      TheSum(p, q);
    }
  }

  /** It is the only one: the law leaves no choice. */
  lemma GroupUnique(g: Group<CurvePoint>, p: CurvePoint, q: CurvePoint)
    requires CurveGroup(g) && Fermat()
    ensures Op(g, p, q) == Op(TheGroup(), p, q) && Inv(g, p) == Inv(TheGroup(), p) && g.zero == TheGroup().zero
  {
    GroupLaw(g, p, q);
    TheSum(p, q);
    LawDetermines(p, q, Op(g, p, q), Add(p, q));
    NegIsInverse(g, p);
    TheNegative(p);
    Neutral(g);
  }
}
