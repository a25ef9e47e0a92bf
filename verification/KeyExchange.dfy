/** The Curve25519 public key through the Edwards base point. */
module KeyExchange {
  import opened Powers
  import opened Bytes
  import opened ModP
  import opened AbelianGroup
  import opened Edwards
  import opened Tracked
  import opened PointOps
  import opened Encoding
  import opened EdwardsLaw
  import opened ScalarMult
  import opened BaseMult
  import opened Signature
  import SB = ScalarBytes

  /** A product with a power of a factored number. */
  lemma FactorPower(a: int, b: int, z: int, n: nat)
    ensures (a * z) * Pow(b * z, n) == (a * Pow(b, n)) * Pow(z, n + 1)
  {
    PowProduct(b, z, n);
    MulSwap(a, z, Pow(b, n), Pow(z, n));
  }

  /** (Y + Z)(Z - Y)^(p-2) does not depend on Z. */
  lemma ProjectiveU(y: int, cy: int, cz: int, n: nat, l: int, r: int)
    requires Fermat() && Fraction(y, cz, cy) && !Cong(cz, 0) && n == P - 2
    requires l == (cy + cz) * Pow(cz - cy, n) && r == (1 + y) * Pow(1 - y, n)
    ensures Cong(l, r)
  {
    var a, b := 1 + y, 1 - y;
    assert Over(y, cz, cy, 0);
    CongSym(y * cz, cy);
    CongRefl(cz);
    CongAdd(cy, y * cz, cz, cz);
    CongEq(cy + cz, y * cz + cz, cy + cz, a * cz);
    CongSub(cz, cz, cy, y * cz);
    CongEq(cz - cy, cz - y * cz, cz - cy, b * cz);
    CongPow(cz - cy, b * cz, n);
    CongMul(cy + cz, a * cz, Pow(cz - cy, n), Pow(b * cz, n));
    FactorPower(a, b, cz, n);
    assert Base(cz);
    CongScale(a * Pow(b, n), Pow(cz, n + 1), 1);
    CongTrans(l, (a * Pow(b, n)) * Pow(cz, n + 1), (a * Pow(b, n)) * 1);
  }

  /** For y other than 1, u is (1 + y) / (1 - y); otherwise it is 0. */
  lemma MontgomeryU(y: int, u: int)
    requires Fermat() && Cong(u, (1 + y) * Pow(1 - y, P - 2))
    ensures if Cong(1 - y, 0) then Cong(u, 0) else Cong(u * (1 - y), 1 + y)
  {
    var b := 1 - y;
    if Cong(b, 0) {
      CongScale((1 + y) * Pow(b, P - 3), b, 0);
      assert (1 + y) * Pow(b, P - 2) == ((1 + y) * Pow(b, P - 3)) * b by { MulAssoc(1 + y, Pow(b, P - 3), b); }
      CongTrans(u, (1 + y) * Pow(b, P - 2), 0);
    } else {
      assert Base(b);
      CongScale(b, u, (1 + y) * Pow(b, P - 2));
      assert b * ((1 + y) * Pow(b, P - 2))
        == (1 + y) * Pow(b, P - 1) by { MulAssoc(1 + y, b, Pow(b, P - 2)); MulAssoc(b, 1 + y, Pow(b, P - 2)); }
      CongScale(1 + y, Pow(b, P - 1), 1);
      CongEq(b * u, b * ((1 + y) * Pow(b, P - 2)), u * b, (1 + y) * Pow(b, P - 1));
      CongTrans(u * b, (1 + y) * Pow(b, P - 1), (1 + y) * 1);
    }
  }

  /** The clamped scalar. */
  method ClampKey(e: seq<Byte>) returns (ec: seq<Byte>)
    requires |e| == 32
    ensures ec == Clamp(e)
  {
    var b0 := ClearLow3(e[0]);
    var b31 := SetTop(e[31]);
    ec := e[0 := b0][31 := b31];
  }

  /** u = (y + z) / (z - y) of a point. */
  method UCoordinate(p: Ge, ghost pt: CurvePoint) returns (pk: seq<Byte>)
    requires Fermat() && Partial(p, pt)
    ensures |pk| == 32 && LE(pk) == ((1 + pt.y) * Pow(1 - pt.y, P - 2)) % P
  {
    ghost var e :| Stands(p, e) && Rep(e, pt);
    ghost var vs, vd, w, u;
    var yplusz, zminusy;
    yplusz, vs := AddT(p.y, p.z, e.y, e.z);
    zminusy, vd := SubT(p.z, p.y, e.z, e.y);
    zminusy, w := RecipT(zminusy, vd, 2);
    yplusz, u := MulT(yplusz, zminusy, vs, w, 1, 0);
    pk := ContractT(yplusz, u, 0);
    assert Extends(e, pt, 0);
    CongSym(e.y, pt.y * e.z);
    ProjectiveU(pt.y, e.y, e.z, P - 2, u, (1 + pt.y) * Pow(1 - pt.y, P - 2));
    CongModEq(u, (1 + pt.y) * Pow(1 - pt.y, P - 2));
  }

  /** curved25519_scalarmult_basepoint: the Montgomery coordinate of the clamped multiple of the base point. */
  method ScalarmultBasepoint(table: seq<seq<Byte>>, e: seq<Byte>, ghost g: Group<CurvePoint>,
        ghost base: CurvePoint) returns (pk: seq<Byte>)
    requires CurveGroup(g) && Fermat() && BaseTable(table, g, base) && |e| == 32
    ensures var pt := Times(g, LE(Clamp(e)), base);
            |pk| == 32 && LE(pk) < P && if pt == g.zero then LE(pk) == 0 else Cong(LE(pk) * (1 - pt.y), 1 + pt.y)
  {
    var ec := ClampKey(e);
    ClampRange(e);
    var s := SB.ExpandRaw256(ec);
    var p := ScalarmultBase(table, s, g, base);
    ghost var pt := Times(g, LE(Clamp(e)), base);
    FullIsPartial(p, pt);
    pk := UCoordinate(p, pt);
    CongMod((1 + pt.y) * Pow(1 - pt.y, P - 2));
    MontgomeryU(pt.y, LE(pk));
    YDecides(pt, LE(pk), g);
  }

  /** y = 1 only at the neutral element. */
  lemma YDecides(pt: CurvePoint, u: int, g: Group<CurvePoint>)
    requires CurveGroup(g) && 0 <= u < P && if Cong(1 - pt.y, 0) then Cong(u, 0) else Cong(u * (1 - pt.y), 1 + pt.y)
    ensures if pt == g.zero then u == 0 else Cong(u * (1 - pt.y), 1 + pt.y)
  {
    Neutral(g);
    if Cong(1 - pt.y, 0) {
      CongUnique(u, 0);
      DifferenceZero(1, pt.y);
      CongUnique(1, pt.y);
      var o: CurvePoint := Point(0, 1);
      SameX(pt, o);
      ZeroX(pt.x, o.x);
    } else if pt == g.zero {
      CongRefl(0);
    }
  }

  lemma ZeroX(x: int, z: int)
    requires 0 <= x < P && z == 0 && (Cong(x, z) || Cong(x, -z))
    ensures x == 0
  {
    CongUnique(x, 0);
  }
}
