/** Batch verification of signatures. */
module BatchVerify {
  import opened Bits
  import opened Bytes
  import opened ModP
  import opened AbelianGroup
  import opened Edwards
  import opened PointOps
  import opened Encoding
  import opened ScalarMult
  import opened Signature
  import opened BosCarter
  import opened Combinations
  import opened MultiScalar
  import opened NumberTheory
  import Powers
  import BatchHeap
  import BatchScalars
  import S = Scalar
  import O = ScalarOps
  import SB = ScalarBytes
  import Sha512Spec

  // ---- the neutral test ----

  lemma NeutralX(x: int, px: int, z: int)
    requires NoZeroDivisors() && Cong(x, px * z) && !Cong(z, 0) && 0 <= px < P
    ensures x % P == 0 <==> px == 0
  {
    CongModEq(x, px * z);
    if x % P == 0 {
      CongBy(x, 0, x / P);
      CongSym(x, px * z);
      CongTrans(px * z, x, 0);
      assert Factors(px, z);
      CongUnique(px, 0);
    }
  }

  lemma NeutralY(y: int, py: int, z: int)
    requires NoZeroDivisors() && Cong(y, py * z) && !Cong(z, 0) && 0 <= py < P
    ensures y % P == z % P <==> py == 1
  {
    if py == 1 {
      CongModEq(y, z);
    }
    if y % P == z % P {
      CongBy(y, z, y / P - z / P);
      CongSym(y, py * z);
      CongTrans(py * z, y, z);
      CongEq(py * z, z, z * py, z * 1);
      CancelFactor(z, py, 1);
      CongUnique(py, 1);
    }
  }

  /** ge25519_is_neutral_vartime */
  method IsNeutral(p: Ge, ghost g: Group<CurvePoint>, ghost pt: CurvePoint) returns (r: bool)
    requires CurveGroup(g) && Partial(p, pt)
    ensures r <==> pt == g.zero
  {
    ghost var e :| Stands(p, e) && Rep(e, pt);
    assert Extends(e, pt, 0);
    var x := ContractT(p.x, e.x, 0);
    var y := ContractT(p.y, e.y, 0);
    var z := ContractT(p.z, e.z, 0);
    NeutralX(e.x, pt.x, e.z);
    NeutralY(e.y, pt.y, e.z);
    Neutral(g);
    var zero := seq(32, _ => 0);
    ZeroBytes(zero);
    if x != zero && LE(x) == 0 {
      LEUnique(x, zero);
    }
    if y != z && LE(y) == LE(z) {
      LEUnique(y, z);
    }
    r := x == zero && y == z;
  }

  // ---- the scalars of a batch ----

  /** Messages, keys, signatures and the 128-bit random numbers, one of each per signature. */
  datatype Inputs = Inputs(m: seq<seq<Byte>>, pk: seq<seq<Byte>>, rs: seq<seq<Byte>>, random: seq<seq<Byte>>)

  predicate Shaped(x: Inputs) {
    && |x.pk| == |x.rs| == |x.random| == |x.m|
    && (forall i :: 0 <= i < |x.m| ==> |x.pk[i]| == 32 && |x.rs[i]| == 64 && |x.random[i]| == 16)
  }

  ghost function Randomizer(x: Inputs, i: nat): nat
    requires Shaped(x) && i < |x.m|
  {
    LE(x.random[i])
  }

  ghost function ResponseIn(x: Inputs, i: nat): nat
    requires Shaped(x) && i < |x.m|
  {
    LE(x.rs[i][32..]) % S.M
  }

  ghost function ChallengeIn(k: seq<nat>, x: Inputs, i: nat): nat
    requires Shaped(x) && i < |x.m| && |k| == 80
  {
    Challenge(k, x.rs[i][..32], x.pk[i], x.m[i])
  }

  /** s1 r1 + ... + sn rn */
  ghost function Weighted(x: Inputs, n: nat): nat
    requires Shaped(x) && n <= |x.m|
  {
    if n == 0 then 0 else Weighted(x, n - 1) + ResponseIn(x, n - 1) * Randomizer(x, n - 1)
  }

  /** The scalar at index j: the base point's, then one per key, then one per commitment. */
  ghost function BatchValue(k: seq<nat>, x: Inputs, j: nat): int
    requires Shaped(x) && j <= 2 * |x.m| && |k| == 80
  {
    var b := |x.m|;
    if j == 0 then Weighted(x, b) % S.M
    else if j <= b then (ChallengeIn(k, x, j - 1) * Randomizer(x, j - 1)) % S.M
    else Randomizer(x, j - b - 1)
  }

  lemma RandomizerBound(b: seq<Byte>)
    requires |b| == 16
    ensures LE(b) < 0x1_0000_0000_0000_0000_0000_0000_0000_0000
  {
    LEBound(b);
    Pow256(8);
  }

  lemma RandomScalar(s: S.Limbs)
    requires S.Carried(s) && S.Val(s) < 0x1_0000_0000_0000_0000_0000_0000_0000_0000
    ensures O.Below256(s)
  {
  }

  predicate Holds(s: S.Limbs, v: int) {
    O.Below256(s) && S.Val(s) == v
  }

  /** The random numbers go to the end of the scalars. */
  method FillRandom(x: Inputs, scalars: array<S.Limbs>)
    requires Shaped(x) && scalars.Length >= 2 * |x.m| + 1
    modifies scalars
    ensures forall i :: 0 <= i < |x.m| ==> Holds(scalars[|x.m| + 1 + i], Randomizer(x, i))
  {
    var b := |x.m|;
    var i := 0;
    while i < b
      invariant 0 <= i <= b
      invariant forall j :: 0 <= j < i ==> Holds(scalars[b + 1 + j], Randomizer(x, j))
    {
      var r := SB.Expand256(x.random[i]);
      RandomizerBound(x.random[i]);
      RandomScalar(r);
      scalars[b + 1 + i] := r;
      i := i + 1;
    }
  }

  method ScaledResponse(rs: seq<Byte>, r: S.Limbs, ghost v: nat) returns (s: S.Limbs)
    requires |rs| == 64 && Holds(r, v)
    ensures Reduces(s, (LE(rs[32..]) % S.M * v) % S.M)
  {
    s := SB.Expand256(rs[32..]);
    O.ReducedBelow256(s);
    s := O.Mul256(s, r);
  }

  /** scalars[i] = s_i r_i */
  method FillProducts(x: Inputs, scalars: array<S.Limbs>)
    requires Shaped(x) && scalars.Length >= 2 * |x.m| + 1
    requires forall i :: 0 <= i < |x.m| ==> Holds(scalars[|x.m| + 1 + i], Randomizer(x, i))
    modifies scalars
    ensures forall i :: |x.m| <= i < scalars.Length ==> scalars[i] == old(scalars[i])
    ensures forall i :: 0 <= i < |x.m| ==> Reduces(scalars[i], Products(x)[i] % S.M)
  {
    ghost var p := Products(x);
    var b := |x.m|;
    var i := 0;
    while i < b
      invariant 0 <= i <= b
      invariant forall j :: b <= j < scalars.Length ==> scalars[j] == old(scalars[j])
      invariant forall j :: 0 <= j < i ==> Reduces(scalars[j], p[j] % S.M)
    {
      assert Holds(scalars[b + 1 + i], Randomizer(x, i));
      var s := ScaledResponse(x.rs[i], scalars[b + 1 + i], Randomizer(x, i));
      scalars[i] := s;
      i := i + 1;
    }
  }

  lemma ModAdd(a: int, b: int, m: nat)
    requires m > 0
    ensures (a % m + b % m) % m == (a + b) % m
  {
    var s := a % m + b % m;
    assert a + b == m * (a / m + b / m + s / m) + s % m;
    ModUnique(a + b, m, a / m + b / m + s / m, s % m);
  }

  predicate Reduces(s: S.Limbs, v: int) {
    S.Reduced(s) && S.Val(s) == v
  }

  method AddInto(s: S.Limbs, t: S.Limbs, ghost a: int, ghost p: int) returns (r: S.Limbs)
    requires Reduces(s, a % S.M) && Reduces(t, p % S.M)
    ensures Reduces(r, (a + p) % S.M)
  {
    ModAdd(a, p, S.M);
    r := O.Add256(s, t);
  }

  /** scalars[0] becomes the sum of the first b products, which p lists. */
  method SumProducts(b: nat, scalars: array<S.Limbs>, ghost p: seq<int>)
    requires 1 <= b <= |p| && b < scalars.Length
    requires forall i :: 0 <= i < b ==> Reduces(scalars[i], p[i] % S.M)
    modifies scalars
    ensures forall i :: b < i < scalars.Length ==> scalars[i] == old(scalars[i])
    ensures Reduces(scalars[0], Total(p, b) % S.M)
  {
    var i: nat := 1;
    assert Total(p, 1) == Total(p, 0) + p[0];
    while i < b
      invariant 1 <= i <= b
      invariant Reduces(scalars[0], Total(p, i) % S.M)
      invariant forall j :: i <= j < scalars.Length ==> scalars[j] == old(scalars[j])
    {
      var s := AddInto(scalars[0], scalars[i], Total(p, i), p[i]);
      scalars[0] := s;
      i := i + 1;
    }
  }

  /** The products s_i r_i, before reduction. */
  ghost function Products(x: Inputs): (p: seq<int>)
    requires Shaped(x)
    ensures |p| == |x.m|
  {
    seq(|x.m|, i requires 0 <= i < |x.m| => ResponseIn(x, i) * Randomizer(x, i))
  }

  lemma {:induction false} TotalWeighted(x: Inputs, n: nat)
    requires Shaped(x) && n <= |x.m|
    ensures Total(Products(x), n) == Weighted(x, n)
  {
    if n > 0 {
      TotalWeighted(x, n - 1);
    }
  }

  /** The challenge of one signature times its random number. */
  method ChallengeProduct(k: seq<nat>, rs: seq<Byte>, pk: seq<Byte>, m: seq<Byte>, r: S.Limbs,
        ghost v: nat) returns (s: S.Limbs)
    requires |k| == 80 && |rs| == 64 && Holds(r, v)
    ensures Holds(s, (Challenge(k, rs[..32], pk, m) * v) % S.M)
  {
    var hram := Hram(k, rs, pk, m);
    s := SB.Expand256(hram);
    O.ReducedBelow256(s);
    s := O.Mul256(s, r);
    O.ReducedBelow256(s);
  }

  /** The products r_i H(R_i, A_i, m_i), reduced. */
  ghost function ChallengeProducts(k: seq<nat>, x: Inputs): (q: seq<int>)
    requires Shaped(x) && |k| == 80
    ensures |q| == |x.m|
  {
    seq(|x.m|, i requires 0 <= i < |x.m| => (ChallengeIn(k, x, i) * Randomizer(x, i)) % S.M)
  }

  method EntryProduct(k: seq<nat>, x: Inputs, i: nat, r: S.Limbs, ghost q: seq<int>) returns (s: S.Limbs)
    requires Shaped(x) && |k| == 80 && i < |x.m| && Holds(r, Randomizer(x, i)) && q == ChallengeProducts(k, x)
    ensures Holds(s, q[i])
  {
    s := ChallengeProduct(k, x.rs[i], x.pk[i], x.m[i], r, Randomizer(x, i));
  }

  /** scalars[i + 1] = r_i H(R_i, A_i, m_i) */
  method FillChallenges(k: seq<nat>, x: Inputs, scalars: array<S.Limbs>)
    requires Shaped(x) && |k| == 80 && scalars.Length >= 2 * |x.m| + 1
    requires forall i :: 0 <= i < |x.m| ==> Holds(scalars[|x.m| + 1 + i], Randomizer(x, i))
    modifies scalars
    ensures scalars[0] == old(scalars[0]) && forall i :: |x.m| < i < scalars.Length ==> scalars[i] == old(scalars[i])
    ensures forall i :: 0 <= i < |x.m| ==> Holds(scalars[i + 1], ChallengeProducts(k, x)[i])
  {
    ghost var q := ChallengeProducts(k, x);
    var b := |x.m|;
    var i := 0;
    while i < b
      invariant 0 <= i <= b && scalars[0] == old(scalars[0])
      invariant forall j :: b < j < scalars.Length ==> scalars[j] == old(scalars[j])
      invariant forall j :: 0 <= j < i ==> Holds(scalars[j + 1], q[j])
    {
      assert Holds(scalars[b + 1 + i], Randomizer(x, i));
      var s := EntryProduct(k, x, i, scalars[b + 1 + i], q);
      scalars[i + 1] := s;
      i := i + 1;
    }
  }

  lemma ScalarsMatch(k: seq<nat>, x: Inputs, scalars: seq<S.Limbs>, j: nat)
    requires Shaped(x) && |k| == 80 && |scalars| >= 2 * |x.m| + 1 && j <= 2 * |x.m|
    requires Reduces(scalars[0], Total(Products(x), |x.m|) % S.M)
    requires forall i :: 0 <= i < |x.m| ==> Holds(scalars[i + 1], ChallengeProducts(k, x)[i])
    requires forall i :: 0 <= i < |x.m| ==> Holds(scalars[|x.m| + 1 + i], Randomizer(x, i))
    ensures Holds(scalars[j], BatchValue(k, x, j))
  {
    var b := |x.m|;
    if j == 0 {
      TotalWeighted(x, b);
      O.ReducedBelow256(scalars[0]);
    } else if j <= b {
      assert Holds(scalars[(j - 1) + 1], ChallengeProducts(k, x)[j - 1]);
    } else {
      assert Holds(scalars[b + 1 + (j - b - 1)], Randomizer(x, j - b - 1));
    }
  }

  method FillScalars(k: seq<nat>, x: Inputs, scalars: array<S.Limbs>)
    requires Shaped(x) && |k| == 80 && |x.m| >= 1 && scalars.Length >= 2 * |x.m| + 1
    modifies scalars
    ensures forall j :: 0 <= j <= 2 * |x.m| ==> Holds(scalars[j], BatchValue(k, x, j))
  {
    FillRandom(x, scalars);
    ghost var filled := scalars[..];
    FillProducts(x, scalars);
    SumProducts(|x.m|, scalars, Products(x));
    assert forall i :: |x.m| < i < scalars.Length ==> scalars[i] == filled[i];
    FillChallenges(k, x, scalars);
    assert forall i :: |x.m| < i < scalars.Length ==> scalars[i] == filled[i];
    forall j | 0 <= j <= 2 * |x.m| ensures Holds(scalars[j], BatchValue(k, x, j)) {
      ScalarsMatch(k, x, scalars[..], j);
    }
  }

  /** v lists the scalars of the batch; the list opens only where a proof names Listed. */
  ghost predicate IsValues(k: seq<nat>, x: Inputs, v: seq<int>)
    requires Shaped(x) && |k| == 80
  {
    |v| >= 2 * |x.m| + 1 && forall j: nat {:trigger Listed(j)} :: Listed(j) && j <= 2 * |x.m| ==>
      v[j] == BatchValue(k, x, j)
  }

  ghost predicate Listed(j: nat) {
    true
  }

  lemma ValuesHold(k: seq<nat>, x: Inputs, scalars: seq<S.Limbs>) returns (v: seq<int>)
    requires Shaped(x) && |k| == 80 && |scalars| >= 2 * |x.m| + 1
    requires forall j :: 0 <= j <= 2 * |x.m| ==> Holds(scalars[j], BatchValue(k, x, j))
    ensures IsValues(k, x, v) && BatchHeap.Values(scalars, v, 2 * |x.m| + 1, 4)
  {
    v := seq(|scalars|, j requires 0 <= j < |scalars| => S.Val(scalars[j]));
    forall j: nat | Listed(j) && j <= 2 * |x.m| ensures v[j] == BatchValue(k, x, j) {
      assert Holds(scalars[j], BatchValue(k, x, j));
    }
    forall i | 0 <= i < 2 * |x.m| + 1 ensures S.Carried(scalars[i]) && BatchScalars.Fits(scalars[i], 4)
      && v[i] == S.Val(scalars[i]) {
      assert Holds(scalars[i], BatchValue(k, x, i));
    }
  }

  lemma RandomValue(k: seq<nat>, x: Inputs, v: seq<int>, i: nat)
    requires Shaped(x) && |k| == 80 && IsValues(k, x, v) && i < |x.m|
    ensures v[|x.m| + 1 + i] == Randomizer(x, i) == LE(x.random[i])
  {
    assert Listed(|x.m| + 1 + i);
  }

  lemma KeyValue(k: seq<nat>, x: Inputs, v: seq<int>, i: nat)
    requires Shaped(x) && |k| == 80 && IsValues(k, x, v) && i < |x.m|
    ensures v[1 + i] == (ChallengeIn(k, x, i) * Randomizer(x, i)) % S.M
    ensures ChallengeIn(k, x, i) == LE(Sha512Spec.Digest(k, x.rs[i][..32] + x.pk[i] + x.m[i])) % S.M
  {
    assert Listed(1 + i);
  }

  lemma BaseValue(k: seq<nat>, x: Inputs, v: seq<int>)
    requires Shaped(x) && |k| == 80 && IsValues(k, x, v)
    ensures v[0] == Weighted(x, |x.m|) % S.M
  {
    assert Listed(0);
  }

  lemma PrefixSize(b: nat)
    ensures b + 1 <= Prefix(2 * b + 1) <= b + 2
  {
  }

  lemma RestIsRandom(k: seq<nat>, x: Inputs, v: seq<int>)
    requires Shaped(x) && |k| == 80 && IsValues(k, x, v)
    ensures RestSmall(v, Prefix(2 * |x.m| + 1), 2 * |x.m| + 1)
  {
    var b := |x.m|;
    PrefixSize(b);
    forall i | Prefix(2 * b + 1) <= i < 2 * b + 1 ensures v[i] < 0x1_0000_0000_0000_0000_0000_0000_0000_0000 {
      RandomValue(k, x, v, i - b - 1);
      RandomizerBound(x.random[i - b - 1]);
    }
  }

  // ---- the points of a batch ----

  ghost predicate Decodes(b: seq<Byte>) {
    exists pt: CurvePoint :: pt.y == CoordinateY(b)
  }

  method Unpack(p: seq<Byte>, ghost base: CurvePoint) returns (ok: bool, r: Ge, ghost pt: CurvePoint)
    requires |p| == 32 && NoZeroDivisors() && Fermat()
    ensures ok <==> Decodes(p)
    ensures ok ==> NegativeOf(p, pt) && Full(r, pt)
  {
    ok, r := UnpackNegative(p);
    pt := base;
    if ok {
      pt :| NegativeOf(p, pt) && Full(r, pt);
    }
  }

  ghost predicate ListDecodes(list: seq<seq<Byte>>) {
    forall i :: 0 <= i < |list| ==> Decodes(list[i])
  }

  /** The points from at on are the negatives of those the list encodes. */
  ghost predicate Negatives(list: seq<seq<Byte>>, pts: seq<CurvePoint>, at: nat) {
    at + |list| <= |pts| && forall i: nat {:trigger NegativeAt(list, pts, at, i)} :: i < |list| ==>
      NegativeAt(list, pts, at, i)
  }

  ghost predicate NegativeAt(list: seq<seq<Byte>>, pts: seq<CurvePoint>, at: nat, i: nat)
    requires i < |list| && at + i < |pts|
  {
    |list[i]| == 32 && NegativeOf(list[i], pts[at + i])
  }

  lemma NegativesExtend(list: seq<seq<Byte>>, pts: seq<CurvePoint>, at: nat, i: nat, pt: CurvePoint)
    requires i < |list| && at + i < |pts| && Negatives(list[..i], pts, at) && |list[i]| == 32 && NegativeOf(list[i], pt)
    ensures Negatives(list[..i + 1], pts[at + i := pt], at)
  {
    var pts', longer, n := pts[at + i := pt], list[..i + 1], i + 1;
    forall j: nat | j < n ensures NegativeAt(longer, pts', at, j) {
      if j < i {
        assert NegativeAt(list[..i], pts, at, j);
      }
    }
  }

  /** Unpacks a list of encodings into consecutive points; stops at the first that is no encoding. */
  method UnpackAll(list: seq<seq<Byte>>, at: nat, points: array<Ge>, ghost pts: seq<CurvePoint>) returns (ok: bool,
        ghost pts': seq<CurvePoint>)
    requires NoZeroDivisors() && Fermat() && at >= 1 && at + |list| <= points.Length && Points(points[..], pts, at)
    requires forall i :: 0 <= i < |list| ==> |list[i]| == 32
    modifies points
    ensures ok <==> ListDecodes(list)
    ensures ok ==> Points(points[..], pts', at + |list|) && pts'[..at] == pts[..at] && Negatives(list, pts', at)
  {
    pts' := pts;
    var i := 0;
    while i < |list|
      invariant 0 <= i <= |list| && Points(points[..], pts', at + i) && pts'[..at] == pts[..at]
      invariant ListDecodes(list[..i]) && Negatives(list[..i], pts', at)
    {
      ghost var pt;
      var r;
      ok, r, pt := Unpack(list[i], pts[0]);
      if !ok {
        return;
      }
      points[at + i] := r;
      NegativesExtend(list, pts', at, i, pt);
      pts' := pts'[at + i := pt];
      i := i + 1;
    }
    assert list[..i] == list;
    ok := true;
  }

  function Commitments(x: Inputs): (c: seq<seq<Byte>>)
    requires Shaped(x)
    ensures |c| == |x.m| && forall i :: 0 <= i < |c| ==> c[i] == x.rs[i][..32] && |c[i]| == 32
  {
    seq(|x.m|, i requires 0 <= i < |x.m| => x.rs[i][..32])
  }

  /** The base point, the negatives of the keys, the negatives of the commitments. */
  ghost predicate BatchPoints(x: Inputs, base: CurvePoint, pts: seq<CurvePoint>)
    requires Shaped(x)
  {
    |pts| >= 2 * |x.m| + 1 && pts[0] == base && Negatives(x.pk, pts, 1) && Negatives(Commitments(x), pts, |x.m| + 1)
  }

  ghost predicate AllDecode(x: Inputs)
    requires Shaped(x)
  {
    ListDecodes(x.pk) && ListDecodes(Commitments(x))
  }

  lemma NegativesKept(list: seq<seq<Byte>>, keys: seq<CurvePoint>, pts: seq<CurvePoint>, at: nat, n: nat)
    requires Negatives(list, keys, at) && at + |list| <= n <= |keys| && n <= |pts| && pts[..n] == keys[..n]
    ensures Negatives(list, pts, at)
  {
    forall i: nat | i < |list| ensures NegativeAt(list, pts, at, i) {
      assert NegativeAt(list, keys, at, i);
      assert pts[..n][at + i] == keys[..n][at + i];
    }
  }

  method FillPoints(basepoint: Ge, x: Inputs, points: array<Ge>, ghost base: CurvePoint) returns (ok: bool,
        ghost pts: seq<CurvePoint>)
    requires Shaped(x) && NoZeroDivisors() && Fermat() && Full(basepoint, base) && points.Length >= 2 * |x.m| + 1
    modifies points
    ensures ok <==> AllDecode(x)
    ensures ok ==> Placed(points[..], pts, 2 * |x.m| + 1) && BatchPoints(x, base, pts)
  {
    points[0] := basepoint;
    pts := seq(points.Length, _ => base);
    ghost var start := pts;
    ok, pts := UnpackAll(x.pk, 1, points, start);
    if ok {
      ghost var keys := pts;
      assert keys[0] == keys[..1][0] == start[..1][0] == base;
      ok, pts := UnpackAll(Commitments(x), |x.m| + 1, points, keys);
      if ok {
        NegativesKept(x.pk, keys, pts, 1, |x.m| + 1);
        assert pts[0] == pts[..|x.m| + 1][0] == keys[..|x.m| + 1][0];
      }
    }
  }

  // ---- valid signatures cancel ----

  ghost predicate AcceptsAt(k: seq<nat>, x: Inputs, g: Group<CurvePoint>, base: CurvePoint, i: nat)
    requires Shaped(x) && |k| == 80 && i < |x.m|
  {
    Accepts(k, x.m[i], x.pk[i], x.rs[i], g, base)
  }

  ghost predicate AllAccepted(k: seq<nat>, x: Inputs, g: Group<CurvePoint>, base: CurvePoint)
    requires Shaped(x) && |k| == 80
  {
    forall i: nat {:trigger AcceptsAt(k, x, g, base, i)} :: i < |x.m| ==> AcceptsAt(k, x, g, base, i)
  }

  /**
   * A signature is accepted exactly if its equation holds over the decoded points, R is canonical and the top bits of S
   * are clear.
   */
  lemma AcceptedTerm(k: seq<nat>, m: seq<Byte>, pk: seq<Byte>, rs: seq<Byte>, g: Group<CurvePoint>, base: CurvePoint,
        a: CurvePoint, r: CurvePoint)
    requires |k| == 80 && |pk| == 32 && |rs| == 64 && CurveGroup(g) && NegativeOf(pk, a) && NegativeOf(rs[..32], r)
    ensures Accepts(k, m, pk, rs, g, base) <==>
              && rs[63] < 32 && Faithful(rs[..32], r.x)
              && Op(g, Op(g, Times(g, LE(Sha512Spec.Digest(k, rs[..32] + pk + m)) % S.M, a),
                             Times(g, LE(rs[32..]) % S.M, base)), r) == g.zero
  {
    AcceptsUnique(k, m, pk, rs, g, base, a);
    var p := Mix(g, Challenge(k, rs[..32], pk, m), a, LE(rs[32..]) % S.M, base);
    EncodeBack(rs[..32], r);
    NegIsInverse(g, r);
    if Matches(k, m, pk, rs, g, base, a) {
      EncodeNegative(p);
      NegIsInverse(g, p);
      NegativeUnique(rs[..32], r, Inv(g, p));
      NegNeg(g, p);
      Inverse(g, p);
    }
    if Op(g, p, r) == g.zero {
      NegUnique(g, p, r);
      NegNeg(g, p);
    }
  }

  /** The key of an accepted signature decodes, and so does its R, being the encoding of a point. */
  lemma AcceptedDecodes(k: seq<nat>, m: seq<Byte>, pk: seq<Byte>, rs: seq<Byte>, g: Group<CurvePoint>,
        base: CurvePoint)
    requires |k| == 80 && |pk| == 32 && |rs| == 64 && Accepts(k, m, pk, rs, g, base)
    ensures Decodes(pk) && Decodes(rs[..32])
  {
    var a: CurvePoint :| NegativeOf(pk, a) && Matches(k, m, pk, rs, g, base, a);
    EncodeNegative(Mix(g, Challenge(k, rs[..32], pk, m), a, LE(rs[32..]) % S.M, base));
  }

  lemma AcceptedDecode(k: seq<nat>, x: Inputs, g: Group<CurvePoint>, base: CurvePoint)
    requires Shaped(x) && |k| == 80 && AllAccepted(k, x, g, base)
    ensures AllDecode(x)
  {
    forall i: nat | i < |x.m| ensures Decodes(x.pk[i]) && Decodes(Commitments(x)[i]) {
      assert AcceptsAt(k, x, g, base, i);
      AcceptedDecodes(k, x.m[i], x.pk[i], x.rs[i], g, base);
    }
  }

  /** The weighted sum of the terms, sorted by point. */
  lemma {:induction false} WeightedTerms<G(!new)>(g: Group<G>, r: seq<int>, h: seq<int>, s: seq<int>, hr: seq<int>,
        sr: seq<int>,
                                                  a: seq<G>, c: seq<G>, t: seq<G>, base: G, n: nat)
    requires Abelian(g) && n <= |r| && n <= |h| && n <= |s| && n <= |hr| && n <= |sr| && n <= |a| && n <= |c|
      && n <= |t|
    requires forall i :: 0 <= i < n ==> hr[i] == h[i] * r[i] && sr[i] == s[i] * r[i]
    requires forall i :: 0 <= i < n ==> t[i] == Op(g, Mix(g, h[i], a[i], s[i], base), c[i])
    ensures Op(g, Op(g, Times(g, Total(sr, n), base), Sum(g, hr, a, n)), Sum(g, r, c, n)) == Sum(g, r, t, n)
  {
    Zero(g, g.zero);
    if n > 0 {
      var i := n - 1;
      WeightedTerms(g, r, h, s, hr, sr, a, c, t, base, i);
      TimesTerm(g, r[i], h[i], a[i], s[i], base, c[i]);
      TimesAdd(g, Total(sr, i), sr[i], base);
      SixTerms(g, Times(g, Total(sr, i), base), Sum(g, hr, a, i), Sum(g, r, c, i),
               Times(g, sr[i], base), Times(g, hr[i], a[i]), Times(g, r[i], c[i]));
    }
  }

  ghost function Randomizers(x: Inputs): (r: seq<int>)
    requires Shaped(x)
    ensures |r| == |x.m| && forall i :: 0 <= i < |r| ==> r[i] == Randomizer(x, i)
  {
    seq(|x.m|, i requires 0 <= i < |x.m| => Randomizer(x, i))
  }

  ghost function Challenges(k: seq<nat>, x: Inputs): (h: seq<int>)
    requires Shaped(x) && |k| == 80
    ensures |h| == |x.m| && forall i :: 0 <= i < |h| ==> h[i] == ChallengeIn(k, x, i)
  {
    seq(|x.m|, i requires 0 <= i < |x.m| => ChallengeIn(k, x, i))
  }

  ghost function Responses(x: Inputs): (s: seq<int>)
    requires Shaped(x)
    ensures |s| == |x.m| && forall i :: 0 <= i < |s| ==> s[i] == ResponseIn(x, i)
  {
    seq(|x.m|, i requires 0 <= i < |x.m| => ResponseIn(x, i))
  }

  ghost function Pairwise(a: seq<int>, b: seq<int>): (p: seq<int>)
    requires |a| == |b|
    ensures |p| == |a| && forall i :: 0 <= i < |p| ==> p[i] == a[i] * b[i]
  {
    seq(|a|, i requires 0 <= i < |a| => a[i] * b[i])
  }

  lemma KeyTerm(k: seq<nat>, x: Inputs, v: seq<int>, g: Group<CurvePoint>, p: CurvePoint, i: nat)
    requires Shaped(x) && |k| == 80 && IsValues(k, x, v) && i < |x.m| && Abelian(g) && Times(g, S.M, p) == g.zero
    ensures Times(g, v[1 + i], p) == Times(g, Pairwise(Challenges(k, x), Randomizers(x))[i], p)
  {
    KeyValue(k, x, v, i);
    TimesMod(g, Pairwise(Challenges(k, x), Randomizers(x))[i], S.M, p);
  }

  /** The scalar of each key counts modulo m, its point being in the group of order m. */
  lemma KeyTerms(k: seq<nat>, x: Inputs, v: seq<int>, g: Group<CurvePoint>, pts: seq<CurvePoint>)
    requires Shaped(x) && |k| == 80 && IsValues(k, x, v) && Abelian(g) && Torsion(g, pts, 2 * |x.m| + 1, S.M)
    ensures Sum(g, v[1..], pts[1..], |x.m|) == Sum(g, Pairwise(Challenges(k, x), Randomizers(x)), pts[1..], |x.m|)
  {
    var hr := Pairwise(Challenges(k, x), Randomizers(x));
    forall i | 0 <= i < |x.m| ensures Times(g, v[1..][i], pts[1..][i]) == Times(g, hr[i], pts[1..][i]) {
      TorsionAt(g, pts, 2 * |x.m| + 1, S.M, 1 + i);
      KeyTerm(k, x, v, g, pts[1 + i], i);
    }
    SumEqual(g, v[1..], pts[1..], hr, pts[1..], |x.m|);
  }

  lemma CommitmentTerms(k: seq<nat>, x: Inputs, v: seq<int>, g: Group<CurvePoint>, pts: seq<CurvePoint>)
    requires Shaped(x) && |k| == 80 && IsValues(k, x, v) && |pts| >= 2 * |x.m| + 1
    ensures Sum(g, v[|x.m| + 1..], pts[|x.m| + 1..], |x.m|) == Sum(g, Randomizers(x), pts[|x.m| + 1..], |x.m|)
  {
    var b := |x.m|;
    forall i | 0 <= i < b ensures v[b + 1..][i] == Randomizers(x)[i] {
      RandomValue(k, x, v, i);
    }
    SumSame(g, v[b + 1..], pts[b + 1..], Randomizers(x), pts[b + 1..], b);
  }

  lemma BaseTerm(k: seq<nat>, x: Inputs, v: seq<int>, g: Group<CurvePoint>, p: CurvePoint, pts: seq<CurvePoint>)
    requires Shaped(x) && |k| == 80 && IsValues(k, x, v) && Abelian(g) && Times(g, S.M, p) == g.zero && |pts| >= 1
      && pts[0] == p
    ensures Sum(g, v, pts, 1) == Times(g, Total(Pairwise(Responses(x), Randomizers(x)), |x.m|), p)
  {
    var w := Total(Pairwise(Responses(x), Randomizers(x)), |x.m|);
    assert Products(x) == Pairwise(Responses(x), Randomizers(x));
    TotalWeighted(x, |x.m|);
    BaseValue(k, x, v);
    TimesMod(g, w, S.M, p);
    Zero(g, Times(g, v[0], p));
    assert Sum(g, v, pts, 1) == Op(g, Sum(g, v, pts, 0), Times(g, v[0], p));
  }

  /** [s_i]B - [h_i]A_i - R_i, over the decoded negatives */
  ghost function TermOf(k: seq<nat>, x: Inputs, g: Group<CurvePoint>, base: CurvePoint, pts: seq<CurvePoint>,
        i: nat): CurvePoint
    requires Shaped(x) && |k| == 80 && |pts| >= 2 * |x.m| + 1 && i < |x.m|
  {
    Op(g, Mix(g, ChallengeIn(k, x, i), pts[1 + i], ResponseIn(x, i), base), pts[|x.m| + 1 + i])
  }

  /** t lists the terms of the batch; opens at the indices a proof names with Numbered. */
  ghost predicate IsTerms(k: seq<nat>, x: Inputs, g: Group<CurvePoint>, base: CurvePoint, pts: seq<CurvePoint>,
        t: seq<CurvePoint>)
    requires Shaped(x) && |k| == 80 && |pts| >= 2 * |x.m| + 1
  {
    |t| == |x.m| && forall i: nat {:trigger Numbered(i)} :: Numbered(i) && i < |x.m| ==>
      t[i] == TermOf(k, x, g, base, pts, i)
  }

  ghost predicate Numbered(i: nat) {
    true
  }

  lemma ListTerms(k: seq<nat>, x: Inputs, g: Group<CurvePoint>, base: CurvePoint,
        pts: seq<CurvePoint>) returns (t: seq<CurvePoint>)
    requires Shaped(x) && |k| == 80 && |pts| >= 2 * |x.m| + 1
    ensures IsTerms(k, x, g, base, pts, t)
  {
    t := seq(|x.m|, i requires 0 <= i < |x.m| => TermOf(k, x, g, base, pts, i));
  }

  lemma BatchTerm(k: seq<nat>, x: Inputs, g: Group<CurvePoint>, base: CurvePoint, pts: seq<CurvePoint>, i: nat)
    requires Shaped(x) && |k| == 80 && i < |x.m| && CurveGroup(g) && BatchPoints(x, base, pts)
    requires AllAccepted(k, x, g, base)
    ensures TermOf(k, x, g, base, pts, i) == g.zero
  {
    assert NegativeAt(x.pk, pts, 1, i) && NegativeAt(Commitments(x), pts, |x.m| + 1, i);
    assert AcceptsAt(k, x, g, base, i);
    AcceptedTerm(k, x.m[i], x.pk[i], x.rs[i], g, base, pts[1 + i], pts[|x.m| + 1 + i]);
  }

  lemma ThreeParts<G(!new)>(g: Group<G>, v: seq<int>, p: seq<G>, b: nat, n: nat, w: G, y: G, z: G)
    requires Abelian(g) && n == 2 * b + 1 && n <= |v| && n <= |p|
    requires Sum(g, v, p, 1) == w && Sum(g, v[1..], p[1..], b) == y && Sum(g, v[b + 1..], p[b + 1..], b) == z
    ensures Sum(g, v, p, n) == Op(g, Op(g, w, y), z)
  {
    var m := 1 + b;
    assert Sum(g, v, p, m) == Op(g, w, y) by { SumSplit(g, v, p, 1, b); }
    assert m == b + 1 && m + b == n;
    assert Sum(g, v, p, n) == Op(g, Sum(g, v, p, m), z) by { SumSplit(g, v, p, m, b); }
  }

  lemma TermsSum(k: seq<nat>, x: Inputs, g: Group<CurvePoint>, base: CurvePoint, pts: seq<CurvePoint>, b: nat,
        r: seq<int>, h: seq<int>, s: seq<int>,
                 t: seq<CurvePoint>)
    requires Shaped(x) && |k| == 80 && Abelian(g) && |pts| >= 2 * |x.m| + 1 && IsTerms(k, x, g, base, pts, t)
    requires b == |x.m| && r == Randomizers(x) && h == Challenges(k, x) && s == Responses(x)
    ensures Op(g, Op(g, Times(g, Total(Pairwise(s, r), b), base), Sum(g, Pairwise(h, r), pts[1..], b)),
      Sum(g, r, pts[b + 1..], b)) == Sum(g, r, t, b)
  {
    forall i | 0 <= i < b ensures t[i] == Op(g, Mix(g, h[i], pts[1..][i], s[i], base), pts[b + 1..][i]) {
      assert Numbered(i);
      assert pts[1..][i] == pts[1 + i] && pts[b + 1..][i] == pts[b + 1 + i];
    }
    WeightedTerms(g, r, h, s, Pairwise(h, r), Pairwise(s, r), pts[1..], pts[b + 1..], t, base, b);
  }

  lemma PartsSum(k: seq<nat>, x: Inputs, v: seq<int>, g: Group<CurvePoint>, base: CurvePoint, pts: seq<CurvePoint>,
        t: seq<CurvePoint>,
                 w: CurvePoint, y: CurvePoint, z: CurvePoint)
    requires Shaped(x) && |k| == 80 && IsValues(k, x, v) && CurveGroup(g)
    requires BatchPoints(x, base, pts) && Torsion(g, pts, 2 * |x.m| + 1, S.M) && IsTerms(k, x, g, base, pts, t)
    requires w == Sum(g, v, pts, 1) && y == Sum(g, v[1..], pts[1..], |x.m|)
      && z == Sum(g, v[|x.m| + 1..], pts[|x.m| + 1..], |x.m|)
    ensures Op(g, Op(g, w, y), z) == Sum(g, Randomizers(x), t, |x.m|)
  {
    TermsSum(k, x, g, base, pts, |x.m|, Randomizers(x), Challenges(k, x), Responses(x), t);
    TorsionAt(g, pts, 2 * |x.m| + 1, S.M, 0);
    BaseTerm(k, x, v, g, base, pts);
    KeyTerms(k, x, v, g, pts);
    CommitmentTerms(k, x, v, g, pts);
  }

  /** Over points of the group of order m a batch sums to its terms, weighted by the random numbers. */
  lemma BatchSum(k: seq<nat>, x: Inputs, v: seq<int>, g: Group<CurvePoint>, base: CurvePoint, pts: seq<CurvePoint>,
        t: seq<CurvePoint>)
    requires Shaped(x) && |k| == 80 && IsValues(k, x, v) && CurveGroup(g)
    requires BatchPoints(x, base, pts) && Torsion(g, pts, 2 * |x.m| + 1, S.M) && IsTerms(k, x, g, base, pts, t)
    ensures Sum(g, v, pts, 2 * |x.m| + 1) == Sum(g, Randomizers(x), t, |x.m|)
  {
    var b := |x.m|;
    var w, y, z := Sum(g, v, pts, 1), Sum(g, v[1..], pts[1..], b), Sum(g, v[b + 1..], pts[b + 1..], b);
    PartsSum(k, x, v, g, base, pts, t, w, y, z);
    ThreeParts(g, v, pts, b, 2 * b + 1, w, y, z);
  }

  lemma {:induction false} SumOfZeros<G(!new)>(g: Group<G>, s: seq<int>, p: seq<G>, n: nat)
    requires Abelian(g) && n <= |s| && n <= |p| && forall i :: 0 <= i < n ==> p[i] == g.zero
    ensures Sum(g, s, p, n) == g.zero
  {
    if n > 0 {
      SumOfZeros(g, s, p, n - 1);
      TimesZero(g, s[n - 1]);
      Zero(g, g.zero);
    }
  }

  /** Every term of the batch is the neutral element. */
  ghost predicate AllVanish(k: seq<nat>, x: Inputs, g: Group<CurvePoint>, base: CurvePoint, pts: seq<CurvePoint>)
    requires Shaped(x) && |k| == 80 && |pts| >= 2 * |x.m| + 1
  {
    forall i: nat :: i < |x.m| ==> TermOf(k, x, g, base, pts, i) == g.zero
  }

  lemma VanishingSum(k: seq<nat>, x: Inputs, v: seq<int>, g: Group<CurvePoint>, base: CurvePoint, pts: seq<CurvePoint>)
    requires Shaped(x) && |k| == 80 && IsValues(k, x, v) && CurveGroup(g)
    requires BatchPoints(x, base, pts) && Torsion(g, pts, 2 * |x.m| + 1, S.M) && AllVanish(k, x, g, base, pts)
    ensures Sum(g, v, pts, 2 * |x.m| + 1) == g.zero
  {
    var t := ListTerms(k, x, g, base, pts);
    BatchSum(k, x, v, g, base, pts, t);
    forall i | 0 <= i < |x.m| ensures t[i] == g.zero {
      assert Numbered(i);
    }
    SumOfZeros(g, Randomizers(x), t, |x.m|);
  }

  /**
   * A batch of valid signatures over points of the group of order m sums to the neutral element, whatever the random
   * numbers.
   */
  lemma BatchComplete(k: seq<nat>, x: Inputs, v: seq<int>, g: Group<CurvePoint>, base: CurvePoint, pts: seq<CurvePoint>)
    requires Shaped(x) && |k| == 80 && IsValues(k, x, v) && CurveGroup(g)
    requires BatchPoints(x, base, pts) && Torsion(g, pts, 2 * |x.m| + 1, S.M)
    requires AllAccepted(k, x, g, base)
    ensures Sum(g, v, pts, 2 * |x.m| + 1) == g.zero
  {
    forall i: nat | i < |x.m| ensures TermOf(k, x, g, base, pts, i) == g.zero {
      BatchTerm(k, x, g, base, pts, i);
    }
    VanishingSum(k, x, v, g, base, pts);
  }

  /** Two weights that both make a sum vanish differ by a multiple that kills the term. */
  lemma WeightDifference<G(!new)>(g: Group<G>, r: seq<int>, r': seq<int>, t: seq<G>, n: nat, j: nat)
    requires Abelian(g) && n <= |r| && n <= |r'| && n <= |t| && j < n && forall i :: 0 <= i < n && i != j ==>
      r'[i] == r[i]
    requires Sum(g, r, t, n) == g.zero && Sum(g, r', t, n) == g.zero
    ensures Times(g, r'[j] - r[j], t[j]) == g.zero
  {
    SumReplace(g, r, t, r', t, n, j);
    var a, b := Times(g, r[j], t[j]), Times(g, r'[j], t[j]);
    Zero(g, a);
    Zero(g, b);
    TimesAdd(g, r'[j] - r[j], r[j], t[j]);
    Comm(g, Times(g, r'[j] - r[j], t[j]), a);
    Cancel(g, a, Times(g, r'[j] - r[j], t[j]), g.zero);
  }

  lemma TermKilled(k: seq<nat>, x: Inputs, g: Group<CurvePoint>, base: CurvePoint, pts: seq<CurvePoint>, j: nat, m: nat)
    requires Shaped(x) && |k| == 80 && Abelian(g) && |pts| >= 2 * |x.m| + 1 && pts[0] == base && j < |x.m|
    requires Torsion(g, pts, 2 * |x.m| + 1, m)
    ensures Times(g, m, TermOf(k, x, g, base, pts, j)) == g.zero
  {
    var n, i, l, h, s := 2 * |x.m| + 1, 1 + j, |x.m| + 1 + j, ChallengeIn(k, x, j), ResponseIn(x, j);
    assert TermOf(k, x, g, base, pts, j) == Op(g, Mix(g, h, pts[i], s, base), pts[l]);
    KilledAt(g, pts, n, m, i, l, h, s, base);
  }

  lemma KilledAt(g: Group<CurvePoint>, pts: seq<CurvePoint>, n: nat, m: nat, i: nat, j: nat, h: nat, s: nat,
                 base: CurvePoint)
    requires Abelian(g) && Torsion(g, pts, n, m) && i < n && j < n && pts[0] == base
    ensures Times(g, m, Op(g, Mix(g, h, pts[i], s, base), pts[j])) == g.zero
  {
    TorsionAt(g, pts, n, m, 0);
    TorsionAt(g, pts, n, m, i);
    TorsionAt(g, pts, n, m, j);
    KilledTerm(g, m, h, pts[i], s, base, pts[j]);
  }

  lemma KilledTerm<G(!new)>(g: Group<G>, e: int, h: int, a: G, s: int, b: G, c: G)
    requires Abelian(g) && Times(g, e, a) == g.zero && Times(g, e, b) == g.zero && Times(g, e, c) == g.zero
    ensures Times(g, e, Op(g, Mix(g, h, a, s, b), c)) == g.zero
  {
    TimesTerm(g, e, h, a, s, b, c);
    TimesProduct(g, s, e, b);
    TimesProduct(g, h, e, a);
    TimesZero(g, s);
    TimesZero(g, h);
    Zero(g, g.zero);
  }

  lemma SameTerms(k: seq<nat>, x: Inputs, x': Inputs, g: Group<CurvePoint>, base: CurvePoint, pts: seq<CurvePoint>,
        t: seq<CurvePoint>)
    requires Shaped(x) && Shaped(x') && |k| == 80 && |pts| >= 2 * |x.m| + 1 && x'.m == x.m && x'.pk == x.pk
      && x'.rs == x.rs
    requires IsTerms(k, x, g, base, pts, t)
    ensures IsTerms(k, x', g, base, pts, t)
  {
    forall i: nat | Numbered(i) && i < |x'.m| ensures t[i] == TermOf(k, x', g, base, pts, i) {
      assert ChallengeIn(k, x', i) == ChallengeIn(k, x, i) && ResponseIn(x', i) == ResponseIn(x, i);
    }
  }

  /**
   * Batches are sound: if, all else equal, two values of random number j both let the batch sum to the neutral element,
   * signature j satisfies its equation. So for a signature that does not, at most one of the 2^128 values lets the
   * batch pass.
   */
  lemma BatchSound(k: seq<nat>, x: Inputs, x': Inputs, j: nat, v: seq<int>, v': seq<int>, g: Group<CurvePoint>,
        base: CurvePoint, pts: seq<CurvePoint>)
    requires Shaped(x) && Shaped(x') && |k| == 80 && j < |x.m| && x'.m == x.m && x'.pk == x.pk && x'.rs == x.rs
    requires x'.random[j] != x.random[j] && forall i :: 0 <= i < |x.m| && i != j ==> x'.random[i] == x.random[i]
    requires CurveGroup(g) && Prime(S.M) && BatchPoints(x, base, pts) && Torsion(g, pts, 2 * |x.m| + 1, S.M)
    requires IsValues(k, x, v) && Sum(g, v, pts, 2 * |x.m| + 1) == g.zero
    requires IsValues(k, x', v') && Sum(g, v', pts, 2 * |x.m| + 1) == g.zero
    ensures TermOf(k, x, g, base, pts, j) == g.zero
  {
    var t := ListTerms(k, x, g, base, pts);
    BatchSum(k, x, v, g, base, pts, t);
    OtherSum(k, x, x', v', g, base, pts, t);
    DistinctRandom(x.random[j], x'.random[j]);
    SoundTerm(k, x, g, base, pts, t, Randomizers(x), Randomizers(x'), j, S.M);
  }

  lemma SoundTerm(k: seq<nat>, x: Inputs, g: Group<CurvePoint>, base: CurvePoint, pts: seq<CurvePoint>,
        t: seq<CurvePoint>,
                  r: seq<int>, r': seq<int>, j: nat, m: nat)
    requires Shaped(x) && |k| == 80 && Abelian(g) && BatchPoints(x, base, pts) && Torsion(g, pts, 2 * |x.m| + 1, m)
      && IsTerms(k, x, g, base, pts, t)
    requires j < |x.m| == |r| == |r'| && forall i :: 0 <= i < |r| && i != j ==> r'[i] == r[i]
    requires Sum(g, r, t, |r|) == g.zero && Sum(g, r', t, |r|) == g.zero
    requires Prime(m) && r'[j] - r[j] != 0 && 0 < m + (r'[j] - r[j]) && r'[j] - r[j] < m
    ensures TermOf(k, x, g, base, pts, j) == g.zero
  {
    assert Numbered(j);
    TermKilled(k, x, g, base, pts, j, m);
    TwoWeights(g, r, r', t, |r|, j, m);
  }

  /** The same signatures with other random numbers. */
  lemma OtherSum(k: seq<nat>, x: Inputs, x': Inputs, v: seq<int>, g: Group<CurvePoint>, base: CurvePoint,
        pts: seq<CurvePoint>, t: seq<CurvePoint>)
    requires Shaped(x) && Shaped(x') && |k| == 80 && x'.m == x.m && x'.pk == x.pk && x'.rs == x.rs
      && IsValues(k, x', v) && CurveGroup(g)
    requires BatchPoints(x, base, pts) && Torsion(g, pts, 2 * |x.m| + 1, S.M) && IsTerms(k, x, g, base, pts, t)
    ensures Sum(g, v, pts, 2 * |x.m| + 1) == Sum(g, Randomizers(x'), t, |x.m|)
  {
    SameTerms(k, x, x', g, base, pts, t);
    assert Commitments(x') == Commitments(x);
    BatchSum(k, x', v, g, base, pts, t);
  }

  lemma TwoWeights<G(!new)>(g: Group<G>, r: seq<int>, r': seq<int>, t: seq<G>, n: nat, j: nat, m: nat)
    requires Abelian(g) && n <= |r| && n <= |r'| && n <= |t| && j < n && forall i :: 0 <= i < n && i != j ==>
      r'[i] == r[i]
    requires Sum(g, r, t, n) == g.zero && Sum(g, r', t, n) == g.zero
    requires Prime(m) && Times(g, m, t[j]) == g.zero && r'[j] - r[j] != 0 && 0 < m + (r'[j] - r[j]) && r'[j] - r[j] < m
    ensures t[j] == g.zero
  {
    WeightDifference(g, r, r', t, n, j);
    NoSmallMultiple(g, r'[j] - r[j], m, t[j]);
  }

  lemma DistinctRandom(a: seq<Byte>, b: seq<Byte>)
    requires |a| == |b| == 16 && a != b
    ensures LE(b) - LE(a) != 0 && 0 < S.M + (LE(b) - LE(a)) && LE(b) - LE(a) < S.M
  {
    RandomizerBound(a);
    RandomizerBound(b);
    if LE(a) == LE(b) {
      LEUnique(a, b);
    }
  }

  // ---- one batch ----

  /**
   * What a batch comes to: the result was neutral or not, a string did not decode, or the search for a limb left its
   * array.
   */
  datatype Outcome = Passed | Failed | Undecodable | OutOfRange

  /** The run over the scalars of the batch reaches the extension, see BosCarter.Reaches. */
  ghost predicate BatchReaches(k: seq<nat>, x: Inputs)
    requires Shaped(x) && |k| == 80
  {
    forall v :: IsValues(k, x, v) ==> Reaches(v, Prefix(2 * |x.m| + 1))
  }

  /** All points of the batch are killed by e. */
  ghost predicate BatchTorsion(x: Inputs, g: Group<CurvePoint>, base: CurvePoint, e: nat)
    requires Shaped(x)
  {
    forall pts :: BatchPoints(x, base, pts) ==> Torsion(g, pts, 2 * |x.m| + 1, e)
  }

  /** The outcome of a run that leaves the scalar s and the point pt. */
  ghost function Judgement(g: Group<CurvePoint>, s: nat, pt: CurvePoint): Outcome {
    if s > 1 && s % 0x1_0000_0000_0000_0000_0000_0000_0000_0000_0000_0000_0000_0000_0000_0000 == 0 then OutOfRange
    else if Times(g, FinalMultiple(s), pt) == g.zero then Passed else Failed
  }

  lemma JudgementExactly(g: Group<CurvePoint>, s: nat, pt: CurvePoint)
    ensures Judgement(g, s, pt) == OutOfRange
      <==> s > 1 && s % 0x1_0000_0000_0000_0000_0000_0000_0000_0000_0000_0000_0000_0000_0000_0000 == 0
    ensures Judgement(g, s, pt) != OutOfRange ==>
      Judgement(g, s, pt) == if Times(g, FinalMultiple(s), pt) == g.zero then Passed else Failed
  {
  }

  /**
   * The run leaves the greatest common divisor of the scalars it covers and the combination of their points by the
   * quotients.
   */
  ghost predicate Judged(c: Outcome, g: Group<CurvePoint>, v: seq<int>, pts: seq<CurvePoint>, n: nat, s: nat,
        a: seq<int>) {
    |a| == Covered(v, n) <= |pts| && Greatest(v, |a|, s) && Scaled(v, |a|, s, a)
      && c == Judgement(g, s, Sum(g, a, pts, |a|))
  }

  /** The verdict of the multi-scalar multiplication; opens where a proof names Judge. */
  ghost predicate Checked(c: Outcome, g: Group<CurvePoint>, v: seq<int>, pts: seq<CurvePoint>, n: nat) {
    forall key: int {:trigger Judge(key)} :: Judge(key) ==> exists s: nat, a: seq<int> :: Judged(c, g, v, pts, n, s, a)
  }

  ghost predicate Judge(key: int) {
    true
  }

  ghost predicate CheckedFor(c: Outcome, k: seq<nat>, x: Inputs, g: Group<CurvePoint>, base: CurvePoint,
                             v: seq<int>, pts: seq<CurvePoint>)
    requires Shaped(x) && |k| == 80
  {
    IsValues(k, x, v) && BatchPoints(x, base, pts) && Checked(c, g, v, pts, 2 * |x.m| + 1)
  }

  /** What the outcome of a batch means; opens where a proof names Told. */
  ghost predicate Explains(c: Outcome, k: seq<nat>, x: Inputs, g: Group<CurvePoint>, base: CurvePoint)
    requires Shaped(x) && |k| == 80
  {
    forall key: int {:trigger Told(key)} :: Told(key) ==>
      && (!AllDecode(x) ==> c == Undecodable)
      && (AllDecode(x) ==> exists v, pts :: CheckedFor(c, k, x, g, base, v, pts))
  }

  ghost predicate Told(key: int) {
    true
  }

  lemma Explained(c: Outcome, k: seq<nat>, x: Inputs, g: Group<CurvePoint>, base: CurvePoint, v: seq<int>,
        pts: seq<CurvePoint>, n: nat)
    requires Shaped(x) && |k| == 80 && IsValues(k, x, v) && BatchPoints(x, base, pts) && AllDecode(x)
    requires n == 2 * |x.m| + 1 && Checked(c, g, v, pts, n)
    ensures Explains(c, k, x, g, base)
  {
    assert CheckedFor(c, k, x, g, base, v, pts);
  }

  // ---- what an outcome means ----

  lemma IsChecked(c: Outcome, k: seq<nat>, x: Inputs, g: Group<CurvePoint>, base: CurvePoint)
    requires Shaped(x) && |k| == 80 && Explains(c, k, x, g, base) && AllDecode(x)
    ensures exists v, pts :: CheckedFor(c, k, x, g, base, v, pts)
  {
    assert Told(0);
  }

  lemma Opened(c: Outcome, k: seq<nat>, x: Inputs, g: Group<CurvePoint>, base: CurvePoint)
    returns (v: seq<int>, pts: seq<CurvePoint>)
    requires Shaped(x) && |k| == 80 && Explains(c, k, x, g, base) && AllDecode(x)
    ensures IsValues(k, x, v) && BatchPoints(x, base, pts) && Checked(c, g, v, pts, 2 * |x.m| + 1)
  {
    IsChecked(c, k, x, g, base);
    v, pts :| CheckedFor(c, k, x, g, base, v, pts);
  }

  lemma DividesItself(d: nat, e: nat)
    requires Divides(d, e) && Divides(e, d)
    ensures d == e
  {
    var k: int :| e == k * d;
    var l: int :| d == l * e;
    if d > 0 && e > 0 {
      assert k >= 1 && l >= 1;
      Powers.MulMono(d, 1, k);
      Powers.MulMono(e, 1, l);
    }
  }

  /** The greatest common divisor and the quotients are unique, and so is the outcome. */
  lemma JudgedUnique(c: Outcome, c': Outcome, g: Group<CurvePoint>, v: seq<int>, pts: seq<CurvePoint>, n: nat, s: nat,
        a: seq<int>, s': nat, a': seq<int>)
    requires Judged(c, g, v, pts, n, s, a) && Judged(c', g, v, pts, n, s', a')
    ensures c == c'
  {
    assert Divides(s, s') && Divides(s', s);
    DividesItself(s, s');
    if s > 0 {
      forall i | 0 <= i < |a| ensures a[i] == a'[i] {
        SameQuotient(s, a[i], a'[i]);
      }
      assert a == a';
    } else {
      assert Times(g, 0, Sum(g, a, pts, |a|)) == g.zero && Times(g, 0, Sum(g, a', pts, |a'|)) == g.zero;
    }
  }

  lemma SameQuotient(s: nat, a: int, b: int)
    requires s > 0 && s * a == s * b
    ensures a == b
  {
    if a < b {
      Powers.MulMono(s, a + 1, b);
    } else if b < a {
      Powers.MulMono(s, b + 1, a);
    }
  }

  lemma SameReaches(v: seq<int>, w: seq<int>, n: nat)
    requires n <= |v| && n <= |w| && forall i :: 0 <= i < n ==> v[i] == w[i]
    requires Reaches(v, n)
    ensures Reaches(w, n)
  {
    forall d: nat | d >= 0x1_0000_0000_0000_0000_0000_0000_0000_0000 ensures !Common(w, n, d) {
      SameCommon(v, w, n, d);
    }
    var i, j :| 0 <= i < j < n && v[i] > 0 && v[j] > 0;
    assert w[i] > 0 && w[j] > 0;
  }

  lemma SameCommon(v: seq<int>, w: seq<int>, n: nat, d: nat)
    requires n <= |v| && n <= |w| && forall i :: 0 <= i < n ==> v[i] == w[i]
    ensures Common(v, n, d) <==> Common(w, n, d)
  {
  }

  /** The verdict looks at the first n scalars and points only. */
  lemma SameJudged(c: Outcome, g: Group<CurvePoint>, v: seq<int>, pts: seq<CurvePoint>, w: seq<int>,
        qts: seq<CurvePoint>, n: nat, s: nat, a: seq<int>)
    requires Prefix(n) <= n <= |v| && n <= |w| && n <= |pts| && n <= |qts|
    requires forall i :: 0 <= i < n ==> v[i] == w[i] && pts[i] == qts[i]
    requires Judged(c, g, v, pts, n, s, a)
    ensures Judged(c, g, w, qts, n, s, a)
  {
    if Reaches(v, Prefix(n)) {
      SameReaches(v, w, Prefix(n));
    } else if Reaches(w, Prefix(n)) {
      SameReaches(w, v, Prefix(n));
    }
    var m := |a|;
    assert m <= n;
    SameCommon(v, w, m, s);
    forall d: nat | Common(w, m, d) ensures Divides(d, s) {
      SameCommon(v, w, m, d);
    }
    SumSame(g, a, pts, a, qts, m);
  }

  lemma SamePoints(x: Inputs, base: CurvePoint, pts: seq<CurvePoint>, qts: seq<CurvePoint>, i: nat)
    requires Shaped(x) && NoZeroDivisors() && BatchPoints(x, base, pts) && BatchPoints(x, base, qts) && i <= 2 * |x.m|
    ensures pts[i] == qts[i]
  {
    var b := |x.m|;
    if 1 <= i <= b {
      assert NegativeAt(x.pk, pts, 1, i - 1) && NegativeAt(x.pk, qts, 1, i - 1);
      NegativeUnique(x.pk[i - 1], pts[i], qts[i]);
    } else if i > b {
      assert NegativeAt(Commitments(x), pts, b + 1, i - b - 1) && NegativeAt(Commitments(x), qts, b + 1, i - b - 1);
      NegativeUnique(Commitments(x)[i - b - 1], pts[i], qts[i]);
    }
  }

  lemma SameLists(k: seq<nat>, x: Inputs, base: CurvePoint, v: seq<int>, pts: seq<CurvePoint>, w: seq<int>,
                  qts: seq<CurvePoint>, n: nat)
    requires Shaped(x) && |k| == 80 && NoZeroDivisors() && n == 2 * |x.m| + 1
    requires IsValues(k, x, v) && BatchPoints(x, base, pts) && IsValues(k, x, w) && BatchPoints(x, base, qts)
    ensures n <= |v| && n <= |w| && n <= |pts| && n <= |qts|
    ensures forall i :: 0 <= i < n ==> w[i] == v[i] && qts[i] == pts[i]
  {
    forall i | 0 <= i < n ensures w[i] == v[i] && qts[i] == pts[i] {
      assert Listed(i);
      SamePoints(x, base, pts, qts, i);
    }
  }

  lemma JudgedAny(c: Outcome, g: Group<CurvePoint>, v: seq<int>, pts: seq<CurvePoint>, w: seq<int>,
                  qts: seq<CurvePoint>, n: nat) returns (s: nat, a: seq<int>)
    requires Checked(c, g, w, qts, n) && Prefix(n) <= n <= |v| && n <= |w| && n <= |pts| && n <= |qts|
    requires forall i :: 0 <= i < n ==> w[i] == v[i] && qts[i] == pts[i]
    ensures Judged(c, g, v, pts, n, s, a)
  {
    assert Judge(0);
    s, a :| Judged(c, g, w, qts, n, s, a);
    SameJudged(c, g, w, qts, v, pts, n, s, a);
  }

  /** The batch's scalars and points being unique, the verdict holds for any list of them. */
  lemma ExplainsAny(c: Outcome, k: seq<nat>, x: Inputs, g: Group<CurvePoint>, base: CurvePoint, v: seq<int>,
                    pts: seq<CurvePoint>) returns (s: nat, a: seq<int>)
    requires Shaped(x) && |k| == 80 && |x.m| >= 2 && NoZeroDivisors() && Explains(c, k, x, g, base) && AllDecode(x)
    requires IsValues(k, x, v) && BatchPoints(x, base, pts)
    ensures Judged(c, g, v, pts, 2 * |x.m| + 1, s, a)
  {
    var n := 2 * |x.m| + 1;
    var w, qts := Opened(c, k, x, g, base);
    SameLists(k, x, base, v, pts, w, qts, n);
    s, a := JudgedAny(c, g, v, pts, w, qts, n);
  }

  /** The outcome of a batch is determined by its inputs. */
  lemma OutcomeUnique(c: Outcome, c': Outcome, k: seq<nat>, x: Inputs, g: Group<CurvePoint>, base: CurvePoint)
    requires Shaped(x) && |k| == 80 && |x.m| >= 2 && NoZeroDivisors() && Explains(c, k, x, g, base)
      && Explains(c', k, x, g, base)
    ensures c == c'
  {
    assert Told(0);
    if AllDecode(x) {
      var v, pts := Opened(c, k, x, g, base);
      var s, a := ExplainsAny(c, k, x, g, base, v, pts);
      var s', a' := ExplainsAny(c', k, x, g, base, v, pts);
      JudgedUnique(c, c', g, v, pts, 2 * |x.m| + 1, s, a, s', a');
    }
  }

  /** A run that reaches the extension leaves a scalar of at most 128 bits. */
  lemma ReachedSmall(v: seq<int>, n: nat, s: nat)
    requires Prefix(n) <= n && Reaches(v, Prefix(n)) && Common(v, n, s)
    ensures s < 0x1_0000_0000_0000_0000_0000_0000_0000_0000
  {
    assert Common(v, Prefix(n), s);
  }

  /**
   * The outcome of a run that reaches the extension, over points killed by 8m: it passes exactly if the weighted sum is
   * neutral.
   */
  lemma BatchVerdict(c: Outcome, k: seq<nat>, x: Inputs, g: Group<CurvePoint>, base: CurvePoint, v: seq<int>,
        pts: seq<CurvePoint>)
    requires Shaped(x) && |k| == 80 && |x.m| >= 2 && CurveGroup(g) && Explains(c, k, x, g, base) && AllDecode(x)
    requires IsValues(k, x, v) && BatchPoints(x, base, pts) && Reaches(v, Prefix(2 * |x.m| + 1))
    ensures c == Passed || c == Failed
    ensures Prime(S.M) && Torsion(g, pts, 2 * |x.m| + 1, 8 * S.M) ==>
      (c == Passed <==> Sum(g, v, pts, 2 * |x.m| + 1) == g.zero)
  {
    var n := 2 * |x.m| + 1;
    var s, a := ExplainsAny(c, k, x, g, base, v, pts);
    ReachedSmall(v, n, s);
    FinalSmall(s);
    if Prime(S.M) && Torsion(g, pts, n, 8 * S.M) {
      RunVerdict(g, v, pts, n, s, a);
    }
  }

  lemma TorsionEight(g: Group<CurvePoint>, pts: seq<CurvePoint>, n: nat)
    requires Abelian(g) && Torsion(g, pts, n, S.M)
    ensures Torsion(g, pts, n, 8 * S.M)
  {
    forall i: nat | Member(i) && i < n ensures Times(g, 8 * S.M, pts[i]) == g.zero {
      TorsionAt(g, pts, n, S.M, i);
      TimesProduct(g, 8, S.M, pts[i]);
      TimesZero(g, 8);
    }
  }

  /** A batch of valid signatures over points killed by m does not fail if its run reaches the extension. */
  lemma HonestBatch(c: Outcome, k: seq<nat>, x: Inputs, g: Group<CurvePoint>, base: CurvePoint)
    requires Shaped(x) && |k| == 80 && |x.m| >= 2 && CurveGroup(g) && Explains(c, k, x, g, base)
    requires BatchReaches(k, x) && BatchTorsion(x, g, base, S.M) && Prime(S.M) && AllAccepted(k, x, g, base)
    ensures c == Passed
  {
    AcceptedDecode(k, x, g, base);
    var v, pts := Opened(c, k, x, g, base);
    TorsionEight(g, pts, 2 * |x.m| + 1);
    BatchComplete(k, x, v, g, base, pts);
    BatchVerdict(c, k, x, g, base, v, pts);
  }

  lemma PointsDecode(x: Inputs, base: CurvePoint, pts: seq<CurvePoint>)
    requires Shaped(x) && BatchPoints(x, base, pts)
    ensures AllDecode(x)
  {
    forall i: nat | i < |x.m| ensures Decodes(x.pk[i]) && Decodes(Commitments(x)[i]) {
      assert NegativeAt(x.pk, pts, 1, i) && NegativeAt(Commitments(x), pts, |x.m| + 1, i);
    }
  }

  /**
   * Where a batch and single verification differ. When all terms vanish the batch passes, while signature i alone is
   * accepted exactly if the top bits of its S are clear and its R is the encoding that packing gives back.
   */
  lemma BatchAcceptsMore(c: Outcome, k: seq<nat>, x: Inputs, g: Group<CurvePoint>, base: CurvePoint,
        pts: seq<CurvePoint>)
    requires Shaped(x) && |k| == 80 && |x.m| >= 2 && CurveGroup(g) && Explains(c, k, x, g, base)
    requires BatchReaches(k, x) && Prime(S.M) && BatchPoints(x, base, pts) && Torsion(g, pts, 2 * |x.m| + 1, S.M)
    requires AllVanish(k, x, g, base, pts)
    ensures c == Passed
    ensures forall i: nat :: i < |x.m| ==>
      (AcceptsAt(k, x, g, base, i) <==> x.rs[i][63] < 32 && Faithful(x.rs[i][..32], pts[|x.m| + 1 + i].x))
  {
    PointsDecode(x, base, pts);
    var v, _ := Opened(c, k, x, g, base);
    TorsionEight(g, pts, 2 * |x.m| + 1);
    VanishingSum(k, x, v, g, base, pts);
    BatchVerdict(c, k, x, g, base, v, pts);
    forall i: nat | i < |x.m|
      ensures AcceptsAt(k, x, g, base, i) <==> x.rs[i][63] < 32 && Faithful(x.rs[i][..32], pts[|x.m| + 1 + i].x)
    {
      VanishingEntry(k, x, g, base, pts, i);
    }
  }

  lemma VanishingEntry(k: seq<nat>, x: Inputs, g: Group<CurvePoint>, base: CurvePoint, pts: seq<CurvePoint>, i: nat)
    requires Shaped(x) && |k| == 80 && i < |x.m| && CurveGroup(g) && BatchPoints(x, base, pts)
    requires TermOf(k, x, g, base, pts, i) == g.zero
    ensures AcceptsAt(k, x, g, base, i) <==> x.rs[i][63] < 32 && Faithful(x.rs[i][..32], pts[|x.m| + 1 + i].x)
  {
    assert NegativeAt(x.pk, pts, 1, i) && NegativeAt(Commitments(x), pts, |x.m| + 1, i);
    AcceptedTerm(k, x.m[i], x.pk[i], x.rs[i], g, base, pts[1 + i], pts[|x.m| + 1 + i]);
  }

  lemma DefinedBatch(c: Outcome, k: seq<nat>, x: Inputs, g: Group<CurvePoint>, base: CurvePoint)
    requires Shaped(x) && |k| == 80 && |x.m| >= 2 && CurveGroup(g) && Explains(c, k, x, g, base) && BatchReaches(k, x)
    ensures c != OutOfRange
  {
    assert Told(0);
    if AllDecode(x) {
      var v, pts := Opened(c, k, x, g, base);
      BatchVerdict(c, k, x, g, base, v, pts);
    }
  }

  // ---- running a batch ----

  /** The scalars are in place; opens where a proof names Look. */
  ghost predicate Loaded(scalars: seq<S.Limbs>, v: seq<int>, n: nat) {
    forall key: int {:trigger Look(key)} :: Look(key) ==>
      BatchHeap.Values(scalars, v, n, 4) && RestSmall(v, Prefix(n), n)
  }

  ghost predicate Look(key: int) {
    true
  }

  /** The points are in place; opens where a proof names See. */
  ghost predicate Placed(points: seq<Ge>, pts: seq<CurvePoint>, n: nat) {
    forall key: int {:trigger See(key)} :: See(key) ==> Points(points, pts, n)
  }

  ghost predicate See(key: int) {
    true
  }

  method PrepareScalars(k: seq<nat>, x: Inputs, scalars: array<S.Limbs>) returns (ghost v: seq<int>)
    requires Shaped(x) && |k| == 80 && |x.m| >= 1 && scalars.Length >= 2 * |x.m| + 1
    modifies scalars
    ensures IsValues(k, x, v) && Loaded(scalars[..], v, 2 * |x.m| + 1)
  {
    FillScalars(k, x, scalars);
    v := ValuesHold(k, x, scalars[..]);
    RestIsRandom(k, x, v);
  }

  lemma UndecodableExplained(k: seq<nat>, x: Inputs, g: Group<CurvePoint>, base: CurvePoint)
    requires Shaped(x) && |k| == 80 && !AllDecode(x)
    ensures Explains(Undecodable, k, x, g, base)
  {
  }

  /** The combined check of one batch. */
  method RunBatch(k: seq<nat>, basepoint: Ge, x: Inputs, points: array<Ge>, scalars: array<S.Limbs>, heap: array<nat>,
                  ghost g: Group<CurvePoint>, ghost base: CurvePoint)
    returns (c: Outcome)
    requires Shaped(x) && |k| == 80 && 4 <= |x.m| <= 64 && CurveGroup(g) && Fermat() && Full(basepoint, base)
    requires points.Length == scalars.Length == heap.Length == 129
    modifies points, scalars, heap
    ensures Explains(c, k, x, g, base)
  {
    ghost var v := PrepareScalars(k, x, scalars);
    ghost var pts;
    var ok;
    ok, pts := FillPoints(basepoint, x, points, base);
    if ok {
      c := CheckSum(points, scalars, heap, 2 * |x.m| + 1, g, v, pts);
      Explained(c, k, x, g, base, v, pts, 2 * |x.m| + 1);
    } else {
      c := Undecodable;
      UndecodableExplained(k, x, g, base);
    }
  }

  method CheckSum(points: array<Ge>, scalars: array<S.Limbs>, heap: array<nat>, count: nat,
                  ghost g: Group<CurvePoint>, ghost v: seq<int>, ghost pts: seq<CurvePoint>)
    returns (c: Outcome)
    requires CurveGroup(g) && 5 <= count <= heap.Length == 129 && count % 2 == 1
    requires Loaded(scalars[..], v, count) && Placed(points[..], pts, count)
    modifies points, scalars, heap
    ensures Checked(c, g, v, pts, count)
  {
    assert Look(0) && See(0);
    ghost var b, s, a;
    var ok, p;
    ok, p, b, s, a := MultiScalarmult(points, scalars, heap, count, g, v, pts);
    c := OutOfRange;
    if ok {
      ghost var pt := Times(g, FinalMultiple(s), Sum(g, a, pts, |a|));
      FullIsPartial(p, pt);
      var neutral := IsNeutral(p, g, pt);
      c := if neutral then Passed else Failed;
    }
    assert Judged(c, g, v, pts, count, s, a);
  }

  // ---- all batches ----

  function Slice(x: Inputs, o: nat, b: nat): (y: Inputs)
    requires Shaped(x) && o + b <= |x.m|
    ensures Shaped(y) && |y.m| == b
    ensures forall i :: 0 <= i < b ==>
      y.m[i] == x.m[o + i] && y.pk[i] == x.pk[o + i] && y.rs[i] == x.rs[o + i] && y.random[i] == x.random[o + i]
  {
    Inputs(x.m[o..o + b], x.pk[o..o + b], x.rs[o..o + b], x.random[o..o + b])
  }

  function Least(a: nat, b: nat): nat {
    if a < b then a else b
  }

  /** How many batches there are for n signatures: a remainder of up to three is done one by one. */
  ghost function BatchCount(n: nat): nat {
    if n <= 3 then 0 else if n <= 64 then 1 else 1 + BatchCount(n - 64)
  }

  /** The j-th batch: signatures 64 j and up to 63 more. */
  ghost function BatchAt(x: Inputs, j: nat): (y: Inputs)
    requires Shaped(x) && 64 * j <= |x.m|
    ensures Shaped(y) && |y.m| == if |x.m| - 64 * j < 64 then |x.m| - 64 * j else 64
  {
    Slice(x, 64 * j, Least(64, |x.m| - 64 * j))
  }

  lemma {:induction false} BatchInside(n: nat, j: nat)
    ensures j < BatchCount(n) <==> 64 * j + 3 < n
    decreases n
  {
    if n > 64 && j > 0 {
      BatchInside(n - 64, j - 1);
    }
  }

  lemma InBatch(i: nat, j: nat, b: nat)
    requires 64 * j <= i < 64 * j + b && b <= 64
    ensures i / 64 == j
  {
  }

  lemma SameEntry(k: seq<nat>, x: Inputs, g: Group<CurvePoint>, base: CurvePoint, y: Inputs, j: nat, i: nat)
    requires Shaped(x) && |k| == 80 && 64 * j <= |x.m| && y == BatchAt(x, j) && i < |y.m|
    ensures 64 * j + i < |x.m| && (64 * j + i) / 64 == j
    ensures y.m[i] == x.m[64 * j + i] && y.pk[i] == x.pk[64 * j + i]
    ensures y.rs[i] == x.rs[64 * j + i] && y.random[i] == x.random[64 * j + i]
    ensures AcceptsAt(k, y, g, base, i) <==> AcceptsAt(k, x, g, base, 64 * j + i)
  {
    InBatch(64 * j + i, j, |y.m|);
  }

  lemma AcceptedSlice(k: seq<nat>, x: Inputs, j: nat, g: Group<CurvePoint>, base: CurvePoint)
    requires Shaped(x) && |k| == 80 && 64 * j <= |x.m| && AllAccepted(k, x, g, base)
    ensures AllAccepted(k, BatchAt(x, j), g, base)
  {
    var y := BatchAt(x, j);
    forall i: nat | i < |y.m| ensures AcceptsAt(k, y, g, base, i) {
      SameEntry(k, x, g, base, y, j, i);
      assert AcceptsAt(k, x, g, base, 64 * j + i);
    }
  }

  lemma OrTwo(a: nat, b: nat, r: nat)
    requires a <= 1 && b <= 1 && r == a + 2 * b
    ensures Or(r, 2) == a + 2
  {
    OrHalf(r, 2);
    OrHalf(b, 1);
    OrNothing(0);
    HalvesEqual(Or(b, 1), 1);
    HalvesEqual(Or(r, 2), a + 2);
  }

  lemma OrOne(a: nat, b: nat, r: nat, v: nat)
    requires a <= 1 && b <= 1 && r == a + 2 * b && v <= 1
    ensures Or(r, v) == (if a == 1 || v == 1 then 1 else 0) + 2 * b
  {
    OrHalf(r, v);
    OrNothing(b);
    HalvesEqual(Or(r, v), (if a == 1 || v == 1 then 1 else 0) + 2 * b);
  }

  /** ret |= valid ^ 1 */
  method Record(ret: nat, valid: int, ghost a: nat, ghost b: nat) returns (r: nat)
    requires 0 <= valid <= 1 && a <= 1 && b <= 1 && ret == a + 2 * b
    ensures r == (if a == 1 || valid == 0 then 1 else 0) + 2 * b
  {
    var v := Xor(valid, 1);
    assert v == 1 - valid by {
      XorHalf(valid, 1);
      XorNothing(0);
      HalvesEqual(v, 1 - valid);
    }
    OrOne(a, b, ret, v);
    r := Or(ret, v);
  }

  ghost predicate AnyZero(valid: seq<int>) {
    exists i :: 0 <= i < |valid| && valid[i] == 0
  }

  ghost function Flag(b: bool): nat {
    if b then 1 else 0
  }

  /** One signature on its own: valid[i] and the low bit of ret. */
  method CheckOne(k: seq<nat>, sliding: seq<GeNiels>, x: Inputs, i: nat, ret: nat,
                  ghost table: seq<seq<Byte>>, ghost g: Group<CurvePoint>, ghost base: CurvePoint, ghost a: bool,
                        ghost b: bool)
    returns (v: int, r: nat)
    requires Setup(k, table, sliding, g, base) && Shaped(x) && i < |x.m| && ret == Flag(a) + 2 * Flag(b)
    ensures v == Flag(AcceptsAt(k, x, g, base, i)) && r == Flag(a || v == 0) + 2 * Flag(b)
  {
    var open := SignOpen(k, sliding, x.m[i], x.pk[i], x.rs[i], table, g, base);
    v := if open != 0 then 0 else 1;
    r := Record(ret, v, Flag(a), Flag(b));
  }

  /** The fallback of a batch, and the last up to three signatures. */
  method Individually(k: seq<nat>, sliding: seq<GeNiels>, x: Inputs, valid: array<int>, from: nat, to: nat, ret: nat,
                      ghost table: seq<seq<Byte>>, ghost g: Group<CurvePoint>, ghost base: CurvePoint, ghost b: bool)
    returns (r: nat)
    requires Setup(k, table, sliding, g, base) && Shaped(x) && from <= to <= |x.m| == valid.Length
    requires ret == Flag(AnyZero(valid[..])) + 2 * Flag(b) && forall i :: from <= i < to ==> valid[i] == 1
    modifies valid
    ensures r == Flag(AnyZero(valid[..])) + 2 * Flag(b)
    ensures forall i: nat :: i < valid.Length ==> valid[i] == if from <= i < to then Flag(AcceptsAt(k, x, g, base, i))
      else old(valid[i])
  {
    r := ret;
    var i := from;
    while i < to
      invariant from <= i <= to
      invariant r == Flag(AnyZero(valid[..])) + 2 * Flag(b)
      invariant forall j: nat :: j < valid.Length ==>
        valid[j] == if from <= j < i then Flag(AcceptsAt(k, x, g, base, j)) else old(valid[j])
    {
      ghost var before := valid[..];
      var v, r' := CheckOne(k, sliding, x, i, r, table, g, base, AnyZero(valid[..]), b);
      valid[i] := v;
      ZeroUpdate(before, i, v);
      assert valid[..] == before[i := v];
      r := r';
      i := i + 1;
    }
  }

  lemma ZeroUpdate(valid: seq<int>, i: nat, v: int)
    requires i < |valid| && valid[i] == 1
    ensures AnyZero(valid[i := v]) <==> AnyZero(valid) || v == 0
  {
    var w := valid[i := v];
    if AnyZero(valid) {
      var j :| 0 <= j < |valid| && valid[j] == 0;
      assert w[j] == 0;
    }
    if v == 0 {
      assert w[i] == 0;
    }
    if AnyZero(w) {
      var j :| 0 <= j < |w| && w[j] == 0;
      assert j == i || valid[j] == 0;
    }
  }

  /** Signature i was settled by the combined check of its batch. */
  ghost predicate ByBatch(outcomes: seq<Outcome>, i: nat) {
    i / 64 < |outcomes| && outcomes[i / 64] == Passed
  }

  /** What valid says of the first n signatures. */
  ghost predicate Decided(k: seq<nat>, x: Inputs, g: Group<CurvePoint>, base: CurvePoint, outcomes: seq<Outcome>,
        valid: seq<int>, n: nat)
    requires Shaped(x) && |k| == 80
  {
    n <= |x.m| == |valid| && forall i: nat :: i < n ==>
      valid[i] == Flag(ByBatch(outcomes, i) || AcceptsAt(k, x, g, base, i))
  }

  ghost predicate Explained1(k: seq<nat>, x: Inputs, g: Group<CurvePoint>, base: CurvePoint, outcomes: seq<Outcome>,
        j: nat)
    requires Shaped(x) && |k| == 80 && j < |outcomes|
  {
    64 * j + 3 < |x.m| && Explains(outcomes[j], k, BatchAt(x, j), g, base)
  }

  ghost predicate AllExplained(k: seq<nat>, x: Inputs, g: Group<CurvePoint>, base: CurvePoint, outcomes: seq<Outcome>)
    requires Shaped(x) && |k| == 80
  {
    forall j: nat {:trigger Explained1(k, x, g, base, outcomes, j)} :: j < |outcomes| ==>
      Explained1(k, x, g, base, outcomes, j)
  }

  lemma AppendExplained(k: seq<nat>, x: Inputs, g: Group<CurvePoint>, base: CurvePoint, outcomes: seq<Outcome>,
        c: Outcome)
    requires Shaped(x) && |k| == 80 && AllExplained(k, x, g, base, outcomes)
    requires 64 * |outcomes| + 3 < |x.m| && Explains(c, k, BatchAt(x, |outcomes|), g, base)
    ensures AllExplained(k, x, g, base, outcomes + [c])
  {
    var longer := outcomes + [c];
    forall j: nat | j < |longer| ensures Explained1(k, x, g, base, longer, j) {
      if j < |outcomes| {
        assert Explained1(k, x, g, base, outcomes, j);
      }
    }
  }

  lemma BeforeBatch(i: nat, j: nat)
    requires i < 64 * j
    ensures i / 64 < j
  {
  }

  /** A batch settled one way or the other extends what is decided. */
  lemma DecidedBatch(k: seq<nat>, x: Inputs, g: Group<CurvePoint>, base: CurvePoint, outcomes: seq<Outcome>, c: Outcome,
                     valid: seq<int>, valid': seq<int>, o: nat, b: nat)
    requires Shaped(x) && |k| == 80 && o == 64 * |outcomes| && b <= 64 && o + b <= |x.m| == |valid'|
    requires Decided(k, x, g, base, outcomes, valid, o) && forall i: nat :: i < o ==> valid'[i] == valid[i]
    requires forall i: nat :: o <= i < o + b ==> valid'[i] == Flag(c == Passed || AcceptsAt(k, x, g, base, i))
    ensures Decided(k, x, g, base, outcomes + [c], valid', o + b)
  {
    var longer, n := outcomes + [c], o + b;
    forall i: nat | i < n ensures valid'[i] == Flag(ByBatch(longer, i) || AcceptsAt(k, x, g, base, i)) {
      if i < o {
        BeforeBatch(i, |outcomes|);
        assert ByBatch(longer, i) <==> ByBatch(outcomes, i);
      } else {
        InBatch(i, |outcomes|, b);
      }
    }
  }

  /** The last signatures, which are in no batch. */
  lemma DecidedRest(k: seq<nat>, x: Inputs, g: Group<CurvePoint>, base: CurvePoint, outcomes: seq<Outcome>,
                    valid: seq<int>, valid': seq<int>, o: nat)
    requires Shaped(x) && |k| == 80 && Decided(k, x, g, base, outcomes, valid, o) && |valid'| == |x.m|
    requires o == Least(64 * |outcomes|, |x.m|)
    requires forall i: nat :: i < o ==> valid'[i] == valid[i]
    requires forall i: nat :: o <= i < |x.m| ==> valid'[i] == Flag(AcceptsAt(k, x, g, base, i))
    ensures Decided(k, x, g, base, outcomes, valid', |x.m|)
  {
    forall i: nat | i < |x.m| ensures valid'[i] == Flag(ByBatch(outcomes, i) || AcceptsAt(k, x, g, base, i)) {
      if i >= o {
        assert i >= 64 * |outcomes|;
        NotBefore(i, |outcomes|);
      }
    }
  }

  lemma NotBefore(i: nat, j: nat)
    requires i >= 64 * j
    ensures i / 64 >= j
  {
  }

  /** One turn of the loop over batches. */
  method OneBatch(k: seq<nat>, basepoint: Ge, sliding: seq<GeNiels>, x: Inputs, o: nat, b: nat,
                  points: array<Ge>, scalars: array<S.Limbs>, heap: array<nat>, valid: array<int>, ret: nat,
                  ghost table: seq<seq<Byte>>, ghost g: Group<CurvePoint>, ghost base: CurvePoint, ghost failed: bool)
    returns (c: Outcome, r: nat)
    requires Setup(k, table, sliding, g, base) && Full(basepoint, base) && Shaped(x) && 4 <= b <= 64
      && o + b <= |x.m| == valid.Length
    requires points.Length == scalars.Length == heap.Length == 129
    requires ret == Flag(AnyZero(valid[..])) + 2 * Flag(failed) && forall i :: o <= i < o + b ==> valid[i] == 1
    modifies points, scalars, heap, valid
    ensures Explains(c, k, Slice(x, o, b), g, base)
    ensures c != OutOfRange ==> r == Flag(AnyZero(valid[..])) + 2 * Flag(failed || c == Failed)
    ensures forall i: nat :: i < valid.Length && !(o <= i < o + b) ==> valid[i] == old(valid[i])
    ensures c != OutOfRange ==> forall i: nat :: o <= i < o + b ==>
      valid[i] == Flag(c == Passed || AcceptsAt(k, x, g, base, i))
  {
    r := ret;
    c := RunBatch(k, basepoint, Slice(x, o, b), points, scalars, heap, g, base);
    if c == Failed {
      OrTwo(Flag(AnyZero(valid[..])), Flag(failed), r);
      r := Or(r, 2);
    }
    if c == Failed || c == Undecodable {
      r := Individually(k, sliding, x, valid, o, o + b, r, table, g, base, failed || c == Failed);
    }
  }

  /** Every batch reaches the extension of its heap. */
  ghost predicate BatchesReach(k: seq<nat>, x: Inputs)
    requires Shaped(x) && |k| == 80
  {
    forall j: nat :: 64 * j + 3 < |x.m| ==> BatchReaches(k, BatchAt(x, j))
  }

  ghost predicate BatchesTorsion(x: Inputs, g: Group<CurvePoint>, base: CurvePoint)
    requires Shaped(x)
  {
    forall j: nat :: 64 * j + 3 < |x.m| ==> BatchTorsion(BatchAt(x, j), g, base, S.M)
  }

  lemma OutcomesDefined(k: seq<nat>, x: Inputs, g: Group<CurvePoint>, base: CurvePoint, outcomes: seq<Outcome>)
    requires Shaped(x) && |k| == 80 && CurveGroup(g) && AllExplained(k, x, g, base, outcomes) && BatchesReach(k, x)
    ensures OutOfRange !in outcomes
  {
    forall j: nat | j < |outcomes| ensures outcomes[j] != OutOfRange {
      assert Explained1(k, x, g, base, outcomes, j);
      DefinedBatch(outcomes[j], k, BatchAt(x, j), g, base);
    }
  }

  /** Valid signatures over the prime-order group pass in every batch. */
  lemma OutcomesHonest(k: seq<nat>, x: Inputs, g: Group<CurvePoint>, base: CurvePoint, outcomes: seq<Outcome>)
    requires Shaped(x) && |k| == 80 && CurveGroup(g) && AllExplained(k, x, g, base, outcomes) && BatchesReach(k, x)
    requires BatchesTorsion(x, g, base) && Prime(S.M) && AllAccepted(k, x, g, base)
    ensures forall c :: c in outcomes ==> c == Passed
  {
    forall j: nat | j < |outcomes| ensures outcomes[j] == Passed {
      assert Explained1(k, x, g, base, outcomes, j);
      AcceptedSlice(k, x, j, g, base);
      HonestBatch(outcomes[j], k, BatchAt(x, j), g, base);
    }
  }

  /** What the whole call comes to, for outcomes without OutOfRange. */
  ghost predicate Result(k: seq<nat>, x: Inputs, g: Group<CurvePoint>, base: CurvePoint, outcomes: seq<Outcome>,
        valid: seq<int>, ret: int)
    requires Shaped(x) && |k| == 80
  {
    && |outcomes| == BatchCount(|x.m|) && Decided(k, x, g, base, outcomes, valid, |x.m|)
    && ret == Flag(AnyZero(valid)) + 2 * Flag(Failed in outcomes)
  }

  /** The number of batches, the entries of valid and the two bits of ret. */
  lemma ResultExactly(k: seq<nat>, x: Inputs, g: Group<CurvePoint>, base: CurvePoint, outcomes: seq<Outcome>,
        valid: seq<int>, ret: int)
    requires Shaped(x) && |k| == 80 && Result(k, x, g, base, outcomes, valid, ret)
    ensures |x.m| <= 64 * |outcomes| + 3 && (|outcomes| > 0 ==> 64 * (|outcomes| - 1) + 3 < |x.m|)
    ensures |valid| == |x.m| && forall i :: 0 <= i < |x.m| ==>
      valid[i] == if (i / 64 < |outcomes| && outcomes[i / 64] == Passed)
                     || Accepts(k, x.m[i], x.pk[i], x.rs[i], g, base) then 1 else 0
    ensures ret == (if exists i :: 0 <= i < |valid| && valid[i] == 0 then 1 else 0)
      + (if Failed in outcomes then 2 else 0)
  {
    BatchInside(|x.m|, |outcomes|);
    if |outcomes| > 0 {
      BatchInside(|x.m|, |outcomes| - 1);
    }
  }

  /**
   * A call on valid signatures over the prime-order group whose batches all reach their extension returns 0 with every
   * entry 1.
   */
  lemma HonestResult(k: seq<nat>, x: Inputs, g: Group<CurvePoint>, base: CurvePoint, outcomes: seq<Outcome>,
        valid: seq<int>, ret: int)
    requires Shaped(x) && |k| == 80 && CurveGroup(g) && AllExplained(k, x, g, base, outcomes)
      && Result(k, x, g, base, outcomes, valid, ret)
    requires BatchesReach(k, x) && BatchesTorsion(x, g, base) && Prime(S.M) && AllAccepted(k, x, g, base)
    ensures ret == 0 && forall i :: 0 <= i < |valid| ==> valid[i] == 1
  {
    OutcomesHonest(k, x, g, base, outcomes);
    forall i: nat | i < |valid| ensures valid[i] == 1 {
      assert AcceptsAt(k, x, g, base, i);
    }
  }

  /**
   * In batch j, whose terms all vanish, a signature with high bits of S set or with another encoding of its R gets the
   * entry 1, although on its own it is rejected.
   */
  lemma ValidThoughRejected(k: seq<nat>, x: Inputs, g: Group<CurvePoint>, base: CurvePoint, outcomes: seq<Outcome>,
        valid: seq<int>, ret: int, y: Inputs, pts: seq<CurvePoint>, j: nat, i: nat)
    requires Shaped(x) && |k| == 80 && CurveGroup(g) && AllExplained(k, x, g, base, outcomes) && Prime(S.M)
      && Result(k, x, g, base, outcomes, valid, ret)
    requires 64 * j + 3 < |x.m| && y == BatchAt(x, j) && BatchReaches(k, y) && BatchPoints(y, base, pts)
    requires Torsion(g, pts, 2 * |y.m| + 1, S.M) && AllVanish(k, y, g, base, pts)
    requires i < |y.m| && (y.rs[i][63] >= 32 || !Faithful(y.rs[i][..32], pts[|y.m| + 1 + i].x))
    ensures 64 * j + i < |x.m| && valid[64 * j + i] == 1 && !AcceptsAt(k, x, g, base, 64 * j + i)
  {
    BatchInside(|x.m|, j);
    assert Explained1(k, x, g, base, outcomes, j);
    BatchAcceptsMore(outcomes[j], k, y, g, base, pts);
    SameEntry(k, x, g, base, y, j, i);
    assert ByBatch(outcomes, 64 * j + i);
  }

  /** Two inputs that differ in one random number only. */
  ghost predicate OtherRandom(x: Inputs, x': Inputs, i: nat)
    requires Shaped(x) && Shaped(x') && i < |x.m|
  {
    && x'.m == x.m && x'.pk == x.pk && x'.rs == x.rs && x'.random[i] != x.random[i]
    && forall l :: 0 <= l < |x.m| && l != i ==> x'.random[l] == x.random[l]
  }

  lemma OtherBatch(x: Inputs, x': Inputs, y: Inputs, y': Inputs, j: nat, i: nat)
    requires Shaped(x) && Shaped(x') && 64 * j + i < |x.m| && i < 64 && OtherRandom(x, x', 64 * j + i)
    requires y == BatchAt(x, j) && y' == BatchAt(x', j)
    ensures i < |y.m| && OtherRandom(y, y', i)
  {
  }

  lemma PassedSum(k: seq<nat>, y: Inputs, g: Group<CurvePoint>, base: CurvePoint,
        pts: seq<CurvePoint>) returns (v: seq<int>, qts: seq<CurvePoint>)
    requires Shaped(y) && |k| == 80 && |y.m| >= 2 && CurveGroup(g) && Prime(S.M) && Explains(Passed, k, y, g, base)
    requires BatchReaches(k, y) && BatchPoints(y, base, pts) && Torsion(g, pts, 2 * |y.m| + 1, S.M)
    ensures IsValues(k, y, v) && Sum(g, v, pts, 2 * |y.m| + 1) == g.zero
  {
    PointsDecode(y, base, pts);
    v, qts := Opened(Passed, k, y, g, base);
    TorsionEight(g, pts, 2 * |y.m| + 1);
    BatchVerdict(Passed, k, y, g, base, v, pts);
  }

  lemma SamePointsOther(y: Inputs, y': Inputs, base: CurvePoint, pts: seq<CurvePoint>, i: nat)
    requires Shaped(y) && Shaped(y') && i < |y.m| && OtherRandom(y, y', i) && BatchPoints(y, base, pts)
    ensures BatchPoints(y', base, pts)
  {
    assert Commitments(y') == Commitments(y);
  }

  /** Soundness of one batch: if it passes with two values of random number i, signature i satisfies its equation. */
  lemma PassedTwice(k: seq<nat>, y: Inputs, y': Inputs, g: Group<CurvePoint>, base: CurvePoint, pts: seq<CurvePoint>,
        i: nat)
    requires Shaped(y) && Shaped(y') && |k| == 80 && |y.m| >= 2 && i < |y.m| && OtherRandom(y, y', i)
    requires CurveGroup(g) && Prime(S.M) && BatchPoints(y, base, pts) && Torsion(g, pts, 2 * |y.m| + 1, S.M)
    requires Explains(Passed, k, y, g, base) && Explains(Passed, k, y', g, base)
    requires BatchReaches(k, y) && BatchReaches(k, y')
    ensures TermOf(k, y, g, base, pts, i) == g.zero
  {
    SamePointsOther(y, y', base, pts, i);
    var v, _ := PassedSum(k, y, g, base, pts);
    var v', _ := PassedSum(k, y', g, base, pts);
    BatchSound(k, y, y', i, v, v', g, base, pts);
  }

  /**
   * Soundness of a call. If signature 64 j + i is settled by its batch in two calls that differ in its random number
   * only, its equation holds: alone it is accepted exactly if the top bits of S are clear and R is the one encoding of
   * its point.
   */
  lemma CallSound(k: seq<nat>, x: Inputs, x': Inputs, g: Group<CurvePoint>, base: CurvePoint, outcomes: seq<Outcome>,
        outcomes': seq<Outcome>, valid: seq<int>, ret: int, y: Inputs, y': Inputs, pts: seq<CurvePoint>, j: nat, i: nat)
    requires Shaped(x) && Shaped(x') && |k| == 80 && CurveGroup(g) && Prime(S.M) && i < 64 && 64 * j + i < |x.m|
      && OtherRandom(x, x', 64 * j + i)
    requires AllExplained(k, x, g, base, outcomes) && Result(k, x, g, base, outcomes, valid, ret)
      && AllExplained(k, x', g, base, outcomes')
    requires j < |outcomes| && outcomes[j] == Passed && j < |outcomes'| && outcomes'[j] == Passed
    requires 64 * j <= |x.m| && y == BatchAt(x, j) && y' == BatchAt(x', j) && BatchReaches(k, y) && BatchReaches(k, y')
    requires BatchPoints(y, base, pts) && Torsion(g, pts, 2 * |y.m| + 1, S.M)
    ensures valid[64 * j + i] == 1 && i < |y.m| && TermOf(k, y, g, base, pts, i) == g.zero
    ensures AcceptsAt(k, x, g, base, 64 * j + i) <==>
              && x.rs[64 * j + i][63] < 32
              && Faithful(x.rs[64 * j + i][..32], pts[|y.m| + 1 + i].x)
  {
    assert Explained1(k, x, g, base, outcomes, j) && Explained1(k, x', g, base, outcomes', j);
    OtherBatch(x, x', y, y', j, i);
    PassedTwice(k, y, y', g, base, pts, i);
    VanishingEntry(k, y, g, base, pts, i);
    SameEntry(k, x, g, base, y, j, i);
    assert ByBatch(outcomes, 64 * j + i);
  }

  /** Appending an outcome keeps track of whether any failed. */
  lemma FailedAppend(outcomes: seq<Outcome>, c: Outcome)
    ensures Failed in outcomes + [c] <==> Failed in outcomes || c == Failed
    ensures OutOfRange in outcomes + [c] <==> OutOfRange in outcomes || c == OutOfRange
  {
  }

  /** Where the loop over batches stands after o signatures. */
  ghost predicate Going(k: seq<nat>, x: Inputs, g: Group<CurvePoint>, base: CurvePoint, outcomes: seq<Outcome>,
        valid: seq<int>, o: nat, ret: nat)
    requires Shaped(x) && |k| == 80
  {
    && o == Least(64 * |outcomes|, |x.m|) && AllExplained(k, x, g, base, outcomes) && OutOfRange !in outcomes
    && Decided(k, x, g, base, outcomes, valid, o) && (forall i: nat :: o <= i < |x.m| ==> valid[i] == 1)
    && ret == Flag(AnyZero(valid)) + 2 * Flag(Failed in outcomes)
  }

  lemma StartGoing(k: seq<nat>, x: Inputs, g: Group<CurvePoint>, base: CurvePoint, valid: seq<int>)
    requires Shaped(x) && |k| == 80 && |valid| == |x.m| && forall i :: 0 <= i < |valid| ==> valid[i] == 1
    ensures Going(k, x, g, base, [], valid, 0, 0)
  {
  }

  lemma KeepGoing(k: seq<nat>, x: Inputs, g: Group<CurvePoint>, base: CurvePoint, outcomes: seq<Outcome>, c: Outcome,
                  valid: seq<int>, valid': seq<int>, o: nat, b: nat, ret: nat, ret': nat)
    requires Shaped(x) && |k| == 80 && Going(k, x, g, base, outcomes, valid, o, ret)
    requires o + 3 < |x.m| == |valid'| && b == Least(64, |x.m| - o) && Explains(c, k, Slice(x, o, b), g, base)
    requires forall i: nat :: i < |valid'| && !(o <= i < o + b) ==> valid'[i] == valid[i]
    requires c != OutOfRange ==> ret' == Flag(AnyZero(valid')) + 2 * Flag(Failed in outcomes || c == Failed)
    requires c != OutOfRange ==> forall i: nat :: o <= i < o + b ==>
      valid'[i] == Flag(c == Passed || AcceptsAt(k, x, g, base, i))
    ensures AllExplained(k, x, g, base, outcomes + [c])
    ensures c != OutOfRange ==> Going(k, x, g, base, outcomes + [c], valid', o + b, ret')
  {
    AppendExplained(k, x, g, base, outcomes, c);
    FailedAppend(outcomes, c);
    if c != OutOfRange {
      DecidedBatch(k, x, g, base, outcomes, c, valid, valid', o, b);
    }
  }

  lemma DoneGoing(k: seq<nat>, x: Inputs, g: Group<CurvePoint>, base: CurvePoint, outcomes: seq<Outcome>,
                  valid: seq<int>, valid': seq<int>, o: nat, ret: nat, ret': nat)
    requires Shaped(x) && |k| == 80 && Going(k, x, g, base, outcomes, valid, o, ret) && |x.m| <= o + 3
      && |valid'| == |x.m|
    requires ret' == Flag(AnyZero(valid')) + 2 * Flag(Failed in outcomes)
    requires forall i: nat :: i < |x.m| ==> valid'[i] == if o <= i < |x.m| then Flag(AcceptsAt(k, x, g, base, i))
      else valid[i]
    ensures Result(k, x, g, base, outcomes, valid', ret')
  {
    DecidedRest(k, x, g, base, outcomes, valid, valid', o);
    BatchInside(|x.m|, |outcomes|);
    if |outcomes| > 0 {
      assert Explained1(k, x, g, base, outcomes, |outcomes| - 1);
      BatchInside(|x.m|, |outcomes| - 1);
    }
  }

  /** The loop over batches of up to 64 signatures while more than three are left. */
  method AllBatches(k: seq<nat>, basepoint: Ge, sliding: seq<GeNiels>, x: Inputs, valid: array<int>,
                    ghost table: seq<seq<Byte>>, ghost g: Group<CurvePoint>, ghost base: CurvePoint)
    returns (defined: bool, o: nat, ret: nat, ghost outcomes: seq<Outcome>)
    requires Setup(k, table, sliding, g, base) && Full(basepoint, base) && Shaped(x) && valid.Length == |x.m|
    requires Going(k, x, g, base, [], valid[..], 0, 0)
    modifies valid
    ensures AllExplained(k, x, g, base, outcomes) && (defined <==> OutOfRange !in outcomes)
    ensures defined ==> |x.m| <= o + 3 && Going(k, x, g, base, outcomes, valid[..], o, ret)
  {
    var points, scalars, heap := new Ge[129], new S.Limbs[129], new nat[129];
    defined, o, ret, outcomes := true, 0, 0, [];
    while o + 3 < |x.m|
      invariant o <= |x.m| && Going(k, x, g, base, outcomes, valid[..], o, ret)
      decreases |x.m| - o
    {
      var num := |x.m| - o;
      var batchsize := if num > 64 then 64 else num;
      ghost var before, was := valid[..], ret;
      var c;
      c, ret := OneBatch(k, basepoint, sliding, x, o, batchsize, points, scalars, heap, valid, ret, table, g, base,
        Failed in outcomes);
      KeepGoing(k, x, g, base, outcomes, c, before, valid[..], o, batchsize, was, ret);
      outcomes := outcomes + [c];
      if c == OutOfRange {
        defined := false;
        return;
      }
      o := o + batchsize;
    }
  }

  /**
   * ed25519_sign_open_batch. Every index is settled once: by the combined check of its batch if that passed, and
   * by verifying its own signature otherwise. Bit 0 of ret says that some entry of valid is 0, bit 1 that some
   * combined check failed. The run has no defined result if one outcome is OutOfRange.
   */
  method SignOpenBatch(k: seq<nat>, basepoint: Ge, sliding: seq<GeNiels>, x: Inputs, valid: array<int>,
                       ghost table: seq<seq<Byte>>, ghost g: Group<CurvePoint>, ghost base: CurvePoint)
    returns (ret: nat, ghost outcomes: seq<Outcome>)
    requires Setup(k, table, sliding, g, base) && Full(basepoint, base) && Shaped(x) && valid.Length == |x.m|
    modifies valid
    ensures AllExplained(k, x, g, base, outcomes)
    ensures OutOfRange !in outcomes ==> Result(k, x, g, base, outcomes, valid[..], ret)
    ensures OutOfRange !in outcomes ==>
      |x.m| <= 64 * |outcomes| + 3 && (|outcomes| > 0 ==> 64 * (|outcomes| - 1) + 3 < |x.m|)
    ensures OutOfRange !in outcomes ==> forall i :: 0 <= i < |x.m| ==>
      valid[i] == if (i / 64 < |outcomes| && outcomes[i / 64] == Passed)
                     || Accepts(k, x.m[i], x.pk[i], x.rs[i], g, base) then 1 else 0
    ensures OutOfRange !in outcomes ==>
      ret == (if exists i :: 0 <= i < valid.Length && valid[i] == 0 then 1 else 0)
      + (if Failed in outcomes then 2 else 0)
    ensures BatchesReach(k, x) ==> OutOfRange !in outcomes
  {
    SetAll(valid);
    StartGoing(k, x, g, base, valid[..]);
    var defined, o;
    defined, o, ret, outcomes := AllBatches(k, basepoint, sliding, x, valid, table, g, base);
    if BatchesReach(k, x) {
      OutcomesDefined(k, x, g, base, outcomes);
    }
    if defined {
      ghost var before, was := valid[..], ret;
      ret := Individually(k, sliding, x, valid, o, |x.m|, ret, table, g, base, Failed in outcomes);
      DoneGoing(k, x, g, base, outcomes, before, valid[..], o, was, ret);
      ResultExactly(k, x, g, base, outcomes, valid[..], ret);
    }
  }

  method SetAll(valid: array<int>)
    modifies valid
    ensures forall i :: 0 <= i < valid.Length ==> valid[i] == 1
  {
    var i := 0;
    while i < valid.Length
      invariant 0 <= i <= valid.Length && forall j :: 0 <= j < i ==> valid[j] == 1
    {
      valid[i] := 1;
      i := i + 1;
    }
  }
}
