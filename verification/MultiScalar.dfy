/** The last multiplication of the Bos-Carter run and the verdict it supports. */
module MultiScalar {
  import opened Powers
  import opened Bits
  import opened Digits
  import opened AbelianGroup
  import opened Edwards
  import opened PointOps
  import opened ScalarMult
  import opened Scalar
  import opened BatchScalars
  import opened BosCarter
  import opened Combinations
  import opened NumberTheory

  // ---- what the final loop computes ----

  /** The largest power of two that is not above x. */
  ghost function TopPower(x: nat): nat
  {
    if x < 2 then 1 else 2 * TopPower(x / 2)
  }

  lemma {:induction false} TopPowerRange(x: nat)
    requires x >= 1
    ensures TopPower(x) <= x < 2 * TopPower(x)
  {
    if x >= 2 {
      TopPowerRange(x / 2);
    }
  }

  lemma {:induction false} TopPowerUnique(x: nat, k: nat)
    requires Pow2(k) <= x < 2 * Pow2(k)
    ensures TopPower(x) == Pow2(k)
  {
    if k > 0 {
      TopPowerUnique(x / 2, k - 1);
    }
  }

  /**
   * The multiple that ge25519_multi_scalarmult_vartime_final produces: the scalar itself for 0 and 1, and
   * otherwise its low 224 bits with the leading bit doubled in front, since the accumulator starts at the
   * point and the leading bit is processed again.
   */
  ghost function FinalMultiple(s: nat): nat {
    if s <= 1 then s else
      var low := s % 0x1_0000_0000_0000_0000_0000_0000_0000_0000_0000_0000_0000_0000_0000_0000;
      low + 2 * TopPower(low)
  }

  // ---- finding the leading bit ----

  lemma AndBit(x: nat, k: nat)
    ensures And(x, Pow2(k)) == 0 <==> (x / Pow2(k)) % 2 == 0
  {
    AndAbove(x, 1, k);
    ShlValue(1, k);
    ShrValue(x, k);
    var y := x / Pow2(k);
    AndMask(y, 1);
    assert Pow2(1) == 2;
    ShlValue(y % 2, k);
  }

  /** The highest limb up to limb 3 that is not zero, if there is one. */
  method FindLimb(scalar: Limbs) returns (ok: bool, limb: nat)
    requires Carried(scalar)
    ensures ok <==> Low(scalar, 4, 0x100_0000_0000_0000) != 0
    ensures ok ==>
              && limb <= 3 && scalar[limb] != 0
              && Low(scalar, 4, 0x100_0000_0000_0000) == Low(scalar, limb + 1, 0x100_0000_0000_0000)
  {
    ghost var w := 0x100_0000_0000_0000;
    ok, limb := true, 3;
    while scalar[limb] == 0
      invariant limb <= 3 && Low(scalar, 4, w) == Low(scalar, limb + 1, w)
      decreases limb
    {
      if limb == 0 {
        assert Low(scalar, 1, w) == Low(scalar, 0, w) + Pow(w, 0) * 0;
        ok := false;
        return;
      }
      assert Low(scalar, limb + 1, w) == Low(scalar, limb, w) + Pow(w, limb) * 0;
      limb := limb - 1;
    }
    LimbPositive(scalar, limb, w);
  }

  lemma LimbPositive(s: Limbs, n: nat, w: int)
    requires Carried(s) && n <= 4 && s[n] != 0 && w == 0x100_0000_0000_0000
    ensures Low(s, n + 1, w) > 0
  {
    LowRange(s, n, w);
    MulMono(Pow(w, n), 1, s[n]);
  }

  /** The highest set bit of a limb. */
  method FindBit(x: nat) returns (flag: nat, ghost b: nat)
    requires 1 <= x < 0x100_0000_0000_0000
    ensures b <= 55 && flag == Pow2(b) && flag <= x < 2 * flag
  {
    b := 55;
    flag := 0x80_0000_0000_0000;
    TopBitOfLimb();
    while And(x, flag) == 0
      invariant b <= 55 && flag == Pow2(b) && x < 2 * flag
      decreases b
    {
      AndBit(x, b);
      HighestClear(x, flag);
      b := b - 1;
      flag := flag / 2;
    }
    AndBit(x, b);
    HighestSet(x, flag);
  }

  lemma TopBitOfLimb()
    ensures Pow2(55) == 0x80_0000_0000_0000
  {
    Pow2Table();
    assert Pow2(56) == 2 * Pow2(55);
  }

  lemma HighestClear(x: nat, flag: nat)
    requires 1 <= x < 2 * flag && (x / flag) % 2 == 0
    ensures x < flag && flag >= 2
  {
    if x >= flag {
      ModUnique(x, flag, 1, x - flag);
    }
  }

  lemma HighestSet(x: nat, flag: nat)
    requires 1 <= flag && (x / flag) % 2 != 0
    ensures x >= flag
  {
    if x < flag {
      ModUnique(x, flag, 0, x);
    }
  }

  // ---- the final multiplication ----

  lemma SplitBit(x: nat, flag: nat) returns (bit: nat)
    requires flag >= 1
    ensures bit == (x / flag) % 2 && x % (2 * flag) == bit * flag + x % flag
  {
    bit := (x / flag) % 2;
    var q := x / flag / 2;
    assert x == flag * (2 * q + bit) + x % flag;
    assert flag * (2 * q + bit) == (2 * flag) * q + bit * flag;
    ModUnique(x, 2 * flag, q, bit * flag + x % flag);
  }

  lemma BitStep(m: int, p: int, flag: int, bit: int, rest: int)
    ensures m * (p * (2 * flag)) + p * (bit * flag + rest) == (2 * m + bit) * (p * flag) + p * rest
  {
    var u := p * flag;
    assert p * (2 * flag) == 2 * u && p * (bit * flag) == bit * u;
    assert m * (2 * u) + bit * u == (2 * m + bit) * u;
  }

  ghost predicate Weigh(key: int) {
    true
  }

  /** m is what has been made of the bits so far, total what all of them will make; opens where a proof names Weigh. */
  ghost predicate Partway(scalar: Limbs, limb: nat, flag: nat, m: int, total: int)
    requires limb <= 4
  {
    forall key: int {:trigger Weigh(key)} :: Weigh(key) ==>
      var w := 0x100_0000_0000_0000;
      && flag >= 1
      && m * (Pow(w, limb) * (2 * flag)) + Low(scalar, limb, w) + Pow(w, limb) * (scalar[limb] % (2 * flag)) == total
  }

  /** The same with the bit at flag done. */
  ghost predicate Between(scalar: Limbs, limb: nat, flag: nat, m: int, total: int)
    requires limb <= 4
  {
    forall key: int {:trigger Weigh(key)} :: Weigh(key) ==>
      var w := 0x100_0000_0000_0000;
      && flag >= 1
      && m * (Pow(w, limb) * flag) + Low(scalar, limb, w) + Pow(w, limb) * (scalar[limb] % flag) == total
  }

  lemma DoBit(scalar: Limbs, limb: nat, flag: nat, m: int, total: int)
    requires limb <= 4 && flag >= 1 && Partway(scalar, limb, flag, m, total)
    ensures Between(scalar, limb, flag, 2 * m + (scalar[limb] / flag) % 2, total)
  {
    assert Weigh(0);
    var w := 0x100_0000_0000_0000;
    var bit := SplitBit(scalar[limb], flag);
    BitStep(m, Pow(w, limb), flag, bit, scalar[limb] % flag);
  }

  lemma NextFlag(scalar: Limbs, limb: nat, flag: nat, m: int, total: int)
    requires limb <= 4 && flag % 2 == 0 && Between(scalar, limb, flag, m, total)
    ensures Partway(scalar, limb, flag / 2, m, total)
  {
    assert Weigh(0);
    assert 2 * (flag / 2) == flag;
  }

  lemma NextLimb(scalar: Limbs, limb: nat, m: int, total: int)
    requires 1 <= limb <= 4 && Carried(scalar) && Between(scalar, limb, 1, m, total)
    ensures Partway(scalar, limb - 1, 0x80_0000_0000_0000, m, total)
  {
    assert Weigh(0);
    var w := 0x100_0000_0000_0000;
    var p := Pow(w, limb - 1);
    assert Pow(w, limb) == w * p;
    assert Low(scalar, limb, w) == Low(scalar, limb - 1, w) + p * scalar[limb - 1];
    assert scalar[limb] % 1 == 0;
    assert scalar[limb - 1] % w == scalar[limb - 1] by { ModUnique(scalar[limb - 1], w, 0, scalar[limb - 1]); }
  }

  lemma LastBit(scalar: Limbs, m: int, total: int)
    requires Between(scalar, 0, 1, m, total)
    ensures m == total
  {
    assert Weigh(0);
    assert scalar[0] % 1 == 0;
    assert Pow(0x100_0000_0000_0000, 0) == 1;
  }

  method TestBit(x: nat, flag: nat, ghost b: nat) returns (isSet: bool)
    requires flag == Pow2(b)
    ensures (x / flag) % 2 == if isSet then 1 else 0
  {
    AndBit(x, b);
    isSet := And(x, flag) != 0;
  }

  method DoubleMultiple(r: Ge, ghost g: Group<CurvePoint>, ghost pt: CurvePoint, ghost m: int) returns (r': Ge)
    requires CurveGroup(g) && Full(r, Times(g, m, pt))
    ensures Full(r', Times(g, 2 * m, pt))
  {
    ghost var x := Times(g, m, pt);
    FullIsPartial(r, x);
    Doubled(g, m, 2 * m, pt);
    r' := Double(r, g, x);
  }

  method AddPoint(r: Ge, point: Ge, ghost g: Group<CurvePoint>, ghost pt: CurvePoint, ghost m: int) returns (r': Ge)
    requires CurveGroup(g) && Full(point, pt) && Full(r, Times(g, m, pt))
    ensures Full(r', Times(g, m + 1, pt))
  {
    TimesSucc(g, m, pt);
    r' := AddPoints(r, point, g, Times(g, m, pt), pt);
  }

  /** Doubles, and adds the point if the bit is set. */
  method DoubleAdd(r: Ge, point: Ge, isSet: bool, ghost g: Group<CurvePoint>, ghost pt: CurvePoint,
        ghost m: int) returns (r': Ge)
    requires CurveGroup(g) && Full(point, pt) && Full(r, Times(g, m, pt))
    ensures Full(r', Times(g, if isSet then 2 * m + 1 else 2 * m, pt))
  {
    r' := DoubleMultiple(r, g, pt, m);
    if isSet {
      r' := AddPoint(r', point, g, pt, 2 * m);
    }
  }

  lemma HalfFlag(flag: nat, b: nat)
    requires flag == Pow2(b)
    ensures flag / 2 == 0 <==> flag == 1
    ensures flag / 2 != 0 ==> b >= 1 && flag % 2 == 0 && flag / 2 == Pow2(b - 1)
  {
    if b > 0 {
      var h := Pow2(b - 1);
      assert flag == 2 * h;
    }
  }

  /** Where the loop goes after a bit: the next flag, the next limb, or out. */
  method NextBit(scalar: Limbs, limb: nat, flag: nat, ghost b: nat, ghost m: int, ghost total: int)
    returns (done: bool, limb': nat, flag': nat, ghost b': nat)
    requires limb <= 3 && Carried(scalar) && flag == Pow2(b) && Between(scalar, limb, flag, m, total)
    ensures if done then m == total
            else (limb' <= 3 && flag' == Pow2(b') && Partway(scalar, limb', flag', m, total)
                  && (limb' < limb || (limb' == limb && flag' < flag)))
  {
    HalfFlag(flag, b);
    done, limb', flag', b' := false, limb, flag / 2, b;
    if flag' == 0 {
      if limb == 0 {
        LastBit(scalar, m, total);
        done := true;
        return;
      }
      limb', flag', b' := NextTop(scalar, limb, m, total);
    } else {
      NextFlag(scalar, limb, flag, m, total);
      b' := b - 1;
    }
  }

  /** The top bit of the limb below. */
  method NextTop(scalar: Limbs, limb: nat, ghost m: int, ghost total: int) returns (limb': nat, flag': nat,
        ghost b': nat)
    requires 1 <= limb <= 3 && Carried(scalar) && Between(scalar, limb, 1, m, total)
    ensures limb' == limb - 1 && flag' == Pow2(b') && Partway(scalar, limb', flag', m, total)
  {
    NextLimb(scalar, limb, m, total);
    TopBitOfLimb();
    limb', flag', b' := limb - 1, 0x80_0000_0000_0000, 55;
  }

  method Exponentiate(point: Ge, scalar: Limbs, limb0: nat, flag0: nat, ghost b0: nat,
                      ghost g: Group<CurvePoint>, ghost pt: CurvePoint, ghost total: int) returns (r: Ge)
    requires CurveGroup(g) && Full(point, pt) && Carried(scalar) && limb0 <= 3
    requires flag0 == Pow2(b0) && Partway(scalar, limb0, flag0, 1, total)
    ensures Full(r, Times(g, total, pt))
  {
    ghost var m: int, b: nat := 1, b0;
    TimesOne(g, pt);
    r := point;
    var limb: nat, flag: nat := limb0, flag0;
    while true
      invariant limb <= 3 && flag == Pow2(b) && Partway(scalar, limb, flag, m, total) && Full(r, Times(g, m, pt))
      decreases limb, flag
    {
      var isSet := TestBit(scalar[limb], flag, b);
      r := DoubleAdd(r, point, isSet, g, pt, m);
      DoBit(scalar, limb, flag, m, total);
      m := if isSet then 2 * m + 1 else 2 * m;
      var done;
      done, limb, flag, b := NextBit(scalar, limb, flag, b, m, total);
      if done {
        break;
      }
    }
  }

  lemma {:induction false} LimbPower(n: nat, w: int)
    requires w == 0x100_0000_0000_0000
    ensures Pow(w, n) == Pow2(56 * n)
  {
    if n > 0 {
      LimbPower(n - 1, w);
      Pow2Table();
      Pow2Sum(56 * (n - 1), Pow(w, n - 1), 56, w);
    }
  }

  lemma LeadingRange(low: int, p: int, x: int, flag: int)
    requires 0 <= low < p && flag <= x < 2 * flag
    ensures p * flag <= low + p * x < 2 * (p * flag)
  {
    MulMono(p, flag, x);
    MulMono(p, x + 1, 2 * flag);
  }

  lemma LeadingPower(limb: nat, flag: nat, b: nat, low: nat, p: int)
    requires flag == Pow2(b) && p == Pow(0x100_0000_0000_0000, limb) && p * flag <= low < 2 * (p * flag)
    ensures TopPower(low) == p * flag
  {
    LimbPower(limb, 0x100_0000_0000_0000);
    Pow2Add(56 * limb, b);
    TopPowerUnique(low, 56 * limb + b);
  }

  lemma LeadingSum(p: int, below: int, x: int, flag: int)
    ensures 1 * (p * (2 * flag)) + below + p * x == (below + p * x) + 2 * (p * flag)
  {
  }

  /** From the leading bit of the leading limb the loop makes the number plus twice its leading power of two. */
  lemma Leading(scalar: Limbs, limb: nat, flag: nat, b: nat, low: nat)
    requires Carried(scalar) && limb <= 3 && flag == Pow2(b) && flag <= scalar[limb] < 2 * flag
    requires low == Low(scalar, limb + 1, 0x100_0000_0000_0000)
    ensures Partway(scalar, limb, flag, 1, low + 2 * TopPower(low))
  {
    var w := 0x100_0000_0000_0000;
    var p, below, x := Pow(w, limb), Low(scalar, limb, w), scalar[limb];
    LowRange(scalar, limb, w);
    LeadingRange(below, p, x, flag);
    LeadingPower(limb, flag, b, low, p);
    ModUnique(x, 2 * flag, 0, x);
    LeadingSum(p, below, x, flag);
  }

  lemma LowLimbs(s: Limbs)
    requires Carried(s)
    ensures Low(s, 4, 0x100_0000_0000_0000)
      == Val(s) % 0x1_0000_0000_0000_0000_0000_0000_0000_0000_0000_0000_0000_0000_0000_0000
  {
    var w := 0x100_0000_0000_0000;
    LowVal(s, w);
    LowRange(s, 4, w);
    assert Pow(w, 4) == 0x1_0000_0000_0000_0000_0000_0000_0000_0000_0000_0000_0000_0000_0000_0000;
    ModUnique(Val(s), 0x1_0000_0000_0000_0000_0000_0000_0000_0000_0000_0000_0000_0000_0000_0000, s[4], Low(s, 4, w));
  }

  /**
   * ge25519_multi_scalarmult_vartime_final. It looks for the leading bit in limbs 3 to 0 only, so that ok is
   * false, the search having left the array, exactly for the scalars above 1 that are multiples of 2^224.
   */
  method Final(point: Ge, scalar: Limbs, ghost g: Group<CurvePoint>, ghost pt: CurvePoint) returns (ok: bool, r: Ge)
    requires CurveGroup(g) && Full(point, pt) && Carried(scalar)
    ensures ok <==>
              || Val(scalar) <= 1
              || Val(scalar) % 0x1_0000_0000_0000_0000_0000_0000_0000_0000_0000_0000_0000_0000_0000_0000 != 0
    ensures ok ==> Full(r, Times(g, FinalMultiple(Val(scalar)), pt))
  {
    ok, r := true, point;
    TimesOne(g, pt);
    var one := IsOne(scalar);
    if one {
      return;
    }
    var zero := IsZero(scalar);
    if zero {
      r := SetNeutral(g);
      return;
    }
    var limb;
    ok, limb := FindLimb(scalar);
    LowLimbs(scalar);
    if ok {
      ghost var low := Low(scalar, 4, 0x100_0000_0000_0000);
      ghost var b;
      var flag;
      flag, b := FindBit(scalar[limb]);
      Leading(scalar, limb, flag, b, low);
      r := Exponentiate(point, scalar, limb, flag, b, g, pt, low + 2 * TopPower(low));
    }
  }

  /** A scalar of at most 128 bits is always handled, and no bit of it is lost. */
  lemma FinalSmall(s: nat)
    requires s < 0x1_0000_0000_0000_0000_0000_0000_0000_0000
    ensures s <= 1 || s % 0x1_0000_0000_0000_0000_0000_0000_0000_0000_0000_0000_0000_0000_0000_0000 != 0
    ensures FinalMultiple(s) == if s <= 1 then s else s + 2 * TopPower(s)
  {
    ModUnique(s, 0x1_0000_0000_0000_0000_0000_0000_0000_0000_0000_0000_0000_0000_0000_0000, 0, s);
  }

  /** The multiple: the low 224 bits, with the leading bit 2^k of those once more in front. */
  lemma FinalExactly(s: nat, low: nat, k: nat)
    requires s > 1 && low == s % 0x1_0000_0000_0000_0000_0000_0000_0000_0000_0000_0000_0000_0000_0000_0000
    requires Pow2(k) <= low < 2 * Pow2(k)
    ensures FinalMultiple(s) == low + 2 * Pow2(k) && FinalMultiple(0) == 0 && FinalMultiple(1) == 1
  {
    TopPowerUnique(low, k);
  }

  // ---- the verdict ----

  lemma RemainderKills<G(!new)>(g: Group<G>, a: nat, b: nat, x: G)
    requires Abelian(g) && a > 0 && Times(g, a, x) == g.zero && Times(g, b, x) == g.zero
    ensures Times(g, b % a, x) == g.zero
  {
    var q := b / a;
    assert b == q * a + b % a;
    TimesProduct(g, q, a, x);
    TimesZero(g, q);
    TimesAdd(g, q * a, b % a, x);
    Zero(g, Times(g, b % a, x));
  }

  lemma DividesBack(d: nat, a: nat, b: nat)
    requires d >= 1 && a >= 1 && a % d == 0 && (b % a) % d == 0
    ensures b % d == 0
  {
    var q, k, l := b / a, a / d, (b % a) / d;
    assert b == q * a + b % a;
    assert a == d * k && b % a == d * l;
    assert q * (d * k) == d * (q * k) by { MulAssoc(d, q, k); MulAssoc(q, d, k); }
    ModUnique(b, d, q * k + l, 0);
  }

  /** If two multiples of x vanish, so does that of a common divisor. */
  lemma {:induction false} CommonKills<G(!new)>(g: Group<G>, a: nat, b: nat, x: G) returns (d: nat)
    requires Abelian(g) && a > 0 && Times(g, a, x) == g.zero && Times(g, b, x) == g.zero
    ensures 1 <= d <= a && a % d == 0 && b % d == 0 && Times(g, d, x) == g.zero
    decreases a
  {
    if b % a == 0 {
      d := a;
    } else {
      RemainderKills(g, a, b, x);
      d := CommonKills(g, b % a, a, x);
      DividesBack(d, a, b);
    }
  }

  /** In a group of prime order m only the neutral element has a vanishing multiple below m. */
  lemma NoSmallOrder<G(!new)>(g: Group<G>, n: nat, m: nat, x: G)
    requires Abelian(g) && Prime(m) && 0 < n < m && Times(g, m, x) == g.zero && Times(g, n, x) == g.zero
    ensures x == g.zero
  {
    var d := CommonKills(g, n, m, x);
    assert Divisor(m, d);
    TimesOne(g, x);
  }

  /** If some multiple of x strictly between -m and m vanishes, other than the zero multiple, x is neutral. */
  lemma NoSmallMultiple<G(!new)>(g: Group<G>, d: int, m: nat, x: G)
    requires Abelian(g) && Prime(m) && d != 0 && 0 < m + d && d < m && Times(g, m, x) == g.zero
      && Times(g, d, x) == g.zero
    ensures x == g.zero
  {
    if d < 0 {
      TimesNeg(g, d, x);
      Inverse(g, g.zero);
      Zero(g, Inv(g, g.zero));
      NoSmallOrder(g, -d, m, x);
    } else {
      NoSmallOrder(g, d, m, x);
    }
  }

  /** [8]x is killed by m; if it also has a vanishing multiple below m, it is neutral. */
  lemma EightKills<G(!new)>(g: Group<G>, n: nat, x: G)
    requires Abelian(g) && Prime(M) && Times(g, 8 * M, x) == g.zero && 0 < n < M && Times(g, n, x) == g.zero
    ensures Times(g, 8, x) == g.zero
  {
    var y := Times(g, 8, x);
    TimesProduct(g, M, 8, x);
    TimesProduct(g, n, 8, x);
    TimesProduct(g, 8, n, x);
    TimesZero(g, 8);
    NoSmallOrder(g, n, M, y);
  }

  lemma {:induction false} TopPowerEight(s: nat)
    requires s >= 4
    ensures (2 * TopPower(s)) % 8 == 0
  {
    if s >= 8 {
      TopPowerEight(s / 2);
    } else {
      assert TopPower(s) == 2 * TopPower(s / 2) && TopPower(s / 2) == 2 * TopPower(s / 4);
    }
  }

  lemma MultipleOfEight<G(!new)>(g: Group<G>, t: nat, x: G)
    requires Abelian(g) && t % 8 == 0 && Times(g, 8, x) == g.zero
    ensures Times(g, t, x) == g.zero
  {
    TimesProduct(g, t / 8, 8, x);
    TimesZero(g, t / 8);
  }

  /** For s = 2 and s = 3, where the added power of two is only 4. */
  lemma SmallVerdict<G(!new)>(g: Group<G>, s: nat, x: G)
    requires Abelian(g) && (s == 2 || s == 3) && Times(g, 8, x) == g.zero
    ensures Times(g, s + 4, x) == g.zero <==> Times(g, s, x) == g.zero
  {
    TimesAdd(g, s, 4, x);
    TimesAdd(g, 4, 4, x);
    TimesAdd(g, 2, 2, x);
    TimesAdd(g, 6, 2, x);
    TimesAdd(g, 7, 1, x);
    TimesAdd(g, 3, 3, x);
    TimesAdd(g, 6, 3, x);
    TimesAdd(g, 8, 1, x);
    TimesOne(g, x);
    Zero(g, g.zero);
    Zero(g, Times(g, 2, x));
    Zero(g, x);
    if Times(g, s + 4, x) == g.zero || Times(g, s, x) == g.zero {
      if s == 3 {
        assert x == g.zero;
        TimesZero(g, 3);
        TimesZero(g, 7);
      }
    }
  }

  /** For a point killed by 8 the added power of two makes no difference. */
  lemma ExtraBit<G(!new)>(g: Group<G>, s: nat, t: nat, x: G)
    requires Abelian(g) && s > 1 && t == 2 * TopPower(s) && Times(g, 8, x) == g.zero
    ensures Times(g, s + t, x) == g.zero <==> Times(g, s, x) == g.zero
  {
    if s >= 4 {
      TopPowerEight(s);
      MultipleOfEight(g, t, x);
      TimesAdd(g, s, t, x);
      Zero(g, Times(g, s, x));
    } else {
      assert TopPower(s / 2) == 1 && TopPower(s) == 2 * TopPower(s / 2);
      SmallVerdict(g, s, x);
    }
  }

  /**
   * The extra leading bit changes the point but not the verdict: for a point killed by 8m the result is neutral exactly
   * when the sum is. For a point killed by m it is the sum exactly when the scalar is 0 or 1 or the point neutral.
   */
  lemma Verdict<G(!new)>(g: Group<G>, s: nat, x: G)
    requires Abelian(g) && Prime(M) && Times(g, 8 * M, x) == g.zero && s < 0x1_0000_0000_0000_0000_0000_0000_0000_0000
    ensures Times(g, FinalMultiple(s), x) == g.zero <==> Times(g, s, x) == g.zero
    ensures Times(g, M, x) == g.zero ==> (Times(g, FinalMultiple(s), x) == Times(g, s, x) <==> s <= 1 || x == g.zero)
  {
    FinalSmall(s);
    if s > 1 {
      var t := 2 * TopPower(s);
      TopPowerRange(s);
      TimesAdd(g, s, t, x);
      Zero(g, Times(g, s, x));
      if Times(g, s, x) == g.zero || Times(g, s + t, x) == g.zero {
        EightKills(g, if Times(g, s, x) == g.zero then s else s + t, x);
        ExtraBit(g, s, t, x);
      }
      if Times(g, M, x) == g.zero {
        AddedPower(g, s, t, x);
      }
    }
  }

  lemma AddedPower<G(!new)>(g: Group<G>, s: nat, t: nat, x: G)
    requires Abelian(g) && Prime(M) && Times(g, M, x) == g.zero && 0 < t < M
    ensures Times(g, s + t, x) == Times(g, s, x) <==> x == g.zero
  {
    TimesAdd(g, s, t, x);
    if x == g.zero {
      TimesZero(g, s);
      TimesZero(g, s + t);
    } else {
      NotKilled(g, t, M, x);
      if Times(g, s + t, x) == Times(g, s, x) {
        Zero(g, Times(g, s, x));
        Cancel(g, Times(g, s, x), Times(g, t, x), g.zero);
      }
    }
  }

  lemma NotKilled<G(!new)>(g: Group<G>, n: nat, m: nat, x: G)
    requires Abelian(g) && Prime(m) && 0 < n < m && Times(g, m, x) == g.zero && x != g.zero
    ensures Times(g, n, x) != g.zero
  {
    if Times(g, n, x) == g.zero {
      NoSmallOrder(g, n, m, x);
    }
  }

  /** Every point is killed by e; opens only at the indices a proof names with Member. */
  ghost predicate Torsion(g: Group<CurvePoint>, pts: seq<CurvePoint>, n: nat, e: nat) {
    n <= |pts| && forall i: nat {:trigger Member(i)} :: Member(i) && i < n ==> Times(g, e, pts[i]) == g.zero
  }

  ghost predicate Member(i: nat) {
    true
  }

  lemma TorsionAt(g: Group<CurvePoint>, pts: seq<CurvePoint>, n: nat, e: nat, i: nat)
    requires Torsion(g, pts, n, e) && i < n
    ensures Times(g, e, pts[i]) == g.zero
  {
    assert Member(i);
  }

  lemma TorsionExactly(g: Group<CurvePoint>, pts: seq<CurvePoint>, n: nat, e: nat)
    requires n <= |pts|
    ensures Torsion(g, pts, n, e) <==> forall i :: 0 <= i < n ==> Times(g, e, pts[i]) == g.zero
  {
    if Torsion(g, pts, n, e) {
      forall i | 0 <= i < n ensures Times(g, e, pts[i]) == g.zero {
        TorsionAt(g, pts, n, e, i);
      }
    }
  }

  lemma TorsionCombination(g: Group<CurvePoint>, a: seq<int>, pts: seq<CurvePoint>, count: nat, n: nat, e: nat)
    requires Abelian(g) && Torsion(g, pts, count, e) && n <= count && n <= |a|
    ensures n <= |pts| && Times(g, e, Sum(g, a, pts, n)) == g.zero
  {
    forall i | 0 <= i < n ensures Times(g, e, pts[i]) == g.zero {
      TorsionAt(g, pts, count, e, i);
    }
    KilledCombination(g, e, a, pts, n);
  }

  /**
   * ge25519_multi_scalarmult_vartime. With s the greatest common divisor of the scalars that the run covers and pt the
   * combination of their points by the quotients, the result is a fixed multiple of pt, and there is one unless the
   * search for the leading limb leaves the array. An even count that reaches the extension leaves one scalar out, see
   * BosCarter.Without and BosCarter.EvenSum; the source calls it only with odd counts.
   */
  method MultiScalarmult(points: array<Ge>, scalars: array<Limbs>, heap: array<nat>, count: nat,
                         ghost g: Group<CurvePoint>, ghost v: seq<int>, ghost pts: seq<CurvePoint>)
    returns (ok: bool, r: Ge, ghost b: Base, ghost s: nat, ghost a: seq<int>)
    requires CurveGroup(g) && 5 <= count <= heap.Length < 0x1_0000_0000_0000_0000
    requires BatchHeap.Values(scalars[..], v, count, 4) && Points(points[..], pts, count)
      && RestSmall(v, Prefix(count), count)
    modifies points, scalars, heap
    ensures Prefix(count) <= count && count <= |v| && count <= |pts| && Covered(v, count) == |a|
      && |a| == if Reaches(v, Prefix(count)) then count else Prefix(count)
    ensures Based(g, v, pts, b, Prefix(count), count, Reaches(v, Prefix(count)))
    ensures Greatest(b.v, |a|, s) && Scaled(b.v, |a|, s, a)
    ensures ok <==> s <= 1 || s % 0x1_0000_0000_0000_0000_0000_0000_0000_0000_0000_0000_0000_0000_0000_0000 != 0
    ensures ok ==> Full(r, Times(g, FinalMultiple(s), Sum(g, a, b.pts, |a|)))
    ensures Reaches(v, Prefix(count)) ==> ok && s < 0x1_0000_0000_0000_0000_0000_0000_0000_0000
  {
    ghost var v', pts';
    var max1;
    max1, b, v', pts', a := Reduce(points, scalars, heap, count, g, v, pts);
    assert v'[max1] == Val(scalars[..][max1]) && Full(points[..][max1], pts'[max1]);
    s := Val(scalars[max1]);
    ok, r := Final(points[max1], scalars[max1], g, pts'[max1]);
    if Reaches(v, Prefix(count)) {
      FinalSmall(s);
    }
  }

  /**
   * What the result says of the sum: for points killed by 8m and a run that reaches the extension it is neutral exactly
   * when the sum over all scalars is; for points killed by m it is the sum exactly if s is 0 or 1 or the combination
   * neutral.
   */
  lemma RunVerdict(g: Group<CurvePoint>, v: seq<int>, pts: seq<CurvePoint>, count: nat, s: nat, a: seq<int>)
    requires Abelian(g) && Prime(M) && s < 0x1_0000_0000_0000_0000_0000_0000_0000_0000 && count <= |pts|
      && Scaled(v, count, s, a)
    requires Torsion(g, pts, count, 8 * M)
    ensures var pt := Sum(g, a, pts, count);
            && (Times(g, FinalMultiple(s), pt) == g.zero <==> Sum(g, v, pts, count) == g.zero)
            && (Torsion(g, pts, count, M) ==>
                  (Times(g, FinalMultiple(s), pt) == Sum(g, v, pts, count) <==> s <= 1 || pt == g.zero))
  {
    TimesCombination(g, s, a, v, pts, count);
    TorsionCombination(g, a, pts, count, count, 8 * M);
    if Torsion(g, pts, count, M) {
      TorsionCombination(g, a, pts, count, count, M);
    }
    Verdict(g, s, Sum(g, a, pts, count));
  }

  /** The condition is needed: a run that stops over zero scalars misses whatever the other scalars stand for. */
  lemma Missed(g: Group<CurvePoint>, v: seq<int>, pts: seq<CurvePoint>, count: nat)
    requires CurveGroup(g) && Prefix(count) < count <= |v| && count <= |pts|
    requires v[count - 1] == 1 && forall i :: 0 <= i < count - 1 ==> v[i] == 0
    ensures !Reaches(v, Prefix(count))
    ensures Sum(g, v, pts, Prefix(count)) == g.zero && Sum(g, v, pts, count) == pts[count - 1]
  {
    SumNothing(g, v, pts, Prefix(count));
    SumSingle(g, v, pts, count, count - 1);
    TimesOne(g, pts[count - 1]);
  }
}
