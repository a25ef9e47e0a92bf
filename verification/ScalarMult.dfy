/** [a]P + [b]B over sliding windows. */
module ScalarMult {
  import opened Powers
  import opened AbelianGroup
  import opened Edwards
  import opened Field
  import opened Tracked
  import opened PointOps
  import opened Digits
  import opened Recoding
  import S = Scalar
  import O = ScalarOps

  function Magnitude(d: int): nat {
    if d < 0 then -d else d
  }

  function SignBit(d: int): int {
    if d < 0 then 1 else 0
  }

  /** Adding or subtracting [|d|]p, as the sign of d says, adds [d]p. */
  lemma SignedTimes(g: Group<CurvePoint>, x: CurvePoint, d: int, p: CurvePoint)
    requires Abelian(g)
    ensures Signed(g, x, Times(g, Magnitude(d), p), SignBit(d)) == Op(g, x, Times(g, d, p))
  {
    TimesNeg(g, d, p);
    NegNeg(g, Times(g, d, p));
  }

  // ---- [s1]P + [s2]B ----

  predicate Below255(s: S.Limbs) {
    O.Below256(s) && S.Val(s) < 0x8000_0000_0000_0000_0000_0000_0000_0000_0000_0000_0000_0000_0000_0000_0000_0000
  }

  lemma NeutralRep()
    ensures RepT(Ext(0, 1, 1, 0), Point(0, 1))
  {
    OneNonZero();
    ModP.CongRefl(0);
    ModP.CongRefl(1);
    ModP.CongEq(0, 0, 0, 0 * 1);
    ModP.CongEq(1, 1, 1, 1 * 1);
    ModP.CongEq(0, 0, 0, (0 * 1) * 1);
  }

  /** The neutral element: x and t zero, y and z one. */
  method SetNeutral(ghost g: Group<CurvePoint>) returns (r: Ge)
    requires CurveGroup(g)
    ensures Full(r, g.zero) && Partial(r, g.zero)
  {
    var zero, one := Fe(0, 0, 0, 0, 0), Fe(1, 0, 0, 0, 0);
    r := Ge(zero, one, one, zero);
    Neutral(g);
    SmallVal(0);
    SmallVal(1);
    NeutralRep();
    ghost var e := Ext(0, 1, 1, 0);
    assert Stands(r, e) && Is(r.t, e.t, 0);
  }

  ghost predicate FirstTable(pre: seq<GePniels>, g: Group<CurvePoint>, p: CurvePoint) {
    |pre| == 8 && forall k :: 0 <= k < 8 ==> Addend(pre[k], Times(g, 2 * k + 1, p))
  }

  ghost predicate OddAt(pre: seq<GePniels>, g: Group<CurvePoint>, p: CurvePoint, k: nat)
    requires k < |pre|
  {
    Addend(pre[k], Times(g, 2 * k + 1, p))
  }

  /** The table so far: entry k is the multiple 2k + 1. */
  ghost predicate OddTable(pre: seq<GePniels>, g: Group<CurvePoint>, p: CurvePoint) {
    forall k :: 0 <= k < |pre| ==> OddAt(pre, g, p, k)
  }

  lemma OddTableNext(pre: seq<GePniels>, x: GePniels, g: Group<CurvePoint>, p: CurvePoint)
    requires OddTable(pre, g, p) && Addend(x, Times(g, 2 * |pre| + 1, p))
    ensures OddTable(pre + [x], g, p)
  {
    forall k | 0 <= k < |pre| + 1 ensures OddAt(pre + [x], g, p, k) {
      if k < |pre| {
        assert OddAt(pre, g, p, k);
      }
    }
  }

  lemma OddTableFull(pre: seq<GePniels>, g: Group<CurvePoint>, p: CurvePoint)
    requires OddTable(pre, g, p) && |pre| == 8
    ensures FirstTable(pre, g, p)
  {
    forall k | 0 <= k < 8 ensures Addend(pre[k], Times(g, 2 * k + 1, p)) {
      assert OddAt(pre, g, p, k);
    }
  }

  method StoreOdd(pre: array<GePniels>, i: nat, x: GePniels, ghost g: Group<CurvePoint>, ghost pt: CurvePoint)
    requires i < pre.Length && OddTable(pre[..i], g, pt) && Addend(x, Times(g, 2 * i + 1, pt))
    modifies pre
    ensures OddTable(pre[..i + 1], g, pt) && pre[i] == x
  {
    OddTableNext(pre[..i], x, g, pt);
    ghost var before := pre[..i];
    pre[i] := x;
    assert pre[..i + 1] == before + [x];
  }

  /** What the constant ge25519_niels_sliding_multiples holds: B, 3B, ..., 63B. */
  ghost predicate SecondTable(table: seq<GeNiels>, g: Group<CurvePoint>, p: CurvePoint) {
    |table| == 32 && forall k :: 0 <= k < 32 ==> AffineAddend(table[k], Times(g, 2 * k + 1, p))
  }

  /** pre1: the odd multiples P, 3P, ..., 15P. */
  method OddMultiples(pre: array<GePniels>, p1: Ge, ghost g: Group<CurvePoint>, ghost pt: CurvePoint)
    requires CurveGroup(g) && Full(p1, pt) && pre.Length == 8
    modifies pre
    ensures FirstTable(pre[..], g, pt)
  {
    FullIsPartial(p1, pt);
    TimesOne(g, pt);
    var d1 := Double(p1, g, pt);
    var first := FullToPniels(p1, pt);
    StoreOdd(pre, 0, first, g, pt);
    var i := 0;
    while i < 7
      invariant 0 <= i <= 7 && OddTable(pre[..i + 1], g, pt)
    {
      assert OddAt(pre[..i + 1], g, pt, i);
      var next := Pnielsadd(d1, pre[i], g, Op(g, pt, pt), Times(g, 2 * i + 1, pt));
      TwoMore(g, 2 * i + 1, pt);
      StoreOdd(pre, i + 1, next, g, pt);
      i := i + 1;
    }
    assert pre[..8] == pre[..];
    OddTableFull(pre[..], g, pt);
  }

  lemma TwoMore(g: Group<CurvePoint>, n: int, p: CurvePoint)
    requires Abelian(g)
    ensures Op(g, Op(g, p, p), Times(g, n, p)) == Times(g, n + 2, p)
  {
    TimesSucc(g, n, p);
    TimesSucc(g, n + 1, p);
    Assoc(g, Times(g, n, p), p, p);
    Comm(g, Op(g, p, p), Times(g, n, p));
  }

  lemma FullIsPartial(r: Ge, p: Point)
    requires Full(r, p)
    ensures Partial(r, p)
  {
    var e: Ext :| Stands(r, e) && Is(r.t, e.t, 0) && RepT(e, p);
    assert Rep(e, p);
  }

  lemma {:induction false} ZerosAbove(d: seq<int>, i: nat, b: int)
    requires forall k :: i <= k < |d| ==> d[k] == 0
    ensures Value(d, i, b) == 0
    decreases |d| - i
  {
    if i < |d| {
      ZerosAbove(d, i + 1, b);
    }
  }

  /** Where the odd multiples table holds the magnitude of a digit. */
  method DigitIndex(d: int, n: int) returns (k: nat)
    requires d % 2 == 1 && -n < d < n
    ensures 2 * k + 1 == Magnitude(d) && 2 * k < n
  {
    k := (if d < 0 then -d else d) / 2;
  }

  lemma WindowRange(d: int, w: nat, n: int)
    requires 1 <= w && WindowDigit(d, w) && d != 0 && n == Pow2(w - 1)
    ensures d % 2 == 1 && -n < d < n
  {
  }

  /** Adds the multiple of p that a digit of the first window stands for; r is overwritten on the way. */
  method AddFirst(r: Ge, t: GeP1p1, d: int, pre: seq<GePniels>, ghost g: Group<CurvePoint>, ghost x: CurvePoint,
        ghost p: CurvePoint)
    returns (r': Ge, t': GeP1p1)
    requires CurveGroup(g) && Completed(t, x) && WindowDigit(d, 5) && FirstTable(pre, g, p)
    ensures Completed(t', Op(g, x, Times(g, d, p)))
  {
    r', t' := r, t;
    if d != 0 {
      WindowRange(d, 5, 16);
      var k := DigitIndex(d, 16);
      ghost var q := Times(g, 2 * k + 1, p);
      r', t' := AddEntry(t, pre[k], SignBit(d), g, x, q);
      SignedTimes(g, x, d, p);
    } else {
      Zero(g, x);
    }
  }

  method AddEntry(t: GeP1p1, e: GePniels, sign: int, ghost g: Group<CurvePoint>, ghost x: CurvePoint,
        ghost q: CurvePoint)
    returns (r: Ge, t': GeP1p1)
    requires CurveGroup(g) && Completed(t, x) && Addend(e, q) && 0 <= sign <= 1
    ensures Completed(t', Signed(g, x, q, sign))
  {
    r := P1p1ToFull(t, x);
    t' := PnielsaddP1p1(r, e, sign, g, x, q);
  }

  /** The same for a digit of the second window, from the constant table. */
  method AddSecond(r: Ge, t: GeP1p1, d: int, table: seq<GeNiels>, ghost g: Group<CurvePoint>, ghost x: CurvePoint,
        ghost p: CurvePoint)
    returns (r': Ge, t': GeP1p1)
    requires CurveGroup(g) && Completed(t, x) && WindowDigit(d, 7) && SecondTable(table, g, p)
    ensures Completed(t', Op(g, x, Times(g, d, p)))
  {
    r', t' := r, t;
    if d != 0 {
      WindowRange(d, 7, 64);
      var k := DigitIndex(d, 64);
      ghost var q := Times(g, 2 * k + 1, p);
      r', t' := AddAffineEntry(t, table[k], SignBit(d), g, x, q);
      SignedTimes(g, x, d, p);
    } else {
      Zero(g, x);
    }
  }

  method AddAffineEntry(t: GeP1p1, e: GeNiels, sign: int, ghost g: Group<CurvePoint>, ghost x: CurvePoint,
        ghost q: CurvePoint)
    returns (r: Ge, t': GeP1p1)
    requires CurveGroup(g) && Completed(t, x) && AffineAddend(e, q) && 0 <= sign <= 1
    ensures Completed(t', Signed(g, x, q, sign))
  {
    r := P1p1ToFull(t, x);
    t' := Nielsadd2P1p1(r, e, sign, g, x, q);
  }

  /** One position of both windows: double, then add what the digits stand for. */
  method MixStep(r: Ge, d: int, pre: seq<GePniels>, e: int, table: seq<GeNiels>,
                 ghost g: Group<CurvePoint>, ghost a: int, ghost p: CurvePoint, ghost b: int, ghost q: CurvePoint)
    returns (r': Ge)
    requires CurveGroup(g) && Partial(r, Mix(g, a, p, b, q)) && WindowDigit(d, 5) && WindowDigit(e, 7)
    requires FirstTable(pre, g, p) && SecondTable(table, g, q)
    ensures Partial(r', Mix(g, d + 2 * a, p, e + 2 * b, q))
  {
    r' := r;
    ghost var x := Mix(g, a, p, b, q);
    MixNext(g, a, p, b, q, d, e, x);
    var t := DoubleP1p1(r', g, x);
    r', t := AddFirst(r', t, d, pre, g, Op(g, x, x), p);
    ghost var y := Op(g, Op(g, x, x), Times(g, d, p));
    r', t := AddSecond(r', t, e, table, g, y, q);
    r' := P1p1ToPartial(r'.t, t, Op(g, y, Times(g, e, q)));
  }

  /**
   * ge25519_double_scalarmult_vartime: for any point and any two scalars below 2^255 the result is
   * [s1]P + [s2]B. Leading zero digits of both windows are skipped.
   */
  method DoubleScalarmult(p1: Ge, s1: S.Limbs, s2: S.Limbs, table: seq<GeNiels>,
                          ghost g: Group<CurvePoint>, ghost p: CurvePoint, ghost q: CurvePoint)
    returns (r: Ge)
    requires CurveGroup(g) && Full(p1, p) && SecondTable(table, g, q)
    requires Below255(s1) && Below255(s2)
    ensures Partial(r, Mix(g, S.Val(s1), p, S.Val(s2), q))
  {
    var slide1, slide2 := new int[256], new int[256];
    SlidingWindow(slide1, s1, 5);
    SlidingWindow(slide2, s2, 7);
    var pre := new GePniels[8];
    OddMultiples(pre, p1, g, p);
    r := Interleave(slide1[..], slide2[..], pre[..], table, g, p, q);
  }

  /** The highest position at which either form has a digit, or -1. */
  method SkipZeros(slide1: seq<int>, slide2: seq<int>) returns (i: int)
    requires |slide1| == |slide2|
    ensures -1 <= i < |slide1| && Value(slide1, i + 1, 2) == 0 && Value(slide2, i + 1, 2) == 0
    ensures i >= 0 ==> slide1[i] != 0 || slide2[i] != 0
  {
    i := |slide1| - 1;
    while i >= 0 && slide1[i] == 0 && slide2[i] == 0
      invariant -1 <= i < |slide1|
      invariant forall k :: i < k < |slide1| ==> slide1[k] == 0 && slide2[k] == 0
    {
      i := i - 1;
    }
    ZerosAbove(slide1, i + 1, 2);
    ZerosAbove(slide2, i + 1, 2);
  }

  method Interleave(slide1: seq<int>, slide2: seq<int>, pre: seq<GePniels>, table: seq<GeNiels>,
                    ghost g: Group<CurvePoint>, ghost p: CurvePoint, ghost q: CurvePoint)
    returns (r: Ge)
    requires CurveGroup(g) && |slide1| == |slide2| && FirstTable(pre, g, p) && SecondTable(table, g, q)
    requires forall k :: 0 <= k < |slide1| ==> WindowDigit(slide1[k], 5) && WindowDigit(slide2[k], 7)
    ensures Partial(r, Mix(g, Value(slide1, 0, 2), p, Value(slide2, 0, 2), q))
  {
    r := SetNeutral(g);
    MixNeutral(g, p, q);
    var i := SkipZeros(slide1, slide2);
    ghost var a, b := 0, 0;
    while i >= 0
      invariant -1 <= i < |slide1|
      invariant a == Value(slide1, i + 1, 2) && b == Value(slide2, i + 1, 2)
      invariant Partial(r, Mix(g, a, p, b, q))
    {
      ghost var a', b' := slide1[i] + 2 * a, slide2[i] + 2 * b;
      r := MixStep(r, slide1[i], pre, slide2[i], table, g, a, p, b, q);
      a, b := a', b';
      i := i - 1;
    }
  }
}
