/** Comparison and subtraction of scalars truncated to their low limbs, as batch verification uses them. */
module BatchScalars {
  import opened Powers
  import opened Words
  import opened Bits
  import opened Digits
  import opened Scalar

  /** No limb above limb n is set. */
  predicate Fits(s: Limbs, n: nat) {
    forall k :: n < k < 5 ==> s[k] == 0
  }

  lemma {:induction false} LowRange(s: Limbs, n: nat, w: int)
    requires Carried(s) && n <= 5 && w == 0x100_0000_0000_0000
    ensures 0 <= Low(s, n, w) < Pow(w, n)
  {
    if n > 0 {
      LowRange(s, n - 1, w);
      assert s[n - 1] < w;
      NextDigit(Low(s, n - 1, w), Pow(w, n - 1), s[n - 1], w);
    }
  }

  lemma NextDigit(low: int, p: int, d: int, w: int)
    requires 0 <= low < p && 0 <= d < w
    ensures 0 <= low + p * d < w * p
  {
    MulMono(p, d, w - 1);
    MulMono(p, 0, d);
  }

  lemma LowVal(s: Limbs, w: int)
    requires w == 0x100_0000_0000_0000
    ensures Low(s, 5, w) == Val(s)
  {
    assert Pow(w, 0) == 1;
    assert Pow(w, 1) == 0x100_0000_0000_0000;
    assert Pow(w, 2) == 0x1_0000_0000_0000_0000_0000_0000_0000;
    assert Pow(w, 3) == 0x100_0000_0000_0000_0000_0000_0000_0000_0000_0000_0000;
    assert Pow(w, 4) == 0x1_0000_0000_0000_0000_0000_0000_0000_0000_0000_0000_0000_0000_0000_0000;
    assert Low(s, 1, w) == Low(s, 0, w) + Pow(w, 0) * s[0];
    assert Low(s, 2, w) == Low(s, 1, w) + Pow(w, 1) * s[1];
    assert Low(s, 3, w) == Low(s, 2, w) + Pow(w, 2) * s[2];
    assert Low(s, 4, w) == Low(s, 3, w) + Pow(w, 3) * s[3];
    assert Low(s, 5, w) == Low(s, 4, w) + Pow(w, 4) * s[4];
  }

  lemma {:induction false} LowFits(s: Limbs, n: nat, k: nat, w: int)
    requires Fits(s, n) && n < k <= 5
    ensures Low(s, k, w) == Low(s, n + 1, w)
    decreases k
  {
    if k > n + 1 {
      LowFits(s, n, k - 1, w);
      assert Low(s, k, w) == Low(s, k - 1, w) + Pow(w, k - 1) * 0;
    }
  }

  /** A number that fits in its limbs up to n is that low part. */
  lemma FitsVal(s: Limbs, n: nat, w: int)
    requires Fits(s, n) && n <= 4 && w == 0x100_0000_0000_0000
    ensures Low(s, n + 1, w) == Val(s)
  {
    LowFits(s, n, 5, w);
    LowVal(s, w);
  }

  lemma CompareStep(la: int, lb: int, p: int, x: int, y: int, c: int)
    requires 0 <= la < p && 0 <= lb < p && c == if la < lb then 1 else 0
    ensures la + p * x < lb + p * y <==> x - y - c < 0
  {
    if x < y {
      MulMono(p, x + 1, y);
    } else if x > y {
      MulMono(p, y + 1, x);
    }
  }

  /** The sign bit of a 64-bit difference of limbs. */
  method BorrowOf(x: int) returns (c: int)
    requires -0x8000_0000_0000_0000 <= x < 0x8000_0000_0000_0000
    ensures c == if x < 0 then 1 else 0
  {
    var t := U64(x);
    c := t / 0x8000_0000_0000_0000;
  }

  /** The borrow out of the limbs up to limbsize. */
  method Borrow(a: Limbs, b: Limbs, limbsize: nat) returns (carry: int)
    requires Carried(a) && Carried(b) && limbsize <= 4
    ensures carry == if Low(a, limbsize + 1, 0x100_0000_0000_0000) < Low(b, limbsize + 1, 0x100_0000_0000_0000) then 1
      else 0
  {
    ghost var w := 0x100_0000_0000_0000;
    carry := 0;
    var i: nat := 0;
    while i <= limbsize
      invariant i <= limbsize + 1
      invariant carry == if Low(a, i, w) < Low(b, i, w) then 1 else 0
    {
      LowRange(a, i, w);
      LowRange(b, i, w);
      CompareStep(Low(a, i, w), Low(b, i, w), Pow(w, i), a[i], b[i], carry);
      carry := BorrowOf(a[i] - b[i] - carry);
      i := i + 1;
    }
  }

  /** lt256_modm_batch, for numbers whose limbs above limbsize are zero, is the order of the numbers. */
  method LtBatch(a: Limbs, b: Limbs, limbsize: nat) returns (r: bool)
    requires Carried(a) && Carried(b) && limbsize <= 4 && Fits(a, limbsize) && Fits(b, limbsize)
    ensures r <==> Val(a) < Val(b)
  {
    FitsVal(a, limbsize, 0x100_0000_0000_0000);
    FitsVal(b, limbsize, 0x100_0000_0000_0000);
    var carry := Borrow(a, b, limbsize);
    r := carry == 1;
  }

  /** lte256_modm_batch: no borrow from b - a. */
  method LteBatch(a: Limbs, b: Limbs, limbsize: nat) returns (r: bool)
    requires Carried(a) && Carried(b) && limbsize <= 4 && Fits(a, limbsize) && Fits(b, limbsize)
    ensures r <==> Val(a) <= Val(b)
  {
    FitsVal(a, limbsize, 0x100_0000_0000_0000);
    FitsVal(b, limbsize, 0x100_0000_0000_0000);
    var carry := Borrow(b, a, limbsize);
    r := carry == 0;
  }

  lemma SubStep(la: int, lb: int, lo: int, p: int, x: int, y: int, c: int, d: int, o: int, w: int)
    requires lo == la - lb + p * c && o == x - y - c + w * d
    ensures lo + p * o == (la + p * x) - (lb + p * y) + (w * p) * d
  {
    MulAssoc(p, w, d);
    assert p * o == p * x - p * y - p * c + p * (w * d);
  }

  method SubLimbs(x: nat, y: nat, c: int) returns (o: nat, d: int)
    requires x < 0x100_0000_0000_0000 && y < 0x100_0000_0000_0000 && 0 <= c <= 1
    ensures o < 0x100_0000_0000_0000 && 0 <= d <= 1 && o == x - y - c + 0x100_0000_0000_0000 * d
  {
    d := BorrowOf(x - y - c);
    o := U64(x - y - c) % 0x100_0000_0000_0000;
  }

  /** The masked limbs below limbsize; limbs from limbsize on stay as they were. */
  method SubLow(a: Limbs, b: Limbs, limbsize: nat) returns (out: Limbs, carry: int)
    requires Carried(a) && Carried(b) && limbsize <= 4
    ensures 0 <= carry <= 1 && (forall k :: limbsize <= k < 5 ==> out[k] == a[k])
    ensures forall k :: 0 <= k < limbsize ==> out[k] < 0x100_0000_0000_0000
    ensures Low(out, limbsize, 0x100_0000_0000_0000) == Low(a, limbsize, 0x100_0000_0000_0000)
      - Low(b, limbsize, 0x100_0000_0000_0000) + Pow(0x100_0000_0000_0000, limbsize) * carry
  {
    ghost var w := 0x100_0000_0000_0000;
    out, carry := a, 0;
    var i: nat := 0;
    while i < limbsize
      invariant i <= limbsize && 0 <= carry <= 1
      invariant forall k :: i <= k < 5 ==> out[k] == a[k]
      invariant forall k :: 0 <= k < i ==> out[k] < 0x100_0000_0000_0000
      invariant Low(out, i, w) == Low(a, i, w) - Low(b, i, w) + Pow(w, i) * carry
    {
      var o, d := SubLimbs(a[i], b[i], carry);
      ghost var before := out;
      out := out[i := o];
      assert out[..i] == before[..i];
      LowSame(before, out, i, w);
      SubStep(Low(a, i, w), Low(b, i, w), Low(before, i, w), Pow(w, i), a[i], b[i], carry, d, o, w);
      carry := d;
      i := i + 1;
    }
  }

  lemma NoBorrow(la: int, lb: int, lo: int, p: int, x: int, y: int, c: int, o: int)
    requires lo == la - lb + p * c && o == x - y - c
    ensures lo + p * o == (la + p * x) - (lb + p * y)
  {
  }

  lemma TopNonNegative(lo: int, p: int, o: int)
    requires 0 <= lo < p && lo + p * o >= 0
    ensures o >= 0
  {
    if o < 0 {
      MulMono(p, o, -1);
    }
  }

  lemma {:induction false} LowRangeOf(s: seq<nat>, n: nat, w: int)
    requires n <= |s| && w == 0x100_0000_0000_0000 && forall k :: 0 <= k < n ==> s[k] < w
    ensures 0 <= Low(s, n, w) < Pow(w, n)
  {
    if n > 0 {
      LowRangeOf(s, n - 1, w);
      NextDigit(Low(s, n - 1, w), Pow(w, n - 1), s[n - 1], w);
    }
  }

  /** The unmasked limb at limbsize. */
  method SubLimbsize(a: Limbs, b: Limbs, limbsize: nat, ghost w: int) returns (out: Limbs)
    requires Carried(a) && Carried(b) && limbsize <= 4 && w == 0x100_0000_0000_0000
    requires Low(b, limbsize + 1, w) <= Low(a, limbsize + 1, w)
    ensures forall k :: 0 <= k <= limbsize ==> out[k] < w
    ensures forall k :: limbsize < k < 5 ==> out[k] == a[k]
    ensures Low(out, limbsize + 1, w) == Low(a, limbsize + 1, w) - Low(b, limbsize + 1, w)
  {
    var low, carry := SubLow(a, b, limbsize);
    ghost var top := (a[limbsize] as int) - b[limbsize] - carry;
    NoBorrow(Low(a, limbsize, w), Low(b, limbsize, w), Low(low, limbsize, w), Pow(w, limbsize), a[limbsize],
      b[limbsize], carry, top);
    LowRangeOf(low, limbsize, w);
    TopNonNegative(Low(low, limbsize, w), Pow(w, limbsize), top);
    out := low[limbsize := U64(a[limbsize] - b[limbsize] - carry)];
    assert out[limbsize] == top;
    assert out[..limbsize] == low[..limbsize];
    LowSame(low, out, limbsize, w);
  }

  /** sub256_modm_batch in place of its first operand, for b <= a: the exact difference. */
  method SubBatch(a: Limbs, b: Limbs, limbsize: nat) returns (out: Limbs)
    requires Carried(a) && Carried(b) && limbsize <= 4 && Fits(a, limbsize) && Fits(b, limbsize) && Val(b) <= Val(a)
    ensures Carried(out) && Fits(out, limbsize) && Val(out) == Val(a) - Val(b)
  {
    FitsVal(a, limbsize, 0x100_0000_0000_0000);
    FitsVal(b, limbsize, 0x100_0000_0000_0000);
    out := SubLimbsize(a, b, limbsize, 0x100_0000_0000_0000);
    FitsVal(out, limbsize, 0x100_0000_0000_0000);
  }

  // ---- tests ----

  /** iszero256_modm_batch */
  method IsZero(a: Limbs) returns (r: bool)
    ensures r <==> Val(a) == 0
  {
    var i := 0;
    while i < 5
      invariant 0 <= i <= 5 && forall k :: 0 <= k < i ==> a[k] == 0
    {
      if a[i] != 0 {
        return false;
      }
      i := i + 1;
    }
    return true;
  }

  /** isone256_modm_batch */
  method IsOne(a: Limbs) returns (r: bool)
    ensures r <==> Val(a) == 1
  {
    var i := 0;
    while i < 5
      invariant 0 <= i <= 5 && forall k :: 0 <= k < i ==> a[k] == if k == 0 then 1 else 0
    {
      if a[i] != (if i == 0 then 1 else 0) {
        return false;
      }
      i := i + 1;
    }
    return true;
  }

  lemma Mask40(x: nat, m: nat, n: nat)
    requires x < 0x100_0000_0000_0000 && m == 0xff_ffff_ffff_0000 && n == 16
    ensures And(x, m) == 0 <==> x < 0x1_0000
  {
    Pow2Table();
    var ones, high := 0xff_ffff_ffff, x / 0x1_0000;
    AndAbove(x, ones, n);
    ShlValue(ones, n);
    ShrValue(x, n);
    AndMask(high, 40);
    ModUnique(high, 0x100_0000_0000, 0, high);
    ShlValue(high, n);
  }

  /** isatmost128bits256_modm_batch */
  method AtMost128(a: Limbs) returns (r: bool)
    requires Carried(a)
    ensures r <==> Val(a) < 0x1_0000_0000_0000_0000_0000_0000_0000_0000
  {
    var keep := 0xff_ffff_ffff_0000;
    Mask40(a[2], keep, 16);
    var mask := Or(Or(a[4], a[3]), And(a[2], keep));
    OrZero(Or(a[4], a[3]), And(a[2], keep));
    OrZero(a[4], a[3]);
    r := mask == 0;
  }
}
