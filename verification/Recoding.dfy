/** Signed-digit recodings of scalars, written into digit arrays. */
module Recoding {
  import opened Powers
  import opened Digits
  import opened Scalar
  import opened ScalarOps
  import Bits

  // ---- plain expansion in base 2 or 16 ----

  lemma DigitStep(p: int, a: int, b: int, c: int)
    ensures p * a + (p * b) * c == p * (a + b * c)
  {
    MulAssoc(p, b, c);
  }

  /** Splitting the lowest digit off v, when rest lies above the n digits of v. */
  lemma LowestDigit(v: nat, n: nat, rest: int, b: nat)
    requires 2 <= b && 1 <= n && v < Pow(b, n)
    ensures v / b < Pow(b, n - 1)
    ensures v % b + b * (v / b + Pow(b, n - 1) * rest) == v + Pow(b, n) * rest
  {
    var p := Pow(b, n - 1);
    if v / b >= p {
      MulMono(b, p, v / b);
    }
    MulAssoc(b, p, rest);
  }

  lemma LowStep(d: seq<int>, e: seq<int>, n: nat, v: nat, left: nat, rest: int, b: nat)
    requires 2 <= b && n < |d| == |e| && d[..n] == e[..n] && e[n] == v % b && 1 <= left && v < Pow(b, left)
    ensures v / b < Pow(b, left - 1)
    ensures Low(e, n + 1, b) + Pow(b, n + 1) * (v / b + Pow(b, left - 1) * rest)
      == Low(d, n, b) + Pow(b, n) * (v + Pow(b, left) * rest)
  {
    LowestDigit(v, left, rest, b);
    DigitStep(Pow(b, n), v % b, b, v / b + Pow(b, left - 1) * rest);
    LowSame(d, e, n, b);
  }

  predicate DigitsBelow(d: seq<int>, n: nat, b: nat)
    requires n <= |d|
  {
    forall k :: 0 <= k < n ==> 0 <= d[k] < b
  }

  /** r holds the digits of x below position n, and rest is what of x lies above them. */
  ghost predicate Written(d: seq<int>, n: nat, rest: int, x: int, b: nat)
    requires n <= |d|
  {
    DigitsBelow(d, n, b) && Low(d, n, b) + Pow(b, n) * rest == x
  }

  lemma WrittenStep(d: seq<int>, e: seq<int>, n: nat, v: nat, left: nat, rest: int, x: int, b: nat)
    requires 2 <= b && n < |d| == |e| && d[..n] == e[..n] && e[n] == v % b && 1 <= left && v < Pow(b, left)
    requires Written(d, n, v + Pow(b, left) * rest, x, b)
    ensures v / b < Pow(b, left - 1)
    ensures Written(e, n + 1, v / b + Pow(b, left - 1) * rest, x, b)
  {
    LowStep(d, e, n, v, left, rest, b);
    forall k | 0 <= k < n ensures 0 <= e[k] < b {
      assert e[..n][k] == d[..n][k];
    }
  }

  /** Writes the count digits of one limb from position n on; rest is what of x lies above them. */
  method EmitLimb(r: array<int>, n: nat, s: nat, count: nat, b: nat, ghost rest: int, ghost x: int)
    requires 2 <= b && n + count <= r.Length && s < Pow(b, count) && Written(r[..], n, s + Pow(b, count) * rest, x, b)
    modifies r
    ensures Written(r[..], n + count, rest, x, b)
  {
    var v: nat, j: nat := s, 0;
    while j < count
      invariant 0 <= j <= count && v < Pow(b, count - j)
      invariant Written(r[..], n + j, v + Pow(b, count - j) * rest, x, b)
    {
      ghost var before := r[..];
      r[n + j] := v % b;
      assert r[..n + j] == before[..n + j];
      WrittenStep(before, r[..], n + j, v, count - j, rest, x, b);
      v := v / b;
      j := j + 1;
    }
    assert v == 0 && Pow(b, 0) == 1;
  }

  /** What remains of a scalar above its first i limbs. */
  ghost function Above(s: Limbs, i: nat): nat
    requires i <= 5
    decreases 5 - i
  {
    if i == 5 then 0 else s[i] + 0x100_0000_0000_0000 * Above(s, i + 1)
  }

  lemma AboveVal(s: Limbs)
    ensures Above(s, 0) == Val(s) && Above(s, 4) == s[4]
  {
    assert Above(s, 4) == s[4] + 0x100_0000_0000_0000 * Above(s, 5);
    assert Above(s, 2) == s[2] + 0x100_0000_0000_0000 * Above(s, 3);
    assert Above(s, 1) == s[1] + 0x100_0000_0000_0000 * Above(s, 2);
    assert Above(s, 0) == s[0] + 0x100_0000_0000_0000 * Above(s, 1);
  }

  lemma {:induction false} PowSixteen(n: nat)
    ensures Pow(16, n) == Pow2(4 * n)
  {
    if n > 0 {
      PowSixteen(n - 1);
      assert Pow2(4 * n) == 2 * Pow2(4 * n - 1) == 4 * Pow2(4 * n - 2) == 8 * Pow2(4 * n - 3) == 16 * Pow2(4 * n - 4);
    }
  }

  lemma LimbPowers()
    ensures Pow(2, 56) == Pow(16, 14) == 0x100_0000_0000_0000
    ensures Pow(2, 32) == Pow(16, 8) == 0x1_0000_0000
  {
    Pow2Table();
    PowTwo(56);
    PowTwo(32);
    PowSixteen(14);
    PowSixteen(8);
  }

  lemma LimbDigits(s: Limbs, i: nat, b: nat, full: nat, last: nat)
    requires Below256(s) && i <= 4 && 2 <= b && Pow(b, full) == 0x100_0000_0000_0000 && Pow(b, last) == 0x1_0000_0000
    ensures s[i] < Pow(b, if i == 4 then last else full)
    ensures s[i] + Pow(b, full) * Above(s, i + 1) == Above(s, i)
  {
  }

  /** Digits in base b, full of them to each of the four lower limbs and last to the top one. */
  method Expand(r: array<int>, s: Limbs, b: nat, full: nat, last: nat)
    requires Below256(s) && 2 <= b && r.Length == 4 * full + last
    requires Pow(b, full) == 0x100_0000_0000_0000 && Pow(b, last) == 0x1_0000_0000
    modifies r
    ensures DigitsBelow(r[..], r.Length, b) && Value(r[..], 0, b) == Val(s)
  {
    AboveVal(s);
    ghost var x := Above(s, 0);
    var i, at: nat := 0, 0;
    while i < 4
      invariant 0 <= i <= 4 && at == full * i
      invariant at <= r.Length && Written(r[..], at, Above(s, i), x, b)
    {
      LimbRoom(i, at, full, last);
      LimbDigits(s, i, b, full, last);
      EmitLimb(r, at, s[i], full, b, Above(s, i + 1), x);
      at := at + full;
      i := i + 1;
    }
    LimbDigits(s, 4, b, full, last);
    EmitLimb(r, at, s[4], last, b, 0, x);
    FullyWritten(r[..], x, b);
  }

  lemma LimbRoom(i: nat, at: nat, full: nat, last: nat)
    requires i < 4 && at == full * i
    ensures at + full == full * (i + 1) && at + full <= 4 * full + last
  {
  }

  lemma FullyWritten(d: seq<int>, x: int, b: nat)
    requires Written(d, |d|, 0, x, b)
    ensures Value(d, 0, b) == x
  {
    ValueSplit(d, |d|, b);
  }

  // ---- sliding window ----

  /** Position i is followed by w - 1 zeros if it holds a digit. */
  predicate Followed(d: seq<int>, i: nat, w: nat)
    requires i < |d|
  {
    d[i] != 0 ==> forall k :: i < k < i + w && k < |d| ==> d[k] == 0
  }

  /** Zero, or odd and below 2^(w-1) in absolute value. */
  predicate WindowDigit(d: int, w: nat)
    requires w >= 1
  {
    d == 0 || (d % 2 == 1 && 0 - Pow2(w - 1) < d < Pow2(w - 1))
  }

  /** All digits from i on are zero. */
  predicate ClearFrom(d: seq<int>, i: nat) {
    forall k :: i <= k < |d| ==> d[k] == 0
  }

  /**
   * Adds 2^start by carrying upwards in place. Without a zero to stop at, the carry is lost at the end of the array.
   */
  method Ripple(r: array<int>, start: nat) returns (ghost lost: nat)
    requires start < r.Length && Binary(r[..], start)
    modifies r
    ensures r[..start] == old(r[..start]) && Binary(r[..], start)
    ensures lost <= 1 && Value(r[..], 0, 2) + lost * Pow2(r.Length) == old(Value(r[..], 0, 2)) + Pow2(start)
    ensures lost == 1 ==> ClearFrom(r[..], start)
    ensures lost == 1 <==> forall i :: start <= i < r.Length ==> old(r[i]) == 1
    ensures old(r[r.Length - 1]) == 0 ==> lost == 0
    ensures old(r[start]) == 1 ==> r[start] == 0
  {
    var k := start;
    lost := 1;
    while k < r.Length
      invariant start <= k <= r.Length && lost == 1
      invariant forall i :: k <= i < r.Length ==> r[i] == old(r[i])
      invariant forall i :: start <= i < k ==> r[i] == 0 && old(r[i]) == 1
      invariant r[..start] == old(r[..start])
      invariant Value(r[..], 0, 2) + Pow2(k) == old(Value(r[..], 0, 2)) + Pow2(start)
    {
      ghost var before := r[..];
      PowTwo(k);
      if r[k] == 0 {
        ValueUpdate(before, k, 1, 2);
        r[k] := 1;
        assert r[..] == before[k := 1];
        lost := 0;
        break;
      }
      ValueUpdate(before, k, 0, 2);
      r[k] := 0;
      assert r[..] == before[k := 0];
      k := k + 1;
    }
  }

  /** Folding the digit at j + b into the one at j keeps the number. */
  lemma {:induction false} FoldBit(d: seq<int>, j: nat, b: nat)
    requires 1 <= b && j + b < |d|
    ensures Value(d[j := d[j] + d[j + b] * Pow2(b)][j + b := 0], 0, 2) == Value(d, 0, 2)
  {
    var e := d[j := d[j] + d[j + b] * Pow2(b)];
    ValueUpdate(d, j, d[j] + d[j + b] * Pow2(b), 2);
    ValueUpdate(e, j + b, 0, 2);
    PowTwo(j);
    PowTwo(j + b);
    Pow2Add(j, b);
    MulAssoc(Pow2(j), Pow2(b), d[j + b]);
  }

  lemma {:induction false} SubtractBit(d: seq<int>, j: nat, b: nat)
    requires j + b < |d|
    ensures Value(d[j := d[j] - Pow2(b)], 0, 2) == Value(d, 0, 2) - Pow2(j + b)
  {
    ValueUpdate(d, j, d[j] - Pow2(b), 2);
    PowTwo(j);
    Pow2Add(j, b);
  }

  /** What holds inside a window: bits at j + 1 .. j + b - 1 are folded into the odd digit at j. */
  ghost predicate Folding(d: seq<int>, was: seq<int>, j: nat, b: nat, w: nat)
    requires j < |d| && j + b <= |d| == |was| && 1 <= w
  {
    && d[..j] == was[..j] && Binary(d, j + 1) && d[j] % 2 == 1
    && (forall k :: j < k < j + b && k < j + w ==> d[k] == 0)
    && (b < w ==> 1 <= d[j] < Pow2(b) && forall k :: j + b <= k < |d| ==> d[k] == was[k])
    && 0 - Pow2(w - 1) < d[j] < Pow2(w - 1)
  }

  lemma {:induction false} FoldSmall(d: int, e: int, b: nat, w: nat)
    requires 1 <= b && 1 <= d < Pow2(b) && (e == 0 || e == 1)
    ensures b + 1 < w ==> d + e * Pow2(b) < Pow2(w - 1)
    ensures b + 1 == w && e == 1 ==> d + e * Pow2(b) >= Pow2(w - 1) && d - e * Pow2(b) > 0 - Pow2(w - 1)
    ensures 1 <= d + e * Pow2(b) < Pow2(b + 1) && Pow2(b) % 2 == 0
  {
    if b + 1 < w {
      Pow2Mono(b + 1, w - 1);
    }
  }

  lemma {:induction false} FoldLarge(d: int, e: int, b: nat, w: nat)
    requires 1 <= w <= b && 0 - Pow2(w - 1) < d < Pow2(w - 1) && e == 1
    ensures d + e * Pow2(b) >= Pow2(w - 1) && d - e * Pow2(b) <= 0 - Pow2(w - 1)
  {
    Pow2Mono(w, b);
  }

  lemma {:induction false} FoldedIn(d: seq<int>, was: seq<int>, j: nat, b: nat, w: nat, p: nat)
    requires 2 <= w && 1 <= b && j + b < |d| == |was| && Folding(d, was, j, b, w) && p == Pow2(b)
    requires d[j] + d[j + b] * p < Pow2(w - 1)
    ensures Folding(d[j := d[j] + d[j + b] * p][j + b := 0], was, j, b + 1, w)
  {
    if b < w {
      FoldSmall(d[j], d[j + b], b, w);
    } else if d[j + b] == 1 {
      FoldLarge(d[j], d[j + b], b, w);
    }
  }

  lemma {:induction false} FoldedOut(d: seq<int>, e: seq<int>, was: seq<int>, j: nat, b: nat, w: nat)
    requires 2 <= w && 1 <= b && j + b < |d| == |was| == |e| && Folding(d, was, j, b, w)
    requires b < w && d[j + b] == 1 && d[j] + Pow2(b) >= Pow2(w - 1)
    requires e[..j + b] == d[..j + b][j := d[j] - Pow2(b)] && Binary(e, j + b) && e[j + b] == 0
    ensures Folding(e, was, j, b + 1, w)
  {
    FoldSmall(d[j], 1, b, w);
    var p, t := Pow2(b), d[..j + b][j := d[j] - Pow2(b)];
    assert b + 1 == w && e[j] == e[..j + b][j] == d[j] - p;
    forall k | 0 <= k < j + b && k != j ensures e[k] == d[k] {
      assert e[k] == e[..j + b][k] == t[k];
    }
    assert e[..j] == d[..j];
  }

  /** Past the first test the bit at j + b is set, and the second test succeeds exactly within the window. */
  lemma {:induction false} Largest(d: seq<int>, was: seq<int>, j: nat, b: nat, w: nat)
    requires 2 <= w && 1 <= b && j + b < |d| == |was| && Folding(d, was, j, b, w)
    requires d[j] + d[j + b] * Pow2(b) >= Pow2(w - 1)
    ensures d[j + b] == 1 && (b < w ==> b + 1 == w)
    ensures b < w <==> d[j] - d[j + b] * Pow2(b) > 0 - Pow2(w - 1)
  {
    if b < w {
      FoldSmall(d[j], d[j + b], b, w);
    } else if d[j + b] == 1 {
      FoldLarge(d[j], d[j + b], b, w);
    }
  }

  method FoldIn(r: array<int>, j: nat, b: nat, w: nat, p: nat, ghost was: seq<int>)
    requires 2 <= w && 1 <= b && j + b < r.Length == |was| && p == Pow2(b)
    requires Folding(r[..], was, j, b, w) && r[j] + r[j + b] * p < Pow2(w - 1)
    modifies r
    ensures Value(r[..], 0, 2) == old(Value(r[..], 0, 2)) && Folding(r[..], was, j, b + 1, w)
    ensures old(ClearFrom(r[..], j + 1)) ==> ClearFrom(r[..], j + 1)
  {
    ghost var before := r[..];
    FoldBit(before, j, b);
    FoldedIn(before, was, j, b, w, p);
    r[j] := r[j] + r[j + b] * p;
    r[j + b] := 0;
    assert r[..] == before[j := before[j] + before[j + b] * p][j + b := 0];
  }

  method FoldOut(r: array<int>, j: nat, b: nat, w: nat, p: nat, ghost was: seq<int>) returns (ghost lost: nat)
    requires 2 <= w && 1 <= b < w && j + b < r.Length == |was| && p == Pow2(b)
    requires Folding(r[..], was, j, b, w) && r[j + b] == 1
    requires r[j] + r[j + b] * p >= Pow2(w - 1) && r[j] - r[j + b] * p > 0 - Pow2(w - 1)
    modifies r
    ensures lost <= 1 && Value(r[..], 0, 2) + lost * Pow2(r.Length) == old(Value(r[..], 0, 2))
      && Folding(r[..], was, j, b + 1, w)
    ensures lost == 1 ==> ClearFrom(r[..], j + 1)
    ensures was[r.Length - 1] == 0 ==> lost == 0
  {
    ghost var before := r[..];
    SubtractBit(before, j, b);
    r[j] := r[j] - r[j + b] * p;
    assert r[..] == before[j := before[j] - Pow2(b)];
    ghost var start := r[..];
    lost := Ripple(r, j + b);
    FoldedOut(before, r[..], was, j, b, w);
    forall k | j < k < j + b ensures r[k] == start[k] {
      assert r[..j + b][k] == start[..j + b][k];
    }
  }

  /** One turn of the window loop at the set bit j. */
  method FoldStep(r: array<int>, j: nat, b: nat, w: nat, ghost was: seq<int>) returns (stop: bool, ghost lost: nat)
    requires 2 <= w <= 7 && 1 <= b <= 6 && j + b < r.Length == |was| && Folding(r[..], was, j, b, w)
    modifies r
    ensures lost <= 1 && Value(r[..], 0, 2) + lost * Pow2(r.Length) == old(Value(r[..], 0, 2))
    ensures if stop then b >= w && Folding(r[..], was, j, b, w) else Folding(r[..], was, j, b + 1, w)
    ensures lost == 1 ==> b < w && !stop && ClearFrom(r[..], j + 1)
    ensures lost == 1 ==> b + 1 == w
    ensures old(ClearFrom(r[..], j + 1)) && b >= w ==> ClearFrom(r[..], j + 1)
    ensures was[r.Length - 1] == 0 ==> lost == 0
  {
    var m, p := Pow2(w - 1) - 1, Pow2(b);
    stop, lost := false, 0;
    if r[j] + r[j + b] * p <= m {
      FoldIn(r, j, b, w, p, was);
    } else {
      Largest(r[..], was, j, b, w);
      if r[j] - r[j + b] * p >= -m {
        lost := FoldOut(r, j, b, w, p, was);
      } else if r[j + b] != 0 {
        stop := true;
      }
    }
  }

  /**
   * The digit at the set bit j: the next w - 1 bits are folded into it, with a borrow from above if it would be too
   * large.
   */
  method FoldWindow(r: array<int>, j: nat, w: nat) returns (ghost lost: nat)
    requires 2 <= w <= 7 && j < r.Length && r[j] == 1 && Binary(r[..], j)
    modifies r
    ensures lost <= 1 && Value(r[..], 0, 2) + lost * Pow2(r.Length) == old(Value(r[..], 0, 2))
    ensures r[..j] == old(r[..j]) && Binary(r[..], j + 1) && r[j] != 0
    ensures WindowDigit(r[j], w) && Followed(r[..], j, w)
    ensures lost == 1 ==> ClearFrom(r[..], j + 1) && j + w <= r.Length
    ensures j + 1 == r.Length || old(r[r.Length - 1]) == 0 ==> lost == 0
  {
    ghost var was := r[..];
    Pow2Mono(1, w - 1);
    var b: nat, stop := 1, false;
    lost := 0;
    while !stop && b < r.Length - j && b <= 6
      invariant 1 <= b <= 7 && j + b <= r.Length
      invariant Folding(r[..], was, j, b, w)
      invariant stop ==> b >= w
      invariant lost <= 1 && Value(r[..], 0, 2) + lost * Pow2(r.Length) == old(Value(r[..], 0, 2))
      invariant lost == 1 ==> b >= w && ClearFrom(r[..], j + 1) && j + w <= r.Length
      invariant j + 1 == r.Length || was[r.Length - 1] == 0 ==> lost == 0
      decreases !stop, 7 - b
    {
      ghost var more;
      stop, more := FoldStep(r, j, b, w, was);
      lost := lost + more;
      if !stop {
        b := b + 1;
      }
    }
  }

  /**
   * The digits below j are final, those from j on are still bits, those from j up to q are zero,
   * and the final digits are at most 2^q below zero. If a carry was lost, no bits are left, and every digit has its
   * w - 1 zeros inside the array.
   */
  ghost predicate Recoded(d: seq<int>, j: nat, q: nat, w: nat, x: int, lost: nat)
    requires j <= |d| && 2 <= w
  {
    && lost <= 1 && Value(d, 0, 2) + lost * Pow2(|d|) == x && Binary(d, j) && j <= q && (lost == 1 ==> ClearFrom(d, j))
    && (forall i :: 0 <= i < j ==> WindowDigit(d[i], w) && Followed(d, i, w))
    && (lost == 1 ==> forall i :: 0 <= i < j && d[i] != 0 ==> i + w <= |d|)
    && (forall k :: j <= k < q && k < |d| ==> d[k] == 0)
    && Low(d, j, 2) + Pow2(q) >= 0
  }

  /** Below half the range the top digit is still zero whenever a window starts. */
  lemma {:induction false} TopClear(d: seq<int>, j: nat, q: nat, w: nat, x: int)
    requires 2 <= w && j + 1 < |d| && Recoded(d, j, q, w, x, 0) && d[j] == 1 && x < Pow2(|d| - 1)
    ensures d[|d| - 1] == 0
  {
    assert q == j;
    ValueSplit(d, j + 1, 2);
    PowTwo(j);
    PowTwo(j + 1);
    if d[|d| - 1] != 0 {
      SetBit(d, j + 1, |d| - 1);
    }
  }

  lemma {:induction false} SkipZero(d: seq<int>, j: nat, q: nat, w: nat, x: int, lost: nat)
    requires 2 <= w && j < |d| && Recoded(d, j, q, w, x, lost) && d[j] == 0
    ensures Recoded(d, j + 1, if q == j then j + 1 else q, w, x, lost)
  {
    assert Low(d, j + 1, 2) == Low(d, j, 2) + Pow(2, j) * 0;
  }

  lemma DigitWeight(p: nat, h: nat, d: int)
    requires 0 - h < d
    ensures p * d >= p - p * h
  {
    MulMono(p, 1 - h, d);
  }

  lemma {:induction false} WindowDone(d: seq<int>, e: seq<int>, j: nat, q: nat, w: nat, x: int, lost: nat)
    requires 2 <= w && j < |d| == |e| && Recoded(d, j, q, w, x, 0) && d[j] == 1
    requires e[..j] == d[..j] && Binary(e, j + 1) && lost <= 1 && Value(e, 0, 2) + lost * Pow2(|e|) == x
      && (lost == 1 ==> ClearFrom(e, j + 1) && j + w <= |e|)
    requires WindowDigit(e[j], w) && Followed(e, j, w) && e[j] != 0
    ensures Recoded(e, j + 1, j + (w - 1), w, x, lost)
  {
    forall i | 0 <= i < j ensures WindowDigit(e[i], w) && Followed(e, i, w) && (e[i] != 0 ==> i + w <= |e|) {
      assert e[..j][i] == d[..j][i];
      if e[i] != 0 {
        assert Followed(d, i, w) && i + w <= j;
        forall k | i < k < i + w && k < |e| ensures e[k] == 0 {
          assert e[..j][k] == d[..j][k];
        }
      }
    }
    LowSame(d, e, j, 2);
    PowTwo(j);
    DigitWeight(Pow2(j), Pow2(w - 1), e[j]);
    Pow2Add(j, w - 1);
  }

  /** One position of the window loop. */
  method SlideStep(r: array<int>, w: nat, j: nat, ghost q: nat, ghost x: int, ghost lost: nat) returns (ghost q': nat,
        ghost lost': nat)
    requires 2 <= w <= 7 && j < r.Length && Recoded(r[..], j, q, w, x, lost)
    modifies r
    ensures Recoded(r[..], j + 1, q', w, x, lost')
    ensures x < Pow2(r.Length - 1) && lost == 0 ==> lost' == 0
  {
    ghost var before := r[..];
    if r[j] != 0 {
      if j + 1 < r.Length && x < Pow2(r.Length - 1) {
        TopClear(before, j, q, w, x);
      }
      lost' := FoldWindow(r, j, w);
      WindowDone(before, r[..], j, q, w, x, lost');
      q' := j + (w - 1);
    } else {
      SkipZero(before, j, q, w, x, lost);
      q', lost' := if q == j then j + 1 else q, lost;
    }
  }

  /** Every digit is zero or odd and small, and followed by w - 1 zeros. */
  predicate Windowed(d: seq<int>, w: nat)
    requires w >= 1
  {
    forall i :: 0 <= i < |d| ==> WindowDigit(d[i], w) && Followed(d, i, w)
  }

  // ---- the form itself ----

  /** The residue of x modulo 2h that lies between -h and h. */
  function LeastResidue(x: int, h: nat): int
    requires h > 0
  {
    var r := x % (2 * h);
    if r < h then r else r - 2 * h
  }

  /** The digit that the windowed form of x begins with: 0 for an even x, the residue of least size for an odd one. */
  function Leading(x: int, w: nat): int
    requires w >= 1
  {
    if x % 2 == 0 then 0 else LeastResidue(x, Pow2(w - 1))
  }

  /** What n digits of the windowed form of x leave over. */
  function Beyond(x: int, n: nat, w: nat): int
    requires w >= 1
    decreases n
  {
    if n == 0 then x else Beyond((x - Leading(x, w)) / 2, n - 1, w)
  }

  lemma {:induction false} OverZeros(d: seq<int>, i: nat, e: nat)
    requires i <= e <= |d| && forall k :: i <= k < e ==> d[k] == 0
    ensures Value(d, i, 2) == Pow2(e - i) * Value(d, e, 2)
    decreases e - i
  {
    if i < e {
      OverZeros(d, i + 1, e);
      MulAssoc(2, Pow2(e - i - 1), Value(d, e, 2));
    }
  }

  /** What follows a digit and its zeros. */
  lemma {:induction false} AfterDigit(d: seq<int>, i: nat, w: nat) returns (t: int)
    requires w >= 1 && i < |d| && Windowed(d, w) && d[i] != 0
    ensures Value(d, i, 2) == d[i] + Pow2(w) * t
  {
    assert Followed(d, i, w);
    if i + w <= |d| {
      OverZeros(d, i + 1, i + w);
      t := Value(d, i + w, 2);
      MulAssoc(2, Pow2(w - 1), t);
    } else {
      OverZeros(d, i + 1, |d|);
      t := 0;
    }
  }

  lemma {:induction false} LeadingOf(x: int, w: nat, c: int, t: int)
    requires w >= 2 && c % 2 == 1 && 0 - Pow2(w - 1) < c < Pow2(w - 1) && x == c + Pow2(w) * t
    ensures Leading(x, w) == c
  {
    var h := Pow2(w - 1);
    ResidueOf(x, h, c, t);
    assert Pow2(w) * t == 2 * (h * t) by { MulAssoc(2, h, t); }
  }

  lemma ResidueOf(x: int, h: nat, c: int, t: int)
    requires 0 - h < c < h && x == c + (2 * h) * t
    ensures LeastResidue(x, h) == c
  {
    if c >= 0 {
      Bits.ModUnique(x, 2 * h, t, c);
    } else {
      assert (2 * h) * (t - 1) == (2 * h) * t - 2 * h;
      Bits.ModUnique(x, 2 * h, t - 1, c + 2 * h);
    }
  }

  lemma {:induction false} LeadingEven(x: int, w: nat, y: int)
    requires w >= 1 && x == 2 * y
    ensures Leading(x, w) == 0
  {
  }

  lemma {:induction false} LeadingDigit(d: seq<int>, i: nat, w: nat)
    requires w >= 2 && i < |d| && Windowed(d, w)
    ensures Leading(Value(d, i, 2), w) == d[i]
  {
    assert WindowDigit(d[i], w);
    if d[i] == 0 {
      LeadingEven(Value(d, i, 2), w, Value(d, i + 1, 2));
    } else {
      var t := AfterDigit(d, i, w);
      LeadingOf(Value(d, i, 2), w, d[i], t);
    }
  }

  lemma {:induction false} BeyondStep(x: int, n: nat, w: nat, c: int, y: int)
    requires w >= 1 && n > 0 && Leading(x, w) == c && x == c + 2 * y
    ensures Beyond(x, n, w) == Beyond(y, n - 1, w)
  {
    assert (x - c) / 2 == y;
  }

  /** The digits of a windowed form are those that its number begins with, one after the other. */
  lemma {:induction false} BeyondDigits(d: seq<int>, i: nat, n: nat, w: nat)
    requires w >= 2 && i + n <= |d| && Windowed(d, w)
    ensures Beyond(Value(d, i, 2), n, w) == Value(d, i + n, 2)
    decreases n
  {
    if n > 0 {
      LeadingDigit(d, i, w);
      BeyondStep(Value(d, i, 2), n, w, d[i], Value(d, i + 1, 2));
      BeyondDigits(d, i + 1, n - 1, w);
    }
  }

  /** A number has at most one windowed form of a given length. */
  lemma {:induction false} WindowedUnique(d: seq<int>, e: seq<int>, w: nat)
    requires w >= 2 && |d| == |e| && Windowed(d, w) && Windowed(e, w) && Value(d, 0, 2) == Value(e, 0, 2)
    ensures d == e
  {
    forall i | 0 <= i < |d| ensures d[i] == e[i] {
      BeyondDigits(d, 0, i, w);
      BeyondDigits(e, 0, i, w);
      LeadingDigit(d, i, w);
      LeadingDigit(e, i, w);
    }
  }

  /** The carry that is lost would be the next digit of the form. */
  lemma {:induction false} NextDigit(d: seq<int>, q: nat, w: nat, x: int, lost: nat)
    requires 2 <= w && Recoded(d, |d|, q, w, x, lost)
    ensures Windowed(d, w) && Windowed(d + [lost], w)
  {
    var e := d + [lost];
    Pow2Mono(1, w - 1);
    forall i | 0 <= i < |e| ensures WindowDigit(e[i], w) && Followed(e, i, w) {
      if i < |d| {
        assert WindowDigit(d[i], w) && Followed(d, i, w);
      }
    }
  }

  /** So it is what the array leaves over. */
  lemma {:induction false} LostIsBeyond(d: seq<int>, q: nat, w: nat, x: int, lost: nat)
    requires 2 <= w && Recoded(d, |d|, q, w, x, lost)
    ensures Windowed(d, w) && Beyond(x, |d|, w) == lost
  {
    NextDigit(d, q, w, x, lost);
    Appended(d, 0, lost);
    BeyondDigits(d + [lost], 0, |d|, w);
  }

  lemma {:induction false} Appended(d: seq<int>, i: nat, c: int)
    requires i <= |d|
    ensures Value(d + [c], i, 2) == Value(d, i, 2) + c * Pow2(|d| - i)
    decreases |d| - i
  {
    if i < |d| {
      Appended(d, i + 1, c);
      MulAssoc(c, 2, Pow2(|d| - i - 1));
      assert Pow2(|d| - i) == 2 * Pow2(|d| - i - 1);
    }
  }

  /** The window loop over a binary expansion, in place. */
  method Slide(r: array<int>, w: nat, ghost x: int)
    requires 2 <= w <= 7 && r.Length >= 1 && Binary(r[..], 0) && Value(r[..], 0, 2) == x
    modifies r
    ensures Windowed(r[..], w)
    ensures Beyond(x, r.Length, w) == 0 ==> Value(r[..], 0, 2) == x
    ensures Beyond(x, r.Length, w) != 0 ==> Value(r[..], 0, 2) == x - Pow2(r.Length)
    ensures x < Pow2(r.Length - 1) ==> Beyond(x, r.Length, w) == 0
  {
    ghost var q: nat, lost: nat := 0, 0;
    var j := 0;
    while j < r.Length
      invariant 0 <= j <= r.Length && Recoded(r[..], j, q, w, x, lost)
      invariant x < Pow2(r.Length - 1) ==> lost == 0
    {
      q, lost := SlideStep(r, w, j, q, x, lost);
      j := j + 1;
    }
    LostIsBeyond(r[..], q, w, x, lost);
  }

  /**
   * The signed sliding-window form of a scalar: each digit is zero or odd and below 2^(w-1) and followed by w - 1
   * zeros. The digits make up the scalar, less 2^256 exactly if the form of the scalar has one digit more, which only
   * happens from 2^255 on.
   */
  method SlidingWindow(r: array<int>, s: Limbs, w: nat)
    requires r.Length == 256 && 2 <= w <= 7 && Below256(s)
    modifies r
    ensures Windowed(r[..], w)
    ensures Beyond(Val(s), r.Length, w) == 0 ==> Value(r[..], 0, 2) == Val(s)
    ensures Beyond(Val(s), r.Length, w) != 0 ==> (Value(r[..], 0, 2)
      == Val(s) - 0x1_0000_0000_0000_0000_0000_0000_0000_0000_0000_0000_0000_0000_0000_0000_0000_0000)
    ensures Val(s) < 0x8000_0000_0000_0000_0000_0000_0000_0000_0000_0000_0000_0000_0000_0000_0000_0000 ==>
      Beyond(Val(s), r.Length, w) == 0
  {
    LimbPowers();
    Expand(r, s, 2, 56, 32);
    Pow2Of255(r.Length - 1);
    assert Pow2(r.Length) == 2 * Pow2(r.Length - 1);
    Slide(r, w, Val(s));
  }

  lemma {:induction false} PowerBeyond(n: nat, w: nat)
    requires w >= 1
    ensures Beyond(Pow2(n), n, w) == 1
  {
    if n > 0 {
      var x := Pow2(n - 1);
      assert Pow2(n) == 2 * x && Leading(2 * x, w) == 0;
      PowerBeyond(n - 1, w);
    }
  }

  /** For a scalar that is all ones the carry is lost. The source recodes no scalar from 2^255 on. */
  lemma {:induction false} AllOnesLost(n: nat, w: nat)
    requires 2 <= w <= n
    ensures Beyond(Pow2(n) - 1, n, w) == 1
  {
    Pow2Add(w, n - w);
    Pow2Mono(1, w - 1);
    LeadingOf(Pow2(n) - 1, w, -1, Pow2(n - w));
    assert Pow2(n) == 2 * Pow2(n - 1);
    PowerBeyond(n - 1, w);
  }

  // ---- window of four bits ----

  lemma CarryWeights(p: int, h: int, a: int, c: int, d: int)
    ensures (16 * p) * h + p * (a - 16 * c - d) + (16 * p) * c == p * (16 * h + a - d)
  {
  }

  /** Carrying h out of digit i in base 16, and c more on account. */
  lemma CarryDigit(d: seq<int>, i: nat, h: int, a: int, c: int)
    requires i + 1 < |d|
    ensures Value(d[i + 1 := d[i + 1] + h][i := a - 16 * c], 0, 16) + Pow(16, i + 1) * c
         == Value(d, 0, 16) + Pow(16, i) * (16 * h + a - d[i])
  {
    ValueUpdate(d, i + 1, d[i + 1] + h, 16);
    ValueUpdate(d[i + 1 := d[i + 1] + h], i, a - 16 * c, 16);
    CarryWeights(Pow(16, i), h, a, c, d[i]);
  }

  /** The signed base-16 form of a scalar: 63 digits from -8 to 7 and a top digit that absorbs the last carry. */
  method Window4(r: array<int>, s: Limbs)
    requires r.Length == 64 && Below256(s)
    modifies r
    ensures Value(r[..], 0, 16) == Val(s)
    ensures forall i :: 0 <= i < 63 ==> -8 <= r[i] < 8
    ensures 0 <= r[63] <= 16
      && (Val(s) < 0x8000_0000_0000_0000_0000_0000_0000_0000_0000_0000_0000_0000_0000_0000_0000_0000 ==> r[63] <= 8)
  {
    LimbPowers();
    Expand(r, s, 16, 14, 8);
    TopNibble(r[..]);
    SignDigits(r);
  }

  lemma TopNibble(d: seq<int>)
    requires |d| == 64 && DigitsBelow(d, 64, 16)
    ensures Value(d, 0, 16) < 0x8000_0000_0000_0000_0000_0000_0000_0000_0000_0000_0000_0000_0000_0000_0000_0000 ==>
      d[63] < 8
  {
    ValueSplit(d, 63, 16);
    LowNonNegative(d, 63, 16);
    if d[63] >= 8 {
      TopWeight(63, d[63]);
    }
    assert Value(d, 63, 16) == d[63];
  }

  lemma TopWeight(n: nat, t: int)
    requires n == 63 && t >= 8
    ensures Pow(16, n) * t >= 0x8000_0000_0000_0000_0000_0000_0000_0000_0000_0000_0000_0000_0000_0000_0000_0000
  {
    PowSixteen(n);
    var p := Pow2(4 * n);
    Pow2Of255(4 * n + 3);
    assert Pow2(4 * n + 3) == 2 * Pow2(4 * n + 2) == 4 * Pow2(4 * n + 1) == 8 * p;
    MulMono(p, 8, t);
  }

  lemma {:induction false} LowNonNegative(d: seq<int>, n: nat, b: nat)
    requires n <= |d| && DigitsBelow(d, n, b)
    ensures Low(d, n, b) >= 0
  {
    if n > 0 {
      LowNonNegative(d, n - 1, b);
      PowNonNegative(b, n - 1);
      MulMono(Pow(b, n - 1), 0, d[n - 1]);
    }
  }

  lemma {:induction false} PowNonNegative(b: nat, n: nat)
    ensures Pow(b, n) >= 0
  {
    if n > 0 {
      PowNonNegative(b, n - 1);
    }
  }

  method SignDigit(r: array<int>, i: nat, c: int) returns (carry: int)
    requires i + 1 < r.Length && 0 <= c && 0 <= r[i] && r[i] + c <= 16 && 0 <= r[i + 1] < 16
    modifies r
    ensures r[..i] == old(r[..i]) && r[i + 2..] == old(r[i + 2..])
    ensures -8 <= r[i] < 8 && (carry == 0 || carry == 1)
    ensures old(r[i + 1]) <= r[i + 1] && r[i + 1] + carry <= old(r[i + 1]) + 1
    ensures Value(r[..], 0, 16) + Pow(16, i + 1) * carry == old(Value(r[..], 0, 16)) + Pow(16, i) * c
  {
    ghost var before := r[..];
    r[i] := r[i] + c;
    ghost var t := r[i];
    r[i + 1] := r[i + 1] + r[i] / 16;
    r[i] := r[i] % 16;
    carry := r[i] / 8;
    CarryDigit(before, i, t / 16, t % 16, carry);
    r[i] := r[i] - carry * 16;
    assert r[..] == before[i + 1 := before[i + 1] + t / 16][i := t % 16 - 16 * carry];
  }

  method SignDigits(r: array<int>)
    requires r.Length == 64 && DigitsBelow(r[..], 64, 16)
    modifies r
    ensures Value(r[..], 0, 16) == old(Value(r[..], 0, 16))
    ensures forall i :: 0 <= i < 63 ==> -8 <= r[i] < 8
    ensures 0 <= r[63] <= old(r[63]) + 1
  {
    var carry, i := 0, 0;
    while i < 63
      invariant 0 <= i <= 63 && (carry == 0 || carry == 1)
      invariant forall k :: 0 <= k < i ==> -8 <= r[k] < 8
      invariant forall k :: i < k < 64 ==> r[k] == old(r[k])
      invariant old(r[i]) <= r[i] && r[i] + carry <= old(r[i]) + 1
      invariant Value(r[..], 0, 16) + Pow(16, i) * carry == old(Value(r[..], 0, 16))
    {
      carry := SignDigit(r, i, carry);
      i := i + 1;
    }
    ghost var before := r[..];
    ValueUpdate(before, 63, r[63] + carry, 16);
    r[63] := r[63] + carry;
    assert r[..] == before[63 := before[63] + carry];
  }
}
