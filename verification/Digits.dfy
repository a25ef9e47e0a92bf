/** Numbers written as signed digits, least significant first. */
module Digits {
  import opened Powers

  /** d[i] + b d[i+1] + b^2 d[i+2] + ... */
  function Value(d: seq<int>, i: nat, b: int): int
    decreases |d| - i
  {
    if i >= |d| then 0 else d[i] + b * Value(d, i + 1, b)
  }

  /** d[0] + b d[1] + ... + b^(n-1) d[n-1] */
  function Low(d: seq<int>, n: nat, b: int): int
    requires n <= |d|
  {
    if n == 0 then 0 else Low(d, n - 1, b) + Pow(b, n - 1) * d[n - 1]
  }

  lemma {:induction false} LowSame(d: seq<int>, e: seq<int>, n: nat, b: int)
    requires n <= |d| && n <= |e| && d[..n] == e[..n]
    ensures Low(d, n, b) == Low(e, n, b)
  {
    if n > 0 {
      assert d[..n][..n - 1] == d[..n - 1] && e[..n][..n - 1] == e[..n - 1];
      assert d[..n][n - 1] == d[n - 1] && e[..n][n - 1] == e[n - 1];
      LowSame(d, e, n - 1, b);
    }
  }

  lemma {:induction false} ValueSame(d: seq<int>, e: seq<int>, i: nat, b: int)
    requires |d| == |e| && forall k :: i <= k < |d| ==> d[k] == e[k]
    ensures Value(d, i, b) == Value(e, i, b)
    decreases |d| - i
  {
    if i < |d| {
      ValueSame(d, e, i + 1, b);
    }
  }

  lemma OneMoreDigit(p: int, x: int, b: int, v: int)
    ensures p * (x + b * v) == p * x + (b * p) * v
  {
    MulAssoc(b, p, v);
    MulAssoc(p, b, v);
  }

  /** The digits below n and those from n on make up the number. */
  lemma {:induction false} ValueSplit(d: seq<int>, n: nat, b: int)
    requires n <= |d|
    ensures Value(d, 0, b) == Low(d, n, b) + Pow(b, n) * Value(d, n, b)
  {
    if n > 0 {
      ValueSplit(d, n - 1, b);
      OneMoreDigit(Pow(b, n - 1), d[n - 1], b, Value(d, n, b));
    }
  }

  /** Changing one digit. */
  lemma {:induction false} ValueUpdate(d: seq<int>, k: nat, v: int, b: int)
    requires k < |d|
    ensures Value(d[k := v], 0, b) == Value(d, 0, b) + Pow(b, k) * (v - d[k])
  {
    var e := d[k := v];
    ValueSplit(d, k, b);
    ValueSplit(e, k, b);
    assert e[..k] == d[..k];
    LowSame(d, e, k, b);
    ValueSame(d, e, k + 1, b);
    var p, w := Pow(b, k), b * Value(d, k + 1, b);
    assert p * (v + w) == p * (d[k] + w) + p * (v - d[k]);
  }

  lemma {:induction false} PowTwo(n: nat)
    ensures Pow(2, n) == Pow2(n)
  {
    if n > 0 {
      PowTwo(n - 1);
    }
  }

  predicate Binary(d: seq<int>, i: nat) {
    forall k :: i <= k < |d| ==> d[k] == 0 || d[k] == 1
  }

  /** A set bit bounds the number from below. */
  lemma {:induction false} SetBit(d: seq<int>, i: nat, k: nat)
    requires i <= k < |d| && Binary(d, i) && d[k] == 1
    ensures Pow2(i) * Value(d, i, 2) >= Pow2(k)
    decreases |d| - i
  {
    if i == k {
      NonNegative(d, k + 1);
      MulMono(Pow2(i), 1, Value(d, i, 2));
    } else {
      SetBit(d, i + 1, k);
      var v := Value(d, i + 1, 2);
      assert Pow2(i + 1) * v == Pow2(i) * (2 * v) by { MulAssoc(Pow2(i), 2, v); }
      MulMono(Pow2(i), 2 * v, Value(d, i, 2));
    }
  }

  lemma {:induction false} NonNegative(d: seq<int>, i: nat)
    requires Binary(d, i)
    ensures Value(d, i, 2) >= 0
    decreases |d| - i
  {
    if i < |d| {
      NonNegative(d, i + 1);
    }
  }
}
