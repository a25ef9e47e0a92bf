/** The bitwise operators on natural numbers, and the idioms the source builds from them. */
module Bits {
  import opened Powers
  import opened Words

  function And(a: nat, b: nat): nat {
    if a == 0 then 0 else (if a % 2 == 1 && b % 2 == 1 then 1 else 0) + 2 * And(a / 2, b / 2)
  }

  function Or(a: nat, b: nat): nat
    decreases a + b
  {
    if a == 0 && b == 0 then 0 else (if a % 2 == 1 || b % 2 == 1 then 1 else 0) + 2 * Or(a / 2, b / 2)
  }

  function Xor(a: nat, b: nat): nat
    decreases a + b
  {
    if a == 0 && b == 0 then 0 else (if a % 2 != b % 2 then 1 else 0) + 2 * Xor(a / 2, b / 2)
  }

  // ---- bit by bit ----

  lemma AndHalf(a: nat, b: nat)
    ensures And(a, b) / 2 == And(a / 2, b / 2) && And(a, b) % 2 == if a % 2 == 1 && b % 2 == 1 then 1 else 0
  {
  }

  lemma OrHalf(a: nat, b: nat)
    ensures Or(a, b) / 2 == Or(a / 2, b / 2) && Or(a, b) % 2 == if a % 2 == 1 || b % 2 == 1 then 1 else 0
  {
  }

  lemma XorHalf(a: nat, b: nat)
    ensures Xor(a, b) / 2 == Xor(a / 2, b / 2) && Xor(a, b) % 2 == if a % 2 != b % 2 then 1 else 0
  {
  }

  lemma HalvesEqual(a: nat, b: nat)
    requires a / 2 == b / 2 && a % 2 == b % 2
    ensures a == b
  {
  }

  // ---- identities ----

  lemma {:induction false} XorZero(a: nat, b: nat)
    ensures Xor(a, b) == 0 <==> a == b
    decreases a + b
  {
    if a != 0 || b != 0 {
      XorZero(a / 2, b / 2);
    }
  }

  lemma {:induction false} XorTwice(a: nat, b: nat)
    ensures Xor(a, Xor(a, b)) == b
    decreases a + b
  {
    if a != 0 || b != 0 {
      XorTwice(a / 2, b / 2);
    }
  }

  lemma {:induction false} XorNothing(a: nat)
    ensures Xor(a, 0) == a && Xor(0, a) == a
  {
    if a != 0 {
      XorNothing(a / 2);
    }
  }

  lemma {:induction false} XorBound(a: nat, b: nat, n: nat)
    requires a < Pow2(n) && b < Pow2(n)
    ensures Xor(a, b) < Pow2(n)
  {
    if n > 0 {
      XorBound(a / 2, b / 2, n - 1);
    }
  }

  lemma HalfSum(low: nat, u: nat)
    ensures (low + 2 * u) / 2 == low / 2 + u && (low + 2 * u) % 2 == low % 2
  {
  }

  lemma Halved(p: int, h: int, a: int)
    requires p == 2 * h
    ensures p * a == 2 * (h * a)
  {
  }

  lemma XorFrom(x: nat, y: nat, r: nat)
    requires y % 2 == 0 && Xor(x / 2, y / 2) == r / 2 && r % 2 == x % 2
    ensures Xor(x, y) == r
  {
    XorHalf(x, y);
    HalvesEqual(Xor(x, y), r);
  }

  lemma OrFrom(x: nat, y: nat, r: nat)
    requires y % 2 == 0 && Or(x / 2, y / 2) == r / 2 && r % 2 == x % 2
    ensures Or(x, y) == r
  {
    OrHalf(x, y);
    HalvesEqual(Or(x, y), r);
  }

  lemma {:induction false} XorDisjoint(low: nat, high: nat, n: nat)
    requires low < Pow2(n)
    ensures Xor(low, Pow2(n) * high) == low + Pow2(n) * high
    decreases n
  {
    if n == 0 {
      XorNothing(high);
    } else {
      var b := Pow2(n - 1) * high;
      Halved(Pow2(n), Pow2(n - 1), high);
      XorDisjoint(low / 2, high, n - 1);
      HalfSum(low, b);
      HalfSum(0, b);
      XorFrom(low, 2 * b, low + 2 * b);
    }
  }

  lemma OrDouble(low: nat, u: nat, v: nat, w: nat, x: nat, y: nat, r: nat)
    requires Or(low / 2 + u, v) == low / 2 + w && x == low + 2 * u && y == 2 * v && r == low + 2 * w
    ensures Or(x, y) == r
  {
    HalfSum(low, u);
    HalfSum(0, v);
    HalfSum(low, w);
    OrFrom(x, y, r);
  }

  lemma {:induction false} OrShifted(low: nat, a: nat, b: nat, c: nat, n: nat, p: nat)
    requires p == Pow2(n) && low < p && Or(a, b) == c
    ensures Or(low + Shl(a, n), Shl(b, n)) == low + Shl(c, n)
    decreases n
  {
    if n > 0 {
      OrShifted(low / 2, a, b, c, n - 1, p / 2);
      OrDouble(low, Shl(a, n - 1), Shl(b, n - 1), Shl(c, n - 1), low + Shl(a, n), Shl(b, n), low + Shl(c, n));
    }
  }

  /** The bits below n and those from n on go separately, for p = 2^n. */
  lemma OrSplit(low: nat, a: nat, b: nat, c: nat, n: nat, p: nat, x: nat, y: nat, r: nat)
    requires p == Pow2(n) && low < p && Or(a, b) == c && x == low + p * a && y == p * b && r == low + p * c
    ensures Or(x, y) == r
  {
    OrShifted(low, a, b, c, n, p);
    ShlValue(a, n);
    ShlValue(b, n);
    ShlValue(c, n);
  }

  lemma {:induction false} OrZero(a: nat, b: nat)
    ensures Or(a, b) == 0 <==> a == 0 && b == 0
    decreases a + b
  {
    if a != 0 || b != 0 {
      OrZero(a / 2, b / 2);
    }
  }

  lemma {:induction false} OrBound(a: nat, b: nat, n: nat)
    requires a < Pow2(n) && b < Pow2(n)
    ensures Or(a, b) < Pow2(n)
  {
    if n > 0 {
      OrBound(a / 2, b / 2, n - 1);
    }
  }

  /** Parts that share no bit add up. */
  lemma OrDisjoint(low: nat, high: nat, n: nat)
    requires low < Pow2(n)
    ensures Or(low, Pow2(n) * high) == low + Pow2(n) * high
  {
    OrNothing(high);
    OrSplit(low, 0, high, high, n, Pow2(n), low, Pow2(n) * high, low + Pow2(n) * high);
  }

  lemma {:induction false} OrNothing(a: nat)
    ensures Or(0, a) == a && Or(a, 0) == a
  {
    if a != 0 {
      OrNothing(a / 2);
    }
  }

  /** x & (2^n - 1) */
  lemma AndFrom(x: nat, m: nat, r: nat)
    requires m % 2 == 1 && And(x / 2, m / 2) == r / 2 && And(m / 2, x / 2) == r / 2 && r % 2 == x % 2
    ensures And(x, m) == r && And(m, x) == r
  {
    AndHalf(x, m);
    AndHalf(m, x);
    HalvesEqual(And(x, m), r);
    HalvesEqual(And(m, x), r);
  }

  lemma OddHalf(h: nat)
    requires h >= 1
    ensures (2 * h - 1) / 2 == h - 1 && (2 * h - 1) % 2 == 1
  {
  }

  lemma {:induction false} MaskStep(x: nat, h: nat, m: nat)
    requires h >= 1 && And(x / 2, h - 1) == m && And(h - 1, x / 2) == m
    ensures And(x, 2 * h - 1) == x % 2 + 2 * m && And(2 * h - 1, x) == x % 2 + 2 * m
  {
    HalfSum(x % 2, m);
    OddHalf(h);
    AndFrom(x, 2 * h - 1, x % 2 + 2 * m);
  }

  lemma {:induction false} AndMask(x: nat, n: nat)
    ensures And(x, Pow2(n) - 1) == x % Pow2(n)
    ensures And(Pow2(n) - 1, x) == x % Pow2(n)
    decreases n
  {
    if n == 0 {
      AndNothing(x);
    } else {
      var h := Pow2(n - 1);
      AndMask(x / 2, n - 1);
      MaskStep(x, h, (x / 2) % h);
      HalfMod(x, h);
    }
  }

  lemma AllMask(x: nat, m: nat, n: nat)
    requires m == Pow2(n) - 1 && x <= m
    ensures And(x, m) == x
  {
    AndMask(x, n);
    ModUnique(x, Pow2(n), 0, x);
  }

  ghost function Shl(m: nat, n: nat): nat {
    if n == 0 then m else 2 * Shl(m, n - 1)
  }

  ghost function Shr(x: nat, n: nat): nat {
    if n == 0 then x else Shr(x / 2, n - 1)
  }

  /** A mask whose low n bits are clear looks only at what is above them. */
  lemma {:induction false} AndAbove(x: nat, m: nat, n: nat)
    ensures And(x, Shl(m, n)) == Shl(And(Shr(x, n), m), n)
    decreases n
  {
    if n > 0 {
      AndAbove(x / 2, m, n - 1);
      if x == 0 {
        ShlZero(n);
        ShrZero(n);
      }
    }
  }

  lemma {:induction false} ShlZero(n: nat)
    ensures Shl(0, n) == 0
  {
    if n > 0 {
      ShlZero(n - 1);
    }
  }

  lemma {:induction false} ShrZero(n: nat)
    ensures Shr(0, n) == 0
  {
    if n > 0 {
      ShrZero(n - 1);
    }
  }

  lemma {:induction false} ShlValue(m: nat, n: nat)
    ensures Shl(m, n) == Pow2(n) * m
  {
    if n > 0 {
      ShlValue(m, n - 1);
      MulAssoc(2, Pow2(n - 1), m);
    }
  }

  lemma {:induction false} ShrValue(x: nat, n: nat)
    ensures Shr(x, n) == x / Pow2(n)
    decreases n
  {
    if n > 0 {
      ShrValue(x / 2, n - 1);
      HalfDivide(x, Pow2(n - 1));
    }
  }

  lemma HalfDivide(x: nat, h: nat)
    requires h >= 1
    ensures x / 2 / h == x / (2 * h)
  {
    var q := x / 2 / h;
    assert x == 2 * (h * q + (x / 2) % h) + x % 2;
    MulAssoc(2, h, q);
    ModUnique(x, 2 * h, q, 2 * ((x / 2) % h) + x % 2);
  }

  lemma AndNothing(a: nat)
    ensures And(0, a) == 0 && And(a, 0) == 0
  {
  }

  lemma HalfMod(x: nat, w: nat)
    requires w >= 1
    ensures x % (2 * w) == x % 2 + 2 * ((x / 2) % w)
  {
    var q, r := (x / 2) / w, (x / 2) % w;
    assert x / 2 == w * q + r;
    assert x == (2 * w) * q + (x % 2 + 2 * r);
    ModUnique(x, 2 * w, q, x % 2 + 2 * r);
  }

  lemma ModUnique(x: int, w: int, q: int, r: int)
    requires 0 <= r < w && x == w * q + r
    ensures x % w == r && x / w == q
  {
    var q', r' := x / w, x % w;
    assert w * (q - q') == r' - r;
    SmallMultiple(w, q - q');
  }

  lemma QuotientBound(x: nat, p: nat, q: nat)
    requires p >= 1 && x < p * q
    ensures x / p < q
  {
    if x / p >= q {
      MulMono(p, q, x / p);
    }
  }

  lemma SmallMultiple(w: int, d: int)
    requires -w < w * d < w
    ensures d == 0
  {
  }

  /** r ^= mask & (r ^ t): keeps r for mask 0 and takes t for the all-ones mask 2^n - 1. */
  lemma Select(r: nat, t: nat, n: nat)
    requires r < Pow2(n) && t < Pow2(n)
    ensures Xor(r, And(0, Xor(r, t))) == r
    ensures Xor(r, And(Pow2(n) - 1, Xor(r, t))) == t
  {
    AndNothing(Xor(r, t));
    XorNothing(r);
    XorBound(r, t, n);
    AndMask(Xor(r, t), n);
    ModUnique(Xor(r, t), Pow2(n), 0, Xor(r, t));
    XorTwice(r, t);
  }

  /** lo | (hi << n) in a uint64_t, for w = 2^n: below bit n there is only lo, from bit n on only hi. */
  method OrShl(lo: nat, hi: nat, n: nat, w: nat) returns (r: nat)
    requires n <= 63 && w == Pow2(n) && lo < w
    ensures r == lo + U64(hi * w)
  {
    ShiftedWord(hi, n);
    OrDisjoint(lo, hi % Pow2(64 - n), n);
    r := Or(lo, U64(hi * w));
  }

  /** The bits that stay of hi << n are the low 64 - n bits of hi. */
  lemma ShiftedWord(hi: nat, n: nat)
    requires n <= 63
    ensures U64(hi * Pow2(n)) == Pow2(n) * (hi % Pow2(64 - n))
  {
    Pow2Add(n, 64 - n);
    Pow2Of64();
    ShiftMod(hi, Pow2(n), Pow2(64 - n));
  }

  lemma ShiftMod(x: nat, w: nat, v: nat)
    requires w >= 1 && v >= 1
    ensures w * v >= 1 && (x * w) % (w * v) == w * (x % v)
  {
    var q, r := x / v, x % v;
    assert x == v * q + r;
    calc {
      x * w;
      (v * q + r) * w;
      (v * q) * w + r * w;
      { MulAssoc(w, v, q); }
      (w * v) * q + w * r;
    }
    MulBounds(w, r, w, v - 1);
    assert w * (v - 1) == w * v - w;
    ModUnique(x * w, w * v, q, w * r);
  }

  lemma Pow2Of64()
    ensures Pow2(64) == 0x1_0000_0000_0000_0000
  {
    assert Pow2(8) == 0x100;
    Pow2Twice(8, 0x100);
    Pow2Twice(16, 0x1_0000);
    Pow2Twice(32, 0x1_0000_0000);
  }
}
