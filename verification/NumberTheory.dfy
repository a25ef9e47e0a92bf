/** Primes: Euclid's lemma and Fermat's little theorem. */
module NumberTheory {
  import opened Powers
  import Bits

  ghost predicate Divisor(m: nat, d: nat)
    requires d >= 1
  {
    m % d == 0
  }

  ghost predicate Prime(m: nat) {
    m > 1 && forall d: nat :: 1 < d < m ==> !Divisor(m, d)
  }

  /** A prime has no factors but 1 and itself. */
  lemma PrimeExactly(m: nat)
    ensures Prime(m) <==> m > 1 && forall d: nat, q: nat :: m == d * q ==> d == 1 || q == 1
  {
    if Prime(m) {
      forall d: nat, q: nat | m == d * q ensures d == 1 || q == 1 {
        ProperFactor(m, d, q);
      }
    }
    if m > 1 && forall d: nat, q: nat :: m == d * q ==> d == 1 || q == 1 {
      forall d: nat | 1 < d < m ensures !Divisor(m, d) {
        OtherFactor(m, d);
      }
    }
  }

  lemma ProperFactor(m: nat, d: nat, q: nat)
    requires m > 1 && m == d * q
    ensures d == 1 || q == 1 || (1 < d < m && Divisor(m, d))
  {
    if d != 1 && q != 1 {
      assert d != 0 && q != 0;
      MulMono(d, 2, q);
      Bits.ModUnique(m, d, q, 0);
    }
  }

  lemma OtherFactor(m: nat, d: nat)
    requires 1 < d < m
    ensures Divisor(m, d) ==> exists q: nat :: m == d * q && q != 1
  {
    if Divisor(m, d) {
      assert m == d * (m / d);
    }
  }

  /** x is a multiple of p. */
  ghost predicate Multiple(x: int, p: nat) {
    exists k: int :: x == k * p
  }

  lemma MultipleBy(x: int, k: int, p: nat)
    requires x == k * p
    ensures Multiple(x, p)
  {
  }

  lemma MultipleSum(x: int, y: int, p: nat)
    requires Multiple(x, p) && Multiple(y, p)
    ensures Multiple(x + y, p) && Multiple(x - y, p)
  {
    var k: int :| x == k * p;
    var l: int :| y == l * p;
    MultipleBy(x + y, k + l, p);
    MultipleBy(x - y, k - l, p);
  }

  lemma MultipleTimes(x: int, c: int, p: nat)
    requires Multiple(x, p)
    ensures Multiple(c * x, p)
  {
    var k: int :| x == k * p;
    MulAssoc(c, k, p);
    MultipleBy(c * x, c * k, p);
  }

  // ---- Euclid ----

  lemma DividesRemainder(d: nat, a: nat, b: nat, k: int, l: int, q: int)
    requires a >= 1 && a == k * d && b % a == l * d && q == b / a
    ensures b == (q * k + l) * d
  {
    assert b == q * a + b % a;
    MulAssoc(q, k, d);
  }

  /** A common divisor of a and b as a combination of them. */
  lemma {:induction false} Bezout(a: nat, b: nat) returns (d: nat, u: int, v: int, k: int, l: int)
    requires a >= 1
    ensures d >= 1 && d == u * a + v * b && a == k * d && b == l * d
    decreases a
  {
    var q := b / a;
    if b % a == 0 {
      d, u, v, k, l := a, 1, 0, 1, q;
    } else {
      var u', v', k', l';
      d, u', v', k', l' := Bezout(b % a, a);
      // d = u' (b - q a) + v' a
      u, v, k := v' - u' * q, u', l';
      DividesRemainder(d, a, b, l', k', q);
      l := q * l' + k';
      Recombine(u', v', q, a, b, d);
    }
  }

  lemma Recombine(u: int, v: int, q: int, a: int, b: int, d: int)
    requires d == u * (b - q * a) + v * a
    ensures d == (v - u * q) * a + u * b
  {
    MulAssoc(u, q, a);
  }

  lemma DivisorSize(a: nat, d: nat, k: int)
    requires a >= 1 && d >= 1 && a == k * d
    ensures d <= a && a % d == 0
  {
    if k <= 0 {
      MulMono(d, k, 0);
    }
    MulMono(d, 1, k);
    Bits.ModUnique(a, d, k, 0);
  }

  /** Euclid's lemma: a prime that divides a product divides a factor. */
  lemma Euclid(a: nat, b: int, p: nat)
    requires Prime(p) && 0 < a < p && Multiple(a * b, p)
    ensures Multiple(b, p)
  {
    var d, u, v, k, l := Bezout(a, p);
    DivisorSize(a, d, k);
    DivisorSize(p, d, l);
    assert Divisor(p, d);
    var n: int :| a * b == n * p;
    UnitCombination(u, v, a, b, p, n);
    MultipleBy(b, u * n + v * b, p);
  }

  lemma UnitCombination(u: int, v: int, a: int, b: int, p: int, n: int)
    requires 1 == u * a + v * p && a * b == n * p
    ensures b == (u * n + v * b) * p
  {
    calc {
      b;
      (u * a + v * p) * b;
      (u * a) * b + (v * p) * b;
      { MulAssoc(u, a, b); MulAssoc(v, p, b); }
      u * (a * b) + v * (p * b);
      { MulAssoc(u, n, p); MulAssoc(v, b, p); }
      (u * n) * p + (v * b) * p;
    }
  }

  // ---- binomial coefficients ----

  ghost function Binomial(n: nat, k: nat): nat {
    if k == 0 then 1 else if n == 0 then 0 else Binomial(n - 1, k - 1) + Binomial(n - 1, k)
  }

  lemma {:induction false} BinomialTop(n: nat, k: nat)
    requires k > n
    ensures Binomial(n, k) == 0
  {
    if n > 0 {
      BinomialTop(n - 1, k - 1);
      BinomialTop(n - 1, k);
    }
  }

  lemma {:induction false} BinomialSelf(n: nat)
    ensures Binomial(n, n) == 1
  {
    if n > 0 {
      BinomialSelf(n - 1);
      BinomialTop(n - 1, n);
    }
  }

  /** k C(n, k) = n C(n - 1, k - 1) */
  lemma {:induction false} Absorption(n: nat, k: nat)
    requires n >= 1 && k >= 1
    ensures k * Binomial(n, k) == n * Binomial(n - 1, k - 1)
  {
    if n == 1 {
      if k > 1 {
        BinomialTop(1, k);
        BinomialTop(0, k - 1);
      }
    } else if k == 1 {
      Absorption(n - 1, 1);
      assert Binomial(n, 1) == Binomial(n - 1, 0) + Binomial(n - 1, 1);
    } else {
      Absorption(n - 1, k);
      Absorption(n - 1, k - 1);
      AbsorptionStep(n, k, Binomial(n - 1, k), Binomial(n - 1, k - 1), Binomial(n - 2, k - 1), Binomial(n - 2, k - 2));
    }
  }

  lemma AbsorptionStep(n: int, k: int, a: int, b: int, c: int, d: int)
    requires k * a == (n - 1) * c && (k - 1) * b == (n - 1) * d && b == d + c
    ensures k * (b + a) == n * b
  {
    assert k * (b + a) == (k - 1) * b + b + k * a;
    assert (n - 1) * d + (n - 1) * c == (n - 1) * b;
  }

  lemma PrimeBinomial(p: nat, k: nat)
    requires Prime(p) && 0 < k < p
    ensures Multiple(Binomial(p, k), p)
  {
    Absorption(p, k);
    MultipleBy(k * Binomial(p, k), Binomial(p - 1, k - 1), p);
    Euclid(k, Binomial(p, k), p);
  }

  /** C(n, 0) + C(n, 1) a + ... + C(n, m - 1) a^(m - 1) */
  ghost function Expansion(n: nat, a: int, m: nat): int {
    if m == 0 then 0 else Expansion(n, a, m - 1) + Binomial(n, m - 1) * Pow(a, m - 1)
  }

  lemma {:induction false} ExpansionStep(n: nat, a: int, m: nat)
    ensures Expansion(n + 1, a, m + 1) == Expansion(n, a, m + 1) + a * Expansion(n, a, m)
  {
    if m == 0 {
      assert Expansion(n + 1, a, 1) == Expansion(n + 1, a, 0) + Binomial(n + 1, 0) * Pow(a, 0);
      assert Expansion(n, a, 1) == Expansion(n, a, 0) + Binomial(n, 0) * Pow(a, 0);
    } else {
      ExpansionStep(n, a, m - 1);
      ExpansionTerm(Expansion(n, a, m), Expansion(n, a, m - 1), a, Binomial(n, m - 1), Binomial(n, m), Pow(a, m - 1));
    }
  }

  lemma ExpansionTerm(x: int, y: int, a: int, b: int, c: int, q: int)
    ensures (x + a * y) + (b + c) * (a * q) == (x + c * (a * q)) + a * (y + b * q)
  {
    MulAssoc(b, a, q);
    MulAssoc(a, b, q);
  }

  lemma {:induction false} ExpansionPast(n: nat, a: int, m: nat)
    requires m >= n + 1
    ensures Expansion(n, a, m) == Expansion(n, a, n + 1)
  {
    if m > n + 1 {
      ExpansionPast(n, a, m - 1);
      BinomialTop(n, m - 1);
      ZeroTerm(Expansion(n, a, m - 1), Binomial(n, m - 1), Pow(a, m - 1));
    }
  }

  lemma ZeroTerm(x: int, b: int, q: int)
    requires b == 0
    ensures x + b * q == x
  {
  }

  lemma OneMore(a: int, q: int)
    ensures q + a * q == (1 + a) * q
  {
  }

  /** The binomial theorem. */
  lemma {:induction false} BinomialTheorem(n: nat, a: int)
    ensures Expansion(n, a, n + 1) == Pow(1 + a, n)
  {
    if n == 0 {
      assert Expansion(0, a, 1) == Expansion(0, a, 0) + Binomial(0, 0) * Pow(a, 0);
    } else {
      BinomialTheorem(n - 1, a);
      ExpansionStep(n - 1, a, n);
      ExpansionPast(n - 1, a, n + 1);
      OneMore(a, Pow(1 + a, n - 1));
    }
  }

  /** Modulo p only the ends of the expansion remain. */
  lemma {:induction false} MiddleVanishes(p: nat, a: int, m: nat)
    requires Prime(p) && 1 <= m <= p
    ensures Multiple(Expansion(p, a, m) - 1, p)
  {
    if m == 1 {
      assert Expansion(p, a, 1) == Expansion(p, a, 0) + Binomial(p, 0) * Pow(a, 0);
      MultipleBy(0, 0, p);
    } else {
      MiddleVanishes(p, a, m - 1);
      PrimeBinomial(p, m - 1);
      MultipleTimes(Binomial(p, m - 1), Pow(a, m - 1), p);
      MultipleSum(Expansion(p, a, m - 1) - 1, Pow(a, m - 1) * Binomial(p, m - 1), p);
    }
  }

  /** (1 + a)^p = 1 + a^p modulo p */
  lemma FreshmansDream(p: nat, a: int)
    requires Prime(p)
    ensures Multiple(Pow(1 + a, p) - 1 - Pow(a, p), p)
  {
    BinomialTheorem(p, a);
    MiddleVanishes(p, a, p);
    BinomialSelf(p);
    assert Expansion(p, a, p + 1) == Expansion(p, a, p) + Binomial(p, p) * Pow(a, p);
  }

  /** a^p = a modulo p */
  lemma {:induction false} FermatPower(p: nat, a: nat)
    requires Prime(p)
    ensures Multiple(Pow(a, p) - a, p)
  {
    if a == 0 {
      assert Pow(0, p) == 0 * Pow(0, p - 1);
      MultipleBy(0, 0, p);
    } else {
      FermatPower(p, a - 1);
      FreshmansDream(p, a - 1);
      MultipleSum(Pow(a, p) - 1 - Pow(a - 1, p), Pow(a - 1, p) - (a - 1), p);
    }
  }

  /** a^(p-1) = 1 modulo p, for a that p does not divide */
  lemma FermatLittle(p: nat, a: nat)
    requires Prime(p) && 0 < a < p
    ensures Multiple(Pow(a, p - 1) - 1, p)
  {
    FermatPower(p, a);
    assert a * (Pow(a, p - 1) - 1) == Pow(a, p) - a;
    Euclid(a, Pow(a, p - 1) - 1, p);
  }
}
