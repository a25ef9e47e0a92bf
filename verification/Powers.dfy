/** Integer powers. */
module Powers {

  function Pow(b: int, e: nat): int {
    if e == 0 then 1 else b * Pow(b, e - 1)
  }

  function Pow2(n: nat): (r: nat)
    ensures r >= 1
  {
    if n == 0 then 1 else 2 * Pow2(n - 1)
  }

  lemma {:induction false} PowAdd(b: int, e: nat, f: nat)
    ensures Pow(b, e + f) == Pow(b, e) * Pow(b, f)
  {
    if e > 0 {
      PowAdd(b, e - 1, f);
      MulAssoc(b, Pow(b, e - 1), Pow(b, f));
    }
  }

  lemma {:induction false} PowTimes(b: int, e: nat, f: nat)
    ensures 0 <= e * f && Pow(Pow(b, e), f) == Pow(b, e * f)
  {
    if f > 0 {
      PowTimes(b, e, f - 1);
      assert e * f == e + e * (f - 1);
      PowAdd(b, e, e * (f - 1));
    }
  }

  lemma {:induction false} PowProduct(a: int, b: int, e: nat)
    ensures Pow(a * b, e) == Pow(a, e) * Pow(b, e)
  {
    if e > 0 {
      PowProduct(a, b, e - 1);
      MulSwap(a, b, Pow(a, e - 1), Pow(b, e - 1));
    }
  }

  lemma {:induction false} PowOne(e: nat)
    ensures Pow(1, e) == 1
  {
    if e > 0 {
      PowOne(e - 1);
    }
  }

  lemma {:induction false} Pow2Add(m: nat, n: nat)
    ensures Pow2(m + n) == Pow2(m) * Pow2(n)
  {
    if m > 0 {
      Pow2Add(m - 1, n);
      MulAssoc(2, Pow2(m - 1), Pow2(n));
    }
  }

  lemma {:induction false} Pow2Mono(m: nat, n: nat)
    requires m <= n
    ensures Pow2(m) <= Pow2(n)
    decreases n
  {
    if m < n {
      Pow2Mono(m, n - 1);
    }
  }

  lemma MulAssoc(a: int, b: int, c: int)
    ensures (a * b) * c == a * (b * c)
  {
  }

  lemma MulMono(p: int, a: int, b: int)
    requires p >= 0 && a <= b
    ensures p * a <= p * b
  {
  }

  lemma MulSwap(a: int, b: int, x: int, y: int)
    ensures (a * b) * (x * y) == (a * x) * (b * y)
  {
    calc {
      (a * b) * (x * y);
      { MulAssoc(a, b, x * y); }
      a * (b * (x * y));
      { MulAssoc(b, x, y); }
      a * ((b * x) * y);
      a * (x * (b * y));
      { MulAssoc(a, x, b * y); }
      (a * x) * (b * y);
    }
  }

  lemma PowExpOne(b: int)
    ensures Pow(b, 1) == b
  {
    assert Pow(b, 1) == b * Pow(b, 0);
  }

  lemma Pow2Twice(n: nat, w: nat)
    requires Pow2(n) == w
    ensures Pow2(2 * n) == w * w
  {
    Pow2Add(n, n);
  }

  lemma Pow2Sum(m: nat, v: nat, n: nat, w: nat)
    requires Pow2(m) == v && Pow2(n) == w
    ensures Pow2(m + n) == v * w
  {
    Pow2Add(m, n);
  }

  /** The shift distances of the source. */
  lemma Pow2Table()
    ensures Pow2(8) == 0x100 && Pow2(12) == 0x1000 && Pow2(13) == 0x2000 && Pow2(16) == 0x1_0000
    ensures Pow2(24) == 0x100_0000 && Pow2(25) == 0x200_0000 && Pow2(26) == 0x400_0000 && Pow2(32) == 0x1_0000_0000
    ensures Pow2(38) == 0x40_0000_0000 && Pow2(39) == 0x80_0000_0000 && Pow2(40) == 0x100_0000_0000
    ensures Pow2(48) == 0x1_0000_0000_0000 && Pow2(51) == 0x8_0000_0000_0000 && Pow2(56) == 0x100_0000_0000_0000
  {
    Pow2Sum(8, 0x100, 4, 0x10);
    Pow2Sum(8, 0x100, 5, 0x20);
    Pow2Sum(8, 0x100, 8, 0x100);
    Pow2Sum(12, 0x1000, 12, 0x1000);
    Pow2Sum(12, 0x1000, 13, 0x2000);
    Pow2Sum(13, 0x2000, 13, 0x2000);
    Pow2Sum(16, 0x1_0000, 16, 0x1_0000);
    Pow2Sum(25, 0x200_0000, 13, 0x2000);
    Pow2Sum(26, 0x400_0000, 13, 0x2000);
    Pow2Sum(24, 0x100_0000, 16, 0x1_0000);
    Pow2Sum(24, 0x100_0000, 24, 0x100_0000);
    Pow2Sum(26, 0x400_0000, 25, 0x200_0000);
    Pow2Sum(40, 0x100_0000_0000, 16, 0x1_0000);
  }

  lemma Pow2Fifth(n: nat, w: nat)
    requires Pow2(n) == w
    ensures Pow2(5 * n) == ((w * w) * (w * w)) * w
  {
    Pow2Sum(n, w, n, w);
    Pow2Sum(2 * n, w * w, 2 * n, w * w);
    Pow2Sum(4 * n, (w * w) * (w * w), n, w);
  }

  lemma Pow2Of255(n: nat)
    requires n == 255
    ensures Pow2(n) == 0x8000_0000_0000_0000_0000_0000_0000_0000_0000_0000_0000_0000_0000_0000_0000_0000
  {
    Pow2Table();
    Pow2Fifth(n / 5, 0x8_0000_0000_0000);
  }
}
