/** The addition chains for z^(p - 2) and z^((p - 5) / 8). */
module FieldChains {
  import opened Powers
  import opened ModP
  import opened Field

  /** f holds z^e, ready to be multiplied. */
  ghost predicate Holds(f: Fe, z: int, e: nat) {
    Loose(f) && forall key: int {:trigger Chain(f, z, e, key)} :: Chain(f, z, e, key) ==> Cong(Val(f), Pow(z, e))
  }

  ghost predicate Chain(f: Fe, z: int, e: nat, key: int) {
    true
  }

  method Times(a: Fe, b: Fe, ghost z: int, ghost d: nat, ghost e: nat) returns (out: Fe)
    requires Holds(a, z, d) && Holds(b, z, e)
    ensures Tight(out) && Holds(out, z, d + e)
  {
    assert Chain(a, z, d, 0) && Chain(b, z, e, 0);
    out := Mul(a, b);
    CongMul(Val(a), Pow(z, d), Val(b), Pow(z, e));
    PowAdd(z, d, e);
    CongTrans(Val(out), Val(a) * Val(b), Pow(z, d + e));
  }

  method Squares(a: Fe, count: nat, ghost z: int, ghost e: nat) returns (out: Fe)
    requires Holds(a, z, e) && 1 <= count
    ensures 0 <= e * Pow2(count)
    ensures Tight(out) && Holds(out, z, e * Pow2(count))
  {
    assert Chain(a, z, e, 0);
    out := SquareTimes(a, count);
    CongPow(Val(a), Pow(z, e), Pow2(count));
    PowTimes(z, e, Pow2(count));
    CongTrans(Val(out), Pow(Val(a), Pow2(count)), Pow(z, e * Pow2(count)));
  }

  /** Joins two runs of ones: (2^j - 1) 2^k + (2^k - 1) = 2^n - 1 for n = j + k. */
  method Join(long: Fe, short: Fe, k: nat, ghost j: nat, ghost n: nat, ghost z: int) returns (out: Fe)
    requires 1 <= k && n == j + k
    requires Holds(long, z, Pow2(j) - 1) && Holds(short, z, Pow2(k) - 1)
    ensures Tight(out) && Holds(out, z, Pow2(n) - 1)
  {
    var t0 := Squares(long, k, z, Pow2(j) - 1);
    out := Times(t0, short, z, (Pow2(j) - 1) * Pow2(k), Pow2(k) - 1);
    Pow2Add(j, k);
    SameExponent(out, z, (Pow2(j) - 1) * Pow2(k) + (Pow2(k) - 1), Pow2(n) - 1);
  }

  lemma SameExponent(f: Fe, z: int, d: nat, e: nat)
    requires Holds(f, z, d) && d == e
    ensures Holds(f, z, e)
  {
  }

  /** curve25519_pow_two5mtwo0_two250mtwo0, for n = 5: z^(2^n - 1) becomes z^(2^(50 n) - 1). */
  method OnesTimes50(b: Fe, n: nat, ghost z: int) returns (out: Fe)
    requires 1 <= n && Holds(b, z, Pow2(n) - 1)
    ensures Tight(out) && Holds(out, z, Pow2(50 * n) - 1)
  {
    var b2 := Join(b, b, n, n, 2 * n, z);
    var c := Join(b2, b2, 2 * n, 2 * n, 4 * n, z);
    var t0 := Join(c, c, 4 * n, 4 * n, 8 * n, z);
    var b10 := Join(t0, b2, 2 * n, 8 * n, 10 * n, z);
    c := Join(b10, b10, 10 * n, 10 * n, 20 * n, z);
    t0 := Join(c, c, 20 * n, 20 * n, 40 * n, z);
    out := Join(t0, b10, 10 * n, 40 * n, 50 * n, z);
  }

  /** z^11 and z^31, the head that both chains share. */
  method Head(z: Fe) returns (z11: Fe, z31: Fe)
    requires Loose(z)
    ensures Tight(z11) && Holds(z11, Val(z), 11)
    ensures Tight(z31) && Holds(z31, Val(z), Pow2(5) - 1)
  {
    ghost var v := Val(z);
    PowExpOne(v);
    CongRefl(v);
    assert Pow2(1) == 2 && Pow2(2) == 4 && Pow2(5) == 32;
    var a := Squares(z, 1, v, 1);
    var t0 := Squares(a, 2, v, 2);
    var b := Times(t0, z, v, 8, 1);
    z11 := Times(b, a, v, 9, 2);
    t0 := Squares(z11, 1, v, 11);
    z31 := Times(t0, b, v, 22, 9);
  }

  /** Shifts a run of 50 n ones by k and fills in the low bits. */
  method Tail(b: Fe, low: Fe, n: nat, k: nat, ghost z: int, ghost d: nat, ghost e: nat) returns (out: Fe)
    requires 1 <= k && Holds(b, z, Pow2(50 * n) - 1) && Holds(low, z, d)
    requires e == Pow2(50 * n + k) - Pow2(k) + d
    ensures Tight(out) && Holds(out, z, e)
  {
    var t := Squares(b, k, z, Pow2(50 * n) - 1);
    out := Times(t, low, z, (Pow2(50 * n) - 1) * Pow2(k), d);
    Pow2Add(50 * n, k);
    SameExponent(out, z, (Pow2(50 * n) - 1) * Pow2(k) + d, e);
  }

  /** z^(2^255 - 21) = z^(p - 2) */
  method Recip(z: Fe) returns (out: Fe)
    requires Loose(z)
    ensures Tight(out) && Cong(Val(out), Pow(Val(z), P - 2))
  {
    ghost var v := Val(z);
    var a, b := Head(z);
    b := OnesTimes50(b, 5, v);
    RecipExponent();
    out := Tail(b, a, 5, 5, v, 11, P - 2);
    assert Chain(out, v, P - 2, 0);
  }

  /** z^(2^252 - 3) = z^((p - 5) / 8) */
  method PowTwo252m3(z: Fe) returns (out: Fe)
    requires Loose(z)
    ensures Tight(out) && Cong(Val(out), Pow(Val(z), (P - 5) / 8))
  {
    ghost var v := Val(z);
    PowExpOne(v);
    CongRefl(v);
    var c, b := Head(z);
    b := OnesTimes50(b, 5, v);
    RootExponent();
    out := Tail(b, z, 5, 2, v, 1, (P - 5) / 8);
    assert Chain(out, v, (P - 5) / 8, 0);
  }

  lemma RecipExponent()
    ensures Pow2(50 * 5 + 5) - Pow2(5) + 11 == P - 2
  {
    TwoTo250(250);
    Pow2Add(250, 5);
  }

  lemma RootExponent()
    ensures Pow2(50 * 5 + 2) - Pow2(2) + 1 == (P - 5) / 8
  {
    TwoTo250(250);
    Pow2Add(250, 2);
  }

  lemma TwoTo250(n: nat)
    requires n == 250
    ensures Pow2(n) == 0x400_0000_0000_0000_0000_0000_0000_0000_0000_0000_0000_0000_0000_0000_0000_0000
    ensures Pow2(5) == 32 && Pow2(2) == 4
  {
    Pow2Twice(5, 32);
    Pow2Twice(10, 0x400);
    Pow2Twice(20, 0x10_0000);
    Pow2Twice(40, 0x100_0000_0000);
    Pow2Twice(80, 0x1_0000_0000_0000_0000_0000);
    Pow2Add(160, 80);
    Pow2Add(240, 10);
  }
}
