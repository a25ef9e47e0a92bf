/** Scalars modulo the group order m, in five limbs of 56 bits. */
module Scalar {
  import opened Words
  import opened Bits

  /** bignum256modm */
  type Limbs = s: seq<nat> | |s| == 5 witness [0, 0, 0, 0, 0]

  const M: nat := 0x1000_0000_0000_0000_0000_0000_0000_0000_14de_f9de_a2f7_9cd6_5812_631a_5cf5_d3ed

  const TWO_TO_512: nat :=
    0x1_0000_0000_0000_0000_0000_0000_0000_0000_0000_0000_0000_0000_0000_0000_0000_0000
    * 0x1_0000_0000_0000_0000_0000_0000_0000_0000_0000_0000_0000_0000_0000_0000_0000_0000

  function Val(s: Limbs): nat {
    s[0] + 0x100_0000_0000_0000 * s[1] + 0x1_0000_0000_0000_0000_0000_0000_0000 * s[2]
      + 0x100_0000_0000_0000_0000_0000_0000_0000_0000_0000_0000 * s[3]
      + 0x1_0000_0000_0000_0000_0000_0000_0000_0000_0000_0000_0000_0000_0000_0000 * s[4]
  }

  /** Every limb is below 2^56. */
  predicate Carried(s: Limbs) {
    s[0] < 0x100_0000_0000_0000 && s[1] < 0x100_0000_0000_0000 && s[2] < 0x100_0000_0000_0000
      && s[3] < 0x100_0000_0000_0000 && s[4] < 0x100_0000_0000_0000
  }

  /** A carried number below m. */
  predicate Reduced(s: Limbs) {
    Carried(s) && Val(s) < M
  }

  /** lt_modm: the borrow of a - b. */
  function LtModm(a: int, b: int): int {
    U64(a - b) / 0x8000_0000_0000_0000
  }

  /** One limb of a subtraction: the difference, plus 2^56 if it borrows. */
  method SubLimb(r: nat, pb: nat) returns (t: nat, b: nat)
    requires r < 0x100_0000_0000_0000 && pb <= 0x100_0000_0000_0000
    ensures 0 <= b <= 1 && t < 0x100_0000_0000_0000 && t + pb == r + 0x100_0000_0000_0000 * b
  {
    b := LtModm(r, pb);
    t := U64(r - pb + b * 0x100_0000_0000_0000);
  }

  /** r ^= mask & (r ^ t) for the mask b - 1: r stays if b is 1, and becomes t if b is 0. */
  method SelectLimb(b: nat, r: nat, t: nat) returns (out: nat)
    requires b <= 1 && r < 0x1_0000_0000_0000_0000 && t < 0x1_0000_0000_0000_0000
    ensures out == if b == 1 then r else t
  {
    var mask := U64(b - 1);
    Pow2Of64();
    Select(r, t, 64);
    out := Xor(r, And(mask, Xor(r, t)));
  }

  /** One conditional subtraction of m. */
  method Reduce256(r: Limbs) returns (out: Limbs)
    requires Carried(r)
    ensures Carried(out) && Val(out) == if Val(r) < M then Val(r) else Val(r) - M
  {
    var t0, t1, t2, t3, b;
    t0, b := SubLimb(r[0], 0x12_631a_5cf5_d3ed);
    t1, b := SubLimb(r[1], b + 0xf9_dea2_f79c_d658);
    t2, b := SubLimb(r[2], b + 0x14de);
    t3, b := SubLimb(r[3], b + 0x0);
    ghost var low := t0 + 0x100_0000_0000_0000 * t1 + 0x1_0000_0000_0000_0000_0000_0000_0000 * t2
          + 0x100_0000_0000_0000_0000_0000_0000_0000_0000_0000_0000 * t3;
    var pb := b + 0x1000_0000;
    b := LtModm(r[4], pb);
    var t4 := U64(r[4] - pb + b * 0x1_0000_0000);
    assert b == if r[4] < pb then 1 else 0;
    assert b == 0 ==> t4 == r[4] - pb;
    var o0 := SelectLimb(b, r[0], t0);
    var o1 := SelectLimb(b, r[1], t1);
    var o2 := SelectLimb(b, r[2], t2);
    var o3 := SelectLimb(b, r[3], t3);
    var o4 := SelectLimb(b, r[4], t4);
    out := [o0, o1, o2, o3, o4];
    assert low < 0x1_0000_0000_0000_0000_0000_0000_0000_0000_0000_0000_0000_0000_0000_0000;
  }
}
