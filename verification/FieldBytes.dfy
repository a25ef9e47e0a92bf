/** Field elements from and to 32-byte strings. */
module FieldBytes {
  import opened Words
  import opened ModP
  import opened Powers
  import opened Bits
  import opened Bytes
  import opened Field

  /** Limbs fully carried: a number below 2^255. */
  predicate Carried(f: Fe) {
    Below(f, 0x8_0000_0000_0000)
  }

  // ---- expand ----

  method Expand(in1: seq<Byte>) returns (out: Fe)
    requires |in1| == 32
    ensures Carried(out)
    ensures Val(out) == LE(in1) % 0x8000_0000_0000_0000_0000_0000_0000_0000_0000_0000_0000_0000_0000_0000_0000_0000
  {
    var x0 := Load64(in1[..8]);
    var x1 := Load64(in1[8..16]);
    var x2 := Load64(in1[16..24]);
    var x3 := Load64(in1[24..]);
    LEWords(in1);
    var o0 := Lo51(x0);
    var o1 := Limb1(x0, x1);
    var o2 := Limb2(x1, x2);
    var o3 := Limb3(x2, x3);
    var o4 := Lo51(x3 / 0x1000);
    TopLimb(x3);
    out := Fe(o0, o1, o2, o3, o4);
    SplitWords(x0, x1, x2, x3, out);
  }

  method Limb1(x: nat, y: nat) returns (o: nat)
    requires x < 0x1_0000_0000_0000_0000 && y < 0x1_0000_0000_0000_0000
    ensures o == x / 0x8_0000_0000_0000 + 0x2000 * (y % 0x40_0000_0000) && o < 0x8_0000_0000_0000
  {
    Pow2Table();
    var w := OrShl(x / 0x8_0000_0000_0000, y, 13, 0x2000);
    o := Lo51(w);
    Straddle13(x / 0x8_0000_0000_0000, y);
  }

  method Limb2(x: nat, y: nat) returns (o: nat)
    requires x < 0x1_0000_0000_0000_0000 && y < 0x1_0000_0000_0000_0000
    ensures o == x / 0x40_0000_0000 + 0x400_0000 * (y % 0x200_0000) && o < 0x8_0000_0000_0000
  {
    Pow2Table();
    var w := OrShl(x / 0x40_0000_0000, y, 26, 0x400_0000);
    o := Lo51(w);
    Straddle26(x / 0x40_0000_0000, y);
  }

  method Limb3(x: nat, y: nat) returns (o: nat)
    requires x < 0x1_0000_0000_0000_0000 && y < 0x1_0000_0000_0000_0000
    ensures o == x / 0x200_0000 + 0x80_0000_0000 * (y % 0x1000) && o < 0x8_0000_0000_0000
  {
    Pow2Table();
    var w := OrShl(x / 0x200_0000, y, 39, 0x80_0000_0000);
    o := Lo51(w);
    Straddle39(x / 0x200_0000, y);
  }

  // A limb that straddles two words: the upper bits of one, then the low bits of the next.

  lemma Straddle13(q: nat, y: nat)
    requires q < 0x2000 && y < 0x1_0000_0000_0000_0000
    ensures Lo51(q + U64(y * 0x2000)) == q + 0x2000 * (y % 0x4000000000)
  {
    var a, b := y / 0x8000000000000, y % 0x8000000000000;
    assert y * 0x2000 == 0x1_0000_0000_0000_0000 * a + 0x2000 * b;
    assert U64(y * 0x2000) == 0x2000 * b;
    var c, d := b / 0x4000000000, b % 0x4000000000;
    assert d == y % 0x4000000000;
    assert q + 0x2000 * b == 0x8_0000_0000_0000 * c + (q + 0x2000 * d);
  }

  lemma Straddle26(q: nat, y: nat)
    requires q < 0x4000000 && y < 0x1_0000_0000_0000_0000
    ensures Lo51(q + U64(y * 0x4000000)) == q + 0x4000000 * (y % 0x2000000)
  {
    var a, b := y / 0x4000000000, y % 0x4000000000;
    assert y * 0x4000000 == 0x1_0000_0000_0000_0000 * a + 0x4000000 * b;
    assert U64(y * 0x4000000) == 0x4000000 * b;
    var c, d := b / 0x2000000, b % 0x2000000;
    assert d == y % 0x2000000;
    assert q + 0x4000000 * b == 0x8_0000_0000_0000 * c + (q + 0x4000000 * d);
  }

  lemma Straddle39(q: nat, y: nat)
    requires q < 0x8000000000 && y < 0x1_0000_0000_0000_0000
    ensures Lo51(q + U64(y * 0x8000000000)) == q + 0x8000000000 * (y % 0x1000)
  {
    var a, b := y / 0x2000000, y % 0x2000000;
    assert y * 0x8000000000 == 0x1_0000_0000_0000_0000 * a + 0x8000000000 * b;
    assert U64(y * 0x8000000000) == 0x8000000000 * b;
    var c, d := b / 0x1000, b % 0x1000;
    assert d == y % 0x1000;
    assert q + 0x8000000000 * b == 0x8_0000_0000_0000 * c + (q + 0x8000000000 * d);
  }

  lemma TopLimb(y: int)
    requires 0 <= y < 0x1_0000_0000_0000_0000
    ensures y == y % 0x1000 + 0x1000 * Lo51(y / 0x1000) + 0x8000_0000_0000_0000 * (y / 0x8000_0000_0000_0000)
  {
  }

  lemma SplitWords(x0: int, x1: int, x2: int, x3: int, out: Fe)
    requires out.l0 == x0 % 0x8_0000_0000_0000
    requires out.l1 == x0 / 0x8_0000_0000_0000 + 0x2000 * (x1 % 0x40_0000_0000)
    requires out.l2 == x1 / 0x40_0000_0000 + 0x400_0000 * (x2 % 0x200_0000)
    requires out.l3 == x2 / 0x200_0000 + 0x80_0000_0000 * (x3 % 0x1000)
    requires x3 == x3 % 0x1000 + 0x1000 * out.l4 + 0x8000_0000_0000_0000 * (x3 / 0x8000_0000_0000_0000)
    requires Carried(out)
    ensures Val(out) == (x0 + 0x1_0000_0000_0000_0000 * x1
      + 0x1_0000_0000_0000_0000_0000_0000_0000_0000 * x2
      + 0x1_0000_0000_0000_0000_0000_0000_0000_0000_0000_0000_0000_0000 * x3)
      % 0x8000_0000_0000_0000_0000_0000_0000_0000_0000_0000_0000_0000_0000_0000_0000_0000
  {
    var n := x0 + 0x1_0000_0000_0000_0000 * x1
      + 0x1_0000_0000_0000_0000_0000_0000_0000_0000 * x2
      + 0x1_0000_0000_0000_0000_0000_0000_0000_0000_0000_0000_0000_0000 * x3;
    assert n == Val(out) + 0x8000_0000_0000_0000_0000_0000_0000_0000_0000_0000_0000_0000_0000_0000_0000_0000
      * (x3 / 0x8000_0000_0000_0000);
    ValCarried(out);
  }

  lemma ValCarried(f: Fe)
    requires Carried(f)
    ensures 0 <= Val(f) < 0x8000_0000_0000_0000_0000_0000_0000_0000_0000_0000_0000_0000_0000_0000_0000_0000
  {
  }

  // ---- contract ----

  /** curve25519_contract_carry: the value stays, the four low limbs end below 2^51. */
  method CarryPass(t: Fe) returns (u: Fe)
    requires Below(t, 0x80_0000_0000_0000)
    ensures Val(u) == Val(t)
    ensures Carried(u.(l4 := 0)) && t.l4 <= u.l4 < t.l4 + 0x20
  {
    var t0, c := Split51(t.l0);
    var t1 := Add64(t.l1, c);
    t1, c := Split51(t1);
    var t2 := Add64(t.l2, c);
    t2, c := Split51(t2);
    var t3 := Add64(t.l3, c);
    t3, c := Split51(t3);
    var t4 := Add64(t.l4, c);
    u := Fe(t0, t1, t2, t3, t4);
  }

  /** curve25519_contract_carry_full: what leaves at the top, in units of 2^255, comes back 19 times. */
  method CarryFull(t: Fe) returns (u: Fe, ghost top: int)
    requires Below(t, 0x80_0000_0000_0000)
    ensures top == Val(t) / 0x8000_0000_0000_0000_0000_0000_0000_0000_0000_0000_0000_0000_0000_0000_0000_0000
    ensures Val(u) == Val(t) - top * 0x7fff_ffff_ffff_ffff_ffff_ffff_ffff_ffff_ffff_ffff_ffff_ffff_ffff_ffff_ffff_ffed
    ensures Carried(u.(l0 := 0)) && 0 <= u.l0 < 0x8_0000_0000_0000 + 19 * top
  {
    u := CarryPass(t);
    var t4, c := Split51(u.l4);
    var back := Times19(c);
    var t0 := Add64(u.l0, back);
    u := Fe(t0, u.l1, u.l2, u.l3, t4);
    top := c;
    ValCarried(u.(l0 := u.l0 - 19 * c));
    assert Val(t) == Val(u.(l0 := u.l0 - 19 * c))
      + c * 0x8000_0000_0000_0000_0000_0000_0000_0000_0000_0000_0000_0000_0000_0000_0000_0000;
  }

  /** curve25519_contract_carry_final: what leaves at the top is dropped. */
  method CarryFinal(t: Fe) returns (u: Fe)
    requires Below(t, 0x80_0000_0000_0000)
    ensures Carried(u) && Val(u)
      == Val(t) % 0x8000_0000_0000_0000_0000_0000_0000_0000_0000_0000_0000_0000_0000_0000_0000_0000
  {
    u := CarryPass(t);
    var t4, c := Split51(u.l4);
    u := u.(l4 := t4);
    ValCarried(u);
    assert Val(t) == Val(u) + c * 0x8000_0000_0000_0000_0000_0000_0000_0000_0000_0000_0000_0000_0000_0000_0000_0000;
  }

  /** The value modulo p, from any limbs below 2^54. */
  method Contract(input: Fe) returns (out: seq<Byte>)
    requires Loose(input)
    ensures |out| == 32 && LE(out) == Val(input) % P
  {
    var t := CanonicalLimbs(input);
    out := WriteLimbs(t);
  }

  method CanonicalLimbs(input: Fe) returns (t: Fe)
    requires Loose(input)
    ensures Carried(t) && Val(t) == Val(input) % P
  {
    t := CarryBelow255(input);
    t := SubtractP(t);
  }

  /** The last two passes: p is taken off if the value reaches it. */
  method SubtractP(input: Fe) returns (t: Fe)
    requires Carried(input)
    ensures Carried(t) && Val(t) == Val(input) % P
  {
    t := input;
    ghost var v := Val(t);
    ValCarried(t);
    var t0 := Add64(t.l0, 19);
    ghost var top;
    t, top := CarryFull(t.(l0 := t0));
    OffsetBy19(v, top);
    t := AddTop(t);
    assert Val(t) == v % P + 0x8000_0000_0000_0000_0000_0000_0000_0000_0000_0000_0000_0000_0000_0000_0000_0000;
    t := CarryFinal(t);
    DropTop(v % P);
  }

  /** Adds 2^255 - 19, limb by limb. */
  method AddTop(t: Fe) returns (u: Fe)
    requires Below(t, 0x80_0000_0000_0000)
    ensures u == Fe(t.l0 + 0x7_ffff_ffff_ffed, t.l1 + 0x7_ffff_ffff_ffff, t.l2 + 0x7_ffff_ffff_ffff,
      t.l3 + 0x7_ffff_ffff_ffff, t.l4 + 0x7_ffff_ffff_ffff)
  {
    var t0 := Add64(t.l0, 0x8_0000_0000_0000 - 19);
    var t1 := Add64(t.l1, 0x8_0000_0000_0000 - 1);
    var t2 := Add64(t.l2, 0x8_0000_0000_0000 - 1);
    var t3 := Add64(t.l3, 0x8_0000_0000_0000 - 1);
    var t4 := Add64(t.l4, 0x8_0000_0000_0000 - 1);
    u := Fe(t0, t1, t2, t3, t4);
  }

  /** The first two passes of curve25519_contract. */
  method CarryBelow255(input: Fe) returns (t: Fe)
    requires Loose(input)
    ensures Carried(t) && Val(t) % P == Val(input) % P
  {
    ghost var top1, top2;
    LooseVal(input);
    t, top1 := CarryFull(input);
    TightVal(t);
    t, top2 := CarryFull(t);
    if top2 == 1 {
      LowLimb(t);
    }
    SameResidue(Val(t), Val(input), top1 + top2);
  }

  /** Adding 19 overflows 2^255 exactly when v has not been reduced below p. */
  lemma OffsetBy19(v: int, top: int)
    requires 0 <= v < 0x8000_0000_0000_0000_0000_0000_0000_0000_0000_0000_0000_0000_0000_0000_0000_0000
      && top == (v + 19) / 0x8000_0000_0000_0000_0000_0000_0000_0000_0000_0000_0000_0000_0000_0000_0000_0000
    ensures v + 19 - top * 0x7fff_ffff_ffff_ffff_ffff_ffff_ffff_ffff_ffff_ffff_ffff_ffff_ffff_ffff_ffff_ffed
      == v % P + 19
  {
    if v < P {
      assert top == 0;
    } else {
      assert top == 1 && v - P < P;
    }
  }

  lemma DropTop(x: int)
    requires 0 <= x < P
    ensures (x + 0x8000_0000_0000_0000_0000_0000_0000_0000_0000_0000_0000_0000_0000_0000_0000_0000)
      % 0x8000_0000_0000_0000_0000_0000_0000_0000_0000_0000_0000_0000_0000_0000_0000_0000 == x
  {
  }

  lemma SameResidue(v: int, x: int, k: int)
    requires v == x - k * 0x7fff_ffff_ffff_ffff_ffff_ffff_ffff_ffff_ffff_ffff_ffff_ffff_ffff_ffff_ffff_ffed
    ensures v % P == x % P
  {
    CongBy(v, x, -k);
    CongModEq(v, x);
  }

  lemma LooseVal(f: Fe)
    requires Loose(f)
    ensures 0 <= Val(f) < 9 * 0x8000_0000_0000_0000_0000_0000_0000_0000_0000_0000_0000_0000_0000_0000_0000_0000
  {
  }

  lemma TightVal(f: Fe)
    requires Carried(f.(l0 := 0)) && 0 <= f.l0 < 0x8_0000_0000_0000 + 19 * 8
    ensures 0 <= Val(f) < 0x8000_0000_0000_0000_0000_0000_0000_0000_0000_0000_0000_0000_0000_0000_0000_0000 + 19 * 8
  {
  }

  lemma LowLimb(f: Fe)
    requires 0 <= f.l0 && Carried(f.(l0 := 0))
    ensures f.l0 <= Val(f)
  {
  }

  /** The four write51 groups: 255 bits as four little-endian words. */
  method WriteLimbs(t: Fe) returns (out: seq<Byte>)
    requires Carried(t)
    ensures |out| == 32 && LE(out) == Val(t)
  {
    Pow2Table();
    var f0 := OrShl(t.l0, t.l1, 51, 0x8_0000_0000_0000);
    var f1 := OrShl(t.l1 / 0x2000, t.l2, 38, 0x40_0000_0000);
    var f2 := OrShl(t.l2 / 0x400_0000, t.l3, 25, 0x200_0000);
    var f3 := OrShl(t.l3 / 0x80_0000_0000, t.l4, 12, 0x1000);
    JoinLimbs(t);
    out := Store256(f0, f1, f2, f3);
  }

  lemma JoinLimbs(t: Fe)
    requires Carried(t)
    ensures var f0, f1, f2, f3 := t.l0 + U64(t.l1 * 0x8_0000_0000_0000), t.l1 / 0x2000 + U64(t.l2 * 0x40_0000_0000),
                                  t.l2 / 0x400_0000 + U64(t.l3 * 0x200_0000),
                                    t.l3 / 0x80_0000_0000 + U64(t.l4 * 0x1000);
      && 0 <= f0 < 0x1_0000_0000_0000_0000 && 0 <= f1 < 0x1_0000_0000_0000_0000
      && 0 <= f2 < 0x1_0000_0000_0000_0000 && 0 <= f3 < 0x1_0000_0000_0000_0000
      && Val(t) == f0 + 0x1_0000_0000_0000_0000 * f1
        + 0x1_0000_0000_0000_0000_0000_0000_0000_0000 * f2
        + 0x1_0000_0000_0000_0000_0000_0000_0000_0000_0000_0000_0000_0000 * f3
  {
    Cut13(t.l1);
    Cut26(t.l2);
    Cut39(t.l3);
  }

  lemma Cut13(x: int)
    requires 0 <= x < 0x8_0000_0000_0000
    ensures U64(x * 0x8000000000000) == 0x8000000000000 * (x % 0x2000)
    ensures x == x % 0x2000 + 0x2000 * (x / 0x2000)
  {
    var a, b := x / 0x2000, x % 0x2000;
    assert x * 0x8000000000000 == 0x1_0000_0000_0000_0000 * a + 0x8000000000000 * b;
  }

  lemma Cut26(x: int)
    requires 0 <= x < 0x8_0000_0000_0000
    ensures U64(x * 0x4000000000) == 0x4000000000 * (x % 0x4000000)
    ensures x == x % 0x4000000 + 0x4000000 * (x / 0x4000000)
  {
    var a, b := x / 0x4000000, x % 0x4000000;
    assert x * 0x4000000000 == 0x1_0000_0000_0000_0000 * a + 0x4000000000 * b;
  }

  lemma Cut39(x: int)
    requires 0 <= x < 0x8_0000_0000_0000
    ensures U64(x * 0x2000000) == 0x2000000 * (x % 0x8000000000)
    ensures x == x % 0x8000000000 + 0x8000000000 * (x / 0x8000000000)
  {
    var a, b := x / 0x8000000000, x % 0x8000000000;
    assert x * 0x2000000 == 0x1_0000_0000_0000_0000 * a + 0x2000000 * b;
  }
}
