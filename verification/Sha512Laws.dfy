/** What the functions of SHA-512 do to single bits, bytes and words, as FIPS 180-4 describes them. */
module Sha512Laws {
  import opened Powers
  import opened Bits
  import opened Bytes
  import opened Sha512Spec
  import opened Sha512

  // ---- single bits ----

  ghost function Bit(x: nat, i: nat): nat {
    if i == 0 then x % 2 else Bit(x / 2, i - 1)
  }

  /** Bit i of x. */
  lemma {:induction false} BitValue(x: nat, i: nat)
    ensures Bit(x, i) == (x / Pow2(i)) % 2
  {
    if i > 0 {
      BitValue(x / 2, i - 1);
      HalfDivide(x, Pow2(i - 1));
    }
  }

  lemma {:induction false} XorBit(a: nat, b: nat, i: nat)
    ensures Bit(Xor(a, b), i) == (Bit(a, i) + Bit(b, i)) % 2
    decreases i
  {
    XorHalf(a, b);
    if i > 0 {
      XorBit(a / 2, b / 2, i - 1);
    }
  }

  lemma {:induction false} XorBit3(a: nat, b: nat, c: nat, i: nat)
    ensures Bit(Xor(Xor(a, b), c), i) == (Bit(a, i) + Bit(b, i) + Bit(c, i)) % 2
  {
    XorBit(a, b, i);
    XorBit(Xor(a, b), c, i);
  }

  lemma {:induction false} AndBits(a: nat, b: nat, i: nat)
    ensures Bit(And(a, b), i) == if Bit(a, i) == 1 && Bit(b, i) == 1 then 1 else 0
    decreases i
  {
    AndHalf(a, b);
    if i > 0 {
      AndBits(a / 2, b / 2, i - 1);
    }
  }

  /** Below bit n only a counts. */
  lemma {:induction false} BitBelow(a: nat, c: nat, i: nat, n: nat)
    requires i < n
    ensures Bit(a + Pow2(n) * c, i) == Bit(a, i)
    decreases i
  {
    Halved(Pow2(n), Pow2(n - 1), c);
    HalfSum(a, Pow2(n - 1) * c);
    if i > 0 {
      BitBelow(a / 2, c, i - 1, n - 1);
    }
  }

  /** From bit n on only c counts. */
  lemma {:induction false} BitAbove(a: nat, c: nat, i: nat, n: nat)
    requires a < Pow2(n)
    ensures Bit(a + Pow2(n) * c, n + i) == Bit(c, i)
    decreases n
  {
    if n > 0 {
      Halved(Pow2(n), Pow2(n - 1), c);
      HalfSum(a, Pow2(n - 1) * c);
      BitAbove(a / 2, c, i, n - 1);
    }
  }

  lemma {:induction false} ShiftedBit(x: nat, y: nat, n: nat, i: nat)
    requires y == x / Pow2(n)
    ensures Bit(y, i) == Bit(x, n + i)
    decreases n
  {
    if n > 0 {
      HalfDivide(x, Pow2(n - 1));
      ShiftedBit(x / 2, y, n - 1, i);
    }
  }

  lemma {:induction false} NotBit(x: nat, i: nat, n: nat)
    requires i < n && x < Pow2(n)
    ensures Bit(Pow2(n) - 1 - x, i) == 1 - Bit(x, i)
    decreases i
  {
    var y := Pow2(n) - 1 - x;
    assert y / 2 == Pow2(n - 1) - 1 - x / 2 && y % 2 == 1 - x % 2;
    if i > 0 {
      NotBit(x / 2, i - 1, n - 1);
    }
  }

  // Exchanging the two parts of a word.

  lemma {:induction false} LowerPart(low: nat, high: nat, n: nat, i: nat)
    requires i + n < 64 && low < Pow2(n)
    ensures Bit(high + Pow2(64 - n) * low, i) == Bit(low + Pow2(n) * high, n + i)
  {
    BitBelow(high, low, i, 64 - n);
    BitAbove(low, high, i, n);
  }

  lemma {:induction false} UpperPart(low: nat, high: nat, n: nat, j: nat)
    requires j < n < 64 && high < Pow2(64 - n)
    ensures Bit(high + Pow2(64 - n) * low, 64 - n + j) == Bit(low + Pow2(n) * high, j)
  {
    BitAbove(high, low, j, 64 - n);
    BitBelow(low, high, j, n);
  }

  /** Rotation to the right by n places takes bit i from bit i + n, counted around 64. */
  lemma {:induction false} RotrBit(x: nat, n: nat, p: nat, q: nat, i: nat)
    requires x < 0x1_0000_0000_0000_0000 && n < 64 && i < 64 && p == Pow2(n) && q == Pow2(64 - n)
    ensures Bit(Rotr(x, p, q), i) == Bit(x, (i + n) % 64)
  {
    WordParts(x, n, p, q);
    if i + n < 64 {
      LowerPart(x % p, x / p, n, i);
    } else {
      UpperPart(x % p, x / p, n, i + n - 64);
    }
  }

  lemma WordParts(x: nat, n: nat, p: nat, q: nat)
    requires x < 0x1_0000_0000_0000_0000 && n < 64 && p == Pow2(n) && q == Pow2(64 - n)
    ensures 0 <= x / p < q && x == x % p + p * (x / p) && 0 <= x % p < p
  {
    assert p * q == 0x1_0000_0000_0000_0000 by {
      Pow2Of64();
      Pow2Add(n, 64 - n);
    }
    QuotientBound(x, p, q);
  }

  // ---- the functions of section 4.1.3 ----

  /** Three words whose bit i comes from bits j0, j1 and j2 of x, joined by exclusive or. */
  lemma {:induction false} SumBit(s: nat, a: nat, b: nat, c: nat, x: nat, i: nat, j0: nat, j1: nat, j2: nat)
    requires s == Xor(Xor(a, b), c) && Bit(a, i) == Bit(x, j0) && Bit(b, i) == Bit(x, j1) && Bit(c, i) == Bit(x, j2)
    ensures Bit(s, i) == (Bit(x, j0) + Bit(x, j1) + Bit(x, j2)) % 2
  {
    XorBit3(a, b, c, i);
  }

  lemma {:induction false} Rotr28Bit(x: nat, i: nat)
    requires x < 0x1_0000_0000_0000_0000 && i < 64
    ensures Bit(Rotr(x, 0x1000_0000, 0x10_0000_0000), i) == Bit(x, (i + 28) % 64)
  {
    LargeDistances();
    RotrBit(x, 28, 0x1000_0000, 0x10_0000_0000, i);
  }

  lemma {:induction false} Rotr34Bit(x: nat, i: nat)
    requires x < 0x1_0000_0000_0000_0000 && i < 64
    ensures Bit(Rotr(x, 0x4_0000_0000, 0x4000_0000), i) == Bit(x, (i + 34) % 64)
  {
    LargeDistances();
    RotrBit(x, 34, 0x4_0000_0000, 0x4000_0000, i);
  }

  lemma {:induction false} Rotr39Bit(x: nat, i: nat)
    requires x < 0x1_0000_0000_0000_0000 && i < 64
    ensures Bit(Rotr(x, 0x80_0000_0000, 0x200_0000), i) == Bit(x, (i + 39) % 64)
  {
    LargeDistances();
    RotrBit(x, 39, 0x80_0000_0000, 0x200_0000, i);
  }

  lemma {:induction false} Rotr14Bit(x: nat, i: nat)
    requires x < 0x1_0000_0000_0000_0000 && i < 64
    ensures Bit(Rotr(x, 0x4000, 0x4_0000_0000_0000), i) == Bit(x, (i + 14) % 64)
  {
    LargeDistances();
    RotrBit(x, 14, 0x4000, 0x4_0000_0000_0000, i);
  }

  lemma {:induction false} Rotr18Bit(x: nat, i: nat)
    requires x < 0x1_0000_0000_0000_0000 && i < 64
    ensures Bit(Rotr(x, 0x4_0000, 0x4000_0000_0000), i) == Bit(x, (i + 18) % 64)
  {
    LargeDistances();
    RotrBit(x, 18, 0x4_0000, 0x4000_0000_0000, i);
  }

  lemma {:induction false} Rotr41Bit(x: nat, i: nat)
    requires x < 0x1_0000_0000_0000_0000 && i < 64
    ensures Bit(Rotr(x, 0x200_0000_0000, 0x80_0000), i) == Bit(x, (i + 41) % 64)
  {
    LargeDistances();
    RotrBit(x, 41, 0x200_0000_0000, 0x80_0000, i);
  }

  lemma {:induction false} Rotr1Bit(x: nat, i: nat)
    requires x < 0x1_0000_0000_0000_0000 && i < 64
    ensures Bit(Rotr(x, 0x2, 0x8000_0000_0000_0000), i) == Bit(x, (i + 1) % 64)
  {
    SmallDistances();
    RotrBit(x, 1, 0x2, 0x8000_0000_0000_0000, i);
  }

  lemma {:induction false} Rotr8Bit(x: nat, i: nat)
    requires x < 0x1_0000_0000_0000_0000 && i < 64
    ensures Bit(Rotr(x, 0x100, 0x100_0000_0000_0000), i) == Bit(x, (i + 8) % 64)
  {
    SmallDistances();
    RotrBit(x, 8, 0x100, 0x100_0000_0000_0000, i);
  }

  lemma {:induction false} Rotr19Bit(x: nat, i: nat)
    requires x < 0x1_0000_0000_0000_0000 && i < 64
    ensures Bit(Rotr(x, 0x8_0000, 0x2000_0000_0000), i) == Bit(x, (i + 19) % 64)
  {
    SmallDistances();
    RotrBit(x, 19, 0x8_0000, 0x2000_0000_0000, i);
  }

  lemma {:induction false} Rotr61Bit(x: nat, i: nat)
    requires x < 0x1_0000_0000_0000_0000 && i < 64
    ensures Bit(Rotr(x, 0x2000_0000_0000_0000, 0x8), i) == Bit(x, (i + 61) % 64)
  {
    SmallDistances();
    RotrBit(x, 61, 0x2000_0000_0000_0000, 0x8, i);
  }

  lemma {:induction false} BigSigma0Parts(x: nat, i: nat) returns (a: nat, b: nat, c: nat)
    requires x < 0x1_0000_0000_0000_0000 && i < 64
    ensures BigSigma0(x) == Xor(Xor(a, b), c)
    ensures Bit(a, i) == Bit(x, (i + 28) % 64) && Bit(b, i) == Bit(x, (i + 34) % 64)
      && Bit(c, i) == Bit(x, (i + 39) % 64)
  {
    SumOpen(Big0, x);
    a, b, c := Rotr(x, 0x1000_0000, 0x10_0000_0000), Rotr(x, 0x4_0000_0000, 0x4000_0000),
      Rotr(x, 0x80_0000_0000, 0x200_0000);
    Rotr28Bit(x, i);
    Rotr34Bit(x, i);
    Rotr39Bit(x, i);
  }

  lemma {:induction false} BigSigma0Bit(x: nat, i: nat)
    requires x < 0x1_0000_0000_0000_0000 && i < 64
    ensures Bit(BigSigma0(x), i) == (Bit(x, (i + 28) % 64) + Bit(x, (i + 34) % 64) + Bit(x, (i + 39) % 64)) % 2
  {
    var a, b, c := BigSigma0Parts(x, i);
    SumBit(BigSigma0(x), a, b, c, x, i, (i + 28) % 64, (i + 34) % 64, (i + 39) % 64);
  }

  lemma {:induction false} BigSigma1Parts(x: nat, i: nat) returns (a: nat, b: nat, c: nat)
    requires x < 0x1_0000_0000_0000_0000 && i < 64
    ensures BigSigma1(x) == Xor(Xor(a, b), c)
    ensures Bit(a, i) == Bit(x, (i + 14) % 64) && Bit(b, i) == Bit(x, (i + 18) % 64)
      && Bit(c, i) == Bit(x, (i + 41) % 64)
  {
    SumOpen(Big1, x);
    a, b, c := Rotr(x, 0x4000, 0x4_0000_0000_0000), Rotr(x, 0x4_0000, 0x4000_0000_0000),
      Rotr(x, 0x200_0000_0000, 0x80_0000);
    Rotr14Bit(x, i);
    Rotr18Bit(x, i);
    Rotr41Bit(x, i);
  }

  lemma {:induction false} BigSigma1Bit(x: nat, i: nat)
    requires x < 0x1_0000_0000_0000_0000 && i < 64
    ensures Bit(BigSigma1(x), i) == (Bit(x, (i + 14) % 64) + Bit(x, (i + 18) % 64) + Bit(x, (i + 41) % 64)) % 2
  {
    var a, b, c := BigSigma1Parts(x, i);
    SumBit(BigSigma1(x), a, b, c, x, i, (i + 14) % 64, (i + 18) % 64, (i + 41) % 64);
  }

  lemma {:induction false} Shift7Bit(x: nat, i: nat)
    ensures Bit(x / 0x80, i) == Bit(x, i + 7)
  {
    assert Pow2(7) == 0x80;
    ShiftedBit(x, x / 0x80, 7, i);
  }

  lemma {:induction false} SmallSigma0Parts(x: nat, i: nat) returns (a: nat, b: nat, c: nat)
    requires x < 0x1_0000_0000_0000_0000 && i < 64
    ensures SmallSigma0(x) == Xor(Xor(a, b), c)
    ensures Bit(a, i) == Bit(x, (i + 1) % 64) && Bit(b, i) == Bit(x, (i + 8) % 64) && Bit(c, i) == Bit(x, i + 7)
  {
    SumOpen(Small0, x);
    a, b, c := Rotr(x, 0x2, 0x8000_0000_0000_0000), Rotr(x, 0x100, 0x100_0000_0000_0000), x / 0x80;
    Rotr1Bit(x, i);
    Rotr8Bit(x, i);
    Shift7Bit(x, i);
  }

  lemma {:induction false} SmallSigma0Bit(x: nat, i: nat)
    requires x < 0x1_0000_0000_0000_0000 && i < 64
    ensures Bit(SmallSigma0(x), i) == (Bit(x, (i + 1) % 64) + Bit(x, (i + 8) % 64) + Bit(x, i + 7)) % 2
  {
    var a, b, c := SmallSigma0Parts(x, i);
    SumBit(SmallSigma0(x), a, b, c, x, i, (i + 1) % 64, (i + 8) % 64, i + 7);
  }

  lemma {:induction false} Shift6Bit(x: nat, i: nat)
    ensures Bit(x / 0x40, i) == Bit(x, i + 6)
  {
    assert Pow2(6) == 0x40;
    ShiftedBit(x, x / 0x40, 6, i);
  }

  lemma {:induction false} SmallSigma1Parts(x: nat, i: nat) returns (a: nat, b: nat, c: nat)
    requires x < 0x1_0000_0000_0000_0000 && i < 64
    ensures SmallSigma1(x) == Xor(Xor(a, b), c)
    ensures Bit(a, i) == Bit(x, (i + 19) % 64) && Bit(b, i) == Bit(x, (i + 61) % 64) && Bit(c, i) == Bit(x, i + 6)
  {
    SumOpen(Small1, x);
    a, b, c := Rotr(x, 0x8_0000, 0x2000_0000_0000), Rotr(x, 0x2000_0000_0000_0000, 0x8), x / 0x40;
    Rotr19Bit(x, i);
    Rotr61Bit(x, i);
    Shift6Bit(x, i);
  }

  lemma {:induction false} SmallSigma1Bit(x: nat, i: nat)
    requires x < 0x1_0000_0000_0000_0000 && i < 64
    ensures Bit(SmallSigma1(x), i) == (Bit(x, (i + 19) % 64) + Bit(x, (i + 61) % 64) + Bit(x, i + 6)) % 2
  {
    var a, b, c := SmallSigma1Parts(x, i);
    SumBit(SmallSigma1(x), a, b, c, x, i, (i + 19) % 64, (i + 61) % 64, i + 6);
  }

  lemma ChParts(x: nat, y: nat, z: nat)
    requires x < 0x1_0000_0000_0000_0000
    ensures Ch(x, y, z) == Xor(And(x, y), And(0xffff_ffff_ffff_ffff - x, z))
  {
  }

  lemma {:induction false} ChosenBit(c: nat, x: nat, y: nat, m: nat, z: nat, i: nat)
    requires c == Xor(And(x, y), And(m, z)) && Bit(m, i) == 1 - Bit(x, i)
    ensures Bit(c, i) == if Bit(x, i) == 1 then Bit(y, i) else Bit(z, i)
  {
    XorBit(And(x, y), And(m, z), i);
    AndBits(x, y, i);
    AndBits(m, z, i);
    BitRange(x, i);
    BitRange(y, i);
    BitRange(z, i);
  }

  /** Ch takes the bit of y where x has a one, and that of z elsewhere. */
  lemma {:induction false} ChBit(x: nat, y: nat, z: nat, i: nat)
    requires x < 0x1_0000_0000_0000_0000 && i < 64
    ensures Bit(Ch(x, y, z), i) == if Bit(x, i) == 1 then Bit(y, i) else Bit(z, i)
  {
    var m := 0xffff_ffff_ffff_ffff - x;
    ChParts(x, y, z);
    assert Bit(m, i) == 1 - Bit(x, i) by {
      Pow2Of64();
      NotBit(x, i, 64);
    }
    ChosenBit(Ch(x, y, z), x, y, m, z, i);
  }

  /** Maj is one where at least two of the three are. */
  lemma {:induction false} MajBit(x: nat, y: nat, z: nat, i: nat)
    ensures Bit(Maj(x, y, z), i) == if Bit(x, i) + Bit(y, i) + Bit(z, i) >= 2 then 1 else 0
  {
    XorBit3(And(x, y), And(x, z), And(y, z), i);
    AndBits(x, y, i);
    AndBits(x, z, i);
    AndBits(y, z, i);
    BitRange(x, i);
    BitRange(y, i);
    BitRange(z, i);
  }

  lemma {:induction false} BitRange(x: nat, i: nat)
    ensures Bit(x, i) <= 1
  {
    if i > 0 {
      BitRange(x / 2, i - 1);
    }
  }

  // ---- bytes ----

  /** Byte q of a digest: byte q % 8 of word q / 8 of the hash value after the padded message. */
  lemma {:induction false} DigestByte(k: seq<nat>, msg: seq<Byte>, q: nat)
    requires |k| == 80 && q < 64
    ensures Pow(256, 7 - q % 8) > 0 && Digest(k, msg)[q]
      == (Absorb(k, Initial(), msg + Padding(|msg|))[q / 8] / Pow(256, 7 - q % 8)) % 256
  {
    StoredByte(Absorb(k, Initial(), msg + Padding(|msg|)), q);
  }

  // ---- padding: section 5.1.2 ----

  /** A one bit, zeros, and the length in bits: the fewest bytes that complete a block. */
  lemma {:induction false} PaddingShape(len: nat)
    ensures var p := Padding(len);
            && 17 <= |p| <= 144 && (len + |p|) % 128 == 0 && p[0] == 0x80
            && (forall i :: 1 <= i < |p| - 16 ==> p[i] == 0)
            && FromBE(p[|p| - 16..]) == 8 * len % 0x1_0000_0000_0000_0000_0000_0000_0000_0000
  {
    var z, bits := (111 - len) % 128, 8 * len % 0x1_0000_0000_0000_0000_0000_0000_0000_0000;
    var p := Padding(len);
    assert p == [0x80] + Zeros(z) + BE(bits, 16);
    assert p[|p| - 16..] == BE(bits, 16);
    Pow256(8);
    FromBEOfBE(bits, 16);
    assert (len + |p|) % 128 == 0 by {
      var u := (111 - len) / 128;
      assert 111 - len == 128 * u + z;
      assert len + |p| == 128 * (1 - u);
      ModUnique(len + |p|, 128, 1 - u, 0);
    }
  }

  // ---- one block: section 6.4.2 ----

  lemma SumsWrap(a: nat, b: nat, c: nat, d: nat, e: nat)
    ensures Add2(a, b) == (a + b) % 0x1_0000_0000_0000_0000
    ensures Add4(a, b, c, d) == (a + b + c + d) % 0x1_0000_0000_0000_0000
    ensures Add5(a, b, c, d, e) == (a + b + c + d + e) % 0x1_0000_0000_0000_0000
  {
  }

  lemma {:induction false} NextEquation(block: Block, t: nat, a: nat, b: nat, c: nat, d: nat)
    requires t >= 16 && a == W(block, t - 2) && b == W(block, t - 7) && c == W(block, t - 15) && d == W(block, t - 16)
    ensures W(block, t) == (SmallSigma1(a) + b + SmallSigma0(c) + d) % 0x1_0000_0000_0000_0000
  {
    assert W(block, t) == Add4(SmallSigma1(a), b, SmallSigma0(c), d);
    SumsWrap(SmallSigma1(a), b, SmallSigma0(c), d, 0);
  }

  /** The schedule as an equation between the entries of the array. */
  lemma {:induction false} ScheduleEquation(w: seq<nat>, block: Block, t: nat)
    requires Scheduled(w, block) && t < |w|
    ensures t < 16 ==> w[t] == FromBE(block[8 * t..8 * t + 8])
    ensures t >= 16 ==>
      w[t] == (SmallSigma1(w[t - 2]) + w[t - 7] + SmallSigma0(w[t - 15]) + w[t - 16]) % 0x1_0000_0000_0000_0000
  {
    assert WordAt(w, block, t);
    if t >= 16 {
      assert WordAt(w, block, t - 2) && WordAt(w, block, t - 7);
      assert WordAt(w, block, t - 15) && WordAt(w, block, t - 16);
      NextEquation(block, t, w[t - 2], w[t - 7], w[t - 15], w[t - 16]);
    }
  }

  lemma {:induction false} FirstSumIs(r: Registers, k: nat, w: nat)
    ensures T1(r, k, w) == (r[7] + BigSigma1(r[4]) + Ch(r[4], r[5], r[6]) + k + w) % 0x1_0000_0000_0000_0000
  {
    SumsWrap(r[7], BigSigma1(r[4]), Ch(r[4], r[5], r[6]), k, w);
  }

  lemma {:induction false} SecondSumIs(r: Registers)
    ensures T2(r) == (BigSigma0(r[0]) + Maj(r[0], r[1], r[2])) % 0x1_0000_0000_0000_0000
  {
    SumsWrap(BigSigma0(r[0]), Maj(r[0], r[1], r[2]), 0, 0, 0);
  }

  lemma RoundIs(r: Registers, t1: nat, t2: nat)
    ensures Round(r, t1, t2) == [(t1 + t2) % 0x1_0000_0000_0000_0000, r[0], r[1], r[2],
                                 (r[3] + t1) % 0x1_0000_0000_0000_0000, r[4], r[5], r[6]]
  {
  }

  /** One round, with the word of the schedule. */
  lemma {:induction false} RoundEquation(k: seq<nat>, block: Block, h: Registers, w: seq<nat>, t: nat, r: Registers)
    requires t < |k| && t < |w| && Scheduled(w, block) && r == Rounds(k, block, h, t)
    ensures var t1 := (r[7] + BigSigma1(r[4]) + Ch(r[4], r[5], r[6]) + k[t] + w[t]) % 0x1_0000_0000_0000_0000;
            var t2 := (BigSigma0(r[0]) + Maj(r[0], r[1], r[2])) % 0x1_0000_0000_0000_0000;
            Rounds(k, block, h, t + 1) == [(t1 + t2) % 0x1_0000_0000_0000_0000, r[0], r[1], r[2],
                                           (r[3] + t1) % 0x1_0000_0000_0000_0000, r[4], r[5], r[6]]
  {
    assert WordAt(w, block, t);
    NextRound(k, block, h, t, r, w[t]);
    FirstSumIs(r, k[t], w[t]);
    SecondSumIs(r);
    RoundIs(r, T1(r, k[t], w[t]), T2(r));
  }

  lemma {:induction false} NextRound(k: seq<nat>, block: Block, h: Registers, t: nat, r: Registers, w: nat)
    requires t < |k| && r == Rounds(k, block, h, t) && w == W(block, t)
    ensures Rounds(k, block, h, t + 1) == Round(r, T1(r, k[t], w), T2(r))
  {
  }

  /** The hash value after one block: the registers after 80 rounds, which start from it, added to it. */
  lemma {:induction false} CompressWord(k: seq<nat>, h: Registers, block: Block, n: nat, i: nat)
    requires |k| == n == 80 && i < 8
    ensures Rounds(k, block, h, 0) == h
    ensures Compress(k, h, block)[i] == (h[i] + Rounds(k, block, h, n)[i]) % 0x1_0000_0000_0000_0000
  {
    CompressRounds(k, h, block);
    AddedWord(h, Rounds(k, block, h, n), i);
  }

  lemma AddedWord(h: Registers, r: Registers, i: nat)
    requires i < 8
    ensures AddRegisters(h, r)[i] == (h[i] + r[i]) % 0x1_0000_0000_0000_0000
  {
  }

  /** Nothing more to hash. */
  lemma {:induction false} AbsorbNothing(k: seq<nat>, h: Registers)
    requires |k| == 80
    ensures Absorb(k, h, []) == h
  {
  }

  // ---- the initial hash value: section 5.3.5 ----

  /** The first 64 bits of the fractional parts of the square roots of the first eight primes. */
  lemma {:induction false} InitialRoots(h: seq<nat>, w: nat)
    requires h == Initial() && w == 0x1_0000_0000_0000_0000
    ensures var r := w + h[0]; r * r <= 2 * (w * w) < (r + 1) * (r + 1)
    ensures var r := w + h[1]; r * r <= 3 * (w * w) < (r + 1) * (r + 1)
    ensures var r := 2 * w + h[2]; r * r <= 5 * (w * w) < (r + 1) * (r + 1)
    ensures var r := 2 * w + h[3]; r * r <= 7 * (w * w) < (r + 1) * (r + 1)
    ensures var r := 3 * w + h[4]; r * r <= 11 * (w * w) < (r + 1) * (r + 1)
    ensures var r := 3 * w + h[5]; r * r <= 13 * (w * w) < (r + 1) * (r + 1)
    ensures var r := 4 * w + h[6]; r * r <= 17 * (w * w) < (r + 1) * (r + 1)
    ensures var r := 4 * w + h[7]; r * r <= 19 * (w * w) < (r + 1) * (r + 1)
  {
  }
}
