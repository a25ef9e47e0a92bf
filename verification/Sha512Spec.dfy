/** SHA-512 as section 6.4 of FIPS 180-4 defines it, over a table of round constants. */
module Sha512Spec {
  import opened Powers
  import opened Words
  import opened Bits
  import opened Bytes

  // ---- big-endian bytes ----

  function BE(x: nat, n: nat): (b: seq<Byte>)
    ensures |b| == n
  {
    if n == 0 then [] else BE(x / 256, n - 1) + [x % 256]
  }

  function FromBE(b: seq<Byte>): nat {
    if |b| == 0 then 0 else 256 * FromBE(b[..|b| - 1]) + b[|b| - 1]
  }

  lemma {:induction false} FromBEBound(b: seq<Byte>)
    ensures FromBE(b) < Pow(256, |b|)
  {
    if |b| > 0 {
      FromBEBound(b[..|b| - 1]);
    }
  }

  /** Byte j of n, most significant first. */
  lemma {:induction false} BEByte(x: nat, n: nat, j: nat)
    requires j < n
    ensures Pow(256, n - 1 - j) > 0 && BE(x, n)[j] == (x / Pow(256, n - 1 - j)) % 256
    decreases n
  {
    if j < n - 1 {
      BEByte(x / 256, n - 1, j);
      Divide256(x, Pow(256, n - 2 - j));
    }
  }

  lemma Divide256(x: nat, h: nat)
    requires h >= 1
    ensures x / 256 / h == x / (256 * h)
  {
    var q := x / 256 / h;
    assert x == 256 * (h * q + (x / 256) % h) + x % 256;
    MulAssoc(256, h, q);
    ModUnique(x, 256 * h, q, 256 * ((x / 256) % h) + x % 256);
  }

  /** Reading back what was written. */
  lemma {:induction false} FromBEOfBE(x: nat, n: nat)
    requires x < Pow(256, n)
    ensures FromBE(BE(x, n)) == x
    decreases n
  {
    if n > 0 {
      FromBEOfBE(x / 256, n - 1);
      assert BE(x, n)[..n - 1] == BE(x / 256, n - 1);
    }
  }

  lemma {:induction false} FromBELast(b: seq<Byte>, n: nat)
    requires 1 <= n <= |b|
    ensures FromBE(b[..n]) == 256 * FromBE(b[..n - 1]) + b[n - 1] as int
  {
    assert b[..n][..n - 1] == b[..n - 1];
  }

  /** Eight bytes weighted by the powers of 256. */
  lemma {:induction false} FromBEWord(b: seq<Byte>)
    requires |b| == 8
    ensures FromBE(b) == 0x100_0000_0000_0000 * (b[0] as int) + 0x1_0000_0000_0000 * (b[1] as int)
      + 0x100_0000_0000 * (b[2] as int) + 0x1_0000_0000 * (b[3] as int) + 0x100_0000 * (b[4] as int)
      + 0x1_0000 * (b[5] as int) + 0x100 * (b[6] as int) + b[7] as int
  {
    FromBELast(b, 1);
    FromBELast(b, 2);
    FromBELast(b, 3);
    FromBELast(b, 4);
    FromBELast(b, 5);
    FromBELast(b, 6);
    FromBELast(b, 7);
    FromBELast(b, 8);
    assert b[..8] == b && b[..0] == [];
  }

  // ---- the functions of section 4.1.3 ----

  /** Rotation to the right by n places, for p = 2^n and q = 2^(64-n): the low n bits move to the top. */
  function Rotr(x: nat, p: nat, q: nat): nat
    requires p >= 1
  {
    x / p + q * (x % p)
  }

  /** The four sums of rotated and shifted words. */
  datatype Sum = Big0 | Big1 | Small0 | Small1

  function SumValue(sum: Sum, x: nat): nat {
    match sum
    case Big0 => Xor(Xor(Rotr(x, 0x1000_0000, 0x10_0000_0000), Rotr(x, 0x4_0000_0000, 0x4000_0000)),
      Rotr(x, 0x80_0000_0000, 0x200_0000))
    case Big1 => Xor(Xor(Rotr(x, 0x4000, 0x4_0000_0000_0000), Rotr(x, 0x4_0000, 0x4000_0000_0000)),
      Rotr(x, 0x200_0000_0000, 0x80_0000))
    case Small0 => Xor(Xor(Rotr(x, 0x2, 0x8000_0000_0000_0000), Rotr(x, 0x100, 0x100_0000_0000_0000)), x / 0x80)
    case Small1 => Xor(Xor(Rotr(x, 0x8_0000, 0x2000_0000_0000), Rotr(x, 0x2000_0000_0000_0000, 0x8)), x / 0x40)
  }

  /** s is the sum; the rotations open only where a proof names Rotate. */
  ghost predicate IsSum(sum: Sum, x: nat, s: nat) {
    forall key: int {:trigger Rotate(key)} :: Rotate(key) ==> s == SumValue(sum, x)
  }

  ghost predicate Rotate(key: int) {
    true
  }

  lemma SumExists(sum: Sum, x: nat)
    ensures exists s: nat :: IsSum(sum, x, s)
  {
    assert IsSum(sum, x, SumValue(sum, x));
  }

  ghost function SumOf(sum: Sum, x: nat): nat {
    SumExists(sum, x);
    var s: nat :| IsSum(sum, x, s);
    s
  }

  lemma SumOpen(sum: Sum, x: nat)
    ensures SumOf(sum, x) == SumValue(sum, x)
  {
    assert Rotate(0);
  }

  ghost function BigSigma0(x: nat): nat {
    SumOf(Big0, x)
  }

  ghost function BigSigma1(x: nat): nat {
    SumOf(Big1, x)
  }

  ghost function SmallSigma0(x: nat): nat {
    SumOf(Small0, x)
  }

  ghost function SmallSigma1(x: nat): nat {
    SumOf(Small1, x)
  }

  /** (x and y) xor (not x and z) */
  function Ch(x: nat, y: nat, z: nat): nat
    requires x < 0x1_0000_0000_0000_0000
  {
    Xor(And(x, y), And(0xffff_ffff_ffff_ffff - x, z))
  }

  /** (x and y) xor (x and z) xor (y and z) */
  function Maj(x: nat, y: nat, z: nat): nat {
    Xor(Xor(And(x, y), And(x, z)), And(y, z))
  }

  // ---- the source's forms of the rotation, Ch and Maj ----

  /** (x >> n) | (x << (64 - n)) */
  function RotrCode(x: nat, p: nat, q: nat): nat
    requires p >= 1
  {
    Or(x / p, U64(x * q))
  }

  function ChCode(x: nat, y: nat, z: nat): nat {
    Xor(z, And(x, Xor(y, z)))
  }

  function MajCode(x: nat, y: nat, z: nat): nat {
    Or(And(Or(x, y), z), And(x, y))
  }

  function ChBits(x: nat, m: nat, y: nat, z: nat): nat {
    Xor(And(x, y), And(m, z))
  }

  lemma ChCodeHalf(x: nat, y: nat, z: nat)
    ensures ChCode(x, y, z) / 2 == ChCode(x / 2, y / 2, z / 2)
    ensures ChCode(x, y, z) % 2 == if x % 2 == 1 then y % 2 else z % 2
  {
    XorHalf(y, z);
    AndHalf(x, Xor(y, z));
    XorHalf(z, And(x, Xor(y, z)));
  }

  lemma ChBitsHalf(x: nat, m: nat, y: nat, z: nat)
    requires m % 2 == 1 - x % 2
    ensures ChBits(x, m, y, z) / 2 == ChBits(x / 2, m / 2, y / 2, z / 2)
    ensures ChBits(x, m, y, z) % 2 == if x % 2 == 1 then y % 2 else z % 2
  {
    AndHalf(x, y);
    AndHalf(m, z);
    XorHalf(And(x, y), And(m, z));
  }

  /** z ^ (x & (y ^ z)) takes y where x is set and z elsewhere, as (x & y) ^ (~x & z) does. */
  lemma {:induction false} ChForm(x: nat, y: nat, z: nat, m: nat, n: nat)
    requires x < Pow2(n) && y < Pow2(n) && z < Pow2(n) && m == Pow2(n) - 1 - x
    ensures ChCode(x, y, z) == ChBits(x, m, y, z)
    decreases n
  {
    if n > 0 {
      assert m / 2 == Pow2(n - 1) - 1 - x / 2 && m % 2 == 1 - x % 2;
      ChForm(x / 2, y / 2, z / 2, m / 2, n - 1);
      ChCodeHalf(x, y, z);
      ChBitsHalf(x, m, y, z);
      HalvesEqual(ChCode(x, y, z), ChBits(x, m, y, z));
    }
  }

  lemma MajCodeHalf(x: nat, y: nat, z: nat)
    ensures MajCode(x, y, z) / 2 == MajCode(x / 2, y / 2, z / 2)
    ensures MajCode(x, y, z) % 2 == if x % 2 + y % 2 + z % 2 >= 2 then 1 else 0
  {
    OrHalf(x, y);
    AndHalf(Or(x, y), z);
    AndHalf(x, y);
    OrHalf(And(Or(x, y), z), And(x, y));
  }

  lemma MajHalf(x: nat, y: nat, z: nat)
    ensures Maj(x, y, z) / 2 == Maj(x / 2, y / 2, z / 2)
    ensures Maj(x, y, z) % 2 == if x % 2 + y % 2 + z % 2 >= 2 then 1 else 0
  {
    AndHalf(x, y);
    AndHalf(x, z);
    AndHalf(y, z);
    XorHalf(And(x, y), And(x, z));
    XorHalf(Xor(And(x, y), And(x, z)), And(y, z));
  }

  /** ((x | y) & z) | (x & y) is the majority bit by bit, as (x & y) ^ (x & z) ^ (y & z) is. */
  lemma {:induction false} MajForm(x: nat, y: nat, z: nat)
    ensures MajCode(x, y, z) == Maj(x, y, z)
    decreases x + y + z
  {
    if x + y + z > 0 {
      MajForm(x / 2, y / 2, z / 2);
      MajCodeHalf(x, y, z);
      MajHalf(x, y, z);
      HalvesEqual(MajCode(x, y, z), Maj(x, y, z));
    }
  }

  /** The two shifts joined by or are the rotation. */
  lemma RotrValue(x: nat, n: nat, p: nat, q: nat)
    requires x < 0x1_0000_0000_0000_0000 && n <= 63 && p == Pow2(n) && q == Pow2(64 - n)
    ensures RotrCode(x, p, q) == Rotr(x, p, q)
  {
    assert p * q == 0x1_0000_0000_0000_0000 by {
      Pow2Of64();
      Pow2Add(n, 64 - n);
    }
    ShiftMod(x, q, p);
    QuotientBound(x, p, q);
    OrDisjoint(x / p, x % p, 64 - n);
  }

  // ---- one block: section 6.4.2 ----

  predicate Words64(s: seq<nat>) {
    forall i :: 0 <= i < |s| ==> s[i] < 0x1_0000_0000_0000_0000
  }

  type Block = b: seq<Byte> | |b| == 128 witness seq(128, _ => 0)

  // Addition modulo 2^64.

  function Add2(a: nat, b: nat): nat {
    U64(a + b)
  }

  function Add4(a: nat, b: nat, c: nat, d: nat): nat {
    U64(a + b + c + d)
  }

  function Add5(a: nat, b: nat, c: nat, d: nat, e: nat): nat {
    U64(a + b + c + d + e)
  }

  /** The message schedule. */
  ghost function W(block: Block, t: nat): nat {
    if t < 16 then FromBE(block[8 * t..8 * t + 8])
    else Add4(SmallSigma1(W(block, t - 2)), W(block, t - 7), SmallSigma0(W(block, t - 15)), W(block, t - 16))
  }

  type Registers = r: seq<nat> | |r| == 8 && Words64(r) witness [0, 0, 0, 0, 0, 0, 0, 0]

  ghost function T1(r: Registers, k: nat, w: nat): nat {
    Add5(r[7], BigSigma1(r[4]), Ch(r[4], r[5], r[6]), k, w)
  }

  ghost function T2(r: Registers): nat {
    Add2(BigSigma0(r[0]), Maj(r[0], r[1], r[2]))
  }

  function Round(r: Registers, t1: nat, t2: nat): Registers {
    [U64(t1 + t2), r[0], r[1], r[2], U64(r[3] + t1), r[4], r[5], r[6]]
  }

  /** The registers after t rounds. */
  ghost function Rounds(k: seq<nat>, block: Block, h: Registers, t: nat): Registers
    requires t <= |k|
  {
    if t == 0 then h
    else
      var r := Rounds(k, block, h, t - 1);
      Round(r, T1(r, k[t - 1], W(block, t - 1)), T2(r))
  }

  function AddRegisters(h: Registers, r: Registers): (s: Registers) {
    seq(8, i requires 0 <= i < 8 => U64(h[i] + r[i]))
  }

  /** r is the hash value after one block; the rounds open only where a proof names Unroll. */
  ghost predicate Compressed(k: seq<nat>, h: Registers, block: Block, r: Registers)
    requires |k| == 80
  {
    forall key: int {:trigger Unroll(key)} :: Unroll(key) ==> r == AddRegisters(h, Rounds(k, block, h, 80))
  }

  ghost predicate Unroll(key: int) {
    true
  }

  lemma CompressedExists(k: seq<nat>, h: Registers, block: Block)
    requires |k| == 80
    ensures exists r: Registers :: Compressed(k, h, block, r)
  {
    assert Compressed(k, h, block, AddRegisters(h, Rounds(k, block, h, 80)));
  }

  ghost function Compress(k: seq<nat>, h: Registers, block: Block): Registers
    requires |k| == 80
  {
    CompressedExists(k, h, block);
    var r: Registers :| Compressed(k, h, block, r);
    r
  }

  lemma CompressRounds(k: seq<nat>, h: Registers, block: Block)
    requires |k| == 80
    ensures Compress(k, h, block) == AddRegisters(h, Rounds(k, block, h, 80))
  {
    assert Unroll(0);
  }

  // ---- a whole message: sections 5.1.2 and 6.4.2 ----

  /** The hash value after the blocks of data. */
  ghost function Absorb(k: seq<nat>, h: Registers, data: seq<Byte>): Registers
    requires |k| == 80
    decreases |data|
  {
    if |data| < 128 then h else Absorb(k, Compress(k, h, data[..128]), data[128..])
  }

  lemma {:induction false} AbsorbAppend(k: seq<nat>, h: Registers, a: seq<Byte>, b: seq<Byte>)
    requires |k| == 80 && |a| % 128 == 0
    ensures Absorb(k, h, a + b) == Absorb(k, Absorb(k, h, a), b)
    decreases |a|
  {
    if |a| == 0 {
      assert a + b == b;
    } else {
      assert (a + b)[..128] == a[..128] && (a + b)[128..] == a[128..] + b;
      AbsorbAppend(k, Compress(k, h, a[..128]), a[128..], b);
    }
  }

  /** The initial hash value of section 5.3.5. */
  function Initial(): Registers {
    [0x6a09_e667_f3bc_c908, 0xbb67_ae85_84ca_a73b, 0x3c6e_f372_fe94_f82b, 0xa54f_f53a_5f1d_36f1,
     0x510e_527f_ade6_82d1, 0x9b05_688c_2b3e_6c1f, 0x1f83_d9ab_fb41_bd6b, 0x5be0_cd19_137e_2179]
  }

  function Zeros(n: nat): (z: seq<Byte>)
    ensures |z| == n
  {
    seq(n, _ => 0)
  }

  /** A one bit, the fewest zeros that fill the last block up to its length field, and the length in bits. */
  function Padding(len: nat): seq<Byte> {
    [0x80] + Zeros((111 - len) % 128) + BE(8 * len % 0x1_0000_0000_0000_0000_0000_0000_0000_0000, 16)
  }

  function StoreAll(h: seq<nat>): (b: seq<Byte>)
    ensures |b| == 8 * |h|
  {
    if |h| == 0 then [] else StoreAll(h[..|h| - 1]) + BE(h[|h| - 1], 8)
  }

  /** Byte j of word i, the first word first. */
  lemma {:induction false} StoreAllByte(h: seq<nat>, i: nat, j: nat)
    requires i < |h| && j < 8
    ensures Pow(256, 7 - j) > 0 && StoreAll(h)[8 * i + j] == (h[i] / Pow(256, 7 - j)) % 256
  {
    var n := |h| - 1;
    BEByte(h[i], 8, j);
    if i < n {
      StoreAllByte(h[..n], i, j);
    }
  }

  ghost function Digest(k: seq<nat>, msg: seq<Byte>): (d: seq<Byte>)
    requires |k| == 80
    ensures |d| == 64
  {
    StoreAll(Absorb(k, Initial(), msg + Padding(|msg|)))
  }

  lemma {:induction false} BESplit(hi: nat, lo: nat, n: nat, m: nat)
    requires lo < Pow(256, n)
    ensures BE(Pow(256, n) * hi + lo, m + n) == BE(hi, m) + BE(lo, n)
    decreases n
  {
    if n == 0 {
      assert BE(lo, 0) == [];
    } else {
      var p := Pow(256, n - 1);
      assert Pow(256, n) * hi == 256 * (p * hi) by { MulAssoc(256, p, hi); }
      BESplit(hi, lo / 256, n - 1, m);
      var x := Pow(256, n) * hi + lo;
      assert x / 256 == p * hi + lo / 256 && x % 256 == lo % 256;
    }
  }
}
