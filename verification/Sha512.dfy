/** The streaming SHA-512 of the reference build. */
module Sha512 {
  import opened Powers
  import opened Words
  import opened Bits
  import opened Bytes
  import opened Sha512Spec

  // ---- one block ----

  /** sha512_ROTR64 */
  method Rotr64(x: nat, n: nat, p: nat, q: nat) returns (r: nat)
    requires x < 0x1_0000_0000_0000_0000 && n <= 63 && p == Pow2(n) && q == Pow2(64 - n)
    ensures r == Rotr(x, p, q)
  {
    RotrValue(x, n, p, q);
    r := RotrCode(x, p, q);
  }

  /** The rotation distances of the two large sums. */
  lemma LargeDistances()
    ensures Pow2(28) == 0x1000_0000 && Pow2(36) == 0x10_0000_0000 && Pow2(34) == 0x4_0000_0000
      && Pow2(30) == 0x4000_0000
    ensures Pow2(39) == 0x80_0000_0000 && Pow2(25) == 0x200_0000 && Pow2(14) == 0x4000 && Pow2(50) == 0x4_0000_0000_0000
    ensures Pow2(18) == 0x4_0000 && Pow2(46) == 0x4000_0000_0000 && Pow2(41) == 0x200_0000_0000 && Pow2(23) == 0x80_0000
  {
    Pow2Table();
    Pow2Sum(12, 0x1000, 16, 0x1_0000);
    Pow2Sum(12, 0x1000, 24, 0x100_0000);
    Pow2Sum(8, 0x100, 26, 0x400_0000);
    Pow2Sum(24, 0x100_0000, 6, 0x40);
    Pow2Sum(8, 0x100, 6, 0x40);
    Pow2Sum(48, 0x1_0000_0000_0000, 2, 4);
    Pow2Sum(16, 0x1_0000, 2, 4);
    Pow2Sum(40, 0x100_0000_0000, 6, 0x40);
    Pow2Sum(40, 0x100_0000_0000, 1, 2);
    Pow2Sum(16, 0x1_0000, 7, 0x80);
  }

  /** The rotation distances of the two small sums. */
  lemma SmallDistances()
    ensures Pow2(1) == 2 && Pow2(63) == 0x8000_0000_0000_0000 && Pow2(8) == 0x100 && Pow2(56) == 0x100_0000_0000_0000
    ensures Pow2(19) == 0x8_0000 && Pow2(45) == 0x2000_0000_0000 && Pow2(61) == 0x2000_0000_0000_0000 && Pow2(3) == 8
  {
    Pow2Table();
    Pow2Sum(51, 0x8_0000_0000_0000, 12, 0x1000);
    Pow2Sum(16, 0x1_0000, 3, 8);
    Pow2Sum(40, 0x100_0000_0000, 5, 0x20);
    Pow2Sum(56, 0x100_0000_0000_0000, 5, 0x20);
  }

  /** The macro S0 of the source. */
  method BigSigma0Word(x: nat) returns (s: nat)
    requires x < 0x1_0000_0000_0000_0000
    ensures s == BigSigma0(x)
  {
    SumOpen(Big0, x);
    LargeDistances();
    var a := Rotr64(x, 28, 0x1000_0000, 0x10_0000_0000);
    var b := Rotr64(x, 34, 0x4_0000_0000, 0x4000_0000);
    var c := Rotr64(x, 39, 0x80_0000_0000, 0x200_0000);
    s := Xor(Xor(a, b), c);
  }

  /** The macro S1 of the source. */
  method BigSigma1Word(x: nat) returns (s: nat)
    requires x < 0x1_0000_0000_0000_0000
    ensures s == BigSigma1(x)
  {
    SumOpen(Big1, x);
    LargeDistances();
    var a := Rotr64(x, 14, 0x4000, 0x4_0000_0000_0000);
    var b := Rotr64(x, 18, 0x4_0000, 0x4000_0000_0000);
    var c := Rotr64(x, 41, 0x200_0000_0000, 0x80_0000);
    s := Xor(Xor(a, b), c);
  }

  /** The macro G0 of the source. */
  method SmallSigma0Word(x: nat) returns (s: nat)
    requires x < 0x1_0000_0000_0000_0000
    ensures s == SmallSigma0(x)
  {
    SumOpen(Small0, x);
    SmallDistances();
    var a := Rotr64(x, 1, 0x2, 0x8000_0000_0000_0000);
    var b := Rotr64(x, 8, 0x100, 0x100_0000_0000_0000);
    s := Xor(Xor(a, b), x / 0x80);
  }

  /** The macro G1 of the source. */
  method SmallSigma1Word(x: nat) returns (s: nat)
    requires x < 0x1_0000_0000_0000_0000
    ensures s == SmallSigma1(x)
  {
    SumOpen(Small1, x);
    SmallDistances();
    var a := Rotr64(x, 19, 0x8_0000, 0x2000_0000_0000);
    var b := Rotr64(x, 61, 0x2000_0000_0000_0000, 0x8);
    s := Xor(Xor(a, b), x / 0x40);
  }

  lemma {:induction false} ScheduleBound(block: Block, t: nat)
    ensures W(block, t) < 0x1_0000_0000_0000_0000
  {
    if t < 16 {
      FromBEBound(block[8 * t..8 * t + 8]);
      Pow256To8();
    }
  }

  lemma Pow256To8()
    ensures Pow(256, 8) == 0x1_0000_0000_0000_0000
  {
    assert Pow(256, 4) == 0x1_0000_0000;
    PowAdd(256, 4, 4);
  }

  /** Word t of w is word t of the schedule. */
  ghost predicate WordAt(w: seq<nat>, block: Block, t: nat)
    requires t < |w|
  {
    w[t] == W(block, t)
  }

  /** The words of w begin the schedule of the block. */
  ghost predicate Scheduled(w: seq<nat>, block: Block) {
    forall t :: 0 <= t < |w| ==> WordAt(w, block, t)
  }

  lemma ScheduledNext(w: seq<nat>, x: nat, block: Block)
    requires Scheduled(w, block) && x == W(block, |w|)
    ensures Scheduled(w + [x], block)
  {
    forall t | 0 <= t < |w| + 1 ensures WordAt(w + [x], block, t) {
      if t < |w| {
        assert WordAt(w, block, t);
      }
    }
  }

  /** sha512_LOAD64_BE */
  method Load64(b: seq<Byte>) returns (x: nat)
    requires |b| == 8
    ensures x == FromBE(b)
  {
    FromBEWord(b);
    x := 0x100_0000_0000_0000 * (b[0] as int) + 0x1_0000_0000_0000 * (b[1] as int) + 0x100_0000_0000 * (b[2] as int)
      + 0x1_0000_0000 * (b[3] as int) + 0x100_0000 * (b[4] as int) + 0x1_0000 * (b[5] as int) + 0x100 * (b[6] as int)
      + b[7] as int;
  }

  /** sha512_STORE64_BE */
  method Bytes64(v: nat) returns (b: seq<Byte>)
    ensures b == BE(v, 8)
  {
    b := [(v / 0x100_0000_0000_0000) % 256, (v / 0x1_0000_0000_0000) % 256, (v / 0x100_0000_0000) % 256,
          (v / 0x1_0000_0000) % 256, (v / 0x100_0000) % 256, (v / 0x1_0000) % 256, (v / 0x100) % 256, v % 256];
    forall j | 0 <= j < 8 ensures b[j] == BE(v, 8)[j] {
      BEByte(v, 8, j);
      Pow256Small(7 - j);
    }
  }

  /** The weights of the bytes of a word. */
  lemma Pow256Small(n: nat)
    requires n < 8
    ensures Pow(256, n) == [1, 0x100, 0x1_0000, 0x100_0000, 0x1_0000_0000, 0x100_0000_0000, 0x1_0000_0000_0000,
                            0x100_0000_0000_0000][n]
  {
    assert Pow(256, 1) == 256 && Pow(256, 2) == 256 * Pow(256, 1) && Pow(256, 3) == 256 * Pow(256, 2);
    assert Pow(256, 4) == 256 * Pow(256, 3) && Pow(256, 5) == 256 * Pow(256, 4) && Pow(256, 6) == 256 * Pow(256, 5);
    assert Pow(256, 7) == 256 * Pow(256, 6);
  }

  /** One of the first 16 words. */
  method LoadWord(block: Block, i: nat) returns (x: nat)
    requires i < 16
    ensures x == W(block, i)
  {
    x := Load64(block[8 * i..8 * i + 8]);
  }

  /** The macro W1 of the source. */
  method NextWord(w: seq<nat>, ghost block: Block) returns (x: nat)
    requires 16 <= |w| && Scheduled(w, block)
    ensures x == W(block, |w|)
  {
    var i := |w|;
    assert WordAt(w, block, i - 2) && WordAt(w, block, i - 7) && WordAt(w, block, i - 15) && WordAt(w, block, i - 16);
    ScheduleBound(block, i - 2);
    ScheduleBound(block, i - 15);
    var s1 := SmallSigma1Word(w[i - 2]);
    var s0 := SmallSigma0Word(w[i - 15]);
    x := Add4(s1, w[i - 7], s0, w[i - 16]);
  }

  method StoreWord(w: array<nat>, i: nat, x: nat, ghost block: Block)
    requires i < w.Length && Scheduled(w[..i], block) && x == W(block, i)
    modifies w
    ensures Scheduled(w[..i + 1], block)
  {
    ScheduledNext(w[..i], x, block);
    ghost var before := w[..i];
    w[i] := x;
    assert w[..i + 1] == before + [x];
  }

  /** The schedule array, filled from the block and then from itself. */
  method FillSchedule(w: array<nat>, block: Block)
    requires w.Length == 80
    modifies w
    ensures Scheduled(w[..80], block)
  {
    var i := 0;
    while i < 16
      invariant 0 <= i <= 16 && Scheduled(w[..i], block)
    {
      var x := LoadWord(block, i);
      StoreWord(w, i, x, block);
      i := i + 1;
    }
    while i < 80
      invariant 16 <= i <= 80 && Scheduled(w[..i], block)
    {
      var x := NextWord(w[..i], block);
      StoreWord(w, i, x, block);
      i := i + 1;
    }
  }

  /** The macro Ch of the source. */
  method ChWord(x: nat, y: nat, z: nat) returns (c: nat)
    requires x < 0x1_0000_0000_0000_0000 && y < 0x1_0000_0000_0000_0000 && z < 0x1_0000_0000_0000_0000
    ensures c == Ch(x, y, z)
  {
    Pow2Of64();
    ChForm(x, y, z, 0xffff_ffff_ffff_ffff - x, 64);
    c := ChCode(x, y, z);
  }

  /** The macro Maj of the source. */
  method MajWord(x: nat, y: nat, z: nat) returns (m: nat)
    ensures m == Maj(x, y, z)
  {
    MajForm(x, y, z);
    m := MajCode(x, y, z);
  }

  method FirstSum(r: Registers, k: nat, w: nat) returns (t: nat)
    ensures t == T1(r, k, w)
  {
    var c := ChWord(r[4], r[5], r[6]);
    var s := BigSigma1Word(r[4]);
    t := Add5(r[7], s, c, k, w);
  }

  method SecondSum(r: Registers) returns (t: nat)
    ensures t == T2(r)
  {
    var m := MajWord(r[0], r[1], r[2]);
    var s := BigSigma0Word(r[0]);
    t := Add2(s, m);
  }

  method AddWord(x: nat, y: nat) returns (z: nat)
    ensures z == U64(x + y) && z < 0x1_0000_0000_0000_0000
  {
    z := U64(x + y);
  }

  lemma RoundEntries(x: seq<nat>, r: Registers, t0: nat, t1: nat)
    requires |x| == 8 && x[0] == U64(t0 + t1) && x[4] == U64(r[3] + t0)
    requires forall i :: 1 <= i < 8 && i != 4 ==> x[i] == r[i - 1]
    ensures x == Round(r, t0, t1)
  {
  }

  /** The registers move down one place in the array. */
  method Shift(r: array<nat>, t0: nat, t1: nat)
    requires r.Length == 8 && Words64(r[..])
    modifies r
    ensures Words64(r[..]) && r[..] == Round(old(r[..]), t0, t1)
  {
    r[7] := r[6];
    r[6] := r[5];
    r[5] := r[4];
    r[4] := AddWord(r[3], t0);
    r[3] := r[2];
    r[2] := r[1];
    r[1] := r[0];
    r[0] := AddWord(t0, t1);
    RoundEntries(r[..], old(r[..]), t0, t1);
  }

  method RoundLoop(r: array<nat>, k: seq<nat>, w: array<nat>, ghost block: Block, ghost h: Registers)
    requires r.Length == 8 && r[..] == h && |k| == w.Length == 80 && r != w
    requires Scheduled(w[..80], block)
    modifies r
    ensures Words64(r[..]) && r[..] == Rounds(k, block, h, 80)
  {
    var i := 0;
    while i < 80
      invariant 0 <= i <= 80 && Words64(r[..]) && r[..] == Rounds(k, block, h, i)
      invariant Scheduled(w[..80], block)
    {
      assert WordAt(w[..80], block, i);
      var t1 := SecondSum(r[..]);
      var t0 := FirstSum(r[..], k[i], w[i]);
      Shift(r, t0, t1);
      i := i + 1;
    }
  }

  method AddState(r: array<nat>, h: array<nat>)
    requires r.Length == h.Length == 8 && r != h && Words64(r[..]) && Words64(h[..])
    modifies r, h
    ensures Words64(h[..]) && h[..] == AddRegisters(old(h[..]), old(r[..])) && r[..] == h[..]
  {
    var i := 0;
    while i < 8
      invariant 0 <= i <= 8
      invariant forall j :: 0 <= j < i ==> h[j] == r[j] == U64(old(h[j]) + old(r[j]))
      invariant forall j :: i <= j < 8 ==> h[j] == old(h[j]) && r[j] == old(r[j])
    {
      r[i] := AddWord(h[i], r[i]);
      h[i] := r[i];
      i := i + 1;
    }
    assert h[..] == AddRegisters(old(h[..]), old(r[..]));
  }

  // ---- the bit counter ----

  /** T holds the number of bits of n whole blocks, modulo 2^128. */
  ghost predicate Counts(t: seq<nat>, n: nat) {
    && |t| == 2 && t[0] < 0x1_0000_0000_0000_0000 && t[1] < 0x1_0000_0000_0000_0000 && n % 128 == 0
    && t[0] + 0x1_0000_0000_0000_0000 * t[1] == 8 * n % 0x1_0000_0000_0000_0000_0000_0000_0000_0000
  }

  lemma CountMultiple(t0: nat, t1: nat, n: nat)
    requires n % 128 == 0 && t0 + 0x1_0000_0000_0000_0000 * t1 == 8 * n % 0x1_0000_0000_0000_0000_0000_0000_0000_0000
    ensures t0 % 1024 == 0
  {
    var b, q := n / 128, 8 * n / 0x1_0000_0000_0000_0000_0000_0000_0000_0000;
    var c := b - 0x40_0000_0000_0000_0000_0000_0000_0000 * q - 0x40_0000_0000_0000 * t1;
    assert t0 == 1024 * c;
  }

  /** Wrapping the low word around carries into the high word, and it wraps exactly to zero. */
  lemma CountStep(t0: nat, t1: nat, n: nat)
    requires Counts([t0, t1], n)
    ensures var u := U64(t0 + 1024); Counts([u, U64(t1 + if u == 0 then 1 else 0)], n + 128)
  {
    CountMultiple(t0, t1, n);
    var u := U64(t0 + 1024);
    var v := U64(t1 + if u == 0 then 1 else 0);
    var total := 8 * n % 0x1_0000_0000_0000_0000_0000_0000_0000_0000;
    var q := 8 * n / 0x1_0000_0000_0000_0000_0000_0000_0000_0000;
    if u == 0 {
      assert t0 == 0xffff_ffff_ffff_fc00;
      if t1 == 0xffff_ffff_ffff_ffff {
        ModUnique(8 * (n + 128), 0x1_0000_0000_0000_0000_0000_0000_0000_0000, q + 1, 0);
      } else {
        ModUnique(8 * (n + 128), 0x1_0000_0000_0000_0000_0000_0000_0000_0000, q, total + 1024);
      }
    } else {
      ModUnique(8 * (n + 128), 0x1_0000_0000_0000_0000_0000_0000_0000_0000, q, total + 1024);
    }
  }

  method CountBlock(T: array<nat>, ghost n: nat)
    requires T.Length == 2 && Counts(T[..], n)
    modifies T
    ensures Counts(T[..], n + 128)
  {
    assert T[..] == [T[0], T[1]];
    CountStep(T[0], T[1], n);
    T[0] := U64(T[0] + 1024);
    T[1] := U64(T[1] + if T[0] == 0 then 1 else 0);
    assert T[..] == [T[0], T[1]];
  }

  method CopyState(H: array<nat>) returns (r: array<nat>)
    requires H.Length == 8
    ensures fresh(r) && r[..] == H[..]
  {
    r := new nat[8];
    var i := 0;
    while i < 8
      invariant 0 <= i <= 8 && forall j :: 0 <= j < i ==> r[j] == H[j]
    {
      r[i] := H[i];
      i := i + 1;
    }
  }

  method RunRounds(r: array<nat>, k: seq<nat>, block: Block, ghost h: Registers)
    requires r.Length == 8 && r[..] == h && |k| == 80
    modifies r
    ensures Words64(r[..]) && r[..] == Rounds(k, block, h, 80)
  {
    var w := new nat[80];
    FillSchedule(w, block);
    RoundLoop(r, k, w, block, h);
  }

  /** The hash value after one block. */
  method CompressBlock(H: array<nat>, k: seq<nat>, block: Block)
    requires H.Length == 8 && Words64(H[..]) && |k| == 80
    modifies H
    ensures Words64(H[..]) && H[..] == Compress(k, old(H[..]), block)
  {
    CompressRounds(k, H[..], block);
    var r := CopyState(H);
    RunRounds(r, k, block, H[..]);
    AddState(r, H);
  }

  /** The words of the hash value one after the other, each from its most significant byte on. */
  method StoreWords(h: seq<nat>) returns (hash: seq<Byte>)
    requires |h| == 8
    ensures hash == StoreAll(h)
  {
    hash := [];
    var i := 0;
    while i < 8
      invariant 0 <= i <= 8 && hash == StoreAll(h[..i])
    {
      var b := Bytes64(h[i]);
      hash := hash + b;
      assert h[..i + 1][..i] == h[..i];
      i := i + 1;
    }
    assert h[..8] == h;
  }

  lemma {:induction false} StoredByte(h: seq<nat>, q: nat)
    requires |h| == 8 && q < 64
    ensures Pow(256, 7 - q % 8) > 0 && StoreAll(h)[q] == (h[q / 8] / Pow(256, 7 - q % 8)) % 256
  {
    StoreAllByte(h, q / 8, q % 8);
  }

  lemma {:induction false} Digested(k: seq<nat>, msg: seq<Byte>, h: Registers, hash: seq<Byte>)
    requires |k| == 80 && h == Absorb(k, Initial(), msg + Padding(|msg|)) && hash == StoreAll(h)
    ensures hash == Digest(k, msg) && forall q :: 0 <= q < 64 ==> hash[q] == (h[q / 8] / Pow(256, 7 - q % 8)) % 256
  {
    forall q | 0 <= q < 64 ensures hash[q] == (h[q / 8] / Pow(256, 7 - q % 8)) % 256 {
      StoredByte(h, q);
    }
  }

  // ---- the context ----

  class State {
    const k: seq<nat>
    const H: array<nat>
    const T: array<nat>
    var leftover: nat
    const buffer: array<Byte>

    ghost predicate Shape()
      reads this
    {
      |k| == 80 && H.Length == 8 && T.Length == 2 && H != T && buffer.Length == 128
    }

    /** The whole blocks of done have been hashed and counted. */
    ghost predicate Hashed(done: seq<Byte>)
      reads this, H, T
    {
      Shape() && Words64(H[..]) && |done| % 128 == 0 && H[..] == Sha512Spec.Absorb(k, Initial(), done)
        && Counts(T[..], |done|)
    }

    /** What was fed in is msg: its whole blocks are hashed and the rest is in the buffer. */
    ghost predicate Holds(msg: seq<Byte>)
      reads this, H, T, buffer
    {
      && Shape() && leftover == |msg| % 128
      && Hashed(msg[..|msg| - leftover]) && buffer[..leftover] == msg[|msg| - leftover..]
    }

    /** ed25519_hash_init */
    constructor (constants: seq<nat>)
      requires |constants| == 80
      ensures k == constants && Holds([]) && fresh(H) && fresh(T) && fresh(buffer)
    {
      k := constants;
      H := new nat[8](i requires 0 <= i < 8 => Initial()[i]);
      T := new nat[2](_ => 0);
      buffer := new Byte[128](_ => 0);
      leftover := 0;
      new;
      assert H[..] == Initial();
    }

    /** One turn of sha512_blocks. */
    method OneBlock(block: Block, ghost done: seq<Byte>)
      requires Hashed(done)
      modifies H, T
      ensures Hashed(done + block)
    {
      AbsorbAppend(k, Initial(), done, block);
      AbsorbOne(k, H[..], block);
      CompressBlock(H, k, block);
      CountBlock(T, |done|);
    }

    /** sha512_blocks over whole blocks of the input. */
    method Blocks(inp: seq<Byte>, ghost done: seq<Byte>)
      requires Hashed(done) && |inp| % 128 == 0
      modifies H, T
      ensures Hashed(done + inp)
    {
      var blocks, at := |inp| / 128, 0;
      assert done + inp[..0] == done;
      while blocks != 0
        invariant 0 <= blocks && at == |inp| - 128 * blocks && 0 <= at
        invariant Hashed(done + inp[..at])
        decreases blocks
      {
        OneBlock(inp[at..at + 128], done + inp[..at]);
        assert done + inp[..at] + inp[at..at + 128] == done + inp[..at + 128];
        blocks := blocks - 1;
        at := at + 128;
      }
      assert inp[..at] == inp;
    }

    /** The input that completes a block goes to the buffer; inp is what has not been taken. */
    method FillBuffer(inp: seq<Byte>, ghost msg: seq<Byte>) returns (want: nat)
      requires Holds(msg) && leftover > 0
      modifies this`leftover, buffer
      ensures want == (if 128 - old(leftover) < |inp| then 128 - old(leftover) else |inp|)
        && leftover == old(leftover) + want
      ensures buffer[..leftover] == msg[|msg| - old(leftover)..] + inp[..want]
    {
      want := 128 - leftover;
      want := if want < |inp| then want else |inp|;
      var i := 0;
      while i < want
        invariant 0 <= i <= want && leftover == old(leftover)
        invariant buffer[..leftover + i] == msg[|msg| - leftover..] + inp[..i]
      {
        buffer[leftover + i] := inp[i];
        i := i + 1;
      }
      leftover := leftover + want;
    }

    /** What is left of the input after the whole blocks goes to the start of the buffer. */
    method KeepRest(inp: seq<Byte>)
      requires Shape() && |inp| < 128
      modifies this`leftover, buffer
      ensures leftover == |inp| && buffer[..leftover] == inp
    {
      leftover := |inp|;
      var i := 0;
      while i < leftover
        invariant 0 <= i <= leftover == |inp| && buffer[..i] == inp[..i]
      {
        buffer[i] := inp[i];
        i := i + 1;
      }
    }

    /** Handles the previous data: fills the buffer and, if a block is complete, hashes it. */
    method Complete(inp: seq<Byte>, ghost msg: seq<Byte>) returns (full: bool, want: nat)
      requires Holds(msg) && leftover > 0
      modifies this`leftover, H, T, buffer
      ensures want <= |inp|
      ensures if full then Hashed(msg + inp[..want]) else Holds(msg + inp)
    {
      ghost var had, done := leftover, msg[..|msg| - leftover];
      want := FillBuffer(inp, msg);
      full := leftover == 128;
      if full {
        BlockCompleted(msg, inp, had, want);
        assert buffer[..128] == buffer[..];
        OneBlock(buffer[..], done);
      } else {
        StillPartial(msg, inp, had);
      }
    }

    /** Handles the current data: whole blocks are hashed, the rest is kept. */
    method TakeBlocks(inp: seq<Byte>, ghost done: seq<Byte>)
      requires Hashed(done)
      modifies this`leftover, H, T, buffer
      ensures Holds(done + inp)
    {
      var blocks := |inp| - |inp| % 128;
      RestSplit(done, inp, blocks);
      Blocks(inp[..blocks], done);
      KeepRest(inp[blocks..]);
    }

    /** ed25519_hash_update: for every state and every input the context then holds the longer message. */
    method Update(inp: seq<Byte>, ghost msg: seq<Byte>)
      requires Holds(msg)
      modifies this`leftover, H, T, buffer
      ensures Holds(msg + inp)
    {
      if leftover > 0 {
        var full, want := Complete(inp, msg);
        if full {
          TakeBlocks(inp[want..], msg + inp[..want]);
          assert msg + inp[..want] + inp[want..] == msg + inp;
        }
      } else {
        assert msg[..|msg|] == msg;
        TakeBlocks(inp, msg);
      }
    }

    /** memset of buffer[from..to] to zero. */
    method Clear(from: nat, to: nat)
      requires Shape() && from <= to <= 128
      modifies buffer
      ensures buffer[..from] == old(buffer[..from]) && buffer[from..to] == Zeros(to - from)
    {
      var i := from;
      while i < to
        invariant from <= i <= to
        invariant buffer[..from] == old(buffer[..from])
        invariant forall j :: from <= j < i ==> buffer[j] == 0
      {
        buffer[i] := 0;
        i := i + 1;
      }
    }

    /** sha512_STORE64_BE into the buffer. */
    method Store64(at: nat, v: nat)
      requires Shape() && at + 8 <= 128
      modifies buffer
      ensures buffer[..at] == old(buffer[..at]) && buffer[at..at + 8] == BE(v, 8)
    {
      var b := Bytes64(v);
      var i := 0;
      while i < 8
        invariant 0 <= i <= 8 && buffer[..at] == old(buffer[..at])
        invariant forall j :: 0 <= j < i ==> buffer[at + j] == b[j]
      {
        buffer[at + i] := b[i];
        i := i + 1;
      }
    }

    /** The one bit and the zeros after the kept bytes, up to position end. */
    method PadTail(end: nat, ghost tail: seq<Byte>)
      requires Shape() && leftover < end <= 128 && buffer[..leftover] == tail
      modifies buffer
      ensures buffer[..end] == tail + [0x80] + Zeros(end - leftover - 1)
    {
      buffer[leftover] := 0x80;
      assert buffer[..leftover + 1] == tail + [0x80];
      Clear(leftover + 1, end);
      assert buffer[..end] == buffer[..leftover + 1] + buffer[leftover + 1..end];
    }

    /** The last block: the length field goes behind 112 bytes. */
    method LastBlock(t0: nat, t1: nat, ghost head: seq<Byte>, ghost done: seq<Byte>)
      requires Hashed(done) && buffer[..112] == head
      modifies buffer, H, T
      ensures Hashed(done + (head + BE(t1, 8) + BE(t0, 8)))
    {
      Store64(112, t1);
      assert buffer[..120] == buffer[..112] + buffer[112..120];
      Store64(120, t0);
      assert buffer[..] == buffer[..120] + buffer[120..128];
      OneBlock(buffer[..], done);
    }

    /** The padding fits into the block of the tail. */
    method PadOne(t0: nat, t1: nat, ghost tail: seq<Byte>, ghost done: seq<Byte>)
      requires Hashed(done) && leftover <= 111 && buffer[..leftover] == tail
      modifies buffer, H, T
      ensures Hashed(done + (tail + [0x80] + Zeros(111 - leftover) + BE(t1, 8) + BE(t0, 8)))
    {
      PadTail(112, tail);
      LastBlock(t0, t1, tail + [0x80] + Zeros(111 - leftover), done);
    }

    /** The length field needs a block of its own. */
    method PadTwo(t0: nat, t1: nat, ghost tail: seq<Byte>, ghost done: seq<Byte>)
      requires Hashed(done) && 111 < leftover < 128 && buffer[..leftover] == tail
      modifies buffer, H, T
      ensures Hashed(done + (tail + [0x80] + Zeros(127 - leftover)) + (Zeros(112) + BE(t1, 8) + BE(t0, 8)))
    {
      PadTail(128, tail);
      assert buffer[..128] == buffer[..];
      ghost var first := tail + [0x80] + Zeros(127 - leftover);
      OneBlock(buffer[..], done);
      Clear(0, 112);
      assert buffer[..112] == buffer[0..112];
      LastBlock(t0, t1, Zeros(112), done + first);
    }

    /** ed25519_hash_final: the digest of everything that was fed in, however it was cut up. */
    method Final(ghost msg: seq<Byte>) returns (hash: seq<Byte>)
      requires Holds(msg)
      modifies H, T, buffer
      ensures hash == Digest(k, msg)
      ensures var h := Absorb(k, Initial(), msg + Padding(|msg|));
              forall q :: 0 <= q < 64 ==> hash[q] == (h[q / 8] / Pow(256, 7 - q % 8)) % 256
    {
      var t0, t1 := U64(T[0] + leftover * 8), T[1];
      ghost var l := leftover;
      ghost var done, tail := msg[..|msg| - l], msg[|msg| - l..];
      assert [T[0], T[1]] == T[..];
      LastBytes(T[0], T[1], msg, l);
      if leftover <= 111 {
        PadOne(t0, t1, tail, done);
      } else {
        PadTwo(t0, t1, tail, done);
      }
      assert Hashed(msg + Padding(|msg|));
      hash := StoreWords(H[..]);
      Digested(k, msg, H[..], hash);
    }
  }

  /** The bits of the partial block are added without a carry out of the low word. */
  lemma LengthBits(t0: nat, t1: nat, len: nat, l: nat)
    requires l < 128 && l <= len && Counts([t0, t1], len - l)
    ensures U64(t0 + l * 8) == t0 + 8 * l
    ensures 8 * len % 0x1_0000_0000_0000_0000_0000_0000_0000_0000 == 0x1_0000_0000_0000_0000 * t1 + (t0 + 8 * l)
  {
    CountMultiple(t0, t1, len - l);
    assert t0 <= 0xffff_ffff_ffff_fc00;
    var q := 8 * (len - l) / 0x1_0000_0000_0000_0000_0000_0000_0000_0000;
    var total := 8 * (len - l) % 0x1_0000_0000_0000_0000_0000_0000_0000_0000;
    ModUnique(8 * len, 0x1_0000_0000_0000_0000_0000_0000_0000_0000, q, total + 8 * l);
  }

  /** The message with its padding, cut where the last full block ends. */
  lemma LastBytes(t0: nat, t1: nat, msg: seq<Byte>, l: nat)
    requires l == |msg| % 128 && Counts([t0, t1], |msg| - l)
    ensures var done, tail, f, g := msg[..|msg| - l], msg[|msg| - l..], BE(t1, 8), BE(U64(t0 + l * 8), 8);
            msg + Padding(|msg|) ==
              if l <= 111 then done + (tail + [0x80] + Zeros(111 - l) + f + g)
              else done + (tail + [0x80] + Zeros(127 - l)) + (Zeros(112) + f + g)
  {
    LengthField(t0, t1, |msg|, l);
    PaddingZeros(|msg|, l);
    PaddedMessage(msg, l, if l <= 111 then 111 - l else (127 - l) + 112, BE(t1, 8), BE(U64(t0 + l * 8), 8));
  }

  lemma TwoWords(x: nat, hi: nat, lo: nat)
    requires x == 0x1_0000_0000_0000_0000 * hi + lo && lo < 0x1_0000_0000_0000_0000
    ensures BE(x, 16) == BE(hi, 8) + BE(lo, 8)
  {
    Pow256(0);
    BESplit(hi, lo, 8, 8);
  }

  lemma LengthField(t0: nat, t1: nat, len: nat, l: nat)
    requires l < 128 && l <= len && Counts([t0, t1], len - l)
    ensures BE(8 * len % 0x1_0000_0000_0000_0000_0000_0000_0000_0000, 16) == BE(t1, 8) + BE(U64(t0 + l * 8), 8)
  {
    LengthBits(t0, t1, len, l);
    TwoWords(8 * len % 0x1_0000_0000_0000_0000_0000_0000_0000_0000, t1, U64(t0 + l * 8));
  }

  lemma OneMoreBlock(done: seq<Byte>, tail: seq<Byte>, z: seq<Byte>, f: seq<Byte>, g: seq<Byte>)
    ensures (done + tail) + ([0x80] + z + (f + g)) == done + (tail + [0x80] + z + f + g)
  {
  }

  lemma TwoMoreBlocks(done: seq<Byte>, tail: seq<Byte>, y: seq<Byte>, z: seq<Byte>, f: seq<Byte>, g: seq<Byte>)
    ensures (done + tail) + ([0x80] + (y + z) + (f + g)) == done + (tail + [0x80] + y) + (z + f + g)
  {
  }

  lemma PaddingZeros(len: nat, l: nat)
    requires l == len % 128
    ensures (111 - len) % 128 == if l <= 111 then 111 - l else (127 - l) + 112
  {
    if l <= 111 {
      ModUnique(111 - len, 128, -(len / 128), 111 - l);
    } else {
      ModUnique(111 - len, 128, -(len / 128) - 1, 239 - l);
    }
  }

  /** The padded message is the whole blocks and one or two more. */
  lemma PaddedMessage(msg: seq<Byte>, l: nat, z: nat, f: seq<Byte>, g: seq<Byte>)
    requires l <= |msg| && l < 128 && z == (if l <= 111 then 111 - l else (127 - l) + 112)
    requires Padding(|msg|) == [0x80] + Zeros(z) + (f + g)
    ensures var done, tail := msg[..|msg| - l], msg[|msg| - l..];
            msg + Padding(|msg|) ==
              if l <= 111 then done + (tail + [0x80] + Zeros(111 - l) + f + g)
              else done + (tail + [0x80] + Zeros(127 - l)) + (Zeros(112) + f + g)
  {
    var done, tail := msg[..|msg| - l], msg[|msg| - l..];
    assert msg == done + tail;
    if l <= 111 {
      OneMoreBlock(done, tail, Zeros(111 - l), f, g);
    } else {
      assert Zeros((127 - l) + 112) == Zeros(127 - l) + Zeros(112);
      TwoMoreBlocks(done, tail, Zeros(127 - l), Zeros(112), f, g);
    }
  }

  /** ed25519_hash */
  method Hash(constants: seq<nat>, inp: seq<Byte>) returns (hash: seq<Byte>)
    requires |constants| == 80
    ensures hash == Digest(constants, inp)
  {
    var ctx := new State(constants);
    ctx.Update(inp, []);
    assert [] + inp == inp;
    hash := ctx.Final(inp);
  }

  /** init, two updates and final, as when a nonce is made. */
  method HashTwo(constants: seq<nat>, a: seq<Byte>, b: seq<Byte>) returns (hash: seq<Byte>)
    requires |constants| == 80
    ensures hash == Digest(constants, a + b)
  {
    var ctx := new State(constants);
    ctx.Update(a, []);
    assert [] + a == a;
    ctx.Update(b, a);
    hash := ctx.Final(a + b);
  }

  /** init, three updates and final, as when a challenge is made. */
  method HashThree(constants: seq<nat>, a: seq<Byte>, b: seq<Byte>, c: seq<Byte>) returns (hash: seq<Byte>)
    requires |constants| == 80
    ensures hash == Digest(constants, a + b + c)
  {
    var ctx := new State(constants);
    ctx.Update(a, []);
    assert [] + a == a;
    ctx.Update(b, a);
    ctx.Update(c, a + b);
    hash := ctx.Final(a + b + c);
  }

  lemma StillPartial(msg: seq<Byte>, inp: seq<Byte>, had: nat)
    requires had == |msg| % 128 && had + |inp| < 128
    ensures |msg + inp| % 128 == had + |inp|
    ensures (msg + inp)[..|msg| - had] == msg[..|msg| - had]
    ensures (msg + inp)[|msg| - had..] == msg[|msg| - had..] + inp
  {
    ModSum(|msg|, |inp|);
  }

  lemma ModSum(n: nat, m: nat)
    ensures n % 128 + m < 128 ==> (n + m) % 128 == n % 128 + m
    ensures n % 128 + m == 128 ==> (n + m) % 128 == 0
    ensures n % 128 == 0 ==> (n + m) % 128 == m % 128
  {
  }

  lemma BlockCompleted(msg: seq<Byte>, inp: seq<Byte>, had: nat, want: nat)
    requires had == |msg| % 128 && had > 0 && want == 128 - had <= |inp|
    ensures |msg + inp[..want]| % 128 == 0
    ensures msg[..|msg| - had] + (msg[|msg| - had..] + inp[..want]) == msg + inp[..want]
  {
    ModSum(|msg|, want);
  }

  lemma RestSplit(done: seq<Byte>, rest: seq<Byte>, blocks: nat)
    requires |done| % 128 == 0 && blocks == |rest| - |rest| % 128
    ensures blocks % 128 == 0 && |done + rest| % 128 == |rest| - blocks
    ensures (done + rest)[..|done + rest| - (|rest| - blocks)] == done + rest[..blocks]
    ensures (done + rest)[|done + rest| - (|rest| - blocks)..] == rest[blocks..]
  {
    ModSum(|done|, |rest|);
    assert done + rest == (done + rest[..blocks]) + rest[blocks..];
  }

  lemma AbsorbOne(k: seq<nat>, h: Registers, block: Block)
    requires |k| == 80
    ensures Absorb(k, h, block) == Compress(k, h, block)
  {
    assert block[..128] == block && block[128..] == [];
    assert Absorb(k, Compress(k, h, block), []) == Compress(k, h, block);
  }
}
