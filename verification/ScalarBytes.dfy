/** Scalars from and to byte strings. */
module ScalarBytes {
  import opened Powers
  import opened Words
  import opened Bits
  import opened Bytes
  import opened Scalar
  import opened Barrett
  import opened ScalarOps

  // A limb that straddles two words: ((x >> (64 - n)) | (y << n)) & (2^56 - 1).

  method Straddle8(x: nat, y: nat) returns (o: nat)
    requires x < 0x1_0000_0000_0000_0000 && y < 0x1_0000_0000_0000_0000
    ensures o == x / 0x100_0000_0000_0000 + 0x100 * (y % 0x1_0000_0000_0000) && o < 0x100_0000_0000_0000
  {
    Pow2Table();
    var t := OrShl(x / 0x100_0000_0000_0000, y, 8, 0x100);
    o := t % 0x100_0000_0000_0000;
    StraddleSum8(x / 0x100_0000_0000_0000, y);
  }

  lemma StraddleSum8(q: nat, y: nat)
    requires q < 0x100 && y < 0x1_0000_0000_0000_0000
    ensures (q + U64(y * 0x100)) % 0x100_0000_0000_0000 == q + 0x100 * (y % 0x1_0000_0000_0000)
  {
    var a, b := y / 0x100_0000_0000_0000, y % 0x100_0000_0000_0000;
    WordRest(y * 0x100, a, 0x100 * b);
    var c, e := b / 0x1_0000_0000_0000, b % 0x1_0000_0000_0000;
    ModUnique(y, 0x1_0000_0000_0000, 0x100 * a + c, e);
    PieceRest(q + 0x100 * b, c, q + 0x100 * e);
  }

  method Straddle16(x: nat, y: nat) returns (o: nat)
    requires x < 0x1_0000_0000_0000_0000 && y < 0x1_0000_0000_0000_0000
    ensures o == x / 0x1_0000_0000_0000 + 0x1_0000 * (y % 0x100_0000_0000) && o < 0x100_0000_0000_0000
  {
    Pow2Table();
    var t := OrShl(x / 0x1_0000_0000_0000, y, 16, 0x1_0000);
    o := t % 0x100_0000_0000_0000;
    StraddleSum16(x / 0x1_0000_0000_0000, y);
  }

  lemma StraddleSum16(q: nat, y: nat)
    requires q < 0x1_0000 && y < 0x1_0000_0000_0000_0000
    ensures (q + U64(y * 0x1_0000)) % 0x100_0000_0000_0000 == q + 0x1_0000 * (y % 0x100_0000_0000)
  {
    var a, b := y / 0x1_0000_0000_0000, y % 0x1_0000_0000_0000;
    WordRest(y * 0x1_0000, a, 0x1_0000 * b);
    var c, e := b / 0x100_0000_0000, b % 0x100_0000_0000;
    ModUnique(y, 0x100_0000_0000, 0x100 * a + c, e);
    PieceRest(q + 0x1_0000 * b, c, q + 0x1_0000 * e);
  }

  method Straddle24(x: nat, y: nat) returns (o: nat)
    requires x < 0x1_0000_0000_0000_0000 && y < 0x1_0000_0000_0000_0000
    ensures o == x / 0x100_0000_0000 + 0x100_0000 * (y % 0x1_0000_0000) && o < 0x100_0000_0000_0000
  {
    Pow2Table();
    var t := OrShl(x / 0x100_0000_0000, y, 24, 0x100_0000);
    o := t % 0x100_0000_0000_0000;
    StraddleSum24(x / 0x100_0000_0000, y);
  }

  lemma StraddleSum24(q: nat, y: nat)
    requires q < 0x100_0000 && y < 0x1_0000_0000_0000_0000
    ensures (q + U64(y * 0x100_0000)) % 0x100_0000_0000_0000 == q + 0x100_0000 * (y % 0x1_0000_0000)
  {
    var a, b := y / 0x100_0000_0000, y % 0x100_0000_0000;
    WordRest(y * 0x100_0000, a, 0x100_0000 * b);
    var c, e := b / 0x1_0000_0000, b % 0x1_0000_0000;
    ModUnique(y, 0x1_0000_0000, 0x100 * a + c, e);
    PieceRest(q + 0x100_0000 * b, c, q + 0x100_0000 * e);
  }

  method Straddle32(x: nat, y: nat) returns (o: nat)
    requires x < 0x1_0000_0000_0000_0000 && y < 0x1_0000_0000_0000_0000
    ensures o == x / 0x1_0000_0000 + 0x1_0000_0000 * (y % 0x100_0000) && o < 0x100_0000_0000_0000
  {
    Pow2Table();
    var t := OrShl(x / 0x1_0000_0000, y, 32, 0x1_0000_0000);
    o := t % 0x100_0000_0000_0000;
    StraddleSum32(x / 0x1_0000_0000, y);
  }

  lemma StraddleSum32(q: nat, y: nat)
    requires q < 0x1_0000_0000 && y < 0x1_0000_0000_0000_0000
    ensures (q + U64(y * 0x1_0000_0000)) % 0x100_0000_0000_0000 == q + 0x1_0000_0000 * (y % 0x100_0000)
  {
    var a, b := y / 0x1_0000_0000, y % 0x1_0000_0000;
    WordRest(y * 0x1_0000_0000, a, 0x1_0000_0000 * b);
    var c, e := b / 0x100_0000, b % 0x100_0000;
    ModUnique(y, 0x100_0000, 0x100 * a + c, e);
    PieceRest(q + 0x1_0000_0000 * b, c, q + 0x1_0000_0000 * e);
  }

  /** The value of eight 64-bit words. */
  function WordsVal(x: seq<nat>): nat
    requires |x| == 8
  {
    x[0] + 0x1_0000_0000_0000_0000 * (x[1] + 0x1_0000_0000_0000_0000 * (x[2] + 0x1_0000_0000_0000_0000 * (x[3]
      + 0x1_0000_0000_0000_0000 * (x[4] + 0x1_0000_0000_0000_0000 * (x[5] + 0x1_0000_0000_0000_0000 * (x[6]
      + 0x1_0000_0000_0000_0000 * x[7]))))))
  }

  lemma {:induction false} ZerosVal(n: nat)
    ensures LE(seq(n, _ => 0 as Byte)) == 0
  {
    if n > 0 {
      assert seq(n, _ => 0 as Byte)[1..] == seq(n - 1, _ => 0 as Byte);
      ZerosVal(n - 1);
    }
  }

  lemma LEWords64(b: seq<Byte>)
    requires |b| == 64
    ensures LE(b) == LE(b[..8]) + 0x1_0000_0000_0000_0000 * (LE(b[8..16]) + 0x1_0000_0000_0000_0000 * (LE(b[16..24])
      + 0x1_0000_0000_0000_0000 * (LE(b[24..32]) + 0x1_0000_0000_0000_0000 * (LE(b[32..40])
      + 0x1_0000_0000_0000_0000 * (LE(b[40..48]) + 0x1_0000_0000_0000_0000 * (LE(b[48..56])
      + 0x1_0000_0000_0000_0000 * LE(b[56..])))))))
  {
    LEFirstWord(b);
    LEWordAt(b, 8);
    LEWordAt(b, 16);
    LEWordAt(b, 24);
    LEWordAt(b, 32);
    LEWordAt(b, 40);
    LEWordAt(b, 48);
  }

  method LoadWords(work: seq<Byte>) returns (x: seq<nat>)
    requires |work| == 64
    ensures |x| == 8 && (forall i :: 0 <= i < 8 ==> x[i] < 0x1_0000_0000_0000_0000) && WordsVal(x) == LE(work)
  {
    x := [Load64(work[..8]), Load64(work[8..16]), Load64(work[16..24]), Load64(work[24..32]),
          Load64(work[32..40]), Load64(work[40..48]), Load64(work[48..56]), Load64(work[56..])];
    LEWords64(work);
  }

  /** The number modulo m from 32 bytes on; shorter strings are taken as they are. */
  method Expand256(in1: seq<Byte>) returns (out: Limbs)
    requires |in1| <= 64
    ensures |in1| < 32 ==> Carried(out) && Val(out) == LE(in1)
    ensures |in1| >= 32 ==> Reduced(out) && Val(out) == LE(in1) % M
  {
    var work := in1 + seq(64 - |in1|, _ => 0 as Byte);
    LEConcat(in1, seq(64 - |in1|, _ => 0 as Byte));
    ZerosVal(64 - |in1|);
    assert LE(work) == LE(in1);
    var x := LoadWords(work);
    out := LowLimbs264(x);
    if |in1| < 32 {
      ShortVal(in1);
    } else {
      var q1 := HighLimbs264(x);
      WordsBound(x);
      out := BarrettReduce(q1, out, WordsVal(x));
    }
  }

  method LowLimbs264(x: seq<nat>) returns (out: Limbs)
    requires |x| == 8 && forall i :: 0 <= i < 8 ==> x[i] < 0x1_0000_0000_0000_0000
    ensures Carried(out) && Val(out)
      == WordsVal(x) % 0x100_0000_0000_0000_0000_0000_0000_0000_0000_0000_0000_0000_0000_0000_0000_0000_0000
  {
    var o1 := Straddle8(x[0], x[1]);
    var o2 := Straddle16(x[1], x[2]);
    var o3 := Straddle24(x[2], x[3]);
    var o4 := Straddle32(x[3], x[4]);
    out := [x[0] % 0x100_0000_0000_0000, o1, o2, o3, o4 % 0x100_0000_0000];
    LowWords(x, out);
  }

  method HighLimbs264(x: seq<nat>) returns (q1: Limbs)
    requires |x| == 8 && forall i :: 0 <= i < 8 ==> x[i] < 0x1_0000_0000_0000_0000
    ensures Carried(q1) && Val(q1)
      == WordsVal(x) / 0x100_0000_0000_0000_0000_0000_0000_0000_0000_0000_0000_0000_0000_0000_0000_0000
  {
    var o0 := Straddle8(x[3], x[4]);
    var o1 := Straddle16(x[4], x[5]);
    var o2 := Straddle24(x[5], x[6]);
    var o3 := Straddle32(x[6], x[7]);
    q1 := [o0, o1, o2, o3, x[7] / 0x100_0000];
    HighWords(x, q1);
  }

  lemma ShortVal(b: seq<Byte>)
    requires |b| < 32
    ensures LE(b) < 0x100_0000_0000_0000_0000_0000_0000_0000_0000_0000_0000_0000_0000_0000_0000_0000
  {
    LEBound(b);
    Pow256(0);
    Pow256(8);
    Pow256(16);
    assert Pow(256, 31) == 0x100_0000_0000_0000_0000_0000_0000_0000_0000_0000_0000_0000_0000_0000_0000_0000 by {
      Pow256(23);
      Pow256(15);
      Pow256(7);
      assert Pow(256, 8) == 256 * Pow(256, 7);
    }
    PowMono256(|b|, 31);
  }

  lemma {:induction false} PowMono256(a: nat, b: nat)
    requires a <= b
    ensures Pow(256, a) <= Pow(256, b)
    ensures Pow(256, a) >= 1
    decreases b
  {
    if a < b {
      PowMono256(a, b - 1);
    } else if a > 0 {
      PowMono256(a - 1, b - 1);
    }
  }

  lemma WordsBound(x: seq<nat>)
    requires |x| == 8 && forall i :: 0 <= i < 8 ==> x[i] < 0x1_0000_0000_0000_0000
    ensures WordsVal(x) < TWO_TO_512
  {
  }

  lemma LowWords(x: seq<nat>, out: Limbs)
    requires |x| == 8 && forall i :: 0 <= i < 8 ==> x[i] < 0x1_0000_0000_0000_0000
    requires out[0] == x[0] % 0x100_0000_0000_0000
      && out[1] == x[0] / 0x100_0000_0000_0000 + 0x100 * (x[1] % 0x1_0000_0000_0000)
    requires out[2] == x[1] / 0x1_0000_0000_0000 + 0x1_0000 * (x[2] % 0x100_0000_0000)
      && out[3] == x[2] / 0x100_0000_0000 + 0x100_0000 * (x[3] % 0x1_0000_0000)
    requires out[4] == (x[3] / 0x1_0000_0000 + 0x1_0000_0000 * (x[4] % 0x100_0000)) % 0x100_0000_0000
    ensures Carried(out) && Val(out)
      == WordsVal(x) % 0x100_0000_0000_0000_0000_0000_0000_0000_0000_0000_0000_0000_0000_0000_0000_0000_0000
  {
    var lo4, hi4 := x[4] % 0x100, x[4] / 0x100;
    TopWord(x[3] / 0x1_0000_0000, x[4]);
    assert out[4] == x[3] / 0x1_0000_0000 + 0x1_0000_0000 * lo4;
    assert Val(out) == x[0] + 0x1_0000_0000_0000_0000 * x[1] + 0x1_0000_0000_0000_0000_0000_0000_0000_0000 * x[2]
      + 0x1_0000_0000_0000_0000_0000_0000_0000_0000_0000_0000_0000_0000 * x[3]
      + 0x1_0000_0000_0000_0000_0000_0000_0000_0000_0000_0000_0000_0000_0000_0000_0000_0000 * lo4;
    Mod264(WordsVal(x), Val(out),
      hi4 + 0x100_0000_0000_0000 * (x[5] + 0x1_0000_0000_0000_0000 * x[6]
      + 0x1_0000_0000_0000_0000_0000_0000_0000_0000 * x[7]));
  }

  lemma TopWord(q: nat, y: nat)
    requires q < 0x1_0000_0000
    ensures (q + 0x1_0000_0000 * (y % 0x100_0000)) % 0x100_0000_0000 == q + 0x1_0000_0000 * (y % 0x100)
  {
    var z := y % 0x100_0000;
    ModUnique(y, 0x100, 0x1_0000 * (y / 0x100_0000) + z / 0x100, z % 0x100);
    ModUnique(q + 0x1_0000_0000 * z, 0x100_0000_0000, z / 0x100, q + 0x1_0000_0000 * (z % 0x100));
  }

  lemma HighWords(x: seq<nat>, q: Limbs)
    requires |x| == 8 && forall i :: 0 <= i < 8 ==> x[i] < 0x1_0000_0000_0000_0000
    requires q[0] == x[3] / 0x100_0000_0000_0000 + 0x100 * (x[4] % 0x1_0000_0000_0000)
      && q[1] == x[4] / 0x1_0000_0000_0000 + 0x1_0000 * (x[5] % 0x100_0000_0000)
    requires q[2] == x[5] / 0x100_0000_0000 + 0x100_0000 * (x[6] % 0x1_0000_0000)
      && q[3] == x[6] / 0x1_0000_0000 + 0x1_0000_0000 * (x[7] % 0x100_0000)
    requires q[4] == x[7] / 0x100_0000
    ensures Carried(q) && Val(q)
      == WordsVal(x) / 0x100_0000_0000_0000_0000_0000_0000_0000_0000_0000_0000_0000_0000_0000_0000_0000
  {
    assert Val(q) == x[3] / 0x100_0000_0000_0000
      + 0x100 * (x[4] + 0x1_0000_0000_0000_0000 * x[5] + 0x1_0000_0000_0000_0000_0000_0000_0000_0000 * x[6]
      + 0x1_0000_0000_0000_0000_0000_0000_0000_0000_0000_0000_0000_0000 * x[7]);
    var low := x[0] + 0x1_0000_0000_0000_0000 * x[1] + 0x1_0000_0000_0000_0000_0000_0000_0000_0000 * x[2]
      + 0x1_0000_0000_0000_0000_0000_0000_0000_0000_0000_0000_0000_0000 * (x[3] % 0x100_0000_0000_0000);
    assert low < 0x100_0000_0000_0000_0000_0000_0000_0000_0000_0000_0000_0000_0000_0000_0000_0000;
    assert WordsVal(x) == low
      + 0x100_0000_0000_0000_0000_0000_0000_0000_0000_0000_0000_0000_0000_0000_0000_0000 * Val(q);
  }

  /** 32 bytes taken as they are. */
  method ExpandRaw256(in1: seq<Byte>) returns (out: Limbs)
    requires |in1| == 32
    ensures Below256(out) && Val(out) == LE(in1)
  {
    LEWords(in1);
    var x0, x1, x2, x3 := Load64(in1[..8]), Load64(in1[8..16]), Load64(in1[16..24]), Load64(in1[24..]);
    var o1 := Straddle8(x0, x1);
    var o2 := Straddle16(x1, x2);
    var o3 := Straddle24(x2, x3);
    out := [x0 % 0x100_0000_0000_0000, o1, o2, o3, (x3 / 0x1_0000_0000) % 0x1_0000_0000];
    RawWords(x0, x1, x2, x3, out);
  }

  lemma RawWords(x0: nat, x1: nat, x2: nat, x3: nat, out: Limbs)
    requires x0 < 0x1_0000_0000_0000_0000 && x1 < 0x1_0000_0000_0000_0000 && x2 < 0x1_0000_0000_0000_0000
      && x3 < 0x1_0000_0000_0000_0000
    requires out[0] == x0 % 0x100_0000_0000_0000
      && out[1] == x0 / 0x100_0000_0000_0000 + 0x100 * (x1 % 0x1_0000_0000_0000)
    requires out[2] == x1 / 0x1_0000_0000_0000 + 0x1_0000 * (x2 % 0x100_0000_0000)
      && out[3] == x2 / 0x100_0000_0000 + 0x100_0000 * (x3 % 0x1_0000_0000)
    requires out[4] == (x3 / 0x1_0000_0000) % 0x1_0000_0000
    ensures Below256(out)
      && Val(out) == x0 + 0x1_0000_0000_0000_0000 * x1 + 0x1_0000_0000_0000_0000_0000_0000_0000_0000 * x2
      + 0x1_0000_0000_0000_0000_0000_0000_0000_0000_0000_0000_0000_0000 * x3
  {
  }

  /** The little-endian bytes of a number below 2^256. */
  method Contract256(in1: Limbs) returns (out: seq<Byte>)
    requires Below256(in1)
    ensures |out| == 32 && LE(out) == Val(in1)
  {
    Pow2Table();
    var w0 := OrShl(in1[0], in1[1], 56, 0x100_0000_0000_0000);
    var w1 := OrShl(in1[1] / 0x100, in1[2], 48, 0x1_0000_0000_0000);
    var w2 := OrShl(in1[2] / 0x1_0000, in1[3], 40, 0x100_0000_0000);
    var w3 := OrShl(in1[3] / 0x100_0000, in1[4], 32, 0x1_0000_0000);
    JoinWords(in1, w0, w1, w2, w3);
    out := Store256(w0, w1, w2, w3);
  }

  lemma JoinWords(s: Limbs, w0: nat, w1: nat, w2: nat, w3: nat)
    requires Below256(s)
    requires w0 == s[0] + U64(s[1] * 0x100_0000_0000_0000) && w1 == s[1] / 0x100 + U64(s[2] * 0x1_0000_0000_0000)
    requires w2 == s[2] / 0x1_0000 + U64(s[3] * 0x100_0000_0000) && w3 == s[3] / 0x100_0000 + U64(s[4] * 0x1_0000_0000)
    ensures w0 < 0x1_0000_0000_0000_0000 && w1 < 0x1_0000_0000_0000_0000 && w2 < 0x1_0000_0000_0000_0000
      && w3 < 0x1_0000_0000_0000_0000
    ensures Val(s) == w0 + 0x1_0000_0000_0000_0000 * w1 + 0x1_0000_0000_0000_0000_0000_0000_0000_0000 * w2
      + 0x1_0000_0000_0000_0000_0000_0000_0000_0000_0000_0000_0000_0000 * w3
  {
    Cut(s[1], 0x100_0000_0000_0000, 0x100);
    Cut(s[2], 0x1_0000_0000_0000, 0x1_0000);
    Cut(s[3], 0x100_0000_0000, 0x100_0000);
  }

  lemma Cut(x: nat, w: nat, v: nat)
    requires x < 0x100_0000_0000_0000
    requires (w == 0x100_0000_0000_0000 && v == 0x100) || (w == 0x1_0000_0000_0000 && v == 0x1_0000)
      || (w == 0x100_0000_0000 && v == 0x100_0000)
    ensures w == 0x100_0000_0000_0000 ==> U64(x * 0x100_0000_0000_0000) == 0x100_0000_0000_0000 * (x % 0x100)
    ensures w == 0x1_0000_0000_0000 ==> U64(x * 0x1_0000_0000_0000) == 0x1_0000_0000_0000 * (x % 0x1_0000)
    ensures w == 0x100_0000_0000 ==> U64(x * 0x100_0000_0000) == 0x100_0000_0000 * (x % 0x100_0000)
  {
    if w == 0x100_0000_0000_0000 {
      WordRest(x * 0x100_0000_0000_0000, x / 0x100, 0x100_0000_0000_0000 * (x % 0x100));
    } else if w == 0x1_0000_0000_0000 {
      WordRest(x * 0x1_0000_0000_0000, x / 0x1_0000, 0x1_0000_0000_0000 * (x % 0x1_0000));
    } else {
      WordRest(x * 0x100_0000_0000, x / 0x100_0000, 0x100_0000_0000 * (x % 0x100_0000));
    }
  }
}
