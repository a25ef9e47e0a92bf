/** Little-endian byte strings. */
module Bytes {
  import opened Powers

  type Byte = x: int | 0 <= x < 256

  /** The number a byte string denotes, least significant byte first. */
  function LE(b: seq<Byte>): nat {
    if |b| == 0 then 0 else b[0] + 256 * LE(b[1..])
  }

  /** The n low bytes of x. */
  function ToLE(x: nat, n: nat): (b: seq<Byte>)
    ensures |b| == n
  {
    if n == 0 then [] else [x % 256] + ToLE(x / 256, n - 1)
  }

  lemma {:induction false} LEConcat(a: seq<Byte>, b: seq<Byte>)
    ensures LE(a + b) == LE(a) + Pow(256, |a|) * LE(b)
  {
    if |a| == 0 {
      assert a + b == b;
    } else {
      assert (a + b)[1..] == a[1..] + b;
      LEConcat(a[1..], b);
      MulAssoc(256, Pow(256, |a| - 1), LE(b));
    }
  }

  lemma {:induction false} LEBound(b: seq<Byte>)
    ensures LE(b) < Pow(256, |b|)
  {
    if |b| > 0 {
      LEBound(b[1..]);
    }
  }

  lemma {:induction false} LEUnique(a: seq<Byte>, b: seq<Byte>)
    requires |a| == |b| && LE(a) == LE(b)
    ensures a == b
  {
    if |a| > 0 {
      LEUnique(a[1..], b[1..]);
      assert a == [a[0]] + a[1..];
      assert b == [b[0]] + b[1..];
    }
  }

  lemma {:induction false} LEToLE(x: nat, n: nat)
    requires x < Pow(256, n)
    ensures LE(ToLE(x, n)) == x
  {
    if n > 0 {
      LEToLE(x / 256, n - 1);
      assert ToLE(x, n)[1..] == ToLE(x / 256, n - 1);
    }
  }

  lemma {:induction false} ZeroBytes(b: seq<Byte>)
    requires forall i :: 0 <= i < |b| ==> b[i] == 0
    ensures LE(b) == 0
  {
    if |b| > 0 {
      ZeroBytes(b[1..]);
    }
  }

  /** A byte string read back from its own value. */
  lemma ToLEOfLE(b: seq<Byte>)
    ensures ToLE(LE(b), |b|) == b
  {
    LEBound(b);
    LEToLE(LE(b), |b|);
    LEUnique(ToLE(LE(b), |b|), b);
  }

  /** The top byte of 32. */
  lemma TopByte(b: seq<Byte>)
    requires |b| == 32
    ensures LE(b) == LE(b[..31])
      + 0x100_0000_0000_0000_0000_0000_0000_0000_0000_0000_0000_0000_0000_0000_0000_0000 * (b[31] as int)
    ensures LE(b[..31]) < 0x100_0000_0000_0000_0000_0000_0000_0000_0000_0000_0000_0000_0000_0000_0000_0000
  {
    assert b == b[..31] + [b[31]];
    LEConcat(b[..31], [b[31]]);
    LEBound(b[..31]);
    Pow256(0);
    Pow256(7);
    Pow256(15);
    Pow256(23);
    assert Pow(256, 7) == 0x100_0000_0000_0000 by {
      assert Pow(256, 8) == 256 * Pow(256, 7);
    }
    assert LE([b[31]]) == b[31] as int;
  }

  lemma Pow256(n: nat)
    ensures Pow(256, 8) == 0x1_0000_0000_0000_0000
    ensures Pow(256, n + 8) == 0x1_0000_0000_0000_0000 * Pow(256, n)
  {
    assert Pow(256, 2) == 0x1_0000 by { PowAdd(256, 1, 1); }
    assert Pow(256, 4) == 0x1_0000_0000 by { PowAdd(256, 2, 2); }
    assert Pow(256, 8) == 0x1_0000_0000_0000_0000 by { PowAdd(256, 4, 4); }
    PowAdd(256, n, 8);
  }

  /** The 64-bit word at position i, and the bytes after it. */
  lemma LEWordAt(b: seq<Byte>, i: nat)
    requires i + 8 <= |b|
    ensures LE(b[i..]) == LE(b[i..i + 8]) + 0x1_0000_0000_0000_0000 * LE(b[i + 8..])
  {
    assert b[i..] == b[i..i + 8] + b[i + 8..];
    LEConcat(b[i..i + 8], b[i + 8..]);
    Pow256(0);
  }

  lemma LEFirstWord(b: seq<Byte>)
    requires 8 <= |b|
    ensures LE(b) == LE(b[..8]) + 0x1_0000_0000_0000_0000 * LE(b[8..])
  {
    assert b[0..] == b && b[0..8] == b[..8];
    LEWordAt(b, 0);
  }

  /** The four 64-bit words of a 32-byte string. */
  lemma LEWords(b: seq<Byte>)
    requires |b| == 32
    ensures LE(b) == LE(b[..8]) + 0x1_0000_0000_0000_0000 * LE(b[8..16])
      + 0x1_0000_0000_0000_0000_0000_0000_0000_0000 * LE(b[16..24])
      + 0x1_0000_0000_0000_0000_0000_0000_0000_0000_0000_0000_0000_0000 * LE(b[24..])
  {
    LEFirstWord(b);
    LEWordAt(b, 8);
    LEWordAt(b, 16);
  }

  /** U8TO64_LE */
  function Load64(b: seq<Byte>): (x: int)
    requires |b| == 8
    ensures x == LE(b) && 0 <= x < 0x1_0000_0000_0000_0000
  {
    LEUnfold(b);
    b[0] as int + 0x100 * (b[1] as int) + 0x1_0000 * (b[2] as int) + 0x100_0000 * (b[3] as int)
      + 0x1_0000_0000 * (b[4] as int)
    + 0x100_0000_0000 * (b[5] as int) + 0x1_0000_0000_0000 * (b[6] as int) + 0x100_0000_0000_0000 * (b[7] as int)
  }

  lemma LEUnfold(b: seq<Byte>)
    requires |b| == 8
    ensures LE(b) == b[0] as int + 0x100 * (b[1] as int) + 0x1_0000 * (b[2] as int) + 0x100_0000 * (b[3] as int)
      + 0x1_0000_0000 * (b[4] as int)
      + 0x100_0000_0000 * (b[5] as int) + 0x1_0000_0000_0000 * (b[6] as int) + 0x100_0000_0000_0000 * (b[7] as int)
  {
    LEPair(b);
    LEPair(b[2..]);
    LEPair(b[4..]);
    LEPair(b[6..]);
    assert b[2..][2..] == b[4..] && b[4..][2..] == b[6..];
  }

  lemma LEPair(b: seq<Byte>)
    requires |b| >= 2
    ensures LE(b) == b[0] as int + 256 * (b[1] as int) + 0x1_0000 * LE(b[2..])
  {
    assert b[1..][1..] == b[2..];
  }

  /** U64TO8_LE, and the byte loop of write51full: appends the eight bytes of f. */
  method Store64(out: seq<Byte>, f: int) returns (res: seq<Byte>)
    requires 0 <= f < 0x1_0000_0000_0000_0000
    ensures |res| == |out| + 8 && res[..|out|] == out && LE(res[|out|..]) == f
  {
    res := out;
    var i, g := 0, f;
    while i < 8
      invariant 0 <= i <= 8 && 0 <= g
      invariant |res| == |out| + i && res[..|out|] == out
      invariant res + ToLE(g, 8 - i) == out + ToLE(f, 8)
    {
      assert ToLE(g, 8 - i) == [g % 256] + ToLE(g / 256, 8 - (i + 1));
      res := res + [g % 256];
      g := g / 256;
      i := i + 1;
    }
    assert res == out + ToLE(f, 8);
    Pow256(0);
    LEToLE(f, 8);
  }

  /** Four words one after the other. */
  method Store256(f0: int, f1: int, f2: int, f3: int) returns (out: seq<Byte>)
    requires 0 <= f0 < 0x1_0000_0000_0000_0000 && 0 <= f1 < 0x1_0000_0000_0000_0000
    requires 0 <= f2 < 0x1_0000_0000_0000_0000 && 0 <= f3 < 0x1_0000_0000_0000_0000
    ensures |out| == 32 && LE(out) == f0 + 0x1_0000_0000_0000_0000 * f1
      + 0x1_0000_0000_0000_0000_0000_0000_0000_0000 * f2
      + 0x1_0000_0000_0000_0000_0000_0000_0000_0000_0000_0000_0000_0000 * f3
  {
    out := Store64([], f0);
    assert out[0..] == out;
    ghost var o1 := out;
    out := Store64(out, f1);
    ghost var o2 := out;
    out := Store64(out, f2);
    ghost var o3 := out;
    out := Store64(out, f3);
    assert o2[..8] == o1 && out[..24] == o3 && o3[..16] == o2;
    assert out[..8] == o3[..8] == o2[..8];
    assert out[8..16] == o3[8..16] == o2[8..];
    assert out[16..24] == o3[16..];
    LEWords(out);
  }
}
