/** Points as 32-byte strings (sections 5.1.2 and 5.1.3 of RFC 8032). */
module Encoding {
  import opened Powers
  import opened Words
  import opened Bits
  import opened Bytes
  import opened ModP
  import opened Edwards
  import opened Field
  import opened FieldBytes
  import opened FieldChains
  import opened Tracked
  import opened PointOps

  /** Fermat's little theorem for p. */
  ghost predicate Fermat() {
    forall z: int {:trigger Base(z)} :: Base(z) && !Cong(z, 0) ==> Cong(Pow(z, P - 1), 1)
  }

  ghost predicate Base(z: int) {
    true
  }

  /** The encoding: y, with the parity of x in the top bit. */
  function Encode(p: Point): (b: seq<Byte>)
    requires 0 <= p.y
    ensures |b| == 32
  {
    ToLE(p.y + 0x8000_0000_0000_0000_0000_0000_0000_0000_0000_0000_0000_0000_0000_0000_0000_0000 * (p.x % 2), 32)
  }

  // ---- packing ----

  /** Multiplying by z^(p - 2) divides by z. */
  lemma Divide(x: int, a: int, z: int, w: int)
    requires Fermat() && Cong(x, a * z) && !Cong(z, 0) && w == Pow(z, P - 2)
    ensures Cong(x * w, a)
  {
    assert Base(z);
    assert z * w == Pow(z, P - 1);
    CongScale(w, x, a * z);
    CongEq(w * x, w * (a * z), x * w, a * (z * w));
    CongScale(a, z * w, 1);
    CongTrans(x * w, a * (z * w), a * 1);
  }

  method RecipT(z: Fe, ghost v: int, ghost k: nat) returns (out: Fe, ghost w: int)
    requires Is(z, v, k)
    ensures Is(out, w, 0) && w == Pow(v, P - 2)
  {
    IsOpen(z, v, k);
    out := Recip(z);
    w := Pow(v, P - 2);
    CongPow(Val(z), v, P - 2);
    CongTrans(Val(out), Pow(Val(z), P - 2), w);
    IsClose(out, w, 0);
  }

  method ContractT(a: Fe, ghost v: int, ghost k: nat) returns (out: seq<Byte>)
    requires Is(a, v, k)
    ensures |out| == 32 && LE(out) == v % P
  {
    IsOpen(a, v, k);
    out := Contract(a);
    CongModEq(Val(a), v);
  }

  method Pack(p: Ge, ghost pt: CurvePoint) returns (r: seq<Byte>)
    requires Fermat() && Partial(p, pt)
    ensures r == Encode(pt)
  {
    ghost var e :| Stands(p, e) && Rep(e, pt);
    assert Extends(e, pt, 0);
    ghost var w, vx, vy;
    var zi, tx, ty;
    zi, w := RecipT(p.z, e.z, 0);
    tx, vx := MulT(p.x, zi, e.x, w, 0, 0);
    ty, vy := MulT(p.y, zi, e.y, w, 0, 0);
    Divide(e.x, pt.x, e.z, w);
    Divide(e.y, pt.y, e.z, w);
    CongResidue(vx, pt.x);
    CongResidue(vy, pt.y);
    r := ContractT(ty, vy, 0);
    var parity := ContractT(tx, vx, 0);
    ParityByte(parity);
    r := SetTopBit(r, parity[0] % 2);
    EncodeIs(pt, r);
  }

  lemma CongResidue(v: int, x: int)
    requires Cong(v, x) && 0 <= x < P
    ensures v % P == x
  {
    CongModEq(v, x);
  }

  lemma EncodeIs(p: Point, b: seq<Byte>)
    requires 0 <= p.y < P && |b| == 32
    requires LE(b) == p.y
      + 0x8000_0000_0000_0000_0000_0000_0000_0000_0000_0000_0000_0000_0000_0000_0000_0000 * (p.x % 2)
    ensures b == Encode(p)
  {
    EncodeVal(p);
    LEUnique(b, Encode(p));
  }

  lemma EncodeVal(p: Point)
    requires 0 <= p.y < P
    ensures LE(Encode(p))
      == p.y + 0x8000_0000_0000_0000_0000_0000_0000_0000_0000_0000_0000_0000_0000_0000_0000_0000 * (p.x % 2)
  {
    var n := p.y + 0x8000_0000_0000_0000_0000_0000_0000_0000_0000_0000_0000_0000_0000_0000_0000_0000 * (p.x % 2);
    Pow256To32();
    LEToLE(n, 32);
  }

  lemma Pow256To32()
    ensures Pow(256, 32) == 0x1_0000_0000_0000_0000_0000_0000_0000_0000_0000_0000_0000_0000_0000_0000_0000_0000
  {
    Pow256(8);
    Pow256(16);
    Pow256(24);
  }

  lemma ParityByte(b: seq<Byte>)
    requires |b| == 32
    ensures b[0] % 2 == LE(b) % 2
  {
    assert LE(b) == b[0] + 256 * LE(b[1..]);
  }

  /** r[31] ^= bit << 7, on a string whose top bit is clear. */
  method SetTopBit(r: seq<Byte>, bit: int) returns (out: seq<Byte>)
    requires |r| == 32 && 0 <= bit <= 1
    requires LE(r) < 0x8000_0000_0000_0000_0000_0000_0000_0000_0000_0000_0000_0000_0000_0000_0000_0000
    ensures |out| == 32
    ensures LE(out) == LE(r) + 0x8000_0000_0000_0000_0000_0000_0000_0000_0000_0000_0000_0000_0000_0000_0000_0000 * bit
  {
    TopByte(r);
    assert Pow2(7) == 128;
    XorDisjoint(r[31], bit, 7);
    var top := Xor(r[31], bit * 128);
    out := r[31 := top];
    assert out[..31] == r[..31];
    TopByte(out);
  }

  // ---- unpacking ----

  const ECD: Fe := Fe(0x0003_4dca_1359_78a3, 0x0001_a828_3b15_6ebd, 0x0005_e7a2_6001_c029, 0x0007_39c6_63a0_3cbb,
    0x0005_2036_cee2_b6ff)

  const SQRTNEG1: Fe := Fe(0x0006_1b27_4a0e_a0b0, 0x0000_d5a5_fc8f_189d, 0x0007_ef5e_9cbd_0c60, 0x0007_8595_a680_4c9e,
    0x0002_b832_4804_fc1d)

  lemma ECDVal()
    ensures Is(ECD, D, 0)
  {
    CongBy(Val(ECD), D, 0);
  }

  /** A square root of -1. */
  const I: int := 0x2b8324804fc1df0b2b4d00993dfbd7a72f431806ad2fe478c4ee1b274a0ea0b0

  lemma SqrtNeg1Val()
    ensures Is(SQRTNEG1, I, 0) && Cong(I * I, -1)
  {
    CongBy(Val(SQRTNEG1), I, 0);
    CongBy(I * I, -1, 0xecaa2e2f6a2302ccedb31ac05720688238ced2078f3eb0ec9f22e8f621972e5);
  }

  /** The y coordinate that a string names: its low 255 bits modulo p. */
  function CoordinateY(b: seq<Byte>): (y: int)
    ensures 0 <= y < P
  {
    (LE(b) % 0x8000_0000_0000_0000_0000_0000_0000_0000_0000_0000_0000_0000_0000_0000_0000_0000) % P
  }

  /** pt is the negative of the point that b encodes. */
  ghost predicate NegativeOf(b: seq<Byte>, pt: Point)
    requires |b| == 32
  {
    pt.y == CoordinateY(b) && (pt.x == 0 || pt.x % 2 != b[31] / 128)
  }

  lemma CoordinateExactly(b: seq<Byte>)
    ensures 0 <= CoordinateY(b) < P
      && Cong(CoordinateY(b), LE(b) % 0x8000_0000_0000_0000_0000_0000_0000_0000_0000_0000_0000_0000_0000_0000_0000_0000)
  {
    CongMod(LE(b) % 0x8000_0000_0000_0000_0000_0000_0000_0000_0000_0000_0000_0000_0000_0000_0000_0000);
  }

  /** The coordinate is the low 255 bits modulo p, and the sign of the point is opposite to the top bit. */
  lemma NegativeExactly(b: seq<Byte>, pt: CurvePoint)
    requires |b| == 32
    ensures NegativeOf(b, pt) <==>
              && Cong(pt.y, LE(b) % 0x8000_0000_0000_0000_0000_0000_0000_0000_0000_0000_0000_0000_0000_0000_0000_0000)
              && (pt.x == 0 || pt.x % 2 != b[31] / 128)
  {
    var y := LE(b) % 0x8000_0000_0000_0000_0000_0000_0000_0000_0000_0000_0000_0000_0000_0000_0000_0000;
    CongModEq(pt.y, y);
    ModSmall(pt.y, P);
  }

  lemma ModSmall(y: int, p: int)
    requires 0 <= y < p
    ensures y % p == y
  {
  }

  /** The candidate u v^3 (u v^7)^((p - 5) / 8) for a square root of u / v, as the source builds it. */
  ghost predicate Candidate(u: int, v: int, d3: int, w: int, q: int, c: int) {
    d3 == (v * v) * v && w == ((d3 * d3) * v) * u && q == Pow(w, (P - 5) / 8) && c == (q * d3) * u
  }

  lemma CandidateSquare(u: int, v: int, d3: int, w: int, q: int, c: int)
    requires Candidate(u, v, d3, w, q, c)
    ensures (c * c) * v == u * Pow(w, (P - 1) / 4)
  {
    var e := (P - 5) / 8;
    PowAdd(w, e, e);
    assert Pow(w, e + e + 1) == w * Pow(w, e + e);
    assert e + e + 1 == (P - 1) / 4;
    calc {
      (c * c) * v;
      { MulSwap(q * d3, u, q * d3, u); }
      (((q * d3) * (q * d3)) * (u * u)) * v;
      { MulSwap(q, d3, q, d3); }
      (((q * q) * (d3 * d3)) * (u * u)) * v;
      { Reorder(q * q, d3 * d3, u, v); }
      u * (w * (q * q));
    }
  }

  lemma Reorder(a: int, b: int, u: int, v: int)
    ensures ((a * b) * (u * u)) * v == u * (((b * v) * u) * a)
  {
    var t := u * u;
    MulAssoc(a * b, t, v);
    MulSwap(a, b, t, v);
    assert (a * t) * (b * v) == (b * v) * (a * t);
    assert (b * v) * (a * (u * u)) == u * (((b * v) * u) * a) by {
      MulAssoc(b * v, u, a);
      MulAssoc(a, u, u);
      MulAssoc(b * v, a * u, u);
    }
  }

  /** If u / v has a square root x, the square of the candidate is u / v or -u / v. */
  lemma CandidateComplete(u: int, v: int, d3: int, w: int, q: int, c: int, x: int)
    requires NoZeroDivisors() && Fermat() && Candidate(u, v, d3, w, q, c)
    requires Cong(u, (x * x) * v)
    ensures Cong((c * c) * v, u) || Cong((c * c) * v, -u)
  {
    CandidateSquare(u, v, d3, w, q, c);
    var s := Pow(w, (P - 1) / 4);
    var h := x * (d3 * v);
    if Cong(h, 0) {
      RootOfZero(u, v, d3, x);
      CongScale(s, u, 0);
      CongSym(u, 0);
      CongEq(s * u, s * 0, u * s, 0);
      CongTrans(u * s, 0, u);
    } else {
      SquareBase(u, v, d3, w, x);
      CongPow(w, h * h, (P - 1) / 4);
      SquareRootOfOne(h, s);
      if Cong(s, 1) {
        CongScale(u, s, 1);
      } else {
        CongScale(u, s, -1);
        CongEq(u * s, u * -1, u * s, -u);
      }
    }
  }

  lemma RootOfZero(u: int, v: int, d3: int, x: int)
    requires NoZeroDivisors() && Cong(u, (x * x) * v) && d3 == (v * v) * v && Cong(x * (d3 * v), 0)
    ensures Cong(u, 0)
  {
    assert Factors(x, d3 * v);
    assert Factors(d3, v);
    assert Factors(v * v, v);
    assert Factors(v, v);
    if Cong(x, 0) {
      CongScale(x * v, x, 0);
      CongEq((x * v) * x, (x * v) * 0, (x * x) * v, 0);
    } else {
      CongScale(x * x, v, 0);
      CongEq((x * x) * v, (x * x) * 0, (x * x) * v, 0);
    }
    CongTrans(u, (x * x) * v, 0);
  }

  lemma SquareBase(u: int, v: int, d3: int, w: int, x: int)
    requires Cong(u, (x * x) * v) && w == ((d3 * d3) * v) * u
    ensures var h := x * (d3 * v); Cong(w, h * h)
  {
    var h := x * (d3 * v);
    CongScale((d3 * d3) * v, u, (x * x) * v);
    MulSwap(d3 * d3, v, x * x, v);
    MulSwap(x, d3 * v, x, d3 * v);
    MulSwap(d3, v, d3, v);
    MulAssoc(d3 * d3, x * x, v * v);
    assert ((d3 * d3) * (x * x)) * (v * v) == (x * x) * ((d3 * d3) * (v * v)) by {
      MulAssoc(x * x, d3 * d3, v * v);
    }
    CongEq(w, ((d3 * d3) * v) * ((x * x) * v), w, h * h);
  }

  /** Only 1 and -1 have square 1. */
  lemma UnitRoots(r: int)
    requires NoZeroDivisors() && Cong(r * r, 1)
    ensures Cong(r, 1) || Cong(r, -1)
  {
    CongRefl(1);
    CongSub(r * r, 1, 1, 1);
    CongEq(r * r - 1, 1 - 1, (r - 1) * (r + 1), 0);
    assert Factors(r - 1, r + 1);
    if Cong(r - 1, 0) {
      CongAdd(r - 1, 0, 1, 1);
      CongEq(r - 1 + 1, 0 + 1, r, 1);
    } else {
      CongSub(r + 1, 0, 1, 1);
      CongEq(r + 1 - 1, 0 - 1, r, -1);
    }
  }

  lemma QuarterPower(h: int, n: nat, r: int)
    requires r == Pow(h * h, n)
    ensures r * r == Pow(h, 4 * n)
  {
    PowProduct(h, h, n);
    PowAdd(h, n, n);
    PowAdd(h, n + n, n + n);
  }

  /** h^((p - 1) / 2) is 1 or -1. */
  lemma SquareRootOfOne(h: int, s: int)
    requires NoZeroDivisors() && Fermat() && !Cong(h, 0) && Cong(s, Pow(h * h, (P - 1) / 4))
    ensures Cong(s, 1) || Cong(s, -1)
  {
    var r := Pow(h * h, (P - 1) / 4);
    QuarterPower(h, (P - 1) / 4, r);
    assert Base(h);
    UnitRoots(r);
    if Cong(r, 1) {
      CongTrans(s, r, 1);
    } else {
      CongTrans(s, r, -1);
    }
  }

  /** x^2 (d y^2 + 1) = y^2 - 1 puts (x, y) on the curve, and back. */
  lemma MoveTerms(a: int, b: int, t: int, c: int, d: int)
    requires Cong(a, b) && c == b + t && d == a + t
    ensures Cong(c, d)
  {
    CongSym(a, b);
    CongRefl(t);
    CongAdd(b, a, t, t);
    CongEq(b + t, a + t, c, d);
  }

  lemma ExpandCurve(xx: int, yy: int)
    ensures xx * (D * yy + 1) == D * (xx * yy) + xx
  {
    MulAssoc(D, xx, yy);
    MulAssoc(xx, D, yy);
  }

  lemma CurveEquation(x: int, y: int)
    ensures Cong((x * x) * (D * (y * y) + 1), y * y - 1) <==> Cong(y * y - x * x, 1 + D * ((x * x) * (y * y)))
  {
    var xx, yy := x * x, y * y;
    var a, b, c, d := xx * (D * yy + 1), yy - 1, yy - xx, 1 + D * (xx * yy);
    ExpandCurve(xx, yy);
    if Cong(a, b) {
      MoveTerms(a, b, 1 - xx, c, d);
    }
    if Cong(c, d) {
      MoveTerms(c, d, xx - 1, a, b);
    }
  }

  /** ed25519_verify: 1 if the two strings agree, else 0, without branching on their contents. */
  method Verify(x: seq<Byte>, y: seq<Byte>, len: nat) returns (same: int)
    requires len <= |x| && len <= |y|
    ensures same == if x[..len] == y[..len] then 1 else 0
  {
    var differentbits: nat, i := 0, 0;
    assert Pow2(8) == 256;
    while i < len
      invariant 0 <= i <= len && differentbits < 256
      invariant differentbits == 0 <==> x[..i] == y[..i]
    {
      XorZero(x[i], y[i]);
      XorBound(x[i], y[i], 8);
      OrZero(differentbits, Xor(x[i], y[i]));
      OrBound(differentbits, Xor(x[i], y[i]), 8);
      differentbits := Or(differentbits, Xor(x[i], y[i]));
      assert x[..i + 1] == x[..i] + [x[i]] && y[..i + 1] == y[..i] + [y[i]];
      i := i + 1;
    }
    AndMask(U64(differentbits - 1) / 256, 1);
    assert Pow2(1) - 1 == 1;
    same := And(1, U64(differentbits - 1) / 256);
  }

  /** x is a square root of u / v; opens only where a proof names Radical. */
  ghost predicate Root(x: int, u: int, v: int) {
    forall key: int {:trigger Radical(x, u, v, key)} :: Radical(x, u, v, key) ==> Cong(u, (x * x) * v)
  }

  ghost predicate Radical(x: int, u: int, v: int, key: int) {
    true
  }

  method PowRootT(a: Fe, ghost v: int) returns (out: Fe, ghost w: int)
    requires Is(a, v, 0)
    ensures Is(out, w, 0) && w == Pow(v, (P - 5) / 8)
  {
    IsOpen(a, v, 0);
    out := PowTwo252m3(a);
    w := Pow(v, (P - 5) / 8);
    CongPow(Val(a), v, (P - 5) / 8);
    CongTrans(Val(out), Pow(Val(a), (P - 5) / 8), w);
    IsClose(out, w, 0);
  }

  /** Is the field element zero? The source contracts it and compares with 32 zero bytes. */
  method IsZeroT(a: Fe, ghost v: int) returns (zero: bool)
    requires Is(a, v, 0)
    ensures zero <==> Cong(v, 0)
  {
    var check := ContractT(a, v, 0);
    var zeros := seq(32, _ => 0 as Byte);
    var same := Verify(check, zeros, 32);
    zero := same == 1;
    assert check[..32] == check && zeros[..32] == zeros;
    CongModEq(v, 0);
    ZeroBytes(zeros);
    if LE(check) == 0 {
      LEUnique(check, zeros);
    }
  }

  /** Steps 1 to 3 of the decoding: a square root of num / den if there is one. */
  method SqrtRatio(num: Fe, den: Fe, ghost u: int, ghost v: int) returns (ok: bool, x: Fe, ghost vx: int)
    requires NoZeroDivisors() && Fermat() && Is(num, u, 0) && Is(den, v, 1)
    ensures ok ==> Is(x, vx, 0) && Root(vx, u, v)
    ensures !ok ==> forall y: int :: !Root(y, u, v)
  {
    ghost var v2, vd, v3, v4, vw, vq, v5, vc, vt, vtt, vroot;
    var t, d3, root;
    t, v2 := SquareT(den, v, 1);
    d3, vd := MulT(t, den, v2, v, 0, 1);
    x, v3 := SquareT(d3, vd, 0);
    x, v4 := MulT(x, den, v3, v, 0, 1);
    x, vw := MulT(x, num, v4, u, 0, 0);
    x, vq := PowRootT(x, vw);
    x, v5 := MulT(x, d3, vq, vd, 0, 0);
    x, vc := MulT(x, num, v5, u, 0, 0);
    assert Candidate(u, v, vd, vw, vq, vc);
    t, vt := SquareT(x, vc, 0);
    t, vtt := MulT(t, den, vt, v, 0, 1);
    root, vroot := SubReduceT(t, num, vtt, u);
    vx := vc;
    ok := IsZeroT(root, vroot);
    if ok {
      DifferenceZero(vtt, u);
      CongSym(vtt, u);
    } else {
      t, vroot := AddReduceT(t, num, vtt, u);
      ok := IsZeroT(t, vroot);
      NoRoot(u, v, vd, vw, vq, vc);
      if ok {
        SqrtNeg1Val();
        x, vx := MulT(x, SQRTNEG1, vc, I, 0, 0);
        SumZero(vtt, u);
        TimesI(vc, v, u, vx);
        CongSym((vx * vx) * v, u);
      }
    }
  }

  lemma DifferenceZero(a: int, b: int)
    ensures Cong(a - b, 0) <==> Cong(a, b)
  {
    if Cong(a - b, 0) {
      CongRefl(b);
      CongAdd(a - b, 0, b, b);
      CongEq(a - b + b, 0 + b, a, b);
    }
    if Cong(a, b) {
      CongRefl(b);
      CongSub(a, b, b, b);
      CongEq(a - b, b - b, a - b, 0);
    }
  }

  lemma SumZero(a: int, b: int)
    ensures Cong(a + b, 0) <==> Cong(a, -b)
  {
    DifferenceZero(a, -b);
  }

  /** Neither check passes only if there is no root. */
  lemma NoRoot(u: int, v: int, d3: int, w: int, q: int, c: int)
    requires NoZeroDivisors() && Fermat() && Candidate(u, v, d3, w, q, c)
    requires !Cong((c * c) * v - u, 0)
    ensures !Cong((c * c) * v + u, 0) ==> forall y: int :: !Root(y, u, v)
  {
    DifferenceZero((c * c) * v, u);
    SumZero((c * c) * v, u);
    forall y: int | Root(y, u, v)
      ensures Cong((c * c) * v, -u)
    {
      assert Radical(y, u, v, 0);
      CandidateComplete(u, v, d3, w, q, c, y);
    }
  }

  lemma TimesI(c: int, v: int, u: int, x: int)
    requires Cong((c * c) * v, -u) && x == c * I && Cong(I * I, -1)
    ensures Cong((x * x) * v, u)
  {
    var i := I;
    MulSwap(c, i, c, i);
    CongMul((c * c) * v, -u, i * i, -1);
    MulAssoc(c * c, v, i * i);
    MulAssoc(c * c, i * i, v);
    CongEq(((c * c) * v) * (i * i), (-u) * (-1), (x * x) * v, u);
  }

  method ExpandT(p: seq<Byte>) returns (out: Fe)
    requires |p| == 32
    ensures Is(out, CoordinateY(p), 0)
  {
    out := Expand(p);
    CongMod(Val(out));
    CongSym(CoordinateY(p), Val(out));
    IsClose(out, CoordinateY(p), 0);
  }

  /** A point with this y coordinate is a root of the decoding equation. */
  lemma PointIsRoot(pt: CurvePoint, u: int, v: int)
    requires u == pt.y * pt.y - 1 && v == (pt.y * pt.y) * D + 1
    ensures Root(pt.x, u, v)
  {
    CurveEquality(pt);
    CurveEquation(pt.x, pt.y);
    CongSym((pt.x * pt.x) * (D * (pt.y * pt.y) + 1), pt.y * pt.y - 1);
  }

  lemma RootOnCurve(root: int, x: int, y: int, u: int, v: int, pt: Point)
    requires u == y * y - 1 && v == (y * y) * D + 1 && Root(root, u, v)
    requires (x == root || x == -root) && pt == Point(x % P, y) && 0 <= y < P
    ensures OnCurve(pt)
  {
    ReducedRoot(root, x, u, v);
    assert Radical(x % P, u, v, 0);
    CongSym(u, ((x % P) * (x % P)) * v);
    CurveEquation(x % P, y);
  }

  lemma ReducedRoot(root: int, x: int, u: int, v: int)
    requires Root(root, u, v) && (x == root || x == -root)
    ensures Root(x % P, u, v)
  {
    assert Radical(root, u, v, 0);
    var r := x % P;
    assert x * x == root * root;
    CongMod(x);
    CongMul(r, x, r, x);
    CongSym(r * r, x * x);
    CongScale(v, x * x, r * r);
    CongEq(v * (x * x), v * (r * r), (root * root) * v, (r * r) * v);
    CongTrans(u, (root * root) * v, (r * r) * v);
  }

  /** Negation changes the parity, p being odd, except of zero. */
  lemma ParityFlips(x: int)
    ensures x % P == 0 ==> (-x) % P == 0
    ensures x % P != 0 ==> (-x) % P != 0 && ((-x) % P) % 2 != (x % P) % 2
  {
    var r := x % P;
    if r == 0 {
      CongModEq(x, 0);
      CongScale(-1, x, 0);
      CongModEq(-1 * x, -1 * 0);
    } else {
      CongBy(-x, P - r, -(x / P) - 1);
      CongResidue(-x, P - r);
    }
  }

  /** Of two roots x and -x the parity decides. */
  lemma ParityDecides(a: int, b: int, bit: int)
    requires 0 <= a < P && 0 <= b < P && 0 <= bit <= 1 && (Cong(a, b) || Cong(a, -b))
    requires (a == 0 || a % 2 != bit) && (b == 0 || b % 2 != bit)
    ensures a == b
  {
    if Cong(a, b) {
      CongUnique(a, b);
    } else {
      CongSym(a, -b);
      CongResidue(-b, a);
      ParityFlips(b);
    }
  }

  lemma AffineRep(r: Ge, x: int, y: int, t: int, pt: Point)
    requires Is(r.x, x, 0) && Is(r.y, y, 0) && Is(r.z, 1, 0) && Is(r.t, t, 0)
    requires pt == Point(x % P, y) && t == x * y
    ensures Full(r, pt)
  {
    var e := Ext(x, y, 1, t);
    CongMod(x);
    CongSym(x % P, x);
    CongEq(x, x % P, x, pt.x * 1);
    CongRefl(y);
    CongScale(y, x, x % P);
    CongEq(y * x, y * (x % P), t, (pt.x * pt.y) * 1);
    OneNonZero();
    assert Stands(r, e) && RepT(e, pt);
  }

  /** Accepts exactly the strings whose y coordinate occurs on the curve, and returns the negative of the point. */
  method UnpackNegative(p: seq<Byte>) returns (ok: bool, r: Ge)
    requires |p| == 32 && NoZeroDivisors() && Fermat()
    ensures ok <==> exists pt: CurvePoint :: pt.y == CoordinateY(p)
    ensures ok ==> exists pt: CurvePoint :: NegativeOf(p, pt) && Full(r, pt)
  {
    var parity := p[31] / 128;
    ghost var y := CoordinateY(p);
    ghost var yy, v1, u, v, vx, vt;
    var num, den, x, t;
    var one := Fe(1, 0, 0, 0, 0);
    var fy := ExpandT(p);
    SmallVal(1);
    ECDVal();
    num, yy := SquareT(fy, y, 0);
    den, v1 := MulT(num, ECD, yy, D, 0, 0);
    num, u := SubReduceT(num, one, yy, 1);
    den, v := AddT(den, one, v1, 1);
    ok, x, vx := SqrtRatio(num, den, u, v);
    if ok {
      var check := ContractT(x, vx, 0);
      ParityByte(check);
      ghost var root := vx;
      ParityFlips(root);
      if check[0] % 2 == parity {
        x, vx := NegT(x, vx);
      }
      ghost var pt := Point(vx % P, y);
      RootOnCurve(root, vx, y, u, v, pt);
      t, vt := MulT(x, fy, vx, y, 0, 0);
      r := Ge(x, fy, one, t);
      AffineRep(r, vx, y, vt, pt);
      assert NegativeOf(p, pt) && Full(r, pt);
    } else {
      r := Ge(x, fy, one, fy);
      forall pt: CurvePoint | pt.y == y
        ensures false
      {
        PointIsRoot(pt, u, v);
      }
    }
  }

  // ---- round trips ----

  /** d y^2 + 1 vanishes nowhere on the curve. */
  lemma DenominatorNonZero(pt: CurvePoint)
    requires NoZeroDivisors()
    ensures !Cong((pt.y * pt.y) * D + 1, 0)
  {
    var v, u, yy := (pt.y * pt.y) * D + 1, pt.y * pt.y - 1, pt.y * pt.y;
    if Cong(v, 0) {
      PointIsRoot(pt, u, v);
      assert Radical(pt.x, u, v, 0);
      CongScale(pt.x * pt.x, v, 0);
      CongTrans(u, (pt.x * pt.x) * v, (pt.x * pt.x) * 0);
      CongRefl(1);
      CongAdd(u, 0, 1, 1);
      CongEq(u + 1, 0 + 1, yy, 1);
      CongScale(D, yy, 1);
      CongAdd(D * yy, D * 1, 1, 1);
      CongEq(D * yy + 1, D * 1 + 1, v, D + 1);
      CongSym(v, D + 1);
      CongTrans(D + 1, v, 0);
      CongUnique(D + 1, 0);
      assert false;
    }
  }

  lemma SameSquare(a: int, b: int, u: int, v: int)
    requires NoZeroDivisors() && Root(a, u, v) && Root(b, u, v) && !Cong(v, 0)
    ensures Cong(a, b) || Cong(a, -b)
  {
    assert Radical(a, u, v, 0) && Radical(b, u, v, 0);
    CongSym(u, (a * a) * v);
    CongTrans((a * a) * v, u, (b * b) * v);
    CongEq((a * a) * v, (b * b) * v, v * (a * a), v * (b * b));
    CancelFactor(v, a * a, b * b);
    DifferenceZero(a * a, b * b);
    CongEq(a * a - b * b, 0, (a - b) * (a + b), 0);
    assert Factors(a - b, a + b);
    DifferenceZero(a, b);
    SumZero(a, b);
  }

  /** A string names at most one point. */
  lemma NegativeUnique(b: seq<Byte>, p: CurvePoint, q: CurvePoint)
    requires |b| == 32 && NoZeroDivisors() && NegativeOf(b, p) && NegativeOf(b, q)
    ensures p == q
  {
    SameX(p, q);
    ParityDecides(p.x, q.x, b[31] / 128);
  }

  lemma SameX(p: CurvePoint, q: CurvePoint)
    requires NoZeroDivisors() && p.y == q.y
    ensures Cong(p.x, q.x) || Cong(p.x, -q.x)
  {
    var u, v := p.y * p.y - 1, (p.y * p.y) * D + 1;
    PointIsRoot(p, u, v);
    PointIsRoot(q, u, v);
    DenominatorNonZero(p);
    SameSquare(p.x, q.x, u, v);
  }

  /** A number below 2^255 and the bit above it. */
  lemma TopBit(b: seq<Byte>, y: int, bit: int)
    requires |b| == 32 && 0 <= bit <= 1
    requires 0 <= y < 0x8000_0000_0000_0000_0000_0000_0000_0000_0000_0000_0000_0000_0000_0000_0000_0000
    requires LE(b) == y + 0x8000_0000_0000_0000_0000_0000_0000_0000_0000_0000_0000_0000_0000_0000_0000_0000 * bit
    ensures b[31] / 128 == bit
      && LE(b) % 0x8000_0000_0000_0000_0000_0000_0000_0000_0000_0000_0000_0000_0000_0000_0000_0000 == y
  {
    TopByte(b);
  }

  lemma CoordinateIs(b: seq<Byte>)
    requires LE(b) % 0x8000_0000_0000_0000_0000_0000_0000_0000_0000_0000_0000_0000_0000_0000_0000_0000 < P
    ensures CoordinateY(b) == LE(b) % 0x8000_0000_0000_0000_0000_0000_0000_0000_0000_0000_0000_0000_0000_0000_0000_0000
  {
  }

  lemma NegativeFrom(b: seq<Byte>, p: CurvePoint)
    requires |b| == 32 && LE(b)
      == p.y + 0x8000_0000_0000_0000_0000_0000_0000_0000_0000_0000_0000_0000_0000_0000_0000_0000 * (p.x % 2)
    ensures NegativeOf(b, NegPoint(p))
  {
    TopBit(b, p.y, p.x % 2);
    CoordinateIs(b);
    NegParity(p.x);
  }

  lemma NegParity(x: int)
    requires 0 <= x < P
    ensures (-x) % P == 0 || ((-x) % P) % 2 != x % 2
  {
    CongRefl(x);
    CongResidue(x, x);
    ParityFlips(x);
  }

  /** What the encoding of p unpacks to: the negative of p. */
  lemma EncodeNegative(p: CurvePoint)
    ensures NegativeOf(Encode(p), NegPoint(p))
  {
    var b := Encode(p);
    EncodeVal(p);
    NegativeFrom(b, p);
  }

  /** The string with its sign bit flipped. */
  function FlipSign(b: seq<Byte>): seq<Byte>
    requires |b| == 32
  {
    b[31 := if b[31] < 128 then b[31] + 128 else b[31] - 128]
  }

  /** The string is an encoding: y is below p, and the sign bit is set if x is 0. */
  ghost predicate Canonical(b: seq<Byte>, x: int)
    requires |b| == 32
  {
    LE(b) % 0x8000_0000_0000_0000_0000_0000_0000_0000_0000_0000_0000_0000_0000_0000_0000_0000 < P
      && (x != 0 || b[31] >= 128)
  }

  lemma CanonicalPack(b: seq<Byte>, pt: CurvePoint)
    requires |b| == 32 && NegativeOf(b, pt) && Canonical(b, pt.x)
    ensures Encode(pt) == FlipSign(b)
  {
    FlipVal(b);
    CoordinateIs(b);
    assert pt.x % 2 == 1 - (b[31] as int) / 128;
    EncodeIs(pt, FlipSign(b));
  }

  lemma PackCanonical(b: seq<Byte>, pt: CurvePoint, low: int, bit: int)
    requires |b| == 32 && Encode(pt) == FlipSign(b)
      && low == LE(b) % 0x8000_0000_0000_0000_0000_0000_0000_0000_0000_0000_0000_0000_0000_0000_0000_0000
      && bit == (b[31] as int) / 128
    ensures low == pt.y && pt.x % 2 == 1 - bit
  {
    FlipVal(b);
    EncodeVal(pt);
    TopBit(Encode(pt), pt.y, pt.x % 2);
    TopBit(Encode(pt), low, 1 - bit);
  }

  /**
   * Packing what was unpacked flips the sign bit and nothing else, exactly if y was reduced and x is not an unsigned 0.
   */
  lemma PackOfUnpack(b: seq<Byte>, pt: CurvePoint)
    requires |b| == 32 && NegativeOf(b, pt)
    ensures Encode(pt) == FlipSign(b) <==> Canonical(b, pt.x)
  {
    if Canonical(b, pt.x) {
      CanonicalPack(b, pt);
    }
    if Encode(pt) == FlipSign(b) {
      PackCanonical(b, pt, LE(b) % 0x8000_0000_0000_0000_0000_0000_0000_0000_0000_0000_0000_0000_0000_0000_0000_0000,
        (b[31] as int) / 128);
    }
  }

  /** The string is the one encoding of a point with this x: y is below p, and the sign bit is clear if x is 0. */
  ghost predicate Faithful(b: seq<Byte>, x: int)
    requires |b| == 32
  {
    && LE(b) % 0x8000_0000_0000_0000_0000_0000_0000_0000_0000_0000_0000_0000_0000_0000_0000_0000 < P
    && (x != 0 || b[31] < 128)
  }

  lemma FaithfulBack(b: seq<Byte>, pt: CurvePoint, q: Point)
    requires |b| == 32 && NegativeOf(b, pt) && Faithful(b, pt.x) && q == NegPoint(pt)
    ensures Encode(q) == b
  {
    SplitTop(b);
    CoordinateIs(b);
    NegParity(pt.x);
    NegZero(pt.x);
    EncodeIs(q, b);
  }

  lemma BackFaithful(b: seq<Byte>, pt: CurvePoint, q: Point)
    requires |b| == 32 && NegativeOf(b, pt) && q == NegPoint(pt) && Encode(q) == b
    ensures Faithful(b, pt.x)
  {
    EncodeVal(q);
    TopBit(b, q.y, q.x % 2);
    NegZero(pt.x);
  }

  /** The string is the encoding of the negative of what it unpacks to exactly if it is faithful. */
  lemma EncodeBack(b: seq<Byte>, pt: CurvePoint)
    requires |b| == 32 && NegativeOf(b, pt)
    ensures Encode(NegPoint(pt)) == b <==> Faithful(b, pt.x)
  {
    if Faithful(b, pt.x) {
      FaithfulBack(b, pt, NegPoint(pt));
    }
    if Encode(NegPoint(pt)) == b {
      BackFaithful(b, pt, NegPoint(pt));
    }
  }

  lemma SplitTop(b: seq<Byte>)
    requires |b| == 32
    ensures LE(b) == LE(b) % 0x8000_0000_0000_0000_0000_0000_0000_0000_0000_0000_0000_0000_0000_0000_0000_0000
      + 0x8000_0000_0000_0000_0000_0000_0000_0000_0000_0000_0000_0000_0000_0000_0000_0000 * ((b[31] as int) / 128)
  {
    TopByte(b);
    var low, h := LE(b) - 0x8000_0000_0000_0000_0000_0000_0000_0000_0000_0000_0000_0000_0000_0000_0000_0000
      * ((b[31] as int) / 128), (b[31] as int) / 128;
    TopBit(b, low, h);
  }

  lemma NegZero(x: int)
    requires 0 <= x < P
    ensures (-x) % P == 0 <==> x == 0
  {
    CongRefl(x);
    CongResidue(x, x);
    ParityFlips(x);
  }

  lemma FlipVal(b: seq<Byte>)
    requires |b| == 32
    ensures |FlipSign(b)| == 32
    ensures LE(FlipSign(b))
      == LE(b) % 0x8000_0000_0000_0000_0000_0000_0000_0000_0000_0000_0000_0000_0000_0000_0000_0000
      + 0x8000_0000_0000_0000_0000_0000_0000_0000_0000_0000_0000_0000_0000_0000_0000_0000 * (1 - (b[31] as int) / 128)
  {
    var c := FlipSign(b);
    TopByte(b);
    TopByte(c);
    assert c[..31] == b[..31];
    var low, h := LE(b) - 0x8000_0000_0000_0000_0000_0000_0000_0000_0000_0000_0000_0000_0000_0000_0000_0000
      * ((b[31] as int) / 128), (b[31] as int) / 128;
    TopBit(b, low, h);
  }
}
