/** Field elements as five limbs of 51 bits, carried lazily. */
module Field {
  import opened Words
  import opened ModP
  import opened Powers

  datatype Fe = Fe(l0: int, l1: int, l2: int, l3: int, l4: int)

  function Val(f: Fe): int {
    f.l0
    + 0x8_0000_0000_0000 * f.l1
    + 0x40_0000_0000_0000_0000_0000_0000 * f.l2
    + 0x200_0000_0000_0000_0000_0000_0000_0000_0000_0000 * f.l3
    + 0x1000_0000_0000_0000_0000_0000_0000_0000_0000_0000_0000_0000_0000 * f.l4
  }

  /** Every limb is in [0, b). */
  predicate Below(f: Fe, b: int) {
    0 <= f.l0 < b && 0 <= f.l1 < b && 0 <= f.l2 < b && 0 <= f.l3 < b && 0 <= f.l4 < b
  }

  /** What every multiplication accepts: limbs below 2^54. */
  predicate Loose(f: Fe) {
    Below(f, 0x40_0000_0000_0000)
  }

  /** What every multiplication and reducing operation returns: limbs below 2^51 + 2^18. */
  predicate Tight(f: Fe) {
    Below(f, 0x8_0000_0004_0000)
  }

  // ---- the product of two limb vectors, modulo p ----

  /** Multiplication by 2^51: the limb that leaves at the top comes back 19 times at the bottom. */
  function Rotate(f: Fe): Fe {
    Fe(19 * f.l4, f.l0, f.l1, f.l2, f.l3)
  }

  function Scale(c: int, f: Fe): Fe {
    Fe(c * f.l0, c * f.l1, c * f.l2, c * f.l3, c * f.l4)
  }

  function Plus(f: Fe, g: Fe): Fe {
    Fe(f.l0 + g.l0, f.l1 + g.l1, f.l2 + g.l2, f.l3 + g.l3, f.l4 + g.l4)
  }

  /** The five column sums of the schoolbook product, the upper half folded down by 19. */
  function Columns(r: Fe, s: Fe): Fe {
    var s1 := Rotate(s);
    var s2 := Rotate(s1);
    var s3 := Rotate(s2);
    var s4 := Rotate(s3);
    Plus(Scale(r.l0, s), Plus(Scale(r.l1, s1), Plus(Scale(r.l2, s2), Plus(Scale(r.l3, s3), Scale(r.l4, s4)))))
  }

  lemma RotateVal(f: Fe)
    ensures Cong(Val(Rotate(f)), 0x8_0000_0000_0000 * Val(f))
  {
    CongBy(Val(Rotate(f)), 0x8_0000_0000_0000 * Val(f), -f.l4);
  }

  lemma ScaleVal(c: int, f: Fe)
    ensures Val(Scale(c, f)) == c * Val(f)
  {
  }

  /** One row of the product: limb r of weight w times the rotated s. */
  lemma RowVal(r: int, f: Fe, w: int, v: int)
    requires Cong(Val(f), w * v)
    ensures Cong(Val(Scale(r, f)), (w * r) * v)
    ensures Cong(Val(Rotate(f)), (0x8_0000_0000_0000 * w) * v)
  {
    ScaleVal(r, f);
    CongScale(r, Val(f), w * v);
    assert r * (w * v) == (w * r) * v;
    RotateVal(f);
    CongScale(0x8_0000_0000_0000, Val(f), w * v);
    assert 0x8_0000_0000_0000 * (w * v) == (0x8_0000_0000_0000 * w) * v;
    CongTrans(Val(Rotate(f)), 0x8_0000_0000_0000 * Val(f), (0x8_0000_0000_0000 * w) * v);
  }

  lemma ColumnsVal(r: Fe, s: Fe)
    ensures Cong(Val(Columns(r, s)), Val(r) * Val(s))
  {
    var v := Val(s);
    CongRefl(v);
    var s1 := Rotate(s);
    var s2 := Rotate(s1);
    var s3 := Rotate(s2);
    var s4 := Rotate(s3);
    var w1 := 0x8_0000_0000_0000;
    var w2 := 0x40_0000_0000_0000_0000_0000_0000;
    var w3 := 0x200_0000_0000_0000_0000_0000_0000_0000_0000_0000;
    var w4 := 0x1000_0000_0000_0000_0000_0000_0000_0000_0000_0000_0000_0000_0000;
    RowVal(r.l0, s, 1, v);
    RowVal(r.l1, s1, w1, v);
    RowVal(r.l2, s2, w2, v);
    RowVal(r.l3, s3, w3, v);
    RowVal(r.l4, s4, w4, v);
    SumRows(Scale(r.l0, s), r.l0 * v, Scale(r.l1, s1), (w1 * r.l1) * v, Scale(r.l2, s2), (w2 * r.l2) * v,
            Scale(r.l3, s3), (w3 * r.l3) * v, Scale(r.l4, s4), (w4 * r.l4) * v);
    Distribute(r.l0, w1 * r.l1, w2 * r.l2, w3 * r.l3, w4 * r.l4, v);
    CongEq(Val(Columns(r, s)), r.l0 * v + ((w1 * r.l1) * v + ((w2 * r.l2) * v + ((w3 * r.l3) * v + (w4 * r.l4) * v))),
           Val(Columns(r, s)), Val(r) * v);
  }

  lemma SumRows(f0: Fe, b0: int, f1: Fe, b1: int, f2: Fe, b2: int, f3: Fe, b3: int, f4: Fe, b4: int)
    requires Cong(Val(f0), b0) && Cong(Val(f1), b1) && Cong(Val(f2), b2) && Cong(Val(f3), b3) && Cong(Val(f4), b4)
    ensures Cong(Val(Plus(f0, Plus(f1, Plus(f2, Plus(f3, f4))))), b0 + (b1 + (b2 + (b3 + b4))))
  {
    CongAdd(Val(f3), b3, Val(f4), b4);
    CongAdd(Val(f2), b2, Val(f3) + Val(f4), b3 + b4);
    CongAdd(Val(f1), b1, Val(f2) + (Val(f3) + Val(f4)), b2 + (b3 + b4));
    CongAdd(Val(f0), b0, Val(f1) + (Val(f2) + (Val(f3) + Val(f4))), b1 + (b2 + (b3 + b4)));
  }

  lemma Distribute(a: int, b: int, c: int, d: int, e: int, v: int)
    ensures (a + b + c + d + e) * v == a * v + (b * v + (c * v + (d * v + e * v)))
  {
  }

  // ---- multiplication and squaring ----

  /** Column sums that a product of limbs below 2^54 can give. */
  predicate ColumnRange(t: Fe) {
    var u := 0x1000_0000_0000_0000_0000_0000_0000;
    0 <= t.l0 <= 77 * u && 0 <= t.l1 <= 59 * u && 0 <= t.l2 <= 41 * u && 0 <= t.l3 <= 23 * u && 0 <= t.l4 <= 5 * u
  }

  lemma Nineteen(a: int, b: int)
    ensures a * (19 * b) == 19 * (a * b)
  {
  }

  /** The columns written out, as the source writes them. */
  lemma Column0(r: Fe, s: Fe)
    ensures Columns(r, s).l0 == r.l0 * s.l0 + 19 * (r.l4 * s.l1 + r.l1 * s.l4 + r.l2 * s.l3 + r.l3 * s.l2)
  {
    Nineteen(r.l4, s.l1);
    Nineteen(r.l1, s.l4);
    Nineteen(r.l2, s.l3);
    Nineteen(r.l3, s.l2);
  }

  lemma Column1(r: Fe, s: Fe)
    ensures Columns(r, s).l1 == r.l0 * s.l1 + r.l1 * s.l0 + 19 * (r.l4 * s.l2 + r.l2 * s.l4 + r.l3 * s.l3)
  {
    Nineteen(r.l4, s.l2);
    Nineteen(r.l2, s.l4);
    Nineteen(r.l3, s.l3);
  }

  lemma Column2(r: Fe, s: Fe)
    ensures Columns(r, s).l2 == r.l0 * s.l2 + r.l2 * s.l0 + r.l1 * s.l1 + 19 * (r.l4 * s.l3 + r.l3 * s.l4)
  {
    Nineteen(r.l4, s.l3);
    Nineteen(r.l3, s.l4);
  }

  lemma Column3(r: Fe, s: Fe)
    ensures Columns(r, s).l3 == r.l0 * s.l3 + r.l3 * s.l0 + r.l1 * s.l2 + r.l2 * s.l1 + 19 * (r.l4 * s.l4)
  {
    Nineteen(r.l4, s.l4);
  }

  lemma Column4(r: Fe, s: Fe)
    ensures Columns(r, s).l4 == r.l0 * s.l4 + r.l4 * s.l0 + r.l3 * s.l1 + r.l1 * s.l3 + r.l2 * s.l2
  {
  }

  lemma ColumnsExpand(r: Fe, s: Fe)
    ensures Columns(r, s).l0 == r.l0 * s.l0 + 19 * (r.l4 * s.l1 + r.l1 * s.l4 + r.l2 * s.l3 + r.l3 * s.l2)
    ensures Columns(r, s).l1 == r.l0 * s.l1 + r.l1 * s.l0 + 19 * (r.l4 * s.l2 + r.l2 * s.l4 + r.l3 * s.l3)
    ensures Columns(r, s).l2 == r.l0 * s.l2 + r.l2 * s.l0 + r.l1 * s.l1 + 19 * (r.l4 * s.l3 + r.l3 * s.l4)
    ensures Columns(r, s).l3 == r.l0 * s.l3 + r.l3 * s.l0 + r.l1 * s.l2 + r.l2 * s.l1 + 19 * (r.l4 * s.l4)
    ensures Columns(r, s).l4 == r.l0 * s.l4 + r.l4 * s.l0 + r.l3 * s.l1 + r.l1 * s.l3 + r.l2 * s.l2
  {
    Column0(r, s);
    Column1(r, s);
    Column2(r, s);
    Column3(r, s);
    Column4(r, s);
  }

  method MulColumns(in2: Fe, in1: Fe) returns (t: Fe)
    requires Loose(in2) && Loose(in1)
    ensures t == Columns(in1, in2) && ColumnRange(t)
  {
    ColumnsExpand(in1, in2);
    var r0, r1, r2, r3, r4 := in1.l0, in1.l1, in1.l2, in1.l3, in1.l4;
    var s0, s1, s2, s3, s4 := in2.l0, in2.l1, in2.l2, in2.l3, in2.l4;
    var mul;
    var t0 := Mul64x64(r0, s0, 1, r0);
    var t1 := Mul64x64(r0, s1, 1, r0);
    mul := Mul64x64(r1, s0, 1, r1);
    t1 := Add128(t1, mul);
    var t2 := Mul64x64(r0, s2, 1, r0);
    mul := Mul64x64(r2, s0, 1, r2);
    t2 := Add128(t2, mul);
    mul := Mul64x64(r1, s1, 1, r1);
    t2 := Add128(t2, mul);
    var t3 := Mul64x64(r0, s3, 1, r0);
    mul := Mul64x64(r3, s0, 1, r3);
    t3 := Add128(t3, mul);
    mul := Mul64x64(r1, s2, 1, r1);
    t3 := Add128(t3, mul);
    mul := Mul64x64(r2, s1, 1, r2);
    t3 := Add128(t3, mul);
    var t4 := Mul64x64(r0, s4, 1, r0);
    mul := Mul64x64(r4, s0, 1, r4);
    t4 := Add128(t4, mul);
    mul := Mul64x64(r3, s1, 1, r3);
    t4 := Add128(t4, mul);
    mul := Mul64x64(r1, s3, 1, r1);
    t4 := Add128(t4, mul);
    mul := Mul64x64(r2, s2, 1, r2);
    t4 := Add128(t4, mul);
    r1 := Times19(r1);
    r2 := Times19(r2);
    r3 := Times19(r3);
    r4 := Times19(r4);
    mul := Mul64x64(r4, s1, 19, in1.l4);
    t0 := Add128(t0, mul);
    mul := Mul64x64(r1, s4, 19, in1.l1);
    t0 := Add128(t0, mul);
    mul := Mul64x64(r2, s3, 19, in1.l2);
    t0 := Add128(t0, mul);
    mul := Mul64x64(r3, s2, 19, in1.l3);
    t0 := Add128(t0, mul);
    mul := Mul64x64(r4, s2, 19, in1.l4);
    t1 := Add128(t1, mul);
    mul := Mul64x64(r2, s4, 19, in1.l2);
    t1 := Add128(t1, mul);
    mul := Mul64x64(r3, s3, 19, in1.l3);
    t1 := Add128(t1, mul);
    mul := Mul64x64(r4, s3, 19, in1.l4);
    t2 := Add128(t2, mul);
    mul := Mul64x64(r3, s4, 19, in1.l3);
    t2 := Add128(t2, mul);
    mul := Mul64x64(r4, s4, 19, in1.l4);
    t3 := Add128(t3, mul);
    t := Fe(t0, t1, t2, t3, t4);
  }

  method SquareColumns(in1: Fe) returns (t: Fe)
    requires Loose(in1)
    ensures t == Columns(in1, in1) && ColumnRange(t)
  {
    ColumnsExpand(in1, in1);
    var r0, r1, r2, r3, r4 := in1.l0, in1.l1, in1.l2, in1.l3, in1.l4;
    var d0 := Add64(r0, r0);
    var d1 := Add64(r1, r1);
    var d2 := Times19(2 * r2);
    var d419 := Times19(r4);
    var d4 := Add64(d419, d419);
    var r319 := Times19(r3);
    var mul;
    var t0 := Mul64x64(r0, r0, 1, r0);
    mul := Mul64x64(d4, r1, 38, r4);
    t0 := Add128(t0, mul);
    mul := Mul64x64(d2, r3, 38, r2);
    t0 := Add128(t0, mul);
    var t1 := Mul64x64(d0, r1, 2, r0);
    mul := Mul64x64(d4, r2, 38, r4);
    t1 := Add128(t1, mul);
    mul := Mul64x64(r319, r3, 19, r3);
    t1 := Add128(t1, mul);
    var t2 := Mul64x64(d0, r2, 2, r0);
    mul := Mul64x64(r1, r1, 1, r1);
    t2 := Add128(t2, mul);
    mul := Mul64x64(d4, r3, 38, r4);
    t2 := Add128(t2, mul);
    var t3 := Mul64x64(d0, r3, 2, r0);
    mul := Mul64x64(d1, r2, 2, r1);
    t3 := Add128(t3, mul);
    mul := Mul64x64(d419, r4, 19, r4);
    t3 := Add128(t3, mul);
    var t4 := Mul64x64(d0, r4, 2, r0);
    mul := Mul64x64(d1, r3, 2, r1);
    t4 := Add128(t4, mul);
    mul := Mul64x64(r2, r2, 1, r2);
    t4 := Add128(t4, mul);
    t := Fe(t0, t1, t2, t3, t4);
  }

  /** The carry pass of curve25519_mul and curve25519_square. */
  method CarryColumns(t: Fe) returns (out: Fe)
    requires ColumnRange(t)
    ensures Tight(out) && Cong(Val(out), Val(t))
  {
    var r0, r1, r2, r3, r4, c;
    r0, c := Split51(t.l0);
    var u := Add128(t.l1, c);
    r1, c := Split51(u);
    u := Add128(t.l2, c);
    r2, c := Split51(u);
    u := Add128(t.l3, c);
    r3, c := Split51(u);
    u := Add128(t.l4, c);
    r4, c := Split51(u);
    ghost var top := c;
    c := Times19(c);
    r0 := Add64(r0, c);
    r0, c := Split51(r0);
    r1 := Add64(r1, c);
    out := Fe(r0, r1, r2, r3, r4);
    CongBy(Val(out), Val(t), -top);
  }

  /** The carry pass of curve25519_square_times: all high parts move at once, then one full pass. */
  method CarryColumnsTwice(t: Fe) returns (out: Fe)
    requires ColumnRange(t)
    ensures Tight(out) && Cong(Val(out), Val(t))
  {
    var r0, r1, r2, r3, r4, c;
    ghost var h0, h1, h2, h3, h4;
    r0, h0 := Split51(t.l0);
    r1, h1 := Split51(t.l1);
    r2, h2 := Split51(t.l2);
    r3, h3 := Split51(t.l3);
    r4, h4 := Split51(t.l4);
    c := Shl13(t.l0);
    assert c == h0;
    r1 := Add64(r1, c);
    c := Shl13(t.l1);
    assert c == h1;
    r2 := Add64(r2, c);
    c := Shl13(t.l2);
    assert c == h2;
    r3 := Add64(r3, c);
    c := Shl13(t.l3);
    assert c == h3;
    r4 := Add64(r4, c);
    c := Shl13(t.l4);
    assert c == h4;
    ghost var top := c;
    c := Times19(c);
    r0 := Add64(r0, c);
    var mid := Fe(r0, r1, r2, r3, r4);
    CongBy(Val(mid), Val(t), -top);
    out := CarryOnce(mid);
    CongTrans(Val(out), Val(mid), Val(t));
  }

  method CarryOnce(mid: Fe) returns (out: Fe)
    requires Below(mid, 0xf800_0000_0000_0000)
    ensures Tight(out) && Cong(Val(out), Val(mid))
  {
    var r0, r1, r2, r3, r4, c := mid.l0, mid.l1, mid.l2, mid.l3, mid.l4, 0;
    r0, c := Split51(r0);
    r1 := Add64(r1, c);
    r1, c := Split51(r1);
    r2 := Add64(r2, c);
    r2, c := Split51(r2);
    r3 := Add64(r3, c);
    r3, c := Split51(r3);
    r4 := Add64(r4, c);
    r4, c := Split51(r4);
    ghost var top := c;
    c := Times19(c);
    r0 := Add64(r0, c);
    out := Fe(r0, r1, r2, r3, r4);
    CongBy(Val(out), Val(mid), -top);
  }

  method Mul(in2: Fe, in1: Fe) returns (out: Fe)
    requires Loose(in2) && Loose(in1)
    ensures Tight(out) && Cong(Val(out), Val(in2) * Val(in1))
  {
    var t := MulColumns(in2, in1);
    out := CarryColumns(t);
    ColumnsVal(in1, in2);
    CongTrans(Val(out), Val(t), Val(in1) * Val(in2));
  }

  method Square(in1: Fe) returns (out: Fe)
    requires Loose(in1)
    ensures Tight(out) && Cong(Val(out), Val(in1) * Val(in1))
  {
    var t := SquareColumns(in1);
    out := CarryColumns(t);
    ColumnsVal(in1, in1);
    CongTrans(Val(out), Val(t), Val(in1) * Val(in1));
  }

  /** count successive squarings: in^(2^count). */
  method SquareTimes(in1: Fe, count: nat) returns (out: Fe)
    requires Loose(in1) && 1 <= count
    ensures Tight(out) && Cong(Val(out), Pow(Val(in1), Pow2(count)))
  {
    out := in1;
    var n := count;
    ghost var done: nat, z := 0, Val(in1);
    PowExpOne(z);
    CongRefl(z);
    while n > 0
      invariant 0 <= n <= count && done == count - n
      invariant Loose(out) && (n < count ==> Tight(out))
      invariant Cong(Val(out), Pow(z, Pow2(done)))
    {
      var t := SquareColumns(out);
      ghost var next := done + 1;
      ColumnsVal(out, out);
      SquareStep(Val(out), Val(t), z, done, next);
      out := CarryColumnsTwice(t);
      CongTrans(Val(out), Val(t), Pow(z, Pow2(next)));
      n, done := n - 1, next;
    }
  }

  lemma SquareStep(v: int, w: int, z: int, n: nat, next: nat)
    requires Cong(v, Pow(z, Pow2(n))) && Cong(w, v * v) && next == n + 1
    ensures Cong(w, Pow(z, Pow2(next)))
  {
    var x := Pow(z, Pow2(n));
    CongMul(v, x, v, x);
    PowAdd(z, Pow2(n), Pow2(n));
    assert Pow2(n) + Pow2(n) == Pow2(next);
    CongTrans(w, v * v, x * x);
  }

  // ---- addition and subtraction ----

  /** Also curve25519_add_after_basic, which has the same body in this backend. */
  method Add(a: Fe, b: Fe) returns (out: Fe)
    requires Below(a, 0x8000_0000_0000_0000) && Below(b, 0x8000_0000_0000_0000)
    ensures out == Plus(a, b) && Val(out) == Val(a) + Val(b)
  {
    out := Fe(U64(a.l0 + b.l0), U64(a.l1 + b.l1), U64(a.l2 + b.l2), U64(a.l3 + b.l3), U64(a.l4 + b.l4));
  }

  /** Limbwise difference plus 2p. */
  function MinusTwoP(a: Fe, b: Fe): Fe {
    Fe(a.l0 + 0xf_ffff_ffff_ffda - b.l0, a.l1 + 0xf_ffff_ffff_fffe - b.l1, a.l2 + 0xf_ffff_ffff_fffe - b.l2,
       a.l3 + 0xf_ffff_ffff_fffe - b.l3, a.l4 + 0xf_ffff_ffff_fffe - b.l4)
  }

  /** Limbwise difference plus 4p. */
  function MinusFourP(a: Fe, b: Fe): Fe {
    Fe(a.l0 + 0x1f_ffff_ffff_ffb4 - b.l0, a.l1 + 0x1f_ffff_ffff_fffc - b.l1, a.l2 + 0x1f_ffff_ffff_fffc - b.l2,
       a.l3 + 0x1f_ffff_ffff_fffc - b.l3, a.l4 + 0x1f_ffff_ffff_fffc - b.l4)
  }

  method Sub(a: Fe, b: Fe) returns (out: Fe)
    requires Below(a, 0x8000_0000_0000_0000) && Below(b, 0xf_ffff_ffff_ffdb)
    ensures out == MinusTwoP(a, b) && Cong(Val(out), Val(a) - Val(b))
  {
    var o0 := AddSub64(a.l0, 0xf_ffff_ffff_ffda, b.l0);
    var o1 := AddSub64(a.l1, 0xf_ffff_ffff_fffe, b.l1);
    var o2 := AddSub64(a.l2, 0xf_ffff_ffff_fffe, b.l2);
    var o3 := AddSub64(a.l3, 0xf_ffff_ffff_fffe, b.l3);
    var o4 := AddSub64(a.l4, 0xf_ffff_ffff_fffe, b.l4);
    out := Fe(o0, o1, o2, o3, o4);
    CongBy(Val(out), Val(a) - Val(b), 2);
  }

  method SubAfterBasic(a: Fe, b: Fe) returns (out: Fe)
    requires Below(a, 0x8000_0000_0000_0000) && Below(b, 0x1f_ffff_ffff_ffb5)
    ensures out == MinusFourP(a, b) && Cong(Val(out), Val(a) - Val(b))
  {
    var o0 := AddSub64(a.l0, 0x1f_ffff_ffff_ffb4, b.l0);
    var o1 := AddSub64(a.l1, 0x1f_ffff_ffff_fffc, b.l1);
    var o2 := AddSub64(a.l2, 0x1f_ffff_ffff_fffc, b.l2);
    var o3 := AddSub64(a.l3, 0x1f_ffff_ffff_fffc, b.l3);
    var o4 := AddSub64(a.l4, 0x1f_ffff_ffff_fffc, b.l4);
    out := Fe(o0, o1, o2, o3, o4);
    CongBy(Val(out), Val(a) - Val(b), 4);
  }

  method AddReduce(a: Fe, b: Fe) returns (out: Fe)
    requires Below(a, 0x1000_0000_0000_0000) && Below(b, 0x1000_0000_0000_0000)
    ensures Tight(out) && Cong(Val(out), Val(a) + Val(b))
  {
    var sum := AddBelow(a, b);
    out := CarryOnce(sum);
    CongSum(Val(out), Val(sum), Val(a), Val(b));
  }

  method AddBelow(a: Fe, b: Fe) returns (out: Fe)
    requires Below(a, 0x1000_0000_0000_0000) && Below(b, 0x1000_0000_0000_0000)
    ensures Below(out, 0xf800_0000_0000_0000) && Val(out) == Val(a) + Val(b)
  {
    out := Add(a, b);
  }

  lemma CongSum(x: int, s: int, a: int, b: int)
    requires Cong(x, s) && s == a + b
    ensures Cong(x, a + b)
  {
  }

  method SubReduce(a: Fe, b: Fe) returns (out: Fe)
    requires Below(a, 0x1000_0000_0000_0000) && Below(b, 0x1f_ffff_ffff_ffb5)
    ensures Tight(out) && Cong(Val(out), Val(a) - Val(b))
  {
    var diff := SubAfterBasic(a, b);
    out := CarryOnce(diff);
    CongTrans(Val(out), Val(diff), Val(a) - Val(b));
  }

  method Neg(a: Fe) returns (out: Fe)
    requires Below(a, 0xf_ffff_ffff_ffdb)
    ensures Tight(out) && Cong(Val(out), -Val(a))
  {
    var o0 := AddSub64(0, 0xf_ffff_ffff_ffda, a.l0);
    var o1 := AddSub64(0, 0xf_ffff_ffff_fffe, a.l1);
    var o2 := AddSub64(0, 0xf_ffff_ffff_fffe, a.l2);
    var o3 := AddSub64(0, 0xf_ffff_ffff_fffe, a.l3);
    var o4 := AddSub64(0, 0xf_ffff_ffff_fffe, a.l4);
    var diff := Fe(o0, o1, o2, o3, o4);
    CongBy(Val(diff), -Val(a), 2);
    out := CarryOnce(diff);
    CongTrans(Val(out), Val(diff), -Val(a));
  }
}
