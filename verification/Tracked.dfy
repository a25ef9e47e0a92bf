/** Field operations that carry, as a ghost, the number each limb vector stands for and a class of limb bounds. */
module Tracked {
  import opened ModP
  import opened Field

  /** The classes: tight, a sum of two tight, a difference of two tight or a sum of three, loose. */
  function Bound(k: nat): int {
    if k == 0 then 0x8_0000_0004_0000
    else if k == 1 then 0x10_0000_0010_0000
    else if k == 2 then 0x18_0000_0020_0000
    else 0x40_0000_0000_0000
  }

  /** f stands for v modulo p, with limbs in class k. The definition opens only where a proof names Open. */
  ghost predicate Is(f: Fe, v: int, k: nat) {
    forall key: int {:trigger Open(f, v, k, key)} :: Open(f, v, k, key) ==> Below(f, Bound(k)) && Cong(Val(f), v)
  }

  ghost predicate Open(f: Fe, v: int, k: nat, key: int) {
    true
  }

  lemma IsOpen(f: Fe, v: int, k: nat)
    requires Is(f, v, k)
    ensures Below(f, Bound(k)) && Cong(Val(f), v)
  {
    assert Open(f, v, k, 0);
  }

  lemma IsClose(f: Fe, v: int, k: nat)
    requires Below(f, Bound(k)) && Cong(Val(f), v)
    ensures Is(f, v, k)
  {
  }

  lemma SmallVal(n: nat)
    requires n <= 2
    ensures Is(Fe(n, 0, 0, 0, 0), n, 0)
  {
    CongBy(Val(Fe(n, 0, 0, 0, 0)), n, 0);
  }

  lemma IsLoose(f: Fe, v: int, k: nat)
    requires Is(f, v, k)
    ensures Is(f, v, 3)
  {
    IsOpen(f, v, k);
  }

  lemma IsCong(f: Fe, v: int, w: int, k: nat)
    requires Is(f, v, k) && Cong(v, w)
    ensures Is(f, w, k)
  {
    IsOpen(f, v, k);
    CongTrans(Val(f), v, w);
  }

  lemma IsSum(a: Fe, b: Fe, out: Fe, v: int, w: int, res: int, k: nat)
    requires Cong(Val(a), v) && Cong(Val(b), w) && Cong(Val(out), Val(a) + Val(b)) && res == v + w
    requires Below(out, Bound(k))
    ensures Is(out, res, k)
  {
    CongAdd(Val(a), v, Val(b), w);
    CongTrans(Val(out), Val(a) + Val(b), v + w);
  }

  lemma IsDifference(a: Fe, b: Fe, out: Fe, v: int, w: int, res: int, k: nat)
    requires Cong(Val(a), v) && Cong(Val(b), w) && Cong(Val(out), Val(a) - Val(b)) && res == v - w
    requires Below(out, Bound(k))
    ensures Is(out, res, k)
  {
    CongSub(Val(a), v, Val(b), w);
    CongTrans(Val(out), Val(a) - Val(b), v - w);
  }

  lemma IsProduct(a: Fe, b: Fe, out: Fe, v: int, w: int, res: int)
    requires Cong(Val(a), v) && Cong(Val(b), w) && Cong(Val(out), Val(a) * Val(b)) && res == v * w
    requires Tight(out)
    ensures Is(out, res, 0)
  {
    CongMul(Val(a), v, Val(b), w);
    CongTrans(Val(out), Val(a) * Val(b), v * w);
  }

  lemma IsNegative(a: Fe, out: Fe, v: int, res: int)
    requires Cong(Val(a), v) && Cong(Val(out), -Val(a)) && res == -v && Tight(out)
    ensures Is(out, res, 0)
  {
    CongScale(-1, Val(a), v);
    CongEq(-1 * Val(a), -1 * v, -Val(a), -v);
    CongTrans(Val(out), -Val(a), -v);
  }

  method MulT(a: Fe, b: Fe, ghost v: int, ghost w: int, ghost j: nat, ghost k: nat) returns (out: Fe, ghost res: int)
    requires Is(a, v, j) && Is(b, w, k)
    ensures Is(out, res, 0) && res == v * w
  {
    IsOpen(a, v, j);
    IsOpen(b, w, k);
    out := Mul(a, b);
    res := v * w;
    IsProduct(a, b, out, v, w, res);
  }

  method SquareT(a: Fe, ghost v: int, ghost k: nat) returns (out: Fe, ghost res: int)
    requires Is(a, v, k)
    ensures Is(out, res, 0) && res == v * v
  {
    IsOpen(a, v, k);
    out := Square(a);
    res := v * v;
    IsProduct(a, a, out, v, v, res);
  }

  lemma PlusBelow(a: Fe, b: Fe, j: nat)
    requires j <= 1 && Below(a, Bound(j)) && Below(b, Bound(0))
    ensures Below(Plus(a, b), Bound(j + 1))
  {
  }

  lemma IsPlus(a: Fe, b: Fe, out: Fe, v: int, w: int, j: nat)
    requires j <= 1 && Is(a, v, j) && Is(b, w, 0) && out == Plus(a, b) && Val(out) == Val(a) + Val(b)
    ensures Is(out, v + w, j + 1)
  {
    IsOpen(a, v, j);
    IsOpen(b, w, 0);
    PlusBelow(a, b, j);
    CongRefl(Val(out));
    IsSum(a, b, out, v, w, v + w, j + 1);
  }

  method AddT(a: Fe, b: Fe, ghost v: int, ghost w: int) returns (out: Fe, ghost res: int)
    requires Is(a, v, 0) && Is(b, w, 0)
    ensures Is(out, res, 1) && res == v + w
  {
    IsOpen(a, v, 0);
    IsOpen(b, w, 0);
    out := Add(a, b);
    res := v + w;
    IsPlus(a, b, out, v, w, 0);
  }

  /** curve25519_add_after_basic has the body of curve25519_add in this backend. */
  method AddAfterBasicT(a: Fe, b: Fe, ghost v: int, ghost w: int) returns (out: Fe, ghost res: int)
    requires Is(a, v, 1) && Is(b, w, 0)
    ensures Is(out, res, 2) && res == v + w
  {
    IsOpen(a, v, 1);
    IsOpen(b, w, 0);
    out := Add(a, b);
    res := v + w;
    IsPlus(a, b, out, v, w, 1);
  }

  method SubT(a: Fe, b: Fe, ghost v: int, ghost w: int) returns (out: Fe, ghost res: int)
    requires Is(a, v, 0) && Is(b, w, 0)
    ensures Is(out, res, 2) && res == v - w
  {
    IsOpen(a, v, 0);
    IsOpen(b, w, 0);
    out := Sub(a, b);
    res := v - w;
    IsDifference(a, b, out, v, w, res, 2);
  }

  method SubAfterBasicT(a: Fe, b: Fe, ghost v: int, ghost w: int, ghost j: nat, ghost k: nat) returns (out: Fe,
        ghost res: int)
    requires Is(a, v, j) && Is(b, w, k) && j <= 1 && k <= 2
    ensures Is(out, res, 3) && res == v - w
  {
    IsOpen(a, v, j);
    IsOpen(b, w, k);
    out := SubAfterBasic(a, b);
    res := v - w;
    IsDifference(a, b, out, v, w, res, 3);
  }

  method AddReduceT(a: Fe, b: Fe, ghost v: int, ghost w: int) returns (out: Fe, ghost res: int)
    requires Is(a, v, 0) && Is(b, w, 0)
    ensures Is(out, res, 0) && res == v + w
  {
    IsOpen(a, v, 0);
    IsOpen(b, w, 0);
    out := AddReduce(a, b);
    res := v + w;
    IsSum(a, b, out, v, w, res, 0);
  }

  method SubReduceT(a: Fe, b: Fe, ghost v: int, ghost w: int) returns (out: Fe, ghost res: int)
    requires Is(a, v, 0) && Is(b, w, 0)
    ensures Is(out, res, 0) && res == v - w
  {
    IsOpen(a, v, 0);
    IsOpen(b, w, 0);
    out := SubReduce(a, b);
    res := v - w;
    IsDifference(a, b, out, v, w, res, 0);
  }

  method NegT(a: Fe, ghost v: int) returns (out: Fe, ghost res: int)
    requires Is(a, v, 0)
    ensures Is(out, res, 0) && res == -v
  {
    IsOpen(a, v, 0);
    out := Neg(a);
    res := -v;
    IsNegative(a, out, v, res);
  }
}
