/** Congruence modulo the field prime p = 2^255 - 19. */
module ModP {
  import opened Powers

  const P: int := 0x7fff_ffff_ffff_ffff_ffff_ffff_ffff_ffff_ffff_ffff_ffff_ffff_ffff_ffff_ffff_ffed

  /**
   * a and b differ by a multiple of p. The definition opens only where a proof names Unlock, and closes where it names
   * Covers.
   */
  ghost predicate Cong(a: int, b: int) {
    forall key: int {:trigger Unlock(a, b, key)} :: Unlock(a, b, key) ==>
      exists k: int {:trigger Covers(a, b, k)} :: Covers(a, b, k)
        && a - b == k * 0x7fff_ffff_ffff_ffff_ffff_ffff_ffff_ffff_ffff_ffff_ffff_ffff_ffff_ffff_ffff_ffed
  }

  ghost predicate Unlock(a: int, b: int, key: int) {
    true
  }

  ghost predicate Covers(a: int, b: int, k: int) {
    true
  }

  lemma CongBy(a: int, b: int, k: int)
    requires a - b == k * 0x7fff_ffff_ffff_ffff_ffff_ffff_ffff_ffff_ffff_ffff_ffff_ffff_ffff_ffff_ffff_ffed
    ensures Cong(a, b)
  {
    assert Covers(a, b, k);
  }

  lemma CongFactor(a: int, b: int) returns (k: int)
    requires Cong(a, b)
    ensures a - b == k * 0x7fff_ffff_ffff_ffff_ffff_ffff_ffff_ffff_ffff_ffff_ffff_ffff_ffff_ffff_ffff_ffed
  {
    assert Unlock(a, b, 0);
    k :| Covers(a, b, k) && a - b
      == k * 0x7fff_ffff_ffff_ffff_ffff_ffff_ffff_ffff_ffff_ffff_ffff_ffff_ffff_ffff_ffff_ffed;
  }

  lemma CongRefl(a: int)
    ensures Cong(a, a)
  {
    CongBy(a, a, 0);
  }

  /** Rewriting on either side. */
  lemma CongEq(a: int, b: int, c: int, d: int)
    requires Cong(a, b) && a == c && b == d
    ensures Cong(c, d)
  {
  }

  lemma CongScale(c: int, a: int, b: int)
    requires Cong(a, b)
    ensures Cong(c * a, c * b)
  {
    CongRefl(c);
    CongMul(c, c, a, b);
  }

  lemma CongSym(a: int, b: int)
    requires Cong(a, b)
    ensures Cong(b, a)
  {
    var k := CongFactor(a, b);
    CongBy(b, a, -k);
  }

  lemma CongTrans(a: int, b: int, c: int)
    requires Cong(a, b) && Cong(b, c)
    ensures Cong(a, c)
  {
    var k := CongFactor(a, b);
    var l := CongFactor(b, c);
    CongBy(a, c, k + l);
  }

  lemma CongAdd(a: int, b: int, c: int, d: int)
    requires Cong(a, b) && Cong(c, d)
    ensures Cong(a + c, b + d)
  {
    var k := CongFactor(a, b);
    var l := CongFactor(c, d);
    CongBy(a + c, b + d, k + l);
  }

  lemma CongSub(a: int, b: int, c: int, d: int)
    requires Cong(a, b) && Cong(c, d)
    ensures Cong(a - c, b - d)
  {
    var k := CongFactor(a, b);
    var l := CongFactor(c, d);
    CongBy(a - c, b - d, k - l);
  }

  lemma CongMul(a: int, b: int, c: int, d: int)
    requires Cong(a, b) && Cong(c, d)
    ensures Cong(a * c, b * d)
  {
    var k := CongFactor(a, b);
    var l := CongFactor(c, d);
    var p := 0x7fff_ffff_ffff_ffff_ffff_ffff_ffff_ffff_ffff_ffff_ffff_ffff_ffff_ffff_ffff_ffed;
    calc {
      a * c - b * d;
      a * c - a * d + (a * d - b * d);
      a * (c - d) + (a - b) * d;
      a * (l * p) + (k * p) * d;
      (a * l + k * d) * p;
    }
    CongBy(a * c, b * d, a * l + k * d);
  }

  /** Congruent numbers below p are equal. */
  lemma CongUnique(a: int, b: int)
    requires Cong(a, b)
    requires 0 <= a < P && 0 <= b < P
    ensures a == b
  {
    var k := CongFactor(a, b);
  }

  /** The canonical representative. */
  lemma CongMod(a: int)
    ensures Cong(a % P, a) && 0 <= a % P < P
  {
    CongBy(a % P, a, -(a / P));
  }

  lemma CongModEq(a: int, b: int)
    ensures Cong(a, b) <==> a % P == b % P
  {
    CongMod(a);
    CongMod(b);
    if Cong(a, b) {
      CongTrans(a % P, a, b);
      CongSym(b % P, b);
      CongTrans(a % P, b, b % P);
      CongUnique(a % P, b % P);
    } else if a % P == b % P {
      CongSym(a % P, a);
      CongTrans(a, a % P, b);
    }
  }

  lemma {:induction false} CongPow(a: int, b: int, e: nat)
    requires Cong(a, b)
    ensures Cong(Pow(a, e), Pow(b, e))
  {
    if e == 0 {
      CongBy(1, 1, 0);
    } else {
      CongPow(a, b, e - 1);
      CongMul(a, b, Pow(a, e - 1), Pow(b, e - 1));
    }
  }
}
