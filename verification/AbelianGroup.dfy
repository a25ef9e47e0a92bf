/** Commutative groups, written additively, with integer multiples and finite sums. */
module AbelianGroup {

  /** The graphs of addition and negation; where a graph has a gap the operation gives zero. */
  datatype Group<!G> = Group(zero: G, sum: imap<(G, G), G>, negative: imap<G, G>)

  ghost function Op<G>(g: Group<G>, x: G, y: G): G {
    if (x, y) in g.sum then g.sum[(x, y)] else g.zero
  }

  ghost function Inv<G>(g: Group<G>, x: G): G {
    if x in g.negative then g.negative[x] else g.zero
  }

  /** The laws open only for the elements a proof names with At. */
  ghost predicate Abelian<G(!new)>(g: Group<G>) {
    forall x: G, y: G, z: G {:trigger At(x, y, z)} :: At(x, y, z) ==>
      && Op(g, Op(g, x, y), z) == Op(g, x, Op(g, y, z))
      && Op(g, x, y) == Op(g, y, x)
      && Op(g, x, g.zero) == x
      && Op(g, x, Inv(g, x)) == g.zero
  }

  ghost predicate At<G>(x: G, y: G, z: G) {
    true
  }

  lemma Assoc<G(!new)>(g: Group<G>, x: G, y: G, z: G)
    requires Abelian(g)
    ensures Op(g, Op(g, x, y), z) == Op(g, x, Op(g, y, z))
  {
    assert At(x, y, z);
  }

  lemma Comm<G(!new)>(g: Group<G>, x: G, y: G)
    requires Abelian(g)
    ensures Op(g, x, y) == Op(g, y, x)
  {
    assert At(x, y, y);
  }

  lemma Zero<G(!new)>(g: Group<G>, x: G)
    requires Abelian(g)
    ensures Op(g, x, g.zero) == x && Op(g, g.zero, x) == x
  {
    assert At(x, g.zero, x);
  }

  lemma Inverse<G(!new)>(g: Group<G>, x: G)
    requires Abelian(g)
    ensures Op(g, x, Inv(g, x)) == g.zero && Op(g, Inv(g, x), x) == g.zero
  {
    assert At(x, Inv(g, x), x);
  }

  lemma Interchange<G(!new)>(g: Group<G>, a: G, b: G, c: G, d: G)
    requires Abelian(g)
    ensures Op(g, Op(g, a, b), Op(g, c, d)) == Op(g, Op(g, a, c), Op(g, b, d))
  {
    Assoc(g, a, b, Op(g, c, d));
    Assoc(g, b, c, d);
    Comm(g, b, c);
    Assoc(g, c, b, d);
    Assoc(g, a, c, Op(g, b, d));
  }

  lemma Cancel<G(!new)>(g: Group<G>, a: G, x: G, y: G)
    requires Abelian(g) && Op(g, a, x) == Op(g, a, y)
    ensures x == y
  {
    Assoc(g, Inv(g, a), a, x);
    Assoc(g, Inv(g, a), a, y);
    Inverse(g, a);
    Zero(g, x);
    Zero(g, y);
  }

  lemma NegUnique<G(!new)>(g: Group<G>, x: G, y: G)
    requires Abelian(g) && Op(g, x, y) == g.zero
    ensures y == Inv(g, x)
  {
    Inverse(g, x);
    Cancel(g, x, y, Inv(g, x));
  }

  lemma NegAdd<G(!new)>(g: Group<G>, x: G, y: G)
    requires Abelian(g)
    ensures Inv(g, Op(g, x, y)) == Op(g, Inv(g, x), Inv(g, y))
  {
    Interchange(g, x, y, Inv(g, x), Inv(g, y));
    Inverse(g, x);
    Inverse(g, y);
    Zero(g, g.zero);
    NegUnique(g, Op(g, x, y), Op(g, Inv(g, x), Inv(g, y)));
  }

  lemma NegNeg<G(!new)>(g: Group<G>, x: G)
    requires Abelian(g)
    ensures Inv(g, Inv(g, x)) == x
  {
    Inverse(g, x);
    NegUnique(g, Inv(g, x), x);
  }

  // ---- integer multiples ----

  /** [n]x */
  ghost function Times<G(!new)>(g: Group<G>, n: int, x: G): G
    decreases if n < 0 then -n else n
  {
    if n == 0 then g.zero
    else if n > 0 then Op(g, Times(g, n - 1, x), x)
    else Op(g, Times(g, n + 1, x), Inv(g, x))
  }

  lemma TimesSucc<G(!new)>(g: Group<G>, n: int, x: G)
    requires Abelian(g)
    ensures Times(g, n + 1, x) == Op(g, Times(g, n, x), x)
  {
    if n < 0 {
      Assoc(g, Times(g, n + 1, x), Inv(g, x), x);
      Inverse(g, x);
      Zero(g, Times(g, n + 1, x));
    }
  }

  lemma TimesPred<G(!new)>(g: Group<G>, n: int, x: G)
    requires Abelian(g)
    ensures Times(g, n - 1, x) == Op(g, Times(g, n, x), Inv(g, x))
  {
    TimesSucc(g, n - 1, x);
    Assoc(g, Times(g, n - 1, x), x, Inv(g, x));
    Inverse(g, x);
    Zero(g, Times(g, n - 1, x));
  }

  lemma TimesOne<G(!new)>(g: Group<G>, x: G)
    requires Abelian(g)
    ensures Times(g, 1, x) == x && Times(g, 0, x) == g.zero
  {
    Zero(g, x);
    assert Times(g, 1, x) == Op(g, Times(g, 0, x), x);
  }

  lemma {:induction false} TimesAdd<G(!new)>(g: Group<G>, m: int, n: int, x: G)
    requires Abelian(g)
    ensures Times(g, m + n, x) == Op(g, Times(g, m, x), Times(g, n, x))
    decreases if n < 0 then -n else n
  {
    var a := Times(g, m, x);
    if n == 0 {
      Zero(g, a);
    } else if n > 0 {
      TimesAdd(g, m, n - 1, x);
      TimesSucc(g, m + n - 1, x);
      Assoc(g, a, Times(g, n - 1, x), x);
    } else {
      TimesAdd(g, m, n + 1, x);
      TimesPred(g, m + n + 1, x);
      Assoc(g, a, Times(g, n + 1, x), Inv(g, x));
    }
  }

  lemma {:induction false} TimesSum<G(!new)>(g: Group<G>, n: int, x: G, y: G)
    requires Abelian(g)
    ensures Times(g, n, Op(g, x, y)) == Op(g, Times(g, n, x), Times(g, n, y))
    decreases if n < 0 then -n else n
  {
    if n == 0 {
      Zero(g, g.zero);
    } else if n > 0 {
      TimesSum(g, n - 1, x, y);
      Interchange(g, Times(g, n - 1, x), Times(g, n - 1, y), x, y);
    } else {
      TimesSum(g, n + 1, x, y);
      NegAdd(g, x, y);
      Interchange(g, Times(g, n + 1, x), Times(g, n + 1, y), Inv(g, x), Inv(g, y));
    }
  }

  lemma TimesNeg<G(!new)>(g: Group<G>, n: int, x: G)
    requires Abelian(g)
    ensures Times(g, -n, x) == Inv(g, Times(g, n, x))
    ensures Times(g, n, Inv(g, x)) == Inv(g, Times(g, n, x))
  {
    TimesAdd(g, n, -n, x);
    NegUnique(g, Times(g, n, x), Times(g, -n, x));
    TimesSum(g, n, x, Inv(g, x));
    Inverse(g, x);
    TimesZero(g, n);
    NegUnique(g, Times(g, n, x), Times(g, n, Inv(g, x)));
  }

  lemma {:induction false} TimesZero<G(!new)>(g: Group<G>, n: int)
    requires Abelian(g)
    ensures Times(g, n, g.zero) == g.zero
    decreases if n < 0 then -n else n
  {
    Zero(g, g.zero);
    if n > 0 {
      TimesZero(g, n - 1);
    } else if n < 0 {
      TimesZero(g, n + 1);
      Inverse(g, g.zero);
      Zero(g, Inv(g, g.zero));
    }
  }

  lemma {:induction false} TimesProduct<G(!new)>(g: Group<G>, m: int, n: int, x: G)
    requires Abelian(g)
    ensures Times(g, m * n, x) == Times(g, m, Times(g, n, x))
    decreases if m < 0 then -m else m
  {
    if m > 0 {
      TimesProduct(g, m - 1, n, x);
      TimesAdd(g, (m - 1) * n, n, x);
      assert (m - 1) * n + n == m * n;
    } else if m < 0 {
      TimesProduct(g, m + 1, n, x);
      TimesAdd(g, (m + 1) * n, -n, x);
      TimesNeg(g, n, x);
      assert (m + 1) * n - n == m * n;
    }
  }

  lemma Doubled<G(!new)>(g: Group<G>, n: int, m: int, x: G)
    requires Abelian(g) && m == n + n
    ensures Op(g, Times(g, n, x), Times(g, n, x)) == Times(g, m, x)
  {
    TimesAdd(g, n, n, x);
  }

  // ---- combinations of two elements ----

  /** [a]p + [b]q */
  ghost function Mix<G(!new)>(g: Group<G>, a: int, p: G, b: int, q: G): G {
    Op(g, Times(g, a, p), Times(g, b, q))
  }

  lemma MixNeutral<G(!new)>(g: Group<G>, p: G, q: G)
    requires Abelian(g)
    ensures Mix(g, 0, p, 0, q) == g.zero
  {
    Zero(g, g.zero);
  }

  lemma MixDouble<G(!new)>(g: Group<G>, a: int, p: G, b: int, q: G)
    requires Abelian(g)
    ensures Op(g, Mix(g, a, p, b, q), Mix(g, a, p, b, q)) == Mix(g, 2 * a, p, 2 * b, q)
  {
    var x, y := Times(g, a, p), Times(g, b, q);
    Interchange(g, x, y, x, y);
    TimesAdd(g, a, a, p);
    TimesAdd(g, b, b, q);
    assert a + a == 2 * a && b + b == 2 * b;
  }

  lemma MixFirst<G(!new)>(g: Group<G>, a: int, p: G, b: int, q: G, d: int)
    requires Abelian(g)
    ensures Op(g, Mix(g, a, p, b, q), Times(g, d, p)) == Mix(g, a + d, p, b, q)
  {
    var x, y, z := Times(g, a, p), Times(g, b, q), Times(g, d, p);
    Assoc(g, x, y, z);
    Comm(g, y, z);
    Assoc(g, x, z, y);
    TimesAdd(g, a, d, p);
  }

  lemma MixSecond<G(!new)>(g: Group<G>, a: int, p: G, b: int, q: G, d: int)
    requires Abelian(g)
    ensures Op(g, Mix(g, a, p, b, q), Times(g, d, q)) == Mix(g, a, p, b + d, q)
  {
    Assoc(g, Times(g, a, p), Times(g, b, q), Times(g, d, q));
    TimesAdd(g, b, d, q);
  }

  lemma MixNext<G(!new)>(g: Group<G>, a: int, p: G, b: int, q: G, d: int, e: int, x: G)
    requires Abelian(g) && x == Mix(g, a, p, b, q)
    ensures Op(g, Op(g, Op(g, x, x), Times(g, d, p)), Times(g, e, q)) == Mix(g, d + 2 * a, p, e + 2 * b, q)
  {
    MixDouble(g, a, p, b, q);
    MixFirst(g, 2 * a, p, 2 * b, q, d);
    MixSecond(g, 2 * a + d, p, 2 * b, q, e);
  }

  // ---- sums of multiples ----

  /** [s0]p0 + ... + [s(n-1)]p(n-1) */
  ghost function Sum<G(!new)>(g: Group<G>, s: seq<int>, p: seq<G>, n: nat): G
    requires n <= |s| && n <= |p|
  {
    if n == 0 then g.zero else Op(g, Sum(g, s, p, n - 1), Times(g, s[n - 1], p[n - 1]))
  }

  lemma {:induction false} SumSame<G(!new)>(g: Group<G>, s: seq<int>, p: seq<G>, s': seq<int>, p': seq<G>, n: nat)
    requires n <= |s| && n <= |p| && n <= |s'| && n <= |p'|
    requires forall i :: 0 <= i < n ==> s'[i] == s[i] && p'[i] == p[i]
    ensures Sum(g, s', p', n) == Sum(g, s, p, n)
  {
    if n > 0 {
      SumSame(g, s, p, s', p', n - 1);
    }
  }

  /** Replacing one term. */
  lemma {:induction false} SumReplace<G(!new)>(g: Group<G>, s: seq<int>, p: seq<G>, s': seq<int>, p': seq<G>, n: nat,
        i: nat)
    requires Abelian(g)
    requires n <= |s| && n <= |p| && n <= |s'| && n <= |p'| && i < n
    requires forall j :: 0 <= j < n && j != i ==> s'[j] == s[j] && p'[j] == p[j]
    ensures Op(g, Sum(g, s', p', n), Times(g, s[i], p[i])) == Op(g, Sum(g, s, p, n), Times(g, s'[i], p'[i]))
  {
    var a, b := Times(g, s[i], p[i]), Times(g, s'[i], p'[i]);
    if i == n - 1 {
      SumSame(g, s, p, s', p', n - 1);
      var t := Sum(g, s, p, n - 1);
      Assoc(g, t, b, a);
      Comm(g, b, a);
      Assoc(g, t, a, b);
    } else {
      SumReplace(g, s, p, s', p', n - 1, i);
      var t, t', l := Sum(g, s, p, n - 1), Sum(g, s', p', n - 1), Times(g, s[n - 1], p[n - 1]);
      Assoc(g, t', l, a);
      Comm(g, l, a);
      Assoc(g, t', a, l);
      Assoc(g, t, l, b);
      Comm(g, l, b);
      Assoc(g, t, b, l);
    }
  }

  /** One Bos-Carter step: (s_i, P_i), (s_j, P_j) becomes (s_i - s_j, P_i), (s_j, P_j + P_i). */
  lemma SumStep<G(!new)>(g: Group<G>, s: seq<int>, p: seq<G>, n: nat, i: nat, j: nat)
    requires Abelian(g)
    requires n <= |s| && n <= |p| && i < n && j < n && i != j
    ensures Sum(g, s[i := s[i] - s[j]], p[j := Op(g, p[j], p[i])], n) == Sum(g, s, p, n)
  {
    var s', p' := s[i := s[i] - s[j]], p[j := Op(g, p[j], p[i])];
    var a, b, c := Times(g, s[i], p[i]), Times(g, s[j], p[j]), Times(g, s[j], p[i]);
    var d := Times(g, s'[i], p[i]);
    var t0, t1, t2 := Sum(g, s, p, n), Sum(g, s', p, n), Sum(g, s', p', n);
    SumReplace(g, s, p, s', p, n, i);
    SumReplace(g, s', p, s', p', n, j);
    TimesAdd(g, s'[i], s[j], p[i]);
    TimesSum(g, s[j], p[j], p[i]);
    // t1 + a == t0 + d, t2 + b == t1 + (b + c), a == d + c
    assert a == Op(g, d, c);
    Assoc(g, t1, b, c);
    Comm(g, b, c);
    Assoc(g, t1, c, b);
    Comm(g, t2, b);
    Comm(g, Op(g, t1, c), b);
    Cancel(g, b, t2, Op(g, t1, c));
    Comm(g, d, c);
    Assoc(g, t1, c, d);
    Comm(g, t2, d);
    Comm(g, t0, d);
    Cancel(g, d, t2, t0);
  }

  /** Splitting off the terms from n on. */
  lemma {:induction false} SumSplit<G(!new)>(g: Group<G>, s: seq<int>, p: seq<G>, n: nat, m: nat)
    requires Abelian(g) && n + m <= |s| && n + m <= |p|
    ensures Sum(g, s, p, n + m) == Op(g, Sum(g, s, p, n), Sum(g, s[n..], p[n..], m))
    decreases m
  {
    if m == 0 {
      Zero(g, Sum(g, s, p, n));
    } else {
      SumSplit(g, s, p, n, m - 1);
      Assoc(g, Sum(g, s, p, n), Sum(g, s[n..], p[n..], m - 1), Times(g, s[n + m - 1], p[n + m - 1]));
    }
  }

  /** Sums with equal terms. */
  lemma {:induction false} SumEqual<G(!new)>(g: Group<G>, s: seq<int>, p: seq<G>, s': seq<int>, p': seq<G>, n: nat)
    requires n <= |s| && n <= |p| && n <= |s'| && n <= |p'|
    requires forall i :: 0 <= i < n ==> Times(g, s[i], p[i]) == Times(g, s'[i], p'[i])
    ensures Sum(g, s, p, n) == Sum(g, s', p', n)
  {
    if n > 0 {
      SumEqual(g, s, p, s', p', n - 1);
    }
  }

  /** [r]([h]a + [s]b + c) = [rs]b + [rh]a + [r]c */
  lemma TimesTerm<G(!new)>(g: Group<G>, r: int, h: int, a: G, s: int, b: G, c: G)
    requires Abelian(g)
    ensures Times(g, r, Op(g, Mix(g, h, a, s, b), c))
      == Op(g, Op(g, Times(g, s * r, b), Times(g, h * r, a)), Times(g, r, c))
  {
    TimesSum(g, r, Mix(g, h, a, s, b), c);
    TimesSum(g, r, Times(g, h, a), Times(g, s, b));
    TimesProduct(g, r, h, a);
    TimesProduct(g, r, s, b);
    Comm(g, Times(g, h * r, a), Times(g, s * r, b));
  }

  /** (w + a) + (x + b) + (y + c) = (w + x + y) + (a + b + c) */
  lemma SixTerms<G(!new)>(g: Group<G>, w: G, x: G, y: G, a: G, b: G, c: G)
    requires Abelian(g)
    ensures Op(g, Op(g, Op(g, w, a), Op(g, x, b)), Op(g, y, c)) == Op(g, Op(g, Op(g, w, x), y), Op(g, Op(g, a, b), c))
  {
    Interchange(g, w, a, x, b);
    Interchange(g, Op(g, w, x), Op(g, a, b), y, c);
  }

  /** A sum with only one term that is not a zero multiple. */
  lemma {:induction false} SumSingle<G(!new)>(g: Group<G>, s: seq<int>, p: seq<G>, n: nat, i: nat)
    requires Abelian(g) && n <= |s| && n <= |p| && i < n && forall k :: 0 <= k < n && k != i ==> s[k] == 0
    ensures Sum(g, s, p, n) == Times(g, s[i], p[i])
  {
    var t := Times(g, s[n - 1], p[n - 1]);
    if i == n - 1 {
      SumNothing(g, s, p, n - 1);
      Zero(g, t);
    } else {
      SumSingle(g, s, p, n - 1, i);
      Zero(g, Sum(g, s, p, n - 1));
    }
  }

  lemma {:induction false} SumNothing<G(!new)>(g: Group<G>, s: seq<int>, p: seq<G>, n: nat)
    requires Abelian(g) && n <= |s| && n <= |p| && forall k :: 0 <= k < n ==> s[k] == 0
    ensures Sum(g, s, p, n) == g.zero
  {
    if n > 0 {
      SumNothing(g, s, p, n - 1);
      Zero(g, g.zero);
    }
  }
}
