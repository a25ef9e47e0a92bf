/** Integer combinations of the starting points, followed through Bos-Carter steps. */
module Combinations {
  import opened AbelianGroup

  // ---- products of scalars with integer columns ----

  /** v0 w0 + ... + v(n-1) w(n-1) */
  ghost function Dot(v: seq<int>, w: seq<int>, n: nat): int
    requires n <= |v| && n <= |w|
  {
    if n == 0 then 0 else Dot(v, w, n - 1) + v[n - 1] * w[n - 1]
  }

  lemma {:induction false} DotUpdate(v: seq<int>, w: seq<int>, n: nat, i: nat, x: int)
    requires n <= |v| && n <= |w| && i < n
    ensures Dot(v[i := x], w, n) == Dot(v, w, n) + (x - v[i]) * w[i]
  {
    if i < n - 1 {
      DotUpdate(v, w, n - 1, i, x);
    } else {
      DotSame(v, w, v[i := x], w, i);
    }
  }

  lemma {:induction false} DotSame(v: seq<int>, w: seq<int>, v': seq<int>, w': seq<int>, n: nat)
    requires n <= |v| && n <= |w| && n <= |v'| && n <= |w'| && v[..n] == v'[..n] && w[..n] == w'[..n]
    ensures Dot(v, w, n) == Dot(v', w', n)
  {
    if n > 0 {
      assert v[..n][..n - 1] == v[..n - 1] && v'[..n][..n - 1] == v'[..n - 1];
      assert w[..n][..n - 1] == w[..n - 1] && w'[..n][..n - 1] == w'[..n - 1];
      assert v[..n][n - 1] == v[n - 1] && v'[..n][n - 1] == v'[n - 1];
      assert w[..n][n - 1] == w[n - 1] && w'[..n][n - 1] == w'[n - 1];
      DotSame(v, w, v', w', n - 1);
    }
  }

  lemma {:induction false} DotSwap(v: seq<int>, w: seq<int>, n: nat)
    requires n <= |v| && n <= |w|
    ensures Dot(v, w, n) == Dot(w, v, n)
  {
    if n > 0 {
      DotSwap(v, w, n - 1);
    }
  }

  /** A step leaves the product alone. */
  lemma DotStep(v: seq<int>, w: seq<int>, n: nat, i: nat, j: nat)
    requires n <= |v| && n <= |w| && i < n && j < n && i != j
    ensures Dot(v[i := v[i] - v[j]], w[j := w[j] + w[i]], n) == Dot(v, w, n)
  {
    var v', w' := v[i := v[i] - v[j]], w[j := w[j] + w[i]];
    DotUpdate(v, w, n, i, v[i] - v[j]);
    DotSwap(v', w, n);
    DotUpdate(w, v', n, j, w[j] + w[i]);
    DotSwap(w', v', n);
    assert (v[i] - v[j] - v[i]) * w[i] + (w[j] + w[i] - w[j]) * v[j] == 0;
  }

  lemma {:induction false} DotSingle(v: seq<int>, w: seq<int>, n: nat, i: nat)
    requires n <= |v| && n <= |w| && i < n && forall k :: 0 <= k < n && k != i ==> v[k] == 0
    ensures Dot(v, w, n) == v[i] * w[i]
  {
    if i < n - 1 {
      DotSingle(v, w, n - 1, i);
    } else {
      DotNothing(v, w, n - 1);
    }
  }

  lemma {:induction false} DotNothing(v: seq<int>, w: seq<int>, n: nat)
    requires n <= |v| && n <= |w| && forall k :: 0 <= k < n ==> v[k] == 0
    ensures Dot(v, w, n) == 0
  {
    if n > 0 {
      DotNothing(v, w, n - 1);
    }
  }

  // ---- sums with added scalars ----

  ghost function Added(a: seq<int>, b: seq<int>): (c: seq<int>)
    requires |a| == |b|
    ensures |c| == |a| && forall i :: 0 <= i < |c| ==> c[i] == a[i] + b[i]
  {
    seq(|a|, i requires 0 <= i < |a| => a[i] + b[i])
  }

  lemma {:induction false} SumAdded<G(!new)>(g: Group<G>, a: seq<int>, b: seq<int>, p: seq<G>, n: nat)
    requires Abelian(g) && |a| == |b| && n <= |a| && n <= |p|
    ensures Sum(g, Added(a, b), p, n) == Op(g, Sum(g, a, p, n), Sum(g, b, p, n))
  {
    Zero(g, g.zero);
    if n > 0 {
      SumAdded(g, a, b, p, n - 1);
      TimesAdd(g, a[n - 1], b[n - 1], p[n - 1]);
      Interchange(g, Sum(g, a, p, n - 1), Sum(g, b, p, n - 1), Times(g, a[n - 1], p[n - 1]),
        Times(g, b[n - 1], p[n - 1]));
    }
  }

  /** [m] of a combination. */
  lemma {:induction false} TimesCombination<G(!new)>(g: Group<G>, m: int, a: seq<int>, v: seq<int>, p: seq<G>, n: nat)
    requires Abelian(g) && n <= |a| && n <= |v| && n <= |p| && forall i :: 0 <= i < n ==> v[i] == m * a[i]
    ensures Times(g, m, Sum(g, a, p, n)) == Sum(g, v, p, n)
  {
    if n == 0 {
      TimesZero(g, m);
    } else {
      TimesCombination(g, m, a, v, p, n - 1);
      TimesSum(g, m, Sum(g, a, p, n - 1), Times(g, a[n - 1], p[n - 1]));
      TimesProduct(g, m, a[n - 1], p[n - 1]);
    }
  }

  /** What kills every point kills every combination. */
  lemma {:induction false} KilledCombination<G(!new)>(g: Group<G>, e: int, a: seq<int>, p: seq<G>, n: nat)
    requires Abelian(g) && n <= |a| && n <= |p| && forall i :: 0 <= i < n ==> Times(g, e, p[i]) == g.zero
    ensures Times(g, e, Sum(g, a, p, n)) == g.zero
  {
    if n == 0 {
      TimesZero(g, e);
    } else {
      var x := p[n - 1];
      KilledCombination(g, e, a, p, n - 1);
      TimesSum(g, e, Sum(g, a, p, n - 1), Times(g, a[n - 1], x));
      TimesProduct(g, e, a[n - 1], x);
      TimesProduct(g, a[n - 1], e, x);
      assert e * a[n - 1] == a[n - 1] * e;
      TimesZero(g, a[n - 1]);
      Zero(g, g.zero);
    }
  }

  // ---- the points as combinations of the starting points ----

  ghost predicate Square(rows: seq<seq<int>>, n: nat) {
    |rows| == n && forall j :: 0 <= j < n ==> |rows[j]| == n
  }

  ghost function Column(rows: seq<seq<int>>, n: nat, c: nat): (w: seq<int>)
    requires Square(rows, n) && c < n
    ensures |w| == n && forall j :: 0 <= j < n ==> w[j] == rows[j][c]
  {
    seq(n, j requires 0 <= j < n => rows[j][c])
  }

  /** Point j is the combination rows[j] of the starting points; opens where a proof names At. */
  ghost predicate RowsHold<G(!new)>(g: Group<G>, p0: seq<G>, p: seq<G>, n: nat, rows: seq<seq<int>>) {
    Square(rows, n) && n <= |p0| && n <= |p| && forall j: nat {:trigger Row(j)} :: Row(j) && j < n ==>
      p[j] == Sum(g, rows[j], p0, n)
  }

  ghost predicate Row(j: nat) {
    true
  }

  /** The scalars times each column give the starting scalars. */
  ghost predicate ColumnsHold(v0: seq<int>, v: seq<int>, n: nat, rows: seq<seq<int>>) {
    Square(rows, n) && n <= |v0| && n <= |v| && forall c: nat {:trigger Col(c)} :: Col(c) && c < n ==>
      Dot(v, Column(rows, n, c), n) == v0[c]
  }

  ghost predicate Col(c: nat) {
    true
  }

  ghost predicate Expressed<G(!new)>(g: Group<G>, v0: seq<int>, p0: seq<G>, v: seq<int>, p: seq<G>, n: nat) {
    exists rows: seq<seq<int>> :: RowsHold(g, p0, p, n, rows) && ColumnsHold(v0, v, n, rows)
  }

  ghost function Unit(n: nat, j: int): (a: seq<int>)
    ensures |a| == n && forall c :: 0 <= c < n ==> a[c] == if c == j then 1 else 0
  {
    seq(n, c => if c == j then 1 else 0)
  }

  lemma ExpressedStart<G(!new)>(g: Group<G>, v: seq<int>, p: seq<G>, n: nat)
    requires Abelian(g) && n <= |v| && n <= |p|
    ensures Expressed(g, v, p, v, p, n)
  {
    var rows := seq(n, j => Unit(n, j));
    forall j: nat | Row(j) && j < n ensures p[j] == Sum(g, rows[j], p, n) {
      SumSingle(g, rows[j], p, n, j);
      TimesOne(g, p[j]);
    }
    forall c: nat | Col(c) && c < n ensures Dot(v, Column(rows, n, c), n) == v[c] {
      var w := Column(rows, n, c);
      DotSwap(v, w, n);
      DotSingle(w, v, n, c);
    }
    assert RowsHold(g, p, p, n, rows) && ColumnsHold(v, v, n, rows);
  }

  lemma RowsStep<G(!new)>(g: Group<G>, p0: seq<G>, p: seq<G>, n: nat, rows: seq<seq<int>>, i: nat, j: nat)
    requires Abelian(g) && RowsHold(g, p0, p, n, rows) && i < n && j < n
    ensures RowsHold(g, p0, p[j := Op(g, p[j], p[i])], n, rows[j := Added(rows[j], rows[i])])
  {
    var rows', p' := rows[j := Added(rows[j], rows[i])], p[j := Op(g, p[j], p[i])];
    forall k: nat | Row(k) && k < n ensures p'[k] == Sum(g, rows'[k], p0, n) {
      if k == j {
        assert Row(i) && Row(j);
        SumAdded(g, rows[j], rows[i], p0, n);
      }
    }
  }

  lemma ColumnsStep(v0: seq<int>, v: seq<int>, n: nat, rows: seq<seq<int>>, i: nat, j: nat)
    requires ColumnsHold(v0, v, n, rows) && i < n && j < n && i != j
    ensures ColumnsHold(v0, v[i := v[i] - v[j]], n, rows[j := Added(rows[j], rows[i])])
  {
    var rows', v' := rows[j := Added(rows[j], rows[i])], v[i := v[i] - v[j]];
    assert Square(rows', n);
    forall c: nat | Col(c) && c < n ensures Dot(v', Column(rows', n, c), n) == v0[c] {
      var w := Column(rows, n, c);
      assert Column(rows', n, c) == w[j := w[j] + w[i]];
      DotStep(v, w, n, i, j);
    }
  }

  lemma ExpressedStep<G(!new)>(g: Group<G>, v0: seq<int>, p0: seq<G>, v: seq<int>, p: seq<G>, n: nat, i: nat, j: nat)
    requires Abelian(g) && Expressed(g, v0, p0, v, p, n) && n <= |v| && n <= |p| && i < n && j < n && i != j
    ensures Expressed(g, v0, p0, v[i := v[i] - v[j]], p[j := Op(g, p[j], p[i])], n)
  {
    var rows: seq<seq<int>> :| RowsHold(g, p0, p, n, rows) && ColumnsHold(v0, v, n, rows);
    RowsStep(g, p0, p, n, rows, i, j);
    ColumnsStep(v0, v, n, rows, i, j);
  }

  /** v is s times a on the first n places. */
  ghost predicate Scaled(v: seq<int>, n: nat, s: int, a: seq<int>) {
    |a| == n <= |v| && forall c :: 0 <= c < n ==> v[c] == s * a[c]
  }

  /**
   * If only one scalar is left, its point is the combination of the starting points by the quotients of their scalars.
   */
  lemma ExpressedEnd<G(!new)>(g: Group<G>, v0: seq<int>, p0: seq<G>, v: seq<int>, p: seq<G>, n: nat,
        i: nat) returns (a: seq<int>)
    requires Expressed(g, v0, p0, v, p, n) && i < n <= |v| && forall k :: 0 <= k < n && k != i ==> v[k] == 0
    ensures Scaled(v0, n, v[i], a) && n <= |p0| && i < |p| && p[i] == Sum(g, a, p0, n)
  {
    var rows: seq<seq<int>> :| RowsHold(g, p0, p, n, rows) && ColumnsHold(v0, v, n, rows);
    a := rows[i];
    assert Row(i);
    forall c: nat | c < n ensures v0[c] == v[i] * a[c] {
      assert Col(c);
      DotSingle(v, Column(rows, n, c), n, i);
    }
  }
}
