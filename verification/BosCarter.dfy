/** The Bos-Carter multi-scalar multiplication over the heap. */
module BosCarter {
  import opened Powers
  import opened Scalar
  import opened BatchScalars
  import opened BatchHeap
  import opened AbelianGroup
  import opened Combinations
  import opened Edwards
  import opened PointOps
  import Bits

  // ---- limb sizes ----

  /** If the largest number has nothing at limb n, no smaller one has. */
  lemma SmallerFits(a: Limbs, b: Limbs, n: nat, w: int)
    requires Carried(a) && Carried(b) && 1 <= n <= 4 && Fits(a, n) && Fits(b, n) && b[n] == 0 && Val(a) <= Val(b)
    requires w == 0x100_0000_0000_0000
    ensures Fits(a, n - 1)
  {
    FitsVal(a, n, w);
    FitsVal(b, n - 1, w);
    LowRange(b, n, w);
    LowRange(a, n, w);
    if a[n] > 0 {
      MulMono(Pow(w, n), 1, a[n]);
    }
  }

  lemma Fits128(a: Limbs)
    requires Carried(a) && Val(a) < 0x1_0000_0000_0000_0000_0000_0000_0000_0000
    ensures Fits(a, 2)
  {
  }

  /** A number of at least 127 bits has its bit 127 in limb 2 or above. */
  lemma Limb2(a: Limbs)
    requires Carried(a) && Fits(a, 2)
    ensures Val(a) >= 0x8000_0000_0000_0000_0000_0000_0000_0000 ==> a[2] != 0
  {
  }

  lemma FitsMore(a: Limbs, m: nat, n: nat)
    requires Fits(a, m) && m <= n
    ensures Fits(a, n)
  {
  }

  // ---- totals and common divisors ----

  ghost function Total(v: seq<int>, n: nat): int
    requires n <= |v|
  {
    if n == 0 then 0 else Total(v, n - 1) + v[n - 1]
  }

  lemma {:induction false} TotalUpdate(v: seq<int>, n: nat, i: nat, x: int)
    requires n <= |v| && i < |v|
    ensures Total(v[i := x], n) == Total(v, n) + if i < n then x - v[i] else 0
  {
    if n > 0 {
      TotalUpdate(v, n - 1, i, x);
    }
  }

  lemma {:induction false} TotalNonNegative(v: seq<int>, n: nat)
    requires n <= |v| && forall i :: 0 <= i < n ==> v[i] >= 0
    ensures Total(v, n) >= 0
  {
    if n > 0 {
      TotalNonNegative(v, n - 1);
    }
  }

  ghost predicate Divides(d: nat, x: int) {
    exists k: int :: x == k * d
  }

  ghost predicate Common(v: seq<int>, n: nat, d: nat) {
    n <= |v| && forall i :: 0 <= i < n ==> Divides(d, v[i])
  }

  lemma DividesDifference(d: nat, x: int, y: int)
    requires Divides(d, y)
    ensures Divides(d, x) <==> Divides(d, x - y)
  {
    var k: int :| y == k * d;
    if Divides(d, x) {
      var l: int :| x == l * d;
      assert x - y == (l - k) * d;
    }
    if Divides(d, x - y) {
      var l: int :| x - y == l * d;
      assert x == (l + k) * d;
    }
  }

  /** Subtracting one member from another keeps the common divisors. */
  lemma CommonStep(v: seq<int>, n: nat, i: nat, j: nat, d: nat)
    requires n <= |v| && i < n && j < n && i != j
    ensures Common(v, n, d) <==> Common(v[i := v[i] - v[j]], n, d)
  {
    var v' := v[i := v[i] - v[j]];
    assert v'[j] == v[j];
    if Common(v, n, d) {
      assert Divides(d, v[i]) && Divides(d, v[j]);
      DividesDifference(d, v[i], v[j]);
    }
    if Common(v', n, d) {
      assert Divides(d, v'[i]) && Divides(d, v'[j]);
      DividesDifference(d, v[i], v[j]);
      forall k | 0 <= k < n ensures Divides(d, v[k]) {
        assert Divides(d, v'[k]);
      }
    }
  }

  ghost predicate SameDivisors(v: seq<int>, w: seq<int>, n: nat) {
    forall d: nat :: Common(v, n, d) <==> Common(w, n, d)
  }

  lemma SameDivisorsStep(v0: seq<int>, v: seq<int>, n: nat, i: nat, j: nat)
    requires n <= |v| && i < n && j < n && i != j && SameDivisors(v0, v, n)
    ensures SameDivisors(v0, v[i := v[i] - v[j]], n)
  {
    forall d: nat ensures Common(v0, n, d) <==> Common(v[i := v[i] - v[j]], n, d) {
      CommonStep(v, n, i, j, d);
    }
  }

  ghost predicate TwoPositive(v: seq<int>, n: nat) {
    n <= |v| && exists i, j :: 0 <= i < j < n && v[i] > 0 && v[j] > 0
  }

  /**
   * The 128-bit scalars join the heap if and only if the first n scalars contain two that are not zero
   * and share no divisor of more than 128 bits.
   */
  ghost predicate Reaches(v: seq<int>, n: nat) {
    TwoPositive(v, n) && forall d: nat :: d >= 0x1_0000_0000_0000_0000_0000_0000_0000_0000 ==> !Common(v, n, d)
  }

  // ---- one step ----

  ghost predicate Points(p: seq<Ge>, pts: seq<CurvePoint>, n: nat) {
    n <= |p| == |pts| && forall i :: 0 <= i < n ==> Full(p[i], pts[i])
  }

  /** The heap in order over its live values; an even number of entries ends with the one that does not count. */
  ghost predicate HeapState(h: seq<nat>, scalars: seq<Limbs>, v: seq<int>, n: nat, limbsize: nat, e: nat) {
    && Permutation(h, n) && Ordered(h, v, n) && Live(scalars, v, n, limbsize, e)
    && LastAt(h, n, e) && (n % 2 == 0 ==> e < n)
  }

  lemma LiveUpdate(scalars: seq<Limbs>, v: seq<int>, n: nat, limbsize: nat, e: nat, i: nat, s: Limbs, x: int)
    requires Live(scalars, v, n, limbsize, e) && i < n && i != e && Carried(s) && Fits(s, limbsize) && Val(s) == x
    ensures Live(scalars[i := s], v[i := x], n, limbsize, e)
  {
  }

  method SubtractSecond(scalars: array<Limbs>, n: nat, limbsize: nat, max1: nat, max2: nat, ghost count: nat,
        ghost v: seq<int>, ghost e: nat)
    requires Live(scalars[..], v, n, limbsize, e) && Live(scalars[..], v, count, 4, e) && Top2(v, n, max1, max2)
      && n <= count && max1 != e && max2 != e
    modifies scalars
    ensures Live(scalars[..], v[max1 := v[max1] - v[max2]], n, limbsize, e)
    ensures Live(scalars[..], v[max1 := v[max1] - v[max2]], count, 4, e)
    ensures e < count ==> scalars[e] == old(scalars[e])
  {
    ghost var before := scalars[..];
    var s := SubBatch(scalars[max1], scalars[max2], limbsize);
    FitsMore(s, limbsize, 4);
    scalars[max1] := s;
    assert scalars[..] == before[max1 := s];
    LiveUpdate(before, v, n, limbsize, e, max1, s, v[max1] - v[max2]);
    LiveUpdate(before, v, count, 4, e, max1, s, v[max1] - v[max2]);
  }

  method AddToSecond(points: array<Ge>, max1: nat, max2: nat, ghost count: nat, ghost g: Group<CurvePoint>,
        ghost pts: seq<CurvePoint>)
    requires CurveGroup(g) && Points(points[..], pts, count) && max1 < count && max2 < count
    modifies points
    ensures |pts| == points.Length && Points(points[..], pts[max2 := Op(g, pts[max2], pts[max1])], count)
  {
    assert Full(points[..][max1], pts[max1]) && Full(points[..][max2], pts[max2]);
    var p := AddPoints(points[max2], points[max1], g, pts[max2], pts[max1]);
    ghost var before := points[..];
    points[max2] := p;
    assert points[..] == before[max2 := p];
  }

  lemma LastIsLeast(h: seq<nat>, scalars: seq<Limbs>, v: seq<int>, n: nat, limbsize: nat, e: nat)
    requires Live(scalars, v, n, limbsize, e) && LastAt(h, n, e) && (n % 2 == 0 ==> e < n)
    ensures OddOrLeast(h, v, n)
  {
    if n % 2 == 0 {
      forall i | 0 <= i < n ensures v[h[n - 1]] <= v[i] {
        assert i == e || v[i] == Val(scalars[i]);
      }
    }
  }

  /** (s1, P1), (s2, P2) becomes (s1 - s2, P1), (s2, P2 + P1), and the heap is put in order again. */
  method Step(points: array<Ge>, scalars: array<Limbs>, heap: array<nat>, n: nat, limbsize: nat, max1: nat, max2: nat,
        ghost count: nat, ghost e: nat, ghost g: Group<CurvePoint>, ghost v: seq<int>, ghost pts: seq<CurvePoint>)
    requires CurveGroup(g) && 3 <= n <= count <= heap.Length < 0x1_0000_0000_0000_0000
    requires HeapState(heap[..], scalars[..], v, n, limbsize, e) && Top2(v, n, max1, max2) && max1 == heap[0]
    requires Live(scalars[..], v, count, 4, e) && Points(points[..], pts, count) && max1 != e && max2 != e
    modifies points, scalars, heap
    ensures HeapState(heap[..], scalars[..], v[max1 := v[max1] - v[max2]], n, limbsize, e)
    ensures Live(scalars[..], v[max1 := v[max1] - v[max2]], count, 4, e)
    ensures |pts| == points.Length && Points(points[..], pts[max2 := Op(g, pts[max2], pts[max1])], count)
    ensures e < count ==> scalars[e] == old(scalars[e])
  {
    ghost var v' := v[max1 := v[max1] - v[max2]];
    SubtractSecond(scalars, n, limbsize, max1, max2, count, v, e);
    AddToSecond(points, max1, max2, count, g, pts);
    RootChanged(heap[..], v, v', n);
    LastIsLeast(heap[..], scalars[..], v', n, limbsize, e);
    UpdatedRoot(heap, scalars, n, limbsize, v', e);
  }

  // ---- the loop ----

  lemma LowerAll(scalars: seq<Limbs>, v: seq<int>, n: nat, limbsize: nat, e: nat, max1: nat, max2: nat)
    requires Live(scalars, v, n, limbsize, e) && Top2(v, n, max1, max2) && v[max2] > 0 && max1 != e
      && scalars[max1][limbsize] == 0
    ensures limbsize >= 1 && Live(scalars, v, n, limbsize - 1, e)
  {
    forall i | 0 <= i < n && i != e ensures Fits(scalars[i], limbsize - 1) {
      SmallerFits(scalars[i], scalars[max1], limbsize, 0x100_0000_0000_0000);
    }
  }

  /** One limb fewer once the largest scalar has nothing in it; above 127 bits limb 2 is never given up. */
  method Lower(scalars: array<Limbs>, limbsize: nat, max1: nat, ghost max2: nat, ghost n: nat, ghost e: nat,
        ghost v: seq<int>) returns (l: nat)
    requires Live(scalars[..], v, n, limbsize, e) && Top2(v, n, max1, max2) && v[max2] > 0 && max1 != e
    ensures l == (if scalars[max1][limbsize] == 0 then limbsize - 1 else limbsize) && Live(scalars[..], v, n, l, e)
    ensures limbsize >= 2 && v[max1] >= 0x8000_0000_0000_0000_0000_0000_0000_0000 ==> l >= 2
  {
    l := limbsize;
    if limbsize == 2 {
      Limb2(scalars[max1]);
    }
    if scalars[max1][limbsize] == 0 {
      LowerAll(scalars[..], v, n, limbsize, e, max1, max2);
      l := limbsize - 1;
    }
  }

  ghost predicate Small(v: seq<int>, n: nat) {
    n <= |v| && forall i :: 0 <= i < n ==> v[i] < 0x1_0000_0000_0000_0000_0000_0000_0000_0000
  }

  lemma SmallValues(scalars: seq<Limbs>, v: seq<int>, n: nat, limbsize: nat)
    requires Values(scalars, v, n, 4) && Small(v, n) && 2 <= limbsize <= 4
    ensures Values(scalars, v, n, limbsize)
  {
    forall i | 0 <= i < n ensures Fits(scalars[i], limbsize) {
      Fits128(scalars[i]);
      FitsMore(scalars[i], 2, limbsize);
    }
  }

  lemma StillTwo(v: seq<int>, n: nat, i: nat, j: nat, count: nat, i': nat, j': nat)
    requires Top2(v, n, i, j) && v[j] > 0 && n <= count && Top2(v, count, i', j')
    ensures v[j'] > 0
  {
    assert v[i] >= v[j];
    if i' != i {
      assert v[i] <= v[j'];
    } else {
      assert v[j] <= v[j'];
    }
  }

  /** An even number of entries: the value of the last one counts as nothing from now on. */
  ghost function Drop(v: seq<int>, e: nat, n: nat): seq<int>
    requires n <= |v|
  {
    if e < n then v[e := 0] else v
  }

  /** Which entry that is, and that it is none of the two largest. */
  lemma LastEntry(h: seq<nat>, n: nat, i: nat, j: nat) returns (e: nat)
    requires 3 <= n && Permutation(h, n) && i == h[0] && j in h[1..3]
    ensures e == (if n % 2 == 0 then h[n - 1] else n) && (n % 2 == 0 ==> e < n) && i < n && j < n && i != e && j != e
  {
    e := if n % 2 == 0 then h[n - 1] else n;
    assert j == h[1] || j == h[2];
  }

  lemma DropKeeps(h: seq<nat>, scalars: seq<Limbs>, v: seq<int>, n: nat, limbsize: nat, e: nat, i: nat, j: nat)
    requires 3 <= n && Permutation(h, n) && Ordered(h, v, n) && Values(scalars, v, n, limbsize)
    requires e == (if n % 2 == 0 then h[n - 1] else n) && Top2(v, n, i, j) && i != e && j != e
    ensures HeapState(h, scalars, Drop(v, e, n), n, limbsize, e) && Top2(Drop(v, e, n), n, i, j)
  {
    var w := Drop(v, e, n);
    forall k | 1 <= k < n ensures Dominates(h, w, k) {
      assert Dominates(h, v, k);
      assert v[h[Parent(k)]] == Val(scalars[h[Parent(k)]]);
      assert Parent(k) < n - 1;
    }
  }

  /** heap_extend to all scalars, and the top two again. */
  method Join(scalars: array<Limbs>, heap: array<nat>, n: nat, count: nat, limbsize: nat, ghost i: nat, ghost j: nat,
        ghost v: seq<int>)
    returns (size: nat, max1: nat, max2: nat, ghost e: nat)
    requires 3 <= n <= count <= heap.Length < 0x1_0000_0000_0000_0000 && 2 <= limbsize <= 4
    requires HeapState(heap[..], scalars[..], v, n, limbsize, count) && Top2(v, n, i, j) && v[j] > 0
    requires Values(scalars[..], v, count, 4) && Small(v, count)
    modifies heap
    ensures size == count && (if count % 2 == 0 then e < count else e == count)
    ensures HeapState(heap[..], scalars[..], Drop(v, e, count), count, limbsize, e)
    ensures Top2(Drop(v, e, count), count, max1, max2) && Drop(v, e, count)[max2] > 0
    ensures max1 == heap[0] && max1 != e && max2 != e
  {
    size := Extend(heap, scalars, n, count, v);
    SmallValues(scalars[..], v, count, limbsize);
    ValuesLive(scalars[..], v, count, limbsize);
    max1, max2 := GetTop2(heap, scalars, size, limbsize, v, count);
    StillTwo(v, n, i, j, count, max1, max2);
    ghost var h := heap[..];
    assert max1 == h[0] && h[1..3] == heap[1..3];
    e := LastEntry(h, count, max1, max2);
    DropKeeps(h, scalars[..], v, count, limbsize, e, max1, max2);
  }

  /** Some member has 127 bits, and one that is left alone has more than 128. */
  ghost predicate Big(v: seq<int>, n: nat) {
    && n <= |v|
    && (exists i :: 0 <= i < n && v[i] >= 0x8000_0000_0000_0000_0000_0000_0000_0000)
    && (forall i :: 0 <= i < n && Alone(v, n, i) ==> v[i] >= 0x1_0000_0000_0000_0000_0000_0000_0000_0000)
  }

  ghost predicate Alone(v: seq<int>, n: nat, i: nat)
    requires n <= |v|
  {
    forall k :: 0 <= k < n && k != i ==> v[k] == 0
  }

  /** The largest scalar at most halves in a step. */
  lemma StaysBig(v: seq<int>, n: nat, i: nat, j: nat)
    requires Top2(v, n, i, j) && v[j] > 0 && v[i] >= 0x1_0000_0000_0000_0000_0000_0000_0000_0000
    ensures Big(v[i := v[i] - v[j]], n)
  {
    var v' := v[i := v[i] - v[j]];
    assert v'[i] == v[i] - v[j] && v'[j] == v[j];
    assert v'[i] >= 0x8000_0000_0000_0000_0000_0000_0000_0000 || v'[j] >= 0x8000_0000_0000_0000_0000_0000_0000_0000;
    forall k | 0 <= k < n && Alone(v', n, k) ensures v'[k] >= 0x1_0000_0000_0000_0000_0000_0000_0000_0000 {
      assert k == j && v'[i] == 0;
    }
  }

  /** Before the extension: the first turn, or at least 127 bits left and three limbs in use. */
  ghost predicate Pending(v0: seq<int>, v: seq<int>, n: nat, limbsize: nat) {
    && SameDivisors(v0, v, n)
    && ((v == v0 && limbsize == 4) || (2 <= limbsize && TwoPositive(v0, n) && Big(v, n)))
  }

  lemma PendingTwo(v0: seq<int>, v: seq<int>, n: nat, limbsize: nat, i: nat, j: nat)
    requires Pending(v0, v, n, limbsize) && Top2(v, n, i, j) && v[j] > 0
    ensures TwoPositive(v0, n)
    ensures limbsize == 4 || (limbsize >= 2 && v[i] >= 0x8000_0000_0000_0000_0000_0000_0000_0000)
  {
    if v == v0 {
      assert v[i] > 0 && v[j] > 0;
      if i < j {
        assert v0[i] > 0 && v0[j] > 0;
      } else {
        assert v0[j] > 0 && v0[i] > 0;
      }
    }
  }

  lemma DivisorBound(d: nat, x: int)
    requires Divides(d, x) && x > 0
    ensures d <= x
  {
    var k: int :| x == k * d;
    assert k >= 1;
    MulMono(d, 1, k);
  }

  /** Reaching the extension rules out a large common divisor. */
  lemma ExtensionReaches(v0: seq<int>, v: seq<int>, n: nat, i: nat)
    requires SameDivisors(v0, v, n) && TwoPositive(v0, n) && i < n <= |v|
    requires 0 < v[i] < 0x1_0000_0000_0000_0000_0000_0000_0000_0000
    ensures Reaches(v0, n)
  {
    forall d: nat | d >= 0x1_0000_0000_0000_0000_0000_0000_0000_0000 ensures !Common(v0, n, d) {
      if Common(v, n, d) {
        assert Divides(d, v[i]);
        DivisorBound(d, v[i]);
      }
    }
  }

  /** Stopping before the extension exhibits a large common divisor, or fewer than two scalars. */
  lemma StopFails(v0: seq<int>, v: seq<int>, n: nat, limbsize: nat, i: nat, j: nat)
    requires Pending(v0, v, n, limbsize) && Top2(v, n, i, j) && v[j] == 0 && forall k :: 0 <= k < n ==> v[k] >= 0
    ensures !Reaches(v0, n)
  {
    assert Alone(v, n, i);
    if v == v0 {
      assert !TwoPositive(v0, n);
    } else {
      var d: nat := v[i];
      forall k | 0 <= k < n ensures Divides(d, v[k]) {
        assert v[k] == (if k == i then 1 else 0) * d;
      }
      assert Common(v, n, d);
    }
  }

  /** How many scalars the heap starts with: half of them, rounded up to an odd number. */
  function Prefix(count: nat): nat {
    var h := (count + 1) / 2;
    if h % 2 == 1 then h else h + 1
  }

  lemma FirstSize(count: nat)
    requires 5 <= count
    ensures Bits.Or((count + 1) / 2, 1) == Prefix(count) && 3 <= Prefix(count) <= count && Prefix(count) % 2 == 1
  {
    RoundUpOdd((count + 1) / 2);
    PrefixRange(count);
  }

  lemma PrefixRange(count: nat)
    requires 5 <= count
    ensures 3 <= Prefix(count) <= count && Prefix(count) % 2 == 1
  {
  }

  lemma RoundUpOdd(h: nat)
    ensures Bits.Or(h, 1) == if h % 2 == 1 then h else h + 1
  {
    Bits.OrHalf(h, 1);
    Bits.OrNothing(h / 2);
    Bits.HalvesEqual(Bits.Or(h, 1), if h % 2 == 1 then h else h + 1);
  }

  lemma NonNegativeStep(v: seq<int>, count: nat, n: nat, i: nat, j: nat)
    requires n <= count <= |v| && Top2(v, n, i, j) && v[j] > 0 && forall k :: 0 <= k < count ==> v[k] >= 0
    ensures 0 <= Total(v[i := v[i] - v[j]], count) < Total(v, count)
    ensures forall k :: 0 <= k < count ==> 0 <= v[i := v[i] - v[j]][k] <= v[k]
  {
    TotalUpdate(v, count, i, v[i] - v[j]);
    TotalNonNegative(v[i := v[i] - v[j]], count);
  }

  /** The values are those of carried scalars. */
  lemma LiveNonNegative(scalars: seq<Limbs>, v: seq<int>, n: nat, limbsize: nat, e: nat)
    requires Live(scalars, v, n, limbsize, e)
    ensures forall k :: 0 <= k < n ==> v[k] >= 0
  {
    forall k | 0 <= k < n ensures v[k] >= 0 {
      assert k == e || v[k] == Val(scalars[k]);
    }
  }

  /**
   * What the loop keeps: the sum, the common divisors of the scalars, and how the points are combined from the
   * starting points. It holds over all scalars, and before the extension over the first ones.
   */
  ghost predicate Conserved(g: Group<CurvePoint>, v0: seq<int>, pts0: seq<CurvePoint>, v: seq<int>,
        pts: seq<CurvePoint>, n: nat) {
    && n <= |v| && n <= |pts| && n <= |v0| && n <= |pts0| && Sum(g, v, pts, n) == Sum(g, v0, pts0, n)
    && SameDivisors(v0, v, n) && Expressed(g, v0, pts0, v, pts, n)
  }

  lemma ConservedStep(g: Group<CurvePoint>, v0: seq<int>, pts0: seq<CurvePoint>, v: seq<int>, pts: seq<CurvePoint>,
        n: nat, i: nat, j: nat)
    requires Abelian(g) && Conserved(g, v0, pts0, v, pts, n) && i < n && j < n && i != j
    ensures Conserved(g, v0, pts0, v[i := v[i] - v[j]], pts[j := Op(g, pts[j], pts[i])], n)
  {
    SumStep(g, v, pts, n, i, j);
    SameDivisorsStep(v0, v, n, i, j);
    ExpressedStep(g, v0, pts0, v, pts, n, i, j);
  }

  /** s is the greatest common divisor of the first n scalars. */
  ghost predicate Greatest(v: seq<int>, n: nat, s: nat) {
    Common(v, n, s) && forall d: nat :: Common(v, n, d) ==> Divides(d, s)
  }

  /** One scalar is left: it is the greatest common divisor, and its point the combination by the quotients. */
  lemma Remaining(g: Group<CurvePoint>, v0: seq<int>, pts0: seq<CurvePoint>, v: seq<int>, pts: seq<CurvePoint>, n: nat,
        i: nat)
    returns (a: seq<int>)
    requires Conserved(g, v0, pts0, v, pts, n) && i < n && v[i] >= 0 && forall k :: 0 <= k < n && k != i ==> v[k] == 0
    ensures Greatest(v0, n, v[i]) && Scaled(v0, n, v[i], a) && pts[i] == Sum(g, a, pts0, n)
  {
    a := ExpressedEnd(g, v0, pts0, v, pts, n, i);
    var s: nat := v[i];
    forall c | 0 <= c < n ensures Divides(s, v0[c]) {
      assert v0[c] == a[c] * s;
    }
    forall d: nat | Common(v0, n, d) ensures Divides(d, s) {
      assert Common(v, n, d);
    }
  }

  /** Where the run stands: before the extension over the first scalars only, after it over all of them. */
  ghost predicate Progress(v0: seq<int>, v: seq<int>, first: nat, count: nat, n: nat, limbsize: nat, extended: bool) {
    if extended then n == count && Small(v, count) && Reaches(v0, first)
    else n == first && Pending(v0, v, first, limbsize) && RestSmall(v, first, count)
  }

  ghost predicate RestSmall(v: seq<int>, first: nat, count: nat) {
    count <= |v| && forall i :: first <= i < count ==> v[i] < 0x1_0000_0000_0000_0000_0000_0000_0000_0000
  }

  /** The extension itself: possible as soon as the largest of the first scalars has at most 128 bits. */
  lemma ProgressExtend(v0: seq<int>, v: seq<int>, first: nat, count: nat, limbsize: nat, i: nat, j: nat)
    requires Progress(v0, v, first, count, first, limbsize, false) && first <= count && Top2(v, first, i, j) && v[j] > 0
    requires v[i] < 0x1_0000_0000_0000_0000_0000_0000_0000_0000
    ensures Small(v, count) && Reaches(v0, first)
  {
    PendingTwo(v0, v, first, limbsize, i, j);
    ExtensionReaches(v0, v, first, i);
  }

  lemma ProgressStep(v0: seq<int>, v: seq<int>, first: nat, count: nat, n: nat, limbsize: nat, l: nat, extended: bool,
        i: nat, j: nat)
    requires n <= count <= |v| && Top2(v, n, i, j) && v[j] > 0 && forall k :: 0 <= k < count ==> v[k] >= 0
    requires if extended then n == count && Small(v, count) && Reaches(v0, first)
             else (Progress(v0, v, first, count, n, limbsize, false) && l >= 2
                   && v[i] >= 0x1_0000_0000_0000_0000_0000_0000_0000_0000)
    ensures Progress(v0, v[i := v[i] - v[j]], first, count, n, l, extended)
  {
    if !extended {
      PendingTwo(v0, v, n, limbsize, i, j);
      SameDivisorsStep(v0, v, n, i, j);
      StaysBig(v, n, i, j);
    }
  }

  // ---- what the result is measured against ----

  /** Values and points, and, where one entry does not count, its index and its scalar. */
  datatype Base = Base(v: seq<int>, pts: seq<CurvePoint>, e: nat, x: nat)

  /** The scalars and points beyond the first ones are as they were. */
  ghost predicate RestSame(v0: seq<int>, pts0: seq<CurvePoint>, v: seq<int>, pts: seq<CurvePoint>, first: nat,
        count: nat) {
    && |v0| == |v| >= count && |pts0| == |pts| >= count
    && forall i :: first <= i < count ==> v[i] == v0[i] && pts[i] == pts0[i]
  }

  /**
   * The state at the extension to an even number of scalars: entry b.e of scalar b.x, the last of the heap, is never
   * looked at again.
   */
  ghost predicate Without(g: Group<CurvePoint>, v0: seq<int>, pts0: seq<CurvePoint>, b: Base, first: nat, count: nat) {
    && b.e < count <= |b.v| && b.v[b.e] == 0 && Conserved(g, v0, pts0, b.v[b.e := b.x], b.pts, count)
    && RestSame(v0, pts0, b.v[b.e := b.x], b.pts, first, count)
  }

  ghost predicate Based(g: Group<CurvePoint>, v0: seq<int>, pts0: seq<CurvePoint>, b: Base, first: nat, count: nat,
        extended: bool) {
    && |b.v| == |v0| && |b.pts| == |pts0|
    && if extended && count % 2 == 0 then Without(g, v0, pts0, b, first, count) else b == Base(v0, pts0, count, 0)
  }

  /** What the loop keeps; before the extension also over the first scalars alone. */
  ghost predicate Kept(g: Group<CurvePoint>, v0: seq<int>, pts0: seq<CurvePoint>, b: Base, v: seq<int>,
        pts: seq<CurvePoint>, first: nat, count: nat, extended: bool) {
    && |v0| == |v| && |pts0| == |pts|
    && Based(g, v0, pts0, b, first, count, extended) && Conserved(g, b.v, b.pts, v, pts, count)
    && (!extended ==> Conserved(g, v0, pts0, v, pts, first) && RestSame(v0, pts0, v, pts, first, count))
  }

  lemma ConservedStart(g: Group<CurvePoint>, v: seq<int>, pts: seq<CurvePoint>, n: nat)
    requires Abelian(g) && n <= |v| && n <= |pts|
    ensures Conserved(g, v, pts, v, pts, n)
  {
    ExpressedStart(g, v, pts, n);
  }

  /** At the extension the measure changes only if the number of scalars is even. */
  lemma Rebase(g: Group<CurvePoint>, v0: seq<int>, pts0: seq<CurvePoint>, b: Base, v: seq<int>, pts: seq<CurvePoint>,
        first: nat, count: nat, e: nat) returns (b': Base)
    requires Abelian(g) && Kept(g, v0, pts0, b, v, pts, first, count, false)
    requires if count % 2 == 0 then e < count && v[e] >= 0 else e == count
    ensures b'.e == e && (e < count ==> b'.x == v[e])
    ensures Kept(g, v0, pts0, b', Drop(v, e, count), pts, first, count, true)
  {
    if count % 2 == 0 {
      b' := Base(v[e := 0], pts, e, v[e]);
      assert b'.v[e := v[e]] == v;
      ConservedStart(g, b'.v, pts, count);
    } else {
      b' := b;
    }
  }

  // ---- one turn ----

  /** One turn of the loop up to the subtraction: which limbs to use, and whether all scalars join now. */
  method Prepare(scalars: array<Limbs>, heap: array<nat>, n: nat, count: nat, limbsize: nat, extended: bool, i: nat,
        j: nat, ghost first: nat, ghost e: nat, ghost v0: seq<int>, ghost v: seq<int>)
    returns (n': nat, l: nat, extended': bool, max1: nat, max2: nat, ghost e': nat)
    requires 3 <= n <= count <= heap.Length < 0x1_0000_0000_0000_0000 && first <= count && (!extended ==> e == count)
    requires HeapState(heap[..], scalars[..], v, n, limbsize, e) && Top2(v, n, i, j) && v[j] > 0 && i == heap[0]
    requires i != e && j != e
    requires Live(scalars[..], v, count, 4, e) && Progress(v0, v, first, count, n, limbsize, extended)
    modifies heap
    ensures n' == (if extended' then count else n) && (extended ==> extended')
    ensures if !extended && extended' then (if count % 2 == 0 then e' < count else e' == count) else e' == e
    ensures var w := if !extended && extended' then Drop(v, e', count) else v;
            && HeapState(heap[..], scalars[..], w, n', l, e')
            && Prepared(v0, w, first, count, n', limbsize, l, extended', max1, max2)
            && max1 == heap[0] && max1 != e' && max2 != e'
  {
    if !extended {
      PendingTwo(v0, v, n, limbsize, i, j);
    }
    l := Lower(scalars, limbsize, i, j, n, e, v);
    n', extended', max1, max2, e' := n, extended, i, j, e;
    if !extended {
      var small := AtMost128(scalars[i]);
      if small {
        ProgressExtend(v0, v, first, count, limbsize, i, j);
        n', max1, max2, e' := Join(scalars, heap, n, count, l, i, j, v);
        extended' := true;
      }
    }
  }

  /** The invariant of the loop; opens where a proof names Runs. */
  ghost predicate Running(h: seq<nat>, scalars: seq<Limbs>, p: seq<Ge>, g: Group<CurvePoint>, v0: seq<int>,
        pts0: seq<CurvePoint>, b: Base, v: seq<int>, pts: seq<CurvePoint>, first: nat, count: nat, n: nat,
        limbsize: nat, extended: bool)
  {
    forall key: int {:trigger Runs(key)} :: Runs(key) ==>
      && 3 <= n <= count && first <= count
      && HeapState(h, scalars, v, n, limbsize, b.e) && Live(scalars, v, count, 4, b.e) && Points(p, pts, count)
      && (b.e < count ==> b.x == Val(scalars[b.e])) && Progress(v0, v, first, count, n, limbsize, extended)
      && Kept(g, v0, pts0, b, v, pts, first, count, extended)
  }

  ghost predicate Runs(key: int) {
    true
  }

  /** What holds between choosing the limbs and subtracting. */
  ghost predicate Prepared(v0: seq<int>, v: seq<int>, first: nat, count: nat, n: nat, limbsize: nat, l: nat,
        extended: bool, i: nat, j: nat) {
    && n <= count <= |v| && Top2(v, n, i, j) && v[j] > 0
    && if extended then n == count && Small(v, count) && Reaches(v0, first)
       else (Progress(v0, v, first, count, n, limbsize, false) && l >= 2
             && v[i] >= 0x1_0000_0000_0000_0000_0000_0000_0000_0000)
  }

  lemma TurnKeeps(g: Group<CurvePoint>, v0: seq<int>, pts0: seq<CurvePoint>, b: Base, v: seq<int>, pts: seq<CurvePoint>,
                  first: nat, count: nat, n: nat, limbsize: nat, l: nat, extended: bool, i: nat, j: nat)
    requires Abelian(g) && Prepared(v0, v, first, count, n, limbsize, l, extended, i, j) && first <= count
      && forall k :: 0 <= k < count ==> v[k] >= 0
    requires Kept(g, v0, pts0, b, v, pts, first, count, extended)
    ensures j < |pts| && i < |pts|
    ensures Progress(v0, v[i := v[i] - v[j]], first, count, n, l, extended)
    ensures Kept(g, v0, pts0, b, v[i := v[i] - v[j]], pts[j := Op(g, pts[j], pts[i])], first, count, extended)
    ensures 0 <= Total(v[i := v[i] - v[j]], count) < Total(v, count)
  {
    NonNegativeStep(v, count, n, i, j);
    ProgressStep(v0, v, first, count, n, limbsize, l, extended, i, j);
    ConservedStep(g, b.v, b.pts, v, pts, count, i, j);
    if !extended {
      ConservedStep(g, v0, pts0, v, pts, first, i, j);
    }
  }

  /** The second half of a turn: the subtraction and what it keeps. */
  method Advance(points: array<Ge>, scalars: array<Limbs>, heap: array<nat>, count: nat, n: nat, l: nat, max1: nat,
        max2: nat, ghost limbsize: nat, ghost extended: bool, ghost g: Group<CurvePoint>, ghost first: nat,
        ghost v0: seq<int>, ghost pts0: seq<CurvePoint>, ghost b: Base, ghost v: seq<int>, ghost pts: seq<CurvePoint>)
    returns (ghost v': seq<int>, ghost pts': seq<CurvePoint>)
    requires CurveGroup(g) && 3 <= n <= count && first <= count <= heap.Length < 0x1_0000_0000_0000_0000
    requires HeapState(heap[..], scalars[..], v, n, l, b.e) && max1 == heap[0] && Live(scalars[..], v, count, 4, b.e)
      && Points(points[..], pts, count) && max1 != b.e && max2 != b.e
    requires b.e < count ==> b.x == Val(scalars[b.e])
    requires Prepared(v0, v, first, count, n, limbsize, l, extended, max1, max2)
    requires Kept(g, v0, pts0, b, v, pts, first, count, extended)
    modifies points, scalars, heap
    ensures Running(heap[..], scalars[..], points[..], g, v0, pts0, b, v', pts', first, count, n, l, extended)
    ensures count <= |v'| && count <= |v| && 0 <= Total(v', count) < Total(v, count)
  {
    LiveNonNegative(scalars[..], v, count, 4, b.e);
    TurnKeeps(g, v0, pts0, b, v, pts, first, count, n, limbsize, l, extended, max1, max2);
    v' := v[max1 := v[max1] - v[max2]];
    pts' := pts[max2 := Op(g, pts[max2], pts[max1])];
    Step(points, scalars, heap, n, l, max1, max2, count, b.e, g, v, pts);
  }

  lemma DropTotal(v: seq<int>, e: nat, n: nat)
    requires n <= |v| && (e < n ==> v[e] >= 0)
    ensures Total(Drop(v, e, n), n) <= Total(v, n)
  {
    if e < n {
      TotalUpdate(v, n, e, 0);
    }
  }

  /** The extension, seen from the values. */
  lemma Switch(scalars: seq<Limbs>, g: Group<CurvePoint>, v0: seq<int>, pts0: seq<CurvePoint>, b: Base, v: seq<int>,
        pts: seq<CurvePoint>, first: nat, count: nat, e: nat) returns (b': Base)
    requires Abelian(g) && Kept(g, v0, pts0, b, v, pts, first, count, false) && Live(scalars, v, count, 4, count)
    requires if count % 2 == 0 then e < count else e == count
    ensures b'.e == e && (e < count ==> b'.x == Val(scalars[e]))
    ensures Kept(g, v0, pts0, b', Drop(v, e, count), pts, first, count, true)
    ensures Live(scalars, Drop(v, e, count), count, 4, e) && Total(Drop(v, e, count), count) <= Total(v, count)
  {
    LiveNonNegative(scalars, v, count, 4, count);
    DropTotal(v, e, count);
    b' := Rebase(g, v0, pts0, b, v, pts, first, count, e);
  }

  /** One turn of the loop when two scalars are left: the total gets smaller. */
  method Turn(points: array<Ge>, scalars: array<Limbs>, heap: array<nat>, count: nat, n: nat, limbsize: nat,
        extended: bool, i: nat, j: nat, ghost g: Group<CurvePoint>, ghost first: nat, ghost v0: seq<int>,
        ghost pts0: seq<CurvePoint>, ghost b: Base, ghost v: seq<int>, ghost pts: seq<CurvePoint>)
    returns (n': nat, l: nat, extended': bool, ghost b': Base, ghost v': seq<int>, ghost pts': seq<CurvePoint>)
    requires CurveGroup(g) && 0 < count <= heap.Length < 0x1_0000_0000_0000_0000
    requires Running(heap[..], scalars[..], points[..], g, v0, pts0, b, v, pts, first, count, n, limbsize, extended)
    requires Top2(v, n, i, j) && v[j] > 0 && i == heap[0] && i != b.e && j != b.e
    modifies points, scalars, heap
    ensures Running(heap[..], scalars[..], points[..], g, v0, pts0, b', v', pts', first, count, n', l, extended')
    ensures count <= |v'| && count <= |v| && 0 <= Total(v', count) < Total(v, count)
  {
    assert Runs(0);
    var max1, max2;
    ghost var e;
    n', l, extended', max1, max2, e := Prepare(scalars, heap, n, count, limbsize, extended, i, j, first, b.e, v0, v);
    b', v' := b, v;
    if !extended && extended' {
      b' := Switch(scalars[..], g, v0, pts0, b, v, pts, first, count, e);
      v' := Drop(v, e, count);
    }
    v', pts' := Advance(points, scalars, heap, count, n', l, max1, max2, limbsize, extended', g, first, v0, pts0, b',
      v', pts);
  }

  /** How many scalars a run covers. */
  ghost function Covered(v: seq<int>, count: nat): nat {
    if Reaches(v, Prefix(count)) then count else Prefix(count)
  }

  /** What a run over n scalars leaves: their greatest common divisor and the combination by the quotients. */
  ghost predicate Left(g: Group<CurvePoint>, v: seq<int>, pts: seq<CurvePoint>, n: nat, s: int, pt: CurvePoint,
                       a: seq<int>)
  {
    n <= |pts| && s >= 0 && Greatest(v, n, s) && Scaled(v, n, s, a) && pt == Sum(g, a, pts, n)
  }

  /** At the end the verdict on the run is that of the condition on the first scalars. */
  lemma Outcome(g: Group<CurvePoint>, v0: seq<int>, pts0: seq<CurvePoint>, b: Base, v: seq<int>, pts: seq<CurvePoint>,
                first: nat, count: nat, n: nat, limbsize: nat, extended: bool, i: nat, j: nat) returns (a: seq<int>)
    requires Abelian(g) && first <= count <= |v| && Progress(v0, v, first, count, n, limbsize, extended)
    requires Kept(g, v0, pts0, b, v, pts, first, count, extended)
    requires Top2(v, n, i, j) && v[j] == 0 && forall k :: 0 <= k < count ==> v[k] >= 0
    ensures extended <==> Reaches(v0, first)
    ensures n == if extended then count else first
    ensures i < |pts| && Left(g, b.v, b.pts, n, v[i], pts[i], a)
    ensures extended ==> v[i] < 0x1_0000_0000_0000_0000_0000_0000_0000_0000
  {
    a := Remaining(g, b.v, b.pts, v, pts, n, i);
    if !extended {
      StopFails(v0, v, first, limbsize, i, j);
    }
  }

  /** heap_build over an odd number of scalars starts the run. */
  method Start(points: array<Ge>, scalars: array<Limbs>, heap: array<nat>, count: nat,
               ghost g: Group<CurvePoint>, ghost v0: seq<int>, ghost pts0: seq<CurvePoint>) returns (n: nat)
    requires Abelian(g) && 5 <= count <= heap.Length < 0x1_0000_0000_0000_0000
    requires Values(scalars[..], v0, count, 4) && Points(points[..], pts0, count) && RestSmall(v0, Prefix(count), count)
    modifies heap
    ensures n == Prefix(count)
      && Running(heap[..], scalars[..], points[..], g, v0, pts0, Base(v0, pts0, count, 0), v0, pts0, n, count, n, 4,
                 false)
  {
    FirstSize(count);
    n := Extend(heap, scalars, 0, Bits.Or((count + 1) / 2, 1), v0);
    ConservedStart(g, v0, pts0, n);
    ConservedStart(g, v0, pts0, count);
  }

  /** The two largest scalars, and whether only one is left. */
  method NextTwo(points: array<Ge>, scalars: array<Limbs>, heap: array<nat>, count: nat, n: nat, limbsize: nat,
        extended: bool, ghost g: Group<CurvePoint>, ghost first: nat, ghost v0: seq<int>, ghost pts0: seq<CurvePoint>,
        ghost b: Base, ghost v: seq<int>, ghost pts: seq<CurvePoint>)
    returns (max1: nat, max2: nat, done: bool)
    requires 0 < count <= heap.Length
    requires Running(heap[..], scalars[..], points[..], g, v0, pts0, b, v, pts, first, count, n, limbsize, extended)
    ensures max1 == heap[0] && Top2(v, n, max1, max2) && max1 != b.e && max2 != b.e
    ensures if done then v[max2] == 0 else v[max2] > 0
  {
    assert Runs(0);
    max1, max2 := GetTop2(heap, scalars, n, limbsize, v, b.e);
    done := IsZero(scalars[max2]);
  }

  /** What a run that is done has come to. */
  lemma Ended(h: seq<nat>, scalars: seq<Limbs>, p: seq<Ge>, g: Group<CurvePoint>, v0: seq<int>,
        pts0: seq<CurvePoint>, b: Base, v: seq<int>, pts: seq<CurvePoint>, first: nat, count: nat, n: nat,
        limbsize: nat, extended: bool, max1: nat, max2: nat) returns (a: seq<int>)
    requires Abelian(g) && first == Prefix(count)
    requires Running(h, scalars, p, g, v0, pts0, b, v, pts, first, count, n, limbsize, extended)
    requires Top2(v, n, max1, max2) && v[max2] == 0
    ensures Live(scalars, v, count, 4, b.e) && Points(p, pts, count) && max1 < count
    ensures |v0| == |v| && |pts0| == |pts| && Prefix(count) <= count
    ensures Based(g, v0, pts0, b, Prefix(count), count, Reaches(v0, Prefix(count)))
    ensures b.e < count ==> b.x == Val(scalars[b.e])
    ensures Left(g, b.v, b.pts, Covered(v0, count), v[max1], pts[max1], a)
    ensures Reaches(v0, Prefix(count)) ==> v[max1] < 0x1_0000_0000_0000_0000_0000_0000_0000_0000
  {
    assert Runs(0);
    LiveNonNegative(scalars, v, count, 4, b.e);
    a := Outcome(g, v0, pts0, b, v, pts, first, count, n, limbsize, extended, max1, max2);
  }

  /**
   * The loop of ge25519_multi_scalarmult_vartime. It ends with one scalar, the greatest common divisor of those it
   * covered, and with the sum of their quotients' multiples as its point. It covers all scalars if the first ones
   * reach the extension, and the first ones otherwise. After an extension to an even number one scalar is left out,
   * see Without.
   */
  method Reduce(points: array<Ge>, scalars: array<Limbs>, heap: array<nat>, count: nat,
                ghost g: Group<CurvePoint>, ghost v0: seq<int>, ghost pts0: seq<CurvePoint>)
    returns (max1: nat, ghost b: Base, ghost v: seq<int>, ghost pts: seq<CurvePoint>, ghost a: seq<int>)
    requires CurveGroup(g) && 5 <= count <= heap.Length < 0x1_0000_0000_0000_0000
    requires Values(scalars[..], v0, count, 4) && Points(points[..], pts0, count) && RestSmall(v0, Prefix(count), count)
    modifies points, scalars, heap
    ensures Live(scalars[..], v, count, 4, b.e) && Points(points[..], pts, count) && max1 < count && max1 != b.e
    ensures |v0| == |v| && |pts0| == |pts| && Prefix(count) <= count
    ensures Based(g, v0, pts0, b, Prefix(count), count, Reaches(v0, Prefix(count)))
    ensures b.e < count ==> b.x == Val(scalars[b.e])
    ensures Left(g, b.v, b.pts, Covered(v0, count), v[max1], pts[max1], a)
    ensures Reaches(v0, Prefix(count)) ==> v[max1] < 0x1_0000_0000_0000_0000_0000_0000_0000_0000
  {
    var limbsize: nat, extended := 4, false;
    b, v, pts := Base(v0, pts0, count, 0), v0, pts0;
    var n := Start(points, scalars, heap, count, g, v0, pts0);
    ghost var first := n;
    LiveNonNegative(scalars[..], v, count, 4, b.e);
    TotalNonNegative(v, count);
    var max2;
    while true
      invariant Running(heap[..], scalars[..], points[..], g, v0, pts0, b, v, pts, first, count, n, limbsize, extended)
      invariant count <= |v| && Total(v, count) >= 0
      decreases Total(v, count)
    {
      var done;
      max1, max2, done := NextTwo(points, scalars, heap, count, n, limbsize, extended, g, first, v0, pts0, b, v, pts);
      if done {
        break;
      }
      n, limbsize, extended, b, v, pts := Turn(points, scalars, heap, count, n, limbsize, extended, max1, max2, g,
        first, v0, pts0, b, v, pts);
    }
    a := Ended(heap[..], scalars[..], points[..], g, v0, pts0, b, v, pts, first, count, n, limbsize, extended, max1,
               max2);
  }

  /**
   * What is left out of an even number of scalars is the multiple of one point: the result stands for the whole sum
   * exactly if that multiple is neutral.
   */
  lemma EvenSum(g: Group<CurvePoint>, v0: seq<int>, pts0: seq<CurvePoint>, b: Base, first: nat, count: nat, s: int,
        pt: CurvePoint, a: seq<int>)
    requires Abelian(g) && Without(g, v0, pts0, b, first, count) && Left(g, b.v, b.pts, count, s, pt, a)
    ensures Op(g, Times(g, s, pt), Times(g, b.x, b.pts[b.e])) == Sum(g, v0, pts0, count)
    ensures Times(g, s, pt) == Sum(g, v0, pts0, count) <==> Times(g, b.x, b.pts[b.e]) == g.zero
  {
    TimesCombination(g, s, a, b.v, b.pts, count);
    var w := b.v[b.e := b.x];
    SumReplace(g, b.v, b.pts, w, b.pts, count, b.e);
    var u, x := Times(g, s, pt), Times(g, b.x, b.pts[b.e]);
    Zero(g, Sum(g, w, b.pts, count));
    Zero(g, u);
    if Times(g, s, pt) == Sum(g, v0, pts0, count) {
      Cancel(g, u, x, g.zero);
    }
  }
}
