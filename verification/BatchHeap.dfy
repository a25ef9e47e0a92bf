/** The max-heap of scalar indices that batch verification keeps. */
module BatchHeap {
  import opened Words
  import opened Scalar
  import opened BatchScalars

  // ---- heaps as sequences of indices into values ----

  function Parent(k: int): int
    requires k >= 1
  {
    (k - 1) / 2
  }

  /** The first n entries are the indices 0 .. n - 1, each once. */
  ghost predicate Permutation(h: seq<nat>, n: nat) {
    && n <= |h|
    && (forall k :: 0 <= k < n ==> h[k] < n)
    && (forall j, k :: 0 <= j < k < n ==> h[j] != h[k])
    && (forall i :: 0 <= i < n ==> Occurs(h, n, i))
  }

  ghost predicate Occurs(h: seq<nat>, n: nat, i: nat)
    requires n <= |h|
  {
    exists k :: 0 <= k < n && h[k] == i
  }

  /** The value at heap position k. */
  ghost function At(h: seq<nat>, v: seq<int>, k: int): int
    requires 0 <= k < |h| && h[k] < |v|
  {
    v[h[k]]
  }

  ghost predicate Indices(h: seq<nat>, v: seq<int>, n: nat) {
    n <= |h| && forall k :: 0 <= k < n ==> h[k] < |v|
  }

  ghost predicate Dominates(h: seq<nat>, v: seq<int>, k: int)
    requires 1 <= k < |h| && h[k] < |v| && h[Parent(k)] < |v|
  {
    At(h, v, Parent(k)) >= At(h, v, k)
  }

  ghost predicate Ordered(h: seq<nat>, v: seq<int>, n: nat) {
    Indices(h, v, n) && forall k :: 1 <= k < n ==> Dominates(h, v, k)
  }

  /** Ordered except that position c may exceed its parent; what is below c is still below c's parent. */
  ghost predicate OrderedButUp(h: seq<nat>, v: seq<int>, n: nat, c: nat) {
    && Indices(h, v, n) && c < n
    && (forall k :: 1 <= k < n && k != c ==> Dominates(h, v, k))
    && (c > 0 ==> forall k :: 1 <= k < n && Parent(k) == c ==> At(h, v, Parent(c)) >= At(h, v, k))
  }

  /** Ordered except between position c and its parent and its children; what is below c is below c's parent. */
  ghost predicate OrderedButAround(h: seq<nat>, v: seq<int>, n: nat, c: nat) {
    && Indices(h, v, n) && c < n
    && (forall k :: 1 <= k < n && k != c && Parent(k) != c ==> Dominates(h, v, k))
    && (c > 0 ==> forall k :: 1 <= k < n && Parent(k) == c ==> At(h, v, Parent(c)) >= At(h, v, k))
  }

  function Swapped(h: seq<nat>, a: nat, b: nat): seq<nat>
    requires a < |h| && b < |h|
  {
    h[a := h[b]][b := h[a]]
  }

  lemma SwapPermutation(h: seq<nat>, n: nat, a: nat, b: nat)
    requires Permutation(h, n) && a < n && b < n
    ensures Permutation(Swapped(h, a, b), n)
  {
    var h' := Swapped(h, a, b);
    forall i | 0 <= i < n ensures Occurs(h', n, i) {
      assert Occurs(h, n, i);
      var k :| 0 <= k < n && h[k] == i;
      var k' := if k == a then b else if k == b then a else k;
      assert h'[k'] == i;
    }
  }

  /** One exchange on the way up. */
  lemma SiftUpStep(h: seq<nat>, v: seq<int>, n: nat, c: nat)
    requires OrderedButUp(h, v, n, c) && c > 0 && At(h, v, Parent(c)) <= At(h, v, c)
    ensures OrderedButUp(Swapped(h, Parent(c), c), v, n, Parent(c))
  {
    var p := Parent(c);
    var h' := Swapped(h, p, c);
    forall k | 1 <= k < n && k != p ensures Dominates(h', v, k) {
      if k != c {
        assert Dominates(h, v, k);
      }
    }
    if p > 0 {
      assert Dominates(h, v, p);
      forall k | 1 <= k < n && Parent(k) == p ensures At(h', v, Parent(p)) >= At(h', v, k) {
        if k != c {
          assert Dominates(h, v, k);
        }
      }
    }
  }

  lemma SiftDownAt(h: seq<nat>, v: seq<int>, n: nat, c: nat, m: nat, k: nat)
    requires OrderedButAround(h, v, n, c) && (m == 2 * c + 1 || m == 2 * c + 2) && 2 * c + 2 < n
    requires At(h, v, m) >= At(h, v, 2 * c + 1) && At(h, v, m) >= At(h, v, 2 * c + 2)
    requires 1 <= k < n && k != m && Parent(k) != m
    ensures Dominates(Swapped(h, c, m), v, k)
  {
    if k == c {
      assert At(h, v, Parent(c)) >= At(h, v, m);
    } else if Parent(k) == c {
      assert k == 2 * c + 1 || k == 2 * c + 2;
    } else {
      assert Dominates(h, v, k);
    }
  }

  /** One exchange on the way down, with the larger child m. */
  lemma SiftDownStep(h: seq<nat>, v: seq<int>, n: nat, c: nat, m: nat)
    requires OrderedButAround(h, v, n, c) && (m == 2 * c + 1 || m == 2 * c + 2) && 2 * c + 2 < n
    requires At(h, v, m) >= At(h, v, 2 * c + 1) && At(h, v, m) >= At(h, v, 2 * c + 2)
    ensures OrderedButAround(Swapped(h, c, m), v, n, m)
  {
    var h' := Swapped(h, c, m);
    forall k | 1 <= k < n && k != m && Parent(k) != m ensures Dominates(h', v, k) {
      SiftDownAt(h, v, n, c, m, k);
    }
    forall k | 1 <= k < n && Parent(k) == m ensures At(h', v, Parent(m)) >= At(h', v, k) {
      assert Dominates(h, v, k);
    }
  }

  lemma SiftUpDone(h: seq<nat>, v: seq<int>, n: nat, c: nat)
    requires OrderedButUp(h, v, n, c) && (c == 0 || At(h, v, Parent(c)) >= At(h, v, c))
    ensures Ordered(h, v, n)
  {
  }

  /** The number of entries is odd, or the last entry is the least of all. */
  ghost predicate OddOrLeast(h: seq<nat>, v: seq<int>, n: nat) {
    n % 2 == 1 || (4 <= n <= |h| && h[n - 1] < n <= |v| && forall i :: 0 <= i < n ==> v[h[n - 1]] <= v[i])
  }

  /** Then no child of the place where the sift down stops is larger. */
  lemma LeafReached(h: seq<nat>, v: seq<int>, n: nat, c: nat)
    requires Permutation(h, n) && OrderedButAround(h, v, n, c) && 2 * c + 2 >= n && OddOrLeast(h, v, n)
    ensures OrderedButUp(h, v, n, c)
  {
    forall k | 1 <= k < n && k != c ensures Dominates(h, v, k) {
      if Parent(k) == c {
        assert k == n - 1 && n % 2 == 0;
        assert h[c] < n;
      }
    }
  }

  // ---- what the two loops leave ----

  /** Entry c goes up while its parent is smaller, or, for the way back after a sift down, not larger. */
  ghost predicate Climbs(h: seq<nat>, v: seq<int>, c: nat, strict: bool)
    requires 1 <= c < |h| && h[c] < |v| && h[Parent(c)] < |v|
  {
    if strict then At(h, v, Parent(c)) < At(h, v, c) else At(h, v, Parent(c)) <= At(h, v, c)
  }

  ghost function Risen(h: seq<nat>, v: seq<int>, n: nat, c: nat, strict: bool): seq<nat>
    requires Indices(h, v, n) && c < n
    decreases c
  {
    if c == 0 || !Climbs(h, v, c, strict) then h else Risen(Swapped(h, Parent(c), c), v, n, Parent(c), strict)
  }

  /** The left child, unless the right one is larger. */
  ghost function LargerChild(h: seq<nat>, v: seq<int>, c: nat): nat
    requires 2 * c + 2 < |h| && h[2 * c + 1] < |v| && h[2 * c + 2] < |v|
  {
    if At(h, v, 2 * c + 1) < At(h, v, 2 * c + 2) then 2 * c + 2 else 2 * c + 1
  }

  /** Entry c sinks until it has no right child. */
  ghost function Sunk(h: seq<nat>, v: seq<int>, n: nat, c: nat): (seq<nat>, nat)
    requires Indices(h, v, n) && c < n
    decreases n - c
  {
    if 2 * c + 2 >= n then (h, c)
    else
      var m := LargerChild(h, v, c);
      Sunk(Swapped(h, c, m), v, n, m)
  }

  /** It is a largest child, and the left one if both are. */
  lemma LargerChildIs(h: seq<nat>, v: seq<int>, c: nat)
    requires 2 * c + 2 < |h| && h[2 * c + 1] < |v| && h[2 * c + 2] < |v|
    ensures var m := LargerChild(h, v, c);
            && (m == 2 * c + 1 || m == 2 * c + 2)
            && At(h, v, m) >= At(h, v, 2 * c + 1) && At(h, v, m) >= At(h, v, 2 * c + 2)
            && (At(h, v, 2 * c + 1) == At(h, v, 2 * c + 2) ==> m == 2 * c + 1)
  {
  }

  /** Entry c rises to the first place whose parent is not smaller, or, for the lax comparison, larger. */
  lemma {:induction false} RisenPlace(h: seq<nat>, v: seq<int>, n: nat, c: nat, strict: bool) returns (d: nat)
    requires Indices(h, v, n) && c < n
    ensures var h' := Risen(h, v, n, c, strict);
            && |h'| == |h| && Indices(h', v, n) && d <= c && h'[d] == h[c]
            && (d > 0 && strict ==> At(h', v, Parent(d)) >= At(h', v, d))
            && (d > 0 && !strict ==> At(h', v, Parent(d)) > At(h', v, d))
    decreases c
  {
    if c == 0 || !Climbs(h, v, c, strict) {
      d := c;
    } else {
      d := RisenPlace(Swapped(h, Parent(c), c), v, n, Parent(c), strict);
    }
  }

  lemma {:induction false} SunkPlace(h: seq<nat>, v: seq<int>, n: nat, c: nat)
    requires Indices(h, v, n) && c < n
    ensures var (h', d) := Sunk(h, v, n, c); Indices(h', v, n) && d < n <= 2 * d + 2
    decreases n - c
  {
    if 2 * c + 2 < n {
      var m := LargerChild(h, v, c);
      SunkPlace(Swapped(h, c, m), v, n, m);
    }
  }

  /** heap_updated_root: the root sinks to the end of its path and comes up again. */
  ghost function Updated(h: seq<nat>, v: seq<int>, n: nat): seq<nat>
    requires Indices(h, v, n) && n >= 1
  {
    SunkPlace(h, v, n, 0);
    var (h', d) := Sunk(h, v, n, 0);
    Risen(h', v, n, d, false)
  }

  lemma {:induction false} RisenOrdered(h: seq<nat>, v: seq<int>, n: nat, c: nat, strict: bool)
    requires OrderedButUp(h, v, n, c)
    ensures Ordered(Risen(h, v, n, c, strict), v, n)
    decreases c
  {
    if c == 0 || !Climbs(h, v, c, strict) {
      SiftUpDone(h, v, n, c);
    } else {
      SiftUpStep(h, v, n, c);
      RisenOrdered(Swapped(h, Parent(c), c), v, n, Parent(c), strict);
    }
  }

  lemma {:induction false} SunkOrdered(h: seq<nat>, v: seq<int>, n: nat, c: nat)
    requires OrderedButAround(h, v, n, c)
    ensures var (h', d) := Sunk(h, v, n, c); OrderedButAround(h', v, n, d) && n <= 2 * d + 2
    decreases n - c
  {
    if 2 * c + 2 < n {
      var m := LargerChild(h, v, c);
      SiftDownStep(h, v, n, c, m);
      SunkOrdered(Swapped(h, c, m), v, n, m);
    }
  }

  lemma {:induction false} RisenKeeps(h: seq<nat>, v: seq<int>, n: nat, c: nat, strict: bool)
    requires Permutation(h, n) && Indices(h, v, n) && c < n
    ensures var h' := Risen(h, v, n, c, strict);
            |h'| == |h| && Permutation(h', n) && Indices(h', v, n) && h'[c + 1..] == h[c + 1..]
    decreases c
  {
    if c > 0 && Climbs(h, v, c, strict) {
      var t := Swapped(h, Parent(c), c);
      SwapPermutation(h, n, Parent(c), c);
      RisenKeeps(t, v, n, Parent(c), strict);
      LaterSame(Risen(t, v, n, Parent(c), strict), t, Parent(c) + 1, c + 1);
    }
  }

  lemma LaterSame(s: seq<nat>, t: seq<nat>, a: nat, b: nat)
    requires a <= b <= |s| == |t| && s[a..] == t[a..]
    ensures s[b..] == t[b..]
  {
    assert s[b..] == s[a..][b - a..] && t[b..] == t[a..][b - a..];
  }

  /** Of an even number of entries the last never moves. */
  lemma {:induction false} SunkKeeps(h: seq<nat>, v: seq<int>, n: nat, c: nat)
    requires Permutation(h, n) && Indices(h, v, n) && c < n && (n % 2 == 0 ==> c < n - 1)
    ensures var (h', d) := Sunk(h, v, n, c);
            && |h'| == |h| && Permutation(h', n) && Indices(h', v, n) && d < n
            && (n % 2 == 0 ==> d < n - 1 && h'[n - 1] == h[n - 1])
    decreases n - c
  {
    if 2 * c + 2 < n {
      var m := LargerChild(h, v, c);
      SwapPermutation(h, n, c, m);
      SunkKeeps(Swapped(h, c, m), v, n, m);
    }
  }

  /** Whatever the root's scalar became, the order is restored if the number of entries is odd or the last is least. */
  lemma UpdatedOrdered(h: seq<nat>, v: seq<int>, n: nat)
    requires Permutation(h, n) && OrderedButAround(h, v, n, 0) && OddOrLeast(h, v, n)
    ensures Ordered(Updated(h, v, n), v, n)
  {
    SunkOrdered(h, v, n, 0);
    SunkKeeps(h, v, n, 0);
    var (h', d) := Sunk(h, v, n, 0);
    LeafReached(h', v, n, d);
    RisenOrdered(h', v, n, d, false);
  }

  /** Node k lies on the way from node e to the root. */
  ghost predicate Above(k: nat, e: nat)
    decreases e
  {
    k == e || (k < e && Above(k, Parent(e)))
  }

  lemma {:induction false} ChildAbove(c: nat, e: nat)
    requires c < e && Above(c, e)
    ensures Above(2 * c + 1, e) || Above(2 * c + 2, e)
    decreases e
  {
    if Parent(e) != c {
      ChildAbove(c, Parent(e));
    }
  }

  lemma {:induction false} RootAbove(e: nat)
    ensures Above(0, e)
  {
    if e > 0 {
      RootAbove(Parent(e));
    }
  }

  /** A root that became 0, and large numbers on the way to the last of n nodes. */
  ghost function Lure(n: nat): (v: seq<int>)
    ensures |v| == n
    ensures forall k: nat :: k < n ==> v[k] == if k == 0 then 0 else if Above(k, n - 1) then 2 * n - k else 1
  {
    seq(n, k requires 0 <= k < n => if k == 0 then 0 else if Above(k, n - 1) then 2 * n - k else 1)
  }

  lemma LureOrdered(h: seq<nat>, n: nat)
    requires n >= 4 && |h| == n && forall k :: 0 <= k < n ==> h[k] == k
    ensures Permutation(h, n) && OrderedButAround(h, Lure(n), n, 0)
  {
    forall i | 0 <= i < n ensures Occurs(h, n, i) {
      assert h[i] == i;
    }
    forall k | 1 <= k < n && Parent(k) != 0 ensures Dominates(h, Lure(n), k) {
      if Above(k, n - 1) {
        ParentAbove(k, n - 1);
      }
    }
  }

  lemma {:induction false} ParentAbove(k: nat, e: nat)
    requires 1 <= k && Above(k, e)
    ensures Above(Parent(k), e)
    decreases e
  {
    if k < e {
      ParentAbove(k, Parent(e));
    }
  }

  lemma LureChild(h: seq<nat>, n: nat, c: nat, m: nat)
    requires n >= 4 && n % 2 == 0 && |h| == n && Indices(h, Lure(n), n) && Above(c, n - 1) && 2 * c + 2 < n
    requires (forall k :: c < k < n ==> h[k] == k) && m == LargerChild(h, Lure(n), c)
    ensures Above(m, n - 1) && 2 * m + 2 <= n && h[m] == m && Lure(n)[m] > 0
  {
    ChildAbove(c, n - 1);
    assert Above(m, n - 1) && m < n - 1;
  }

  /** Among an even number of nodes the 0 follows that way and stops above the last node, which is larger. */
  lemma {:induction false} LureFollowed(h: seq<nat>, n: nat, c: nat)
    requires n >= 4 && n % 2 == 0 && |h| == n && Indices(h, Lure(n), n) && Above(c, n - 1) && 2 * c + 2 <= n
    requires h[c] == 0 && (forall k :: c < k < n ==> h[k] == k) && (c > 0 ==> At(h, Lure(n), Parent(c)) > 0)
    ensures var (h', d) := Sunk(h, Lure(n), n, c);
            && |h'| == n && 2 * d + 2 == n && h'[d] == 0 && h'[n - 1] == n - 1 && Indices(h', Lure(n), n)
            && At(h', Lure(n), Parent(d)) > 0
    decreases n - c
  {
    if 2 * c + 2 < n {
      var m := LargerChild(h, Lure(n), c);
      LureChild(h, n, c, m);
      LureFollowed(Swapped(h, c, m), n, m);
    }
  }

  /** The update restores the order of every heap of n entries. */
  ghost predicate Restores(n: nat)
    requires n >= 1
  {
    forall h: seq<nat>, v: seq<int> :: Permutation(h, n) && OrderedButAround(h, v, n, 0) ==>
      Ordered(Updated(h, v, n), v, n)
  }

  /**
   * With an even number of entries the root can stop above a larger child, and stays there. The source updates only
   * heaps of an odd number of entries.
   */
  lemma EvenSizeStops(n: nat)
    requires n >= 4 && n % 2 == 0
    ensures !Restores(n)
  {
    var h, v := seq(n, k requires 0 <= k < n => k), Lure(n);
    LureOrdered(h, n);
    RootAbove(n - 1);
    LureFollowed(h, n, 0);
    var (h', d) := Sunk(h, v, n, 0);
    assert Updated(h, v, n) == h';
    assert Parent(n - 1) == d && !Dominates(h', v, n - 1);
  }

  /** From three entries on the update restores the order exactly for odd sizes. */
  lemma RestoresExactly(n: nat)
    requires n >= 3
    ensures Restores(n) <==> n % 2 == 1
  {
    if n % 2 == 0 {
      EvenSizeStops(n);
    } else {
      forall h: seq<nat>, v: seq<int> | Permutation(h, n) && OrderedButAround(h, v, n, 0)
        ensures Ordered(Updated(h, v, n), v, n)
      {
        UpdatedOrdered(h, v, n);
      }
    }
  }

  /** What an update keeps: the entries, and for an even number of them the last place. */
  lemma UpdatedKeeps(h: seq<nat>, v: seq<int>, n: nat)
    requires Permutation(h, n) && Indices(h, v, n) && n >= 3
    ensures var h' := Updated(h, v, n);
            |h'| == |h| && Permutation(h', n) && (n % 2 == 0 ==> h'[n - 1] == h[n - 1])
  {
    SunkKeeps(h, v, n, 0);
    var (t, d) := Sunk(h, v, n, 0);
    RisenKeeps(t, v, n, d, false);
    if n % 2 == 0 {
      var h' := Risen(t, v, n, d, false);
      assert h'[n - 1] == h'[d + 1..][n - 1 - (d + 1)] == t[d + 1..][n - 1 - (d + 1)];
    }
  }


  // ---- the methods ----

  /** The scalars below n are carried, have no limb above limbsize, and v holds their values. */
  ghost predicate Values(scalars: seq<Limbs>, v: seq<int>, n: nat, limbsize: nat) {
    && n <= |scalars| == |v| && limbsize <= 4
    && forall i :: 0 <= i < n ==> Carried(scalars[i]) && Fits(scalars[i], limbsize) && v[i] == Val(scalars[i])
  }

  /** The same for all but entry e, whose value counts as nothing; e is n or more where there is no such entry. */
  ghost predicate Live(scalars: seq<Limbs>, v: seq<int>, n: nat, limbsize: nat, e: nat) {
    && n <= |scalars| == |v| && limbsize <= 4 && (e < n ==> v[e] == 0)
    && forall i :: 0 <= i < n && i != e ==>
      Carried(scalars[i]) && Fits(scalars[i], limbsize) && v[i] == Val(scalars[i])
  }

  /** Entry e, if there is one, is the last of an even number. */
  ghost predicate LastAt(h: seq<nat>, n: nat, e: nat) {
    e < n ==> 4 <= n <= |h| && n % 2 == 0 && h[n - 1] == e
  }

  lemma ValuesLive(scalars: seq<Limbs>, v: seq<int>, n: nat, limbsize: nat)
    requires Values(scalars, v, n, limbsize)
    ensures Live(scalars, v, n, limbsize, n)
  {
  }

  /** heap_swap */
  method Swap(heap: array<nat>, a: nat, b: nat)
    requires a < heap.Length && b < heap.Length
    modifies heap
    ensures heap[..] == Swapped(old(heap[..]), a, b)
  {
    var temp := heap[a];
    heap[a] := heap[b];
    heap[b] := temp;
  }

  /** (node - 1) / 2 in a size_t: for node 0 it is a number that is never used. */
  function ParentIndex(node: nat): nat {
    U64(node - 1) / 2
  }

  lemma ParentIndexIs(node: nat)
    requires 1 <= node < 0x1_0000_0000_0000_0000
    ensures ParentIndex(node) == Parent(node) && Parent(node) < node
  {
  }

  /** Moves position c up. */
  method SiftUp(heap: array<nat>, scalars: array<Limbs>, c: nat, n: nat, limbsize: nat, strict: bool, ghost v: seq<int>,
        ghost e: nat)
    requires c < n <= heap.Length < 0x1_0000_0000_0000_0000 && Live(scalars[..], v, n, limbsize, e)
    requires Permutation(heap[..], n) && LastAt(heap[..], n, e) && (e < n ==> c < n - 1)
    modifies heap
    ensures Indices(old(heap[..]), v, n) && heap[..] == Risen(old(heap[..]), v, n, c, strict)
  {
    var node: nat := c;
    var parent := ParentIndex(node);
    while node != 0
      invariant node <= c && parent == ParentIndex(node)
      invariant Permutation(heap[..], n) && Indices(heap[..], v, n) && Indices(old(heap[..]), v, n)
      invariant LastAt(heap[..], n, e)
      invariant Risen(heap[..], v, n, node, strict) == Risen(old(heap[..]), v, n, c, strict)
      decreases node
    {
      ParentIndexIs(node);
      var below := Below(scalars, heap[parent], heap[node], limbsize, strict, n, v, e);
      if !below {
        break;
      }
      SwapPermutation(heap[..], n, parent, node);
      Swap(heap, parent, node);
      node := parent;
      parent := ParentIndex(node);
    }
  }

  /** The loop test: lt256_modm_batch when inserting, lte256_modm_batch after the root was updated. */
  method Below(scalars: array<Limbs>, i: nat, j: nat, limbsize: nat, strict: bool, ghost n: nat,
        ghost v: seq<int>, ghost e: nat) returns (r: bool)
    requires Live(scalars[..], v, n, limbsize, e) && i < n && j < n && i != e && j != e
    ensures r <==> if strict then v[i] < v[j] else v[i] <= v[j]
  {
    if strict {
      r := LtBatch(scalars[i], scalars[j], limbsize);
    } else {
      r := LteBatch(scalars[i], scalars[j], limbsize);
    }
  }

  lemma AppendPermutation(h: seq<nat>, n: nat)
    requires Permutation(h, n) && n < |h|
    ensures Permutation(h[n := n], n + 1)
  {
    var h', m := h[n := n], n + 1;
    forall i | 0 <= i < m ensures Occurs(h', m, i) {
      if i < n {
        assert Occurs(h, n, i);
        var k :| 0 <= k < n && h[k] == i;
        assert h'[k] == i;
      } else {
        assert h'[n] == i;
      }
    }
  }

  lemma AppendOrdered(h: seq<nat>, v: seq<int>, n: nat)
    requires Ordered(h, v, n) && n < |h| && n < |v|
    ensures OrderedButUp(h[n := n], v, n + 1, n)
  {
    var h' := h[n := n];
    forall k | 1 <= k < n + 1 && k != n ensures Dominates(h', v, k) {
      assert Dominates(h, v, k);
    }
  }

  lemma Joins(h: seq<nat>, v: seq<int>, n: nat)
    requires Permutation(h, n) && Ordered(h, v, n) && n < |h| && n < |v|
    ensures Permutation(h[n := n], n + 1) && Indices(h[n := n], v, n + 1)
    ensures var h' := Risen(h[n := n], v, n + 1, n, true);
            |h'| == |h| && Permutation(h', n + 1) && Ordered(h', v, n + 1)
  {
    AppendPermutation(h, n);
    AppendOrdered(h, v, n);
    RisenOrdered(h[n := n], v, n + 1, n, true);
    RisenKeeps(h[n := n], v, n + 1, n, true);
  }

  method Append(heap: array<nat>, n: nat)
    requires n < heap.Length
    modifies heap
    ensures heap[..] == old(heap[..])[n := n]
  {
    heap[n] := n;
  }

  /** heap_insert_next: the scalar at index n joins the heap at its end and rises. */
  method InsertNext(heap: array<nat>, scalars: array<Limbs>, n: nat, ghost v: seq<int>) returns (size: nat)
    requires n < heap.Length < 0x1_0000_0000_0000_0000 && Values(scalars[..], v, n + 1, 4)
    requires Permutation(heap[..], n) && Ordered(heap[..], v, n)
    modifies heap
    ensures size == n + 1 && Permutation(heap[..], size) && Ordered(heap[..], v, size)
    ensures Indices(old(heap[..])[n := n], v, n + 1)
      && heap[..] == Risen(old(heap[..])[n := n], v, n + 1, n, true)
  {
    Joins(heap[..], v, n);
    ValuesLive(scalars[..], v, n + 1, 4);
    Append(heap, n);
    SiftUp(heap, scalars, n, n + 1, 4, true, v, n + 1);
    size := n + 1;
  }

  /** The heap after the indices n .. count - 1 have joined one after the other. */
  ghost function Grown(h: seq<nat>, v: seq<int>, n: nat, count: nat): seq<nat>
    requires Permutation(h, n) && Ordered(h, v, n) && n <= count <= |h| && count <= |v|
    decreases count - n
  {
    if n == count then h
    else
      Joins(h, v, n);
      Grown(Risen(h[n := n], v, n + 1, n, true), v, n + 1, count)
  }

  /** heap_build and heap_extend: the scalars at indices n .. count - 1 join the heap. */
  method Extend(heap: array<nat>, scalars: array<Limbs>, n: nat, count: nat, ghost v: seq<int>) returns (size: nat)
    requires n <= count <= heap.Length < 0x1_0000_0000_0000_0000 && Values(scalars[..], v, count, 4)
    requires Permutation(heap[..], n) && Ordered(heap[..], v, n)
    modifies heap
    ensures size == count && Permutation(heap[..], size) && Ordered(heap[..], v, size)
    ensures heap[..] == Grown(old(heap[..]), v, n, count)
  {
    size := n;
    while size < count
      invariant n <= size <= count && Permutation(heap[..], size) && Ordered(heap[..], v, size)
      invariant Grown(heap[..], v, size, count) == Grown(old(heap[..]), v, n, count)
    {
      size := InsertNext(heap, scalars, size, v);
    }
  }

  /** Exchanges the entry at parent with its larger child. */
  method SiftDownOnce(heap: array<nat>, scalars: array<Limbs>, parent: nat, n: nat, limbsize: nat,
        ghost v: seq<int>, ghost e: nat) returns (node: nat)
    requires 2 * parent + 2 < n <= heap.Length && Live(scalars[..], v, n, limbsize, e) && Permutation(heap[..], n)
    requires LastAt(heap[..], n, e)
    modifies heap
    ensures Indices(old(heap[..]), v, n) && node == LargerChild(old(heap[..]), v, parent)
    ensures heap[..] == Swapped(old(heap[..]), parent, node)
  {
    var childl, childr := 2 * parent + 1, 2 * parent + 2;
    assert heap[..][childl] != e && heap[..][childr] != e;
    var lower := LtBatch(scalars[heap[childl]], scalars[heap[childr]], limbsize);
    node := if lower then childr else childl;
    Swap(heap, parent, node);
  }

  /** Moves the root down, the larger child taking its place each time. */
  method SiftDown(heap: array<nat>, scalars: array<Limbs>, n: nat, limbsize: nat, ghost v: seq<int>,
        ghost e: nat) returns (node: nat)
    requires 3 <= n <= heap.Length && Live(scalars[..], v, n, limbsize, e) && Permutation(heap[..], n)
    requires LastAt(heap[..], n, e)
    modifies heap
    ensures Indices(old(heap[..]), v, n) && (heap[..], node) == Sunk(old(heap[..]), v, n, 0)
  {
    var parent, childr: nat := 0, 2;
    node := 1;
    while childr < n
      invariant parent < n && childr == 2 * parent + 2 && (e < n ==> parent < n - 1)
      invariant parent == 0 || node == parent
      invariant Permutation(heap[..], n) && Indices(heap[..], v, n) && Indices(old(heap[..]), v, n)
      invariant LastAt(heap[..], n, e) && Sunk(heap[..], v, n, parent) == Sunk(old(heap[..]), v, n, 0)
      decreases n - parent
    {
      SwapPermutation(heap[..], n, parent, LargerChild(heap[..], v, parent));
      node := SiftDownOnce(heap, scalars, parent, n, limbsize, v, e);
      parent := node;
      childr := 2 * parent + 2;
    }
  }

  lemma RootChanged(h: seq<nat>, v: seq<int>, v': seq<int>, n: nat)
    requires Permutation(h, n) && n >= 1 && Ordered(h, v, n) && |v'| == |v|
    requires forall i :: 0 <= i < |v| && i != h[0] ==> v'[i] == v[i]
    ensures OrderedButAround(h, v', n, 0)
  {
    forall k | 1 <= k < n && k != 0 && Parent(k) != 0 ensures Dominates(h, v', k) {
      assert Dominates(h, v, k);
    }
  }

  /** heap_updated_root: the order is restored if the number of entries is odd or the last entry is the least. */
  method UpdatedRoot(heap: array<nat>, scalars: array<Limbs>, n: nat, limbsize: nat, ghost v: seq<int>, ghost e: nat)
    requires 3 <= n <= heap.Length < 0x1_0000_0000_0000_0000 && Live(scalars[..], v, n, limbsize, e)
    requires Permutation(heap[..], n) && LastAt(heap[..], n, e)
    modifies heap
    ensures Indices(old(heap[..]), v, n) && heap[..] == Updated(old(heap[..]), v, n) && Permutation(heap[..], n)
    ensures LastAt(heap[..], n, e)
    ensures OddOrLeast(old(heap[..]), v, n) && OrderedButAround(old(heap[..]), v, n, 0) ==> Ordered(heap[..], v, n)
  {
    ghost var h := heap[..];
    UpdatedKeeps(h, v, n);
    SunkKeeps(h, v, n, 0);
    var node := SiftDown(heap, scalars, n, limbsize, v, e);
    SiftUp(heap, scalars, node, n, limbsize, false, v, e);
    if OddOrLeast(h, v, n) && OrderedButAround(h, v, n, 0) {
      UpdatedOrdered(h, v, n);
    }
  }

  // ---- the two largest ----

  lemma {:induction false} RootLargest(h: seq<nat>, v: seq<int>, n: nat, k: nat)
    requires Ordered(h, v, n) && k < n
    ensures At(h, v, 0) >= At(h, v, k)
  {
    if k > 0 {
      assert Dominates(h, v, k);
      RootLargest(h, v, n, Parent(k));
    }
  }

  lemma {:induction false} NextLargest(h: seq<nat>, v: seq<int>, n: nat, k: nat)
    requires Ordered(h, v, n) && 1 <= k < n && n >= 3
    ensures At(h, v, 1) >= At(h, v, k) || At(h, v, 2) >= At(h, v, k)
  {
    if k > 2 {
      assert Dominates(h, v, k);
      NextLargest(h, v, n, Parent(k));
    }
  }

  /** The largest of the values below n is at i, and the largest of the others at j. */
  ghost predicate Top2(v: seq<int>, n: nat, i: nat, j: nat) {
    && i < n <= |v| && j < n && i != j
    && (forall k :: 0 <= k < n ==> v[k] <= v[i])
    && (forall k :: 0 <= k < n && k != i ==> v[k] <= v[j])
  }

  lemma TopIndices(h: seq<nat>, v: seq<int>, n: nat, c: nat)
    requires Permutation(h, n) && Ordered(h, v, n) && 3 <= n <= |v| && (c == 1 || c == 2)
    requires At(h, v, c) >= At(h, v, 1) && At(h, v, c) >= At(h, v, 2)
    ensures Top2(v, n, h[0], h[c])
  {
    forall i | 0 <= i < n ensures v[i] <= v[h[0]] && (i != h[0] ==> v[i] <= v[h[c]]) {
      assert Occurs(h, n, i);
      var k :| 0 <= k < n && h[k] == i;
      RootLargest(h, v, n, k);
      if k > 0 {
        NextLargest(h, v, n, k);
      }
    }
  }

  /** heap_get_top2: distinct indices of the two largest scalars; the first is the root. */
  method GetTop2(heap: array<nat>, scalars: array<Limbs>, n: nat, limbsize: nat, ghost v: seq<int>,
        ghost e: nat) returns (max1: nat, max2: nat)
    requires 3 <= n <= heap.Length && Live(scalars[..], v, n, limbsize, e)
    requires Permutation(heap[..], n) && Ordered(heap[..], v, n) && LastAt(heap[..], n, e)
    ensures max1 == heap[0] && max2 in heap[1..3] && Top2(v, n, max1, max2) && max1 != e && max2 != e
    ensures heap[1] < |v| && heap[2] < |v| && max2 == if v[heap[1]] < v[heap[2]] then heap[2] else heap[1]
  {
    assert heap[..][0] != e && heap[..][1] != e && heap[..][2] != e;
    var h0, h1, h2 := heap[0], heap[1], heap[2];
    var lower := LtBatch(scalars[h1], scalars[h2], limbsize);
    TopIndices(heap[..], v, n, if lower then 2 else 1);
    if lower {
      h1 := h2;
    }
    max1, max2 := h0, h1;
  }
}
