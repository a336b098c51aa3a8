/** tl::merge_sort<S, Cmp>: a stable top-down merge sort of the arguments of
    S under a caller-supplied comparator, `Cmp<Lhs, Rhs>::value` meaning
    "Lhs must come strictly before Rhs". The result keeps the shape of S. */
module Sorting {
  import opened TypeModel

  /** A comparator template, as a predicate on two types. */
  type Cmp = (Ty, Ty) -> bool

  /** Merge two lists by comparing their heads, taking the left head unless
      the right head must come strictly before it. */
  function Merge(a: seq<Ty>, b: seq<Ty>, cmp: Cmp): (r: seq<Ty>)
    ensures multiset(r) == multiset(a) + multiset(b)
    decreases |a| + |b|
  {
    if a == [] then b
    else if b == [] then a
    else if cmp(b[0], a[0]) then
      assert b == [b[0]] + b[1..];
      [b[0]] + Merge(a, b[1..], cmp)
    else
      assert a == [a[0]] + a[1..];
      [a[0]] + Merge(a[1..], b, cmp)
  }

  /** Split at the midpoint, sort both halves, merge them. Lists of length
      0 and 1 are returned as they are. */
  function SortArgs(xs: seq<Ty>, cmp: Cmp): (r: seq<Ty>)
    ensures multiset(r) == multiset(xs)
    ensures |xs| <= 1 ==> r == xs
    decreases |xs|
  {
    if |xs| <= 1 then xs
    else
      var mid := |xs| / 2;
      assert xs[..mid] + xs[mid..] == xs;
      Merge(SortArgs(xs[..mid], cmp), SortArgs(xs[mid..], cmp), cmp)
  }

  /** merge_sort<S, Cmp>: the same shape holding a rearrangement of the same
      arguments, duplicates included. */
  function MergeSort(s: Ty, cmp: Cmp): (r: Ty)
    requires s.Comp?
    ensures r.Comp? && r.shape == s.shape && |r.args| == |s.args|
    ensures multiset(r.args) == multiset(s.args)
  {
    Comp(s.shape, SortArgs(s.args, cmp))
  }

  /** No element must come strictly before an element to its left. */
  predicate Sorted(xs: seq<Ty>, cmp: Cmp) {
    forall i, j | 0 <= i < j < |xs| :: !cmp(xs[j], xs[i])
  }

  /** `cmp` is a strict weak order on the elements of `dom`: irreflexive,
      transitive, and whenever a comes before c, every b comes after a or
      before c. The only assumption made about a comparator. */
  predicate StrictWeakOrderOn(cmp: Cmp, dom: seq<Ty>) {
    && (forall a | a in dom :: !cmp(a, a))
    && (forall a, b, c | a in dom && b in dom && c in dom :: cmp(a, b) && cmp(b, c) ==> cmp(a, c))
    && (forall a, b, c | a in dom && b in dom && c in dom :: cmp(a, c) ==> cmp(a, b) || cmp(b, c))
  }

  predicate Within(xs: seq<Ty>, dom: seq<Ty>) {
    forall y | y in xs :: y in dom
  }

  /** Neither must come before the other. */
  predicate Equivalent(cmp: Cmp, x: Ty, y: Ty) {
    !cmp(x, y) && !cmp(y, x)
  }

  /** The elements of xs equivalent to x, in their order in xs. A sort is
      stable when it leaves this subsequence unchanged for every x. */
  function Peers(xs: seq<Ty>, x: Ty, cmp: Cmp): (r: seq<Ty>)
    ensures |r| <= |xs|
    ensures forall y | y in r :: y in xs && Equivalent(cmp, y, x)
  {
    if xs == [] then []
    else (if Equivalent(cmp, xs[0], x) then [xs[0]] else []) + Peers(xs[1..], x, cmp)
  }

  // ---------------------------------------------------------------------
  // Permutation and sortedness

  lemma SortedCons(h: Ty, rest: seq<Ty>, cmp: Cmp)
    requires Sorted(rest, cmp)
    requires forall y | y in rest :: !cmp(y, h)
    ensures Sorted([h] + rest, cmp)
  {
    var xs := [h] + rest;
    forall i, j | 0 <= i < j < |xs| ensures !cmp(xs[j], xs[i]) {
      assert xs[j] == rest[j - 1];
      if i > 0 {
        assert xs[i] == rest[i - 1];
      }
    }
  }

  lemma {:induction false} MergeSorted(a: seq<Ty>, b: seq<Ty>, cmp: Cmp, dom: seq<Ty>)
    requires StrictWeakOrderOn(cmp, dom) && Within(a, dom) && Within(b, dom)
    requires Sorted(a, cmp) && Sorted(b, cmp)
    ensures Sorted(Merge(a, b, cmp), cmp)
    decreases |a| + |b|
  {
    if a != [] && b != [] {
      var r := Merge(a, b, cmp);
      if cmp(b[0], a[0]) {
        var rest := Merge(a, b[1..], cmp);
        MergeSorted(a, b[1..], cmp, dom);
        forall y | y in rest ensures !cmp(y, b[0]) {
          assert y in multiset(rest);
          if y in a {
            var i :| 0 <= i < |a| && a[i] == y;
            assert i > 0 ==> !cmp(a[i], a[0]);
          } else {
            assert y in b[1..];
            var j :| 0 <= j < |b[1..]| && b[1..][j] == y;
            assert b[j + 1] == y;
          }
        }
        SortedCons(b[0], rest, cmp);
      } else {
        var rest := Merge(a[1..], b, cmp);
        MergeSorted(a[1..], b, cmp, dom);
        forall y | y in rest ensures !cmp(y, a[0]) {
          assert y in multiset(rest);
          if y in b {
            var j :| 0 <= j < |b| && b[j] == y;
            assert j > 0 ==> !cmp(b[j], b[0]);
          } else {
            assert y in a[1..];
            var i :| 0 <= i < |a[1..]| && a[1..][i] == y;
            assert a[i + 1] == y;
          }
        }
        SortedCons(a[0], rest, cmp);
      }
    }
  }

  lemma {:induction false} SortArgsSorted(xs: seq<Ty>, cmp: Cmp, dom: seq<Ty>)
    requires StrictWeakOrderOn(cmp, dom) && Within(xs, dom)
    ensures Sorted(SortArgs(xs, cmp), cmp)
    decreases |xs|
  {
    if |xs| > 1 {
      var mid := |xs| / 2;
      var left, right := xs[..mid], xs[mid..];
      SortArgsSorted(left, cmp, dom);
      SortArgsSorted(right, cmp, dom);
      SortedWithin(left, cmp, dom);
      SortedWithin(right, cmp, dom);
      MergeSorted(SortArgs(left, cmp), SortArgs(right, cmp), cmp, dom);
    }
  }

  /** Sorting only rearranges: its result draws on the same elements. */
  lemma SortedWithin(xs: seq<Ty>, cmp: Cmp, dom: seq<Ty>)
    requires Within(xs, dom)
    ensures Within(SortArgs(xs, cmp), dom)
  {
    forall y | y in SortArgs(xs, cmp) ensures y in dom {
      assert y in multiset(SortArgs(xs, cmp));
    }
  }

  /** Under a strict weak order on the arguments, the result is sorted. */
  lemma MergeSortSorted(s: Ty, cmp: Cmp)
    requires s.Comp? && StrictWeakOrderOn(cmp, s.args)
    ensures Sorted(MergeSort(s, cmp).args, cmp)
  {
    SortArgsSorted(s.args, cmp, s.args);
  }

  // ---------------------------------------------------------------------
  // Already-sorted input

  lemma {:induction false} MergeOfSorted(a: seq<Ty>, b: seq<Ty>, cmp: Cmp)
    requires Sorted(a + b, cmp)
    ensures Merge(a, b, cmp) == a + b
    decreases |a|
  {
    if a == [] {
      assert a + b == b;
    } else if b == [] {
      assert a + b == a;
    } else {
      assert (a + b)[0] == a[0] && (a + b)[|a|] == b[0];
      assert (a + b)[1..] == a[1..] + b;
      SortedSlices(a + b, 1, cmp);
      MergeOfSorted(a[1..], b, cmp);
    }
  }

  lemma SortedSlices(xs: seq<Ty>, m: nat, cmp: Cmp)
    requires Sorted(xs, cmp) && m <= |xs|
    ensures Sorted(xs[..m], cmp) && Sorted(xs[m..], cmp)
  {
    forall i, j | 0 <= i < j < |xs| - m ensures !cmp(xs[m..][j], xs[m..][i]) {
      assert xs[m..][j] == xs[m + j] && xs[m..][i] == xs[m + i];
    }
  }

  lemma {:induction false} SortArgsOfSorted(xs: seq<Ty>, cmp: Cmp)
    requires Sorted(xs, cmp)
    ensures SortArgs(xs, cmp) == xs
    decreases |xs|
  {
    if |xs| > 1 {
      var mid := |xs| / 2;
      SortedSlices(xs, mid, cmp);
      SortArgsOfSorted(xs[..mid], cmp);
      SortArgsOfSorted(xs[mid..], cmp);
      assert xs[..mid] + xs[mid..] == xs;
      MergeOfSorted(xs[..mid], xs[mid..], cmp);
    }
  }

  /** Input that is already sorted comes back unchanged, whatever the
      comparator. */
  lemma MergeSortOfSorted(s: Ty, cmp: Cmp)
    requires s.Comp? && Sorted(s.args, cmp)
    ensures MergeSort(s, cmp) == s
  {
    SortArgsOfSorted(s.args, cmp);
  }

  /** Sorting a sorted result again changes nothing. */
  lemma MergeSortIdempotent(s: Ty, cmp: Cmp)
    requires s.Comp? && StrictWeakOrderOn(cmp, s.args)
    ensures MergeSort(MergeSort(s, cmp), cmp) == MergeSort(s, cmp)
  {
    MergeSortSorted(s, cmp);
    MergeSortOfSorted(MergeSort(s, cmp), cmp);
  }

  // ---------------------------------------------------------------------
  // Uniqueness of the result

  /** Any two distinct elements are ordered one way or the other: the
      comparator leaves no ties between different types. */
  predicate Decisive(cmp: Cmp, dom: seq<Ty>) {
    forall a, b | a in dom && b in dom :: a != b ==> cmp(a, b) || cmp(b, a)
  }

  lemma SortedHeadsEqual(xs: seq<Ty>, ys: seq<Ty>, cmp: Cmp, dom: seq<Ty>)
    requires Decisive(cmp, dom) && Within(xs, dom)
    requires Sorted(xs, cmp) && Sorted(ys, cmp)
    requires xs != [] && ys != [] && ys[0] in xs && xs[0] in ys
    ensures xs[0] == ys[0]
  {
  }

  lemma {:induction false} SortedPermutationsEqual(xs: seq<Ty>, ys: seq<Ty>, cmp: Cmp, dom: seq<Ty>)
    requires Decisive(cmp, dom) && Within(xs, dom)
    requires Sorted(xs, cmp) && Sorted(ys, cmp) && multiset(xs) == multiset(ys)
    ensures xs == ys
  {
    assert |xs| == |ys| by {
      assert |multiset(xs)| == |multiset(ys)|;
    }
    if xs != [] {
      assert ys[0] in multiset(xs) && xs[0] in multiset(ys);
      SortedHeadsEqual(xs, ys, cmp, dom);
      assert xs == [xs[0]] + xs[1..] && ys == [ys[0]] + ys[1..];
      assert multiset(xs[1..]) == multiset(xs) - multiset{xs[0]};
      assert multiset(ys[1..]) == multiset(ys) - multiset{ys[0]};
      SortedSlices(xs, 1, cmp);
      SortedSlices(ys, 1, cmp);
      SortedPermutationsEqual(xs[1..], ys[1..], cmp, dom);
    }
  }

  /** When the comparator is a strict weak order that leaves no ties, the
      result is the one sorted rearrangement of the arguments. */
  lemma MergeSortIsTheSortedPermutation(s: Ty, t: Ty, cmp: Cmp)
    requires s.Comp? && StrictWeakOrderOn(cmp, s.args) && Decisive(cmp, s.args)
    requires t.Comp? && t.shape == s.shape && Sorted(t.args, cmp) && multiset(t.args) == multiset(s.args)
    ensures MergeSort(s, cmp) == t
  {
    MergeSortSorted(s, cmp);
    var r := MergeSort(s, cmp).args;
    forall y | y in r ensures y in s.args {
      assert y in multiset(r);
    }
    SortedPermutationsEqual(r, t.args, cmp, s.args);
  }

  /** A list in which no element must come before its left neighbour is
      sorted, under a strict weak order. */
  lemma {:induction false} SortedFromNeighbours(xs: seq<Ty>, cmp: Cmp, dom: seq<Ty>)
    requires StrictWeakOrderOn(cmp, dom) && Within(xs, dom)
    requires forall i | 0 <= i < |xs| - 1 :: !cmp(xs[i + 1], xs[i])
    ensures Sorted(xs, cmp)
  {
    if |xs| > 1 {
      var tail := xs[1..];
      forall i | 0 <= i < |tail| - 1 ensures !cmp(tail[i + 1], tail[i]) {
        assert tail[i + 1] == xs[i + 2] && tail[i] == xs[i + 1];
      }
      SortedFromNeighbours(tail, cmp, dom);
      forall i, j | 0 <= i < j < |xs| ensures !cmp(xs[j], xs[i]) {
        if i > 0 {
          assert xs[j] == tail[j - 1] && xs[i] == tail[i - 1];
        } else if j > 1 {
          assert xs[j] == tail[j - 1] && xs[1] == tail[0];
          assert !cmp(xs[j], xs[1]) && !cmp(xs[1], xs[0]);
        }
      }
    }
  }

  // ---------------------------------------------------------------------
  // Stability

  lemma {:induction false} PeersAppend(a: seq<Ty>, b: seq<Ty>, x: Ty, cmp: Cmp)
    ensures Peers(a + b, x, cmp) == Peers(a, x, cmp) + Peers(b, x, cmp)
  {
    if a == [] {
      assert a + b == b;
    } else {
      assert (a + b)[0] == a[0] && (a + b)[1..] == a[1..] + b;
      PeersAppend(a[1..], b, x, cmp);
    }
  }

  lemma {:induction false} NoPeers(a: seq<Ty>, x: Ty, cmp: Cmp)
    requires forall y | y in a :: !Equivalent(cmp, y, x)
    ensures Peers(a, x, cmp) == []
  {
    if a != [] {
      NoPeers(a[1..], x, cmp);
    }
  }

  lemma {:induction false} MergeKeepsPeers(a: seq<Ty>, b: seq<Ty>, x: Ty, cmp: Cmp, dom: seq<Ty>)
    requires StrictWeakOrderOn(cmp, dom) && Within(a, dom) && Within(b, dom) && x in dom
    requires Sorted(a, cmp) && Sorted(b, cmp)
    ensures Peers(Merge(a, b, cmp), x, cmp) == Peers(a, x, cmp) + Peers(b, x, cmp)
    decreases |a| + |b|
  {
    if a == [] {
    } else if b == [] {
      NoPeers(b, x, cmp);
    } else if cmp(b[0], a[0]) {
      MergeKeepsPeers(a, b[1..], x, cmp, dom);
      if Equivalent(cmp, b[0], x) {
        // b[0] comes strictly before every element of a, so none of them
        // is equivalent to x.
        forall y | y in a ensures !Equivalent(cmp, y, x) {
          var i :| 0 <= i < |a| && a[i] == y;
          assert i > 0 ==> !cmp(a[i], a[0]);
          assert cmp(b[0], y);
        }
        NoPeers(a, x, cmp);
      }
    } else {
      MergeKeepsPeers(a[1..], b, x, cmp, dom);
    }
  }

  lemma {:induction false} SortArgsKeepsPeers(xs: seq<Ty>, x: Ty, cmp: Cmp, dom: seq<Ty>)
    requires StrictWeakOrderOn(cmp, dom) && Within(xs, dom) && x in dom
    ensures Peers(SortArgs(xs, cmp), x, cmp) == Peers(xs, x, cmp)
    decreases |xs|
  {
    if |xs| > 1 {
      var mid := |xs| / 2;
      var left, right := xs[..mid], xs[mid..];
      SortArgsKeepsPeers(left, x, cmp, dom);
      SortArgsKeepsPeers(right, x, cmp, dom);
      SortArgsSorted(left, cmp, dom);
      SortArgsSorted(right, cmp, dom);
      SortedWithin(left, cmp, dom);
      SortedWithin(right, cmp, dom);
      MergeKeepsPeers(SortArgs(left, cmp), SortArgs(right, cmp), x, cmp, dom);
      assert left + right == xs;
      PeersAppend(left, right, x, cmp);
    }
  }

  /** Stability: for every argument x, the arguments equivalent to x keep
      their relative order. */
  lemma MergeSortStable(s: Ty, x: Ty, cmp: Cmp)
    requires s.Comp? && StrictWeakOrderOn(cmp, s.args) && x in s.args
    ensures Peers(MergeSort(s, cmp).args, x, cmp) == Peers(s.args, x, cmp)
  {
    SortArgsKeepsPeers(s.args, x, cmp, s.args);
  }

  /** Sorting keeps std::pair's two-argument form. */
  lemma MergeSortKeepsWellFormed(s: Ty, cmp: Cmp)
    requires s.Comp? && WellFormed(s)
    ensures WellFormed(MergeSort(s, cmp))
  {
    var r := MergeSort(s, cmp);
    forall i | 0 <= i < |r.args| ensures WellFormed(r.args[i]) {
      assert r.args[i] in multiset(s.args);
    }
  }
}
