/** The test suite's own helpers: IntWrapper lists and the two comparators
    it sorts them with. */
module Comparators {
  import opened TypeModel
  import opened Sorting

  /** make_int_list<List, Ns...>: the shape List applied to IntWrapper<N>
      for each N, in order. */
  function MakeIntList(k: Shape, ns: seq<Int32>): (r: Ty)
    ensures r.Comp? && r.shape == k && AllIntWrappers(r.args)
    ensures |r.args| == |ns| && forall i | 0 <= i < |ns| :: Value(r.args[i]) == ns[i] as int
  {
    Comp(k, seq(|ns|, i requires 0 <= i < |ns| => Leaf(IntWrapper(ns[i]))))
  }

  predicate IsIntWrapper(t: Ty) {
    t.Leaf? && t.id.IntWrapper?
  }

  predicate AllIntWrappers(xs: seq<Ty>) {
    forall i | 0 <= i < |xs| :: IsIntWrapper(xs[i])
  }

  /** The N of IntWrapper<N>. */
  function Value(t: Ty): int
    requires IsIntWrapper(t)
  {
    t.id.n as int
  }

  /** C++ `a % 10`: the remainder of |a| carrying the sign of a, since C++
      division truncates toward zero. It differs from Dafny's `a % 10` for
      negative a that are not multiples of 10. */
  function CppRem10(a: int): (r: int)
    ensures -10 < r < 10
    ensures a >= 0 ==> r >= 0
    ensures a <= 0 ==> r <= 0
    ensures (a - r) % 10 == 0
  {
    if a >= 0 then a % 10 else -((-a) % 10)
  }

  /** LessCmp<IntWrapper<L>, IntWrapper<R>>: L < R. C++ leaves LessCmp
      undefined on other types (an incomplete type); here it is false. */
  function LessCmp(lhs: Ty, rhs: Ty): (r: bool)
    ensures r ==> IsIntWrapper(lhs) && IsIntWrapper(rhs) && Value(lhs) < Value(rhs)
  {
    match (lhs, rhs)
    case (Leaf(IntWrapper(l)), Leaf(IntWrapper(rr))) => l < rr
    case _ => false
  }

  /** The last decimal digit of N as C++ computes N % 10 (negative for
      negative N). */
  function LastDigit(t: Ty): int
    requires IsIntWrapper(t)
  {
    CppRem10(Value(t))
  }

  /** Mod10GreaterCmp<IntWrapper<L>, IntWrapper<R>>: L % 10 > R % 10, so
      larger last digits come first; equal last digits are equivalent. */
  function Mod10GreaterCmp(lhs: Ty, rhs: Ty): (r: bool)
    ensures r ==> IsIntWrapper(lhs) && IsIntWrapper(rhs) && LastDigit(lhs) > LastDigit(rhs)
  {
    match (lhs, rhs)
    case (Leaf(IntWrapper(l)), Leaf(IntWrapper(rr))) => CppRem10(l as int) > CppRem10(rr as int)
    case _ => false
  }

  /** On IntWrapper lists LessCmp is a strict weak order (in fact a strict
      total order on the values). */
  lemma LessCmpIsStrictWeakOrder(xs: seq<Ty>)
    requires AllIntWrappers(xs)
    ensures StrictWeakOrderOn(LessCmp, xs)
  {
  }

  /** LessCmp separates any two different IntWrappers. */
  lemma LessCmpIsDecisive(xs: seq<Ty>)
    requires AllIntWrappers(xs)
    ensures Decisive(LessCmp, xs)
  {
  }

  lemma Mod10GreaterCmpIsStrictWeakOrder(xs: seq<Ty>)
    requires AllIntWrappers(xs)
    ensures StrictWeakOrderOn(Mod10GreaterCmp, xs)
  {
  }

  /** Mod10GreaterCmp ties every two IntWrappers with the same last digit, so
      it separates the elements of a list only when different elements have
      different last digits. */
  lemma Mod10GreaterCmpIsDecisiveOn(xs: seq<Ty>)
    requires AllIntWrappers(xs)
    requires forall i, j | 0 <= i < |xs| && 0 <= j < |xs| && xs[i] != xs[j] :: LastDigit(xs[i]) != LastDigit(xs[j])
    ensures Decisive(Mod10GreaterCmp, xs)
  {
  }

  /** merge_sort<S, LessCmp> orders IntWrapper arguments by ascending N. */
  lemma SortByLessIsAscending(s: Ty)
    requires s.Comp? && AllIntWrappers(s.args)
    ensures AllIntWrappers(MergeSort(s, LessCmp).args)
    ensures forall i, j | 0 <= i < j < |s.args| ::
      Value(MergeSort(s, LessCmp).args[i]) <= Value(MergeSort(s, LessCmp).args[j])
  {
    LessCmpIsStrictWeakOrder(s.args);
    MergeSortSorted(s, LessCmp);
    WrappersKept(s, LessCmp);
  }

  /** merge_sort<S, Mod10GreaterCmp> orders IntWrapper arguments by
      descending last digit. */
  lemma SortByMod10IsDescendingLastDigit(s: Ty)
    requires s.Comp? && AllIntWrappers(s.args)
    ensures AllIntWrappers(MergeSort(s, Mod10GreaterCmp).args)
    ensures forall i, j | 0 <= i < j < |s.args| ::
      LastDigit(MergeSort(s, Mod10GreaterCmp).args[i]) >= LastDigit(MergeSort(s, Mod10GreaterCmp).args[j])
  {
    Mod10GreaterCmpIsStrictWeakOrder(s.args);
    MergeSortSorted(s, Mod10GreaterCmp);
    WrappersKept(s, Mod10GreaterCmp);
  }

  /** With LessCmp, the result is the one rearrangement of the arguments whose
      values never decrease from one element to the next. */
  lemma SortByLessIsUnique(s: Ty, t: Ty)
    requires s.Comp? && t.Comp? && t.shape == s.shape && AllIntWrappers(s.args)
    requires multiset(t.args) == multiset(s.args)
    requires forall i | 0 <= i < |t.args| - 1 :: !LessCmp(t.args[i + 1], t.args[i])
    ensures MergeSort(s, LessCmp) == t
  {
    assert AllIntWrappers(t.args) by {
      forall i | 0 <= i < |t.args| ensures IsIntWrapper(t.args[i]) {
        assert t.args[i] in multiset(s.args);
      }
    }
    LessCmpIsStrictWeakOrder(t.args);
    SortedFromNeighbours(t.args, LessCmp, t.args);
    LessCmpIsStrictWeakOrder(s.args);
    LessCmpIsDecisive(s.args);
    MergeSortIsTheSortedPermutation(s, t, LessCmp);
  }

  /** Along a list in which each element either repeats the one before it
      or has a smaller last digit, elements that differ have different last
      digits, the earlier one the larger. */
  lemma {:induction false} Mod10ChainSeparates(t: seq<Ty>)
    requires AllIntWrappers(t)
    requires forall i | 0 <= i < |t| - 1 :: t[i] == t[i + 1] || Mod10GreaterCmp(t[i], t[i + 1])
    ensures forall i, j | 0 <= i < j < |t| :: t[i] == t[j] || LastDigit(t[i]) > LastDigit(t[j])
  {
    if |t| > 1 {
      Mod10ChainSeparates(t[1..]);
      forall i, j | 0 <= i < j < |t| ensures t[i] == t[j] || LastDigit(t[i]) > LastDigit(t[j]) {
        if i > 0 {
          assert t[i] == t[1..][i - 1] && t[j] == t[1..][j - 1];
        } else if j > 1 {
          assert t[1] == t[1..][0] && t[j] == t[1..][j - 1];
        }
      }
    }
  }

  /** With Mod10GreaterCmp the expected result is pinned down when it lists
      equal elements together and otherwise strictly decreasing last digits:
      merge_sort then produces exactly that rearrangement. */
  lemma SortByMod10IsUnique(s: Ty, t: Ty)
    requires s.Comp? && t.Comp? && t.shape == s.shape && AllIntWrappers(s.args)
    requires multiset(t.args) == multiset(s.args)
    requires forall i | 0 <= i < |t.args| - 1 :: t.args[i] == t.args[i + 1] || Mod10GreaterCmp(t.args[i], t.args[i + 1])
    ensures MergeSort(s, Mod10GreaterCmp) == t
  {
    var xs, ys := s.args, t.args;
    assert AllIntWrappers(ys) by {
      forall i | 0 <= i < |ys| ensures IsIntWrapper(ys[i]) {
        assert ys[i] in multiset(xs);
      }
    }
    Mod10ChainSeparates(ys);
    forall i, j | 0 <= i < |xs| && 0 <= j < |xs| && xs[i] != xs[j] ensures LastDigit(xs[i]) != LastDigit(xs[j]) {
      assert xs[i] in multiset(ys) && xs[j] in multiset(ys);
      var a :| 0 <= a < |ys| && ys[a] == xs[i];
      var b :| 0 <= b < |ys| && ys[b] == xs[j];
      assert a < b || b < a;
    }
    Mod10GreaterCmpIsStrictWeakOrder(ys);
    SortedFromNeighbours(ys, Mod10GreaterCmp, ys);
    Mod10GreaterCmpIsStrictWeakOrder(xs);
    Mod10GreaterCmpIsDecisiveOn(xs);
    MergeSortIsTheSortedPermutation(s, t, Mod10GreaterCmp);
  }

  lemma WrappersKept(s: Ty, cmp: Cmp)
    requires s.Comp? && AllIntWrappers(s.args)
    ensures AllIntWrappers(MergeSort(s, cmp).args)
  {
    var r := MergeSort(s, cmp).args;
    forall i | 0 <= i < |r| ensures IsIntWrapper(r[i]) {
      assert r[i] in multiset(s.args);
    }
  }
}
