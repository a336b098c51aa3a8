/** tl::index_of_unique<T, S>: the zero-based position of the one occurrence
    of T among the arguments of S. More than one occurrence, or none, is a
    build failure in C++; here it is the precondition. */
module Position {
  import opened TypeModel
  import opened Membership

  /** How many arguments of the list are exactly `t`. */
  function Occurrences(t: Ty, xs: seq<Ty>): nat {
    multiset(xs)[t]
  }

  /** Left-to-right scan for the first element equal to `t`. */
  function IndexIn(t: Ty, xs: seq<Ty>): (r: nat)
    requires t in xs
    ensures r < |xs| && xs[r] == t
    ensures forall j | 0 <= j < r :: xs[j] != t
  {
    if xs[0] == t then 0 else 1 + IndexIn(t, xs[1..])
  }

  /** Two different positions holding `t` make it occur at least twice. */
  lemma {:induction false} TwoPositionsTwoOccurrences(t: Ty, xs: seq<Ty>, i: nat, j: nat)
    requires i < j < |xs| && xs[i] == t && xs[j] == t
    ensures Occurrences(t, xs) >= 2
  {
    assert xs == xs[..i] + [xs[i]] + xs[i + 1..j] + [xs[j]] + xs[j + 1..];
  }

  /** index_of_unique<T, S>: the position of T, which is the only position
      holding T. */
  function IndexOfUnique(t: Ty, s: Ty): (r: nat)
    requires s.Comp? && Occurrences(t, s.args) == 1
    ensures r < |s.args| && s.args[r] == t
    ensures forall j | 0 <= j < |s.args| && s.args[j] == t :: j == r
  {
    assert t in multiset(s.args);
    var r := IndexIn(t, s.args);
    assert forall j | 0 <= j < |s.args| && s.args[j] == t :: j == r by {
      forall j | 0 <= j < |s.args| && s.args[j] == t ensures j == r {
        if r < j {
          TwoPositionsTwoOccurrences(t, s.args, r, j);
        }
      }
    }
    r
  }

  /** A uniquely occurring type is contained, and contains<T, S> is false on
      every argument before its position. */
  lemma IndexOfUniqueAgreesWithContains(t: Ty, s: Ty)
    requires s.Comp? && Occurrences(t, s.args) == 1
    ensures Contains(t, s)
    ensures !Contains(t, Comp(s.shape, s.args[..IndexOfUnique(t, s)]))
    ensures !Contains(t, Comp(s.shape, s.args[IndexOfUnique(t, s) + 1..]))
  {
    var r := IndexOfUnique(t, s);
    var after := s.args[r + 1..];
    forall m | 0 <= m < |after| ensures after[m] != t {
      assert after[m] == s.args[r + 1 + m];
    }
  }
}
