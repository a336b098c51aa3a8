/** tl::contains<T, S>: whether T is one of the immediate arguments of the
    container instantiation S. */
module Membership {
  import opened TypeModel

  /** Left-to-right scan of an argument list for an element equal to `t`. */
  function ContainsIn(t: Ty, xs: seq<Ty>): (r: bool)
    ensures r <==> exists i | 0 <= i < |xs| :: xs[i] == t
  {
    if xs == [] then false
    else xs[0] == t || ContainsIn(t, xs[1..])
  }

  /** contains<T, S> for a compound S of any shape; nested containers are
      not searched. */
  function Contains(t: Ty, s: Ty): (r: bool)
    requires s.Comp?
    ensures r <==> t in s.args
    ensures s.args == [] ==> !r
  {
    ContainsIn(t, s.args)
  }

  /** The answer depends only on the argument list, not on the shape. */
  lemma ContainsShapeIndependent(t: Ty, k1: Shape, k2: Shape, xs: seq<Ty>)
    ensures Contains(t, Comp(k1, xs)) == Contains(t, Comp(k2, xs))
  {
  }

  /** Adding a duplicate of an element that is already there, anywhere in the
      list, does not change the answer. */
  lemma {:induction false} ContainsIgnoresDuplicates(t: Ty, xs: seq<Ty>, j: nat, y: Ty)
    requires y in xs && j <= |xs|
    ensures ContainsIn(t, xs[..j] + [y] + xs[j..]) == ContainsIn(t, xs)
  {
    var ys := xs[..j] + [y] + xs[j..];
    if ContainsIn(t, ys) {
      var i :| 0 <= i < |ys| && ys[i] == t;
      if i < j {
        assert xs[i] == t;
      } else if i > j {
        assert xs[i - 1] == t;
      } else {
        var m :| 0 <= m < |xs| && xs[m] == y;
        assert xs[m] == t;
      }
    } else {
      forall i | 0 <= i < |xs| ensures xs[i] != t {
        if i < j {
          assert ys[i] == xs[i];
        } else {
          assert ys[i + 1] == xs[i];
        }
      }
    }
  }
}
