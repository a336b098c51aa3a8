/** tl::flatten<S>: splice every nested container, of any shape and any
    arity, into one list of leaves in left-to-right depth-first order, held
    in the outermost shape of S. */
module Flattening {
  import opened TypeModel
  import opened Flip

  /** The leaves one argument contributes: itself when it is a leaf, the
      flattened arguments of it when it is a container (nothing for an
      empty one). */
  function Spread(x: Ty): (r: seq<Ty>)
    ensures IsFlat(r)
    ensures x.Leaf? ==> r == [x]
  {
    match x
    case Leaf(_) => [x]
    case Comp(_, a) => FlatArgs(a)
  }

  /** Each argument, left to right, spliced in place. */
  function FlatArgs(xs: seq<Ty>): (r: seq<Ty>)
    ensures IsFlat(r)
  {
    if xs == [] then [] else Spread(xs[0]) + FlatArgs(xs[1..])
  }

  /** flatten<S>: the leaves of S in the shape of S itself. */
  function Flatten(s: Ty): (r: Ty)
    requires s.Comp?
    ensures r.Comp? && r.shape == s.shape && IsFlat(r.args)
  {
    Comp(s.shape, FlatArgs(s.args))
  }

  /** Reference definition of the leaves of a type, as a fold over the tree:
      the concatenation of the leaves of every argument. */
  function Concat(ss: seq<seq<Ty>>): seq<Ty> {
    if ss == [] then [] else ss[0] + Concat(ss[1..])
  }

  function Fringe(t: Ty): seq<Ty> {
    match t
    case Leaf(_) => [t]
    case Comp(_, args) => Concat(seq(|args|, i requires 0 <= i < |args| => Fringe(args[i])))
  }

  /** Flattening yields exactly the fringe of the type: its leaves, in
      depth-first left-to-right order. */
  lemma {:induction false} FlatArgsIsFringe(xs: seq<Ty>)
    ensures FlatArgs(xs) == Concat(seq(|xs|, i requires 0 <= i < |xs| => Fringe(xs[i])))
  {
    var fs := seq(|xs|, i requires 0 <= i < |xs| => Fringe(xs[i]));
    if xs != [] {
      FlatArgsIsFringe(xs[1..]);
      assert fs[1..] == seq(|xs[1..]|, i requires 0 <= i < |xs[1..]| => Fringe(xs[1..][i]));
      match xs[0]
      case Leaf(_) =>
      case Comp(_, a) =>
        FlatArgsIsFringe(a);
    }
  }

  lemma FlattenIsFringe(s: Ty)
    requires s.Comp?
    ensures Flatten(s).args == Fringe(s)
  {
    FlatArgsIsFringe(s.args);
  }

  /** Splicing distributes over concatenation of argument lists. */
  lemma {:induction false} FlatArgsAppend(a: seq<Ty>, b: seq<Ty>)
    ensures FlatArgs(a + b) == FlatArgs(a) + FlatArgs(b)
  {
    if a == [] {
      assert a + b == b;
    } else {
      assert (a + b)[0] == a[0] && (a + b)[1..] == a[1..] + b;
      FlatArgsAppend(a[1..], b);
    }
  }

  /** A list of leaves only is its own flattening. */
  lemma {:induction false} FlatArgsOfFlat(xs: seq<Ty>)
    requires IsFlat(xs)
    ensures FlatArgs(xs) == xs
  {
    if xs != [] {
      FlatArgsOfFlat(xs[1..]);
    }
  }

  lemma FlattenOfFlat(s: Ty)
    requires s.Comp? && IsFlat(s.args)
    ensures Flatten(s) == s
  {
    FlatArgsOfFlat(s.args);
  }

  /** Flattening twice is flattening once. */
  lemma FlattenIdempotent(s: Ty)
    requires s.Comp?
    ensures Flatten(Flatten(s)) == Flatten(s)
  {
    FlatArgsOfFlat(Flatten(s).args);
  }

  /** Containers that hold no leaf at any depth vanish entirely. */
  lemma {:induction false} FlatArgsOfEmptyNest(xs: seq<Ty>)
    requires NoLeaves(xs)
    ensures FlatArgs(xs) == []
  {
    if xs != [] {
      FlatArgsOfEmptyNest(xs[0].args);
      FlatArgsOfEmptyNest(xs[1..]);
    }
  }

  lemma FlattenEmptyNest(s: Ty)
    requires s.Comp? && NoLeaves(s.args)
    ensures Flatten(s) == Comp(s.shape, [])
  {
    FlatArgsOfEmptyNest(s.args);
  }

  /** A leaf appears in the flattening exactly when it occurs somewhere in
      the nested structure; no container survives. */
  lemma {:induction false} FlatArgsMembers(x: Ty, xs: seq<Ty>)
    ensures x in FlatArgs(xs) <==> x.Leaf? && OccursIn(x, xs)
  {
    if xs == [] {
      assert !OccursIn(x, xs);
    } else {
      var h := xs[0];
      FlatArgsMembers(x, xs[1..]);
      if h.Comp? {
        FlatArgsMembers(x, h.args);
      }
      assert OccursIn(x, xs) <==> (h == x || (h.Comp? && OccursIn(x, h.args))) || OccursIn(x, xs[1..]) by {
        if OccursIn(x, xs) {
          var i :| 0 <= i < |xs| && (xs[i] == x || (xs[i].Comp? && OccursIn(x, xs[i].args)));
          if i > 0 {
            assert xs[1..][i - 1] == xs[i];
          }
        }
        if OccursIn(x, xs[1..]) {
          var i :| 0 <= i < |xs[1..]| && (xs[1..][i] == x || (xs[1..][i].Comp? && OccursIn(x, xs[1..][i].args)));
          assert xs[i + 1] == xs[1..][i];
        }
      }
    }
  }

  lemma FlattenMembers(x: Ty, s: Ty)
    requires s.Comp?
    ensures x in Flatten(s).args <==> x.Leaf? && OccursIn(x, s.args)
  {
    FlatArgsMembers(x, s.args);
  }

  /** Flipping only moves leaves: the flattened type holds the same leaves,
      each as often, before and after flip_all. */
  lemma {:induction false} FlipAllKeepsLeaves(t: Ty)
    ensures multiset(Spread(FlipAll(t))) == multiset(Spread(t))
  {
    match t
    case Leaf(_) =>
    case Comp(k, args) =>
      var r := FlipAll(t).args;
      if IsLeafPair(args) {
        FlatArgsOfFlat([args[1], args[0]]);
        FlatArgsOfFlat(args);
      } else {
        forall i | 0 <= i < |args| ensures multiset(Spread(r[i])) == multiset(Spread(args[i])) {
          FlipAllKeepsLeaves(args[i]);
        }
        SameLeavesPointwise(r, args);
      }
  }

  lemma {:induction false} SameLeavesPointwise(ys: seq<Ty>, xs: seq<Ty>)
    requires |ys| == |xs|
    requires forall i | 0 <= i < |xs| :: multiset(Spread(ys[i])) == multiset(Spread(xs[i]))
    ensures multiset(FlatArgs(ys)) == multiset(FlatArgs(xs))
  {
    if xs != [] {
      SameLeavesPointwise(ys[1..], xs[1..]);
    }
  }

  lemma FlattenAfterFlip(s: Ty)
    requires s.Comp?
    ensures multiset(Flatten(FlipAll(s)).args) == multiset(Flatten(s).args)
  {
    FlipAllKeepsLeaves(s);
  }
}
