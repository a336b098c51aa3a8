/** tl::flip_all<S>: swap the two slots of every innermost pair of leaves,
    at any depth, and leave every other level of the structure alone. */
module Flip {
  import opened TypeModel

  /** An argument list of exactly two leaves is swapped; any other list
      (another arity, or two slots of which one is compound) keeps its
      length and order and has each element flipped in turn. Leaves are
      returned unchanged. */
  function FlipAll(t: Ty): (r: Ty)
    ensures r.Leaf? <==> t.Leaf?
    ensures t.Leaf? ==> r == t
    ensures t.Comp? ==> r.shape == t.shape && |r.args| == |t.args|
  {
    match t
    case Leaf(_) => t
    case Comp(k, args) =>
      if IsLeafPair(args) then Comp(k, [args[1], args[0]])
      else Comp(k, seq(|args|, i requires 0 <= i < |args| => FlipAll(args[i])))
  }

  /** Flipping twice gives back the original type, whatever the nesting. */
  lemma {:induction false} FlipAllInvolution(t: Ty)
    ensures FlipAll(FlipAll(t)) == t
  {
    match t
    case Leaf(_) =>
    case Comp(k, args) =>
      if !IsLeafPair(args) {
        var once := FlipAll(t).args;
        assert !IsLeafPair(once) by {
          if |args| == 2 {
            assert once[0] == FlipAll(args[0]) && once[1] == FlipAll(args[1]);
          }
        }
        var twice := FlipAll(FlipAll(t)).args;
        assert |twice| == |args|;
        forall i | 0 <= i < |args| ensures twice[i] == args[i] {
          FlipAllInvolution(args[i]);
        }
      }
  }

  /** The nesting structure — the shape, arity and position of every
      container at every level — is the same after flipping; only leaves
      move. */
  lemma {:induction false} FlipAllKeepsSkeleton(t: Ty)
    ensures Skeleton(FlipAll(t)) == Skeleton(t)
  {
    match t
    case Leaf(_) =>
    case Comp(k, args) =>
      var r := FlipAll(t);
      if !IsLeafPair(args) {
        forall i | 0 <= i < |args| ensures Skeleton(r.args[i]) == Skeleton(args[i]) {
          FlipAllKeepsSkeleton(args[i]);
        }
      }
      assert Skeleton(r).kids == Skeleton(t).kids;
  }

  /** The rule itself: a container of exactly two leaves, of any shape, has
      its two leaves swapped. */
  lemma FlipAllSwapsLeafPair(k: Shape, a: Ty, b: Ty)
    requires a.Leaf? && b.Leaf?
    ensures FlipAll(Comp(k, [a, b])) == Comp(k, [b, a])
  {
  }

  /** A list whose every element is a container of two leaves (a list of
      type pairs) keeps its length, its order and the shape of each element;
      each element has its two leaves swapped. */
  lemma FlipAllSwapsEachPair(t: Ty)
    requires t.Comp? && forall i | 0 <= i < |t.args| :: t.args[i].Comp? && IsLeafPair(t.args[i].args)
    ensures FlipAll(t).shape == t.shape && |FlipAll(t).args| == |t.args|
    ensures forall i | 0 <= i < |t.args| ::
      var p := t.args[i];
      p.Comp? && |p.args| == 2 && FlipAll(t).args[i] == Comp(p.shape, [p.args[1], p.args[0]])
  {
  }

  /** Two slots of which one is a container are never swapped: each slot is
      flipped where it stands. */
  lemma FlipAllKeepsCompoundSlots(t: Ty)
    requires t.Comp? && |t.args| == 2 && (t.args[0].Comp? || t.args[1].Comp?)
    ensures FlipAll(t) == Comp(t.shape, [FlipAll(t.args[0]), FlipAll(t.args[1])])
  {
  }

  /** On a level that is not a pair of leaves, every argument stays at its
      position: a leaf argument is unchanged and a compound one is flipped
      where it stands. */
  lemma FlipAllKeepsPositions(t: Ty)
    requires t.Comp? && !IsLeafPair(t.args)
    ensures forall i | 0 <= i < |t.args| :: FlipAll(t).args[i] == FlipAll(t.args[i])
    ensures forall i | 0 <= i < |t.args| && t.args[i].Leaf? :: FlipAll(t).args[i] == t.args[i]
  {
  }

  /** A type in which no container holds exactly two leaves is a fixed
      point: flip_all moves nothing else. */
  lemma {:induction false} FlipAllFixpoint(t: Ty)
    requires NoLeafPair(t)
    ensures FlipAll(t) == t
  {
    match t
    case Leaf(_) =>
    case Comp(k, args) =>
      var r := FlipAll(t).args;
      forall i | 0 <= i < |args| ensures r[i] == args[i] {
        FlipAllFixpoint(args[i]);
      }
  }

  /** An empty container of any shape is its own flip. */
  lemma FlipAllEmpty(k: Shape)
    ensures FlipAll(Comp(k, [])) == Comp(k, [])
  {
  }

  /** Flipping keeps std::pair's two-argument form, so a well-formed type
      stays well-formed. */
  lemma {:induction false} FlipAllKeepsWellFormed(t: Ty)
    requires WellFormed(t)
    ensures WellFormed(FlipAll(t))
  {
    match t
    case Leaf(_) =>
    case Comp(k, args) =>
      if !IsLeafPair(args) {
        forall i | 0 <= i < |args| ensures WellFormed(FlipAll(t).args[i]) {
          FlipAllKeepsWellFormed(args[i]);
        }
      }
  }
}
