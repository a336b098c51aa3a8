/** Types as the type-list algorithms see them.
    A type is either a leaf, which no container template decomposes, or a
    container template (its shape) applied to an ordered list of type
    arguments. Type identity is datatype equality: two compound types are
    the same type exactly when their shapes and all their arguments agree. */
module TypeModel {

  /** The class templates over type arguments that the tests instantiate:
      ct::tl::TypeList, std::tuple and std::pair. */
  datatype Shape = TypeList | Tuple | Pair

  /** The range of a C++ `int`, the type of IntWrapper's parameter. */
  newtype Int32 = x: int | -0x8000_0000 <= x < 0x8000_0000

  /** Types that are not an instantiation of a type-parameter pack:
      the scalars the tests use, and IntWrapper<N>, whose parameter is a
      value, not a type. */
  datatype LeafId = Int | Double | Float | Char | Long | Void | IntWrapper(n: Int32)

  datatype Ty = Leaf(id: LeafId) | Comp(shape: Shape, args: seq<Ty>)

  /** An argument list of exactly two leaves: the pairs flip_all swaps. */
  predicate IsLeafPair(args: seq<Ty>) {
    |args| == 2 && args[0].Leaf? && args[1].Leaf?
  }

  /** No container, at any depth, holds exactly two leaves: nothing that
      flip_all would swap. */
  predicate NoLeafPair(t: Ty) {
    match t
    case Leaf(_) => true
    case Comp(_, args) => !IsLeafPair(args) && forall i | 0 <= i < |args| :: NoLeafPair(args[i])
  }

  /** Every element of the list is a leaf. */
  predicate IsFlat(xs: seq<Ty>) {
    forall i | 0 <= i < |xs| :: xs[i].Leaf?
  }

  /** A type C++ can actually form: std::pair takes exactly two arguments,
      at every level of nesting. */
  predicate WellFormed(t: Ty) {
    match t
    case Leaf(_) => true
    case Comp(k, args) =>
      && (k == Pair ==> |args| == 2)
      && forall i | 0 <= i < |args| :: WellFormed(args[i])
  }

  /** Leaf `x` occurs somewhere inside the list, at any depth. */
  predicate OccursIn(x: Ty, xs: seq<Ty>) {
    exists i | 0 <= i < |xs| :: xs[i] == x || (xs[i].Comp? && OccursIn(x, xs[i].args))
  }

  /** The list, at any depth, holds no leaf at all (only empty containers). */
  predicate NoLeaves(xs: seq<Ty>) {
    forall i | 0 <= i < |xs| :: xs[i].Comp? && NoLeaves(xs[i].args)
  }

  /** The nesting structure of a type with every leaf erased: what flip_all
      must leave alone. */
  datatype Frame = Hole | Node(shape: Shape, kids: seq<Frame>)

  function Skeleton(t: Ty): Frame {
    match t
    case Leaf(_) => Hole
    case Comp(k, args) => Node(k, seq(|args|, i requires 0 <= i < |args| => Skeleton(args[i])))
  }
}
