# Type-list algorithms, modelled in Dafny

The C++ library `ct::tl` computes with types at compile time. Its test suite,
`test/typelist-test.cpp`, exercises five algorithms over class templates
whose arguments are types (`TypeList<...>`, `std::tuple<...>`, `std::pair<L, R>`):

- `contains<T, S>`: is `T` an immediate argument of `S`?
- `index_of_unique<T, S>`: the zero-based position of the single occurrence of `T`.
- `flip_all<S>`: swap every innermost two-leaf container, at any depth.
- `flatten<S>`: every leaf, depth first and left to right, in the outermost shape of `S`.
- `merge_sort<S, Cmp>`: a stable merge sort of the arguments, driven by a comparator template.

The suite also defines its own helpers: `IntWrapper<N>`, `make_int_list`, `LessCmp` and
`Mod10GreaterCmp`.

The model represents a type as a tree:

- `TypeModel.Ty` is either a `Leaf` or a `Comp(shape, args)`.
- The shape is `TypeList`, `Tuple` or `Pair`.
- Leaves are the built-in types used by the tests, plus `IntWrapper(n)`, whose parameter is a
  C++ `int` (`TypeModel.Int32`).
- Two types are the same type (`std::is_same_v`) exactly when the two trees are equal.

Every algorithm is a pure recursive function; in C++ each one is a compile-time type
computation. The properties are lemmas about those functions. Each `STATIC_REQUIRE` of the
suite is stated by a lemma of module `TypelistTests`.

The model follows the library's stated rules:

- `flip_all` swaps a container of exactly two leaves and otherwise flips each argument in place.
- `flatten` splices containers of any shape.
- `merge_sort` is a stable top-down merge sort that takes the left head unless
  `cmp(right, left)`.

The suite agrees with these rules but does not fix all of them.

- The suite flips levels that hold only containers: the empty lists, the outer lists of
  `l11` and `l21`, and the outer pair of `l31`. No assertion flips a level that holds a leaf
  but is not a pair of two leaves, such as `TypeList<int, double, float>`.
- No assertion orders distinct equivalent elements: each last digit in `l9` belongs to a
  single value.

So three statements give the library's rules rather than behaviour the suite tests:

- the leaf clause of `Flip.FlipAllKeepsPositions`;
- `Flip.FlipAllFixpoint` on types with such levels;
- `Sorting.MergeSortStable`.

Modules:

- `TypeModel` (`type_model.dfy`): types, and the shape predicates `IsLeafPair`, `IsFlat`,
  `WellFormed` and `OccursIn`.
- `Membership` (`membership.dfy`): `contains`.
- `Position` (`position.dfy`): `index_of_unique`.
- `Flip` (`flip.dfy`): `flip_all`.
- `Flattening` (`flatten.dfy`): `flatten`, and a reference definition of the fringe of a type.
- `Sorting` (`merge_sort.dfy`): `merge_sort`, plus sortedness, strict weak orders and stability.
- `Comparators` (`comparators.dfy`): `IntWrapper` lists, `LessCmp` and `Mod10GreaterCmp`.
- `TypelistTests` (`typelist_tests.dfy`): the assertions of the suite.

The expected results of the sort tests are not computed by unfolding the sort. Each one is
established in two steps:

- The expected list is ordered under the comparator, and the input reaches it by a listed
  series of exchanges.
- A uniqueness theorem then says that merge sort must produce exactly that list.

## Model

| member | source | states |
|---|---|---|
| Membership.ContainsIn | test/typelist-test.cpp:19-38 | the scan is true exactly when some position of the list holds `t` |
| Membership.Contains | test/typelist-test.cpp:18-39 | `contains<T, S>` holds iff `T` is one of the immediate arguments of `S`, for any shape; it is false for an empty `S` |
| Membership.ContainsShapeIndependent | test/typelist-test.cpp:19-38 | the answer is the same for `TypeList` and `Tuple` holding the same arguments |
| Membership.ContainsIgnoresDuplicates | test/typelist-test.cpp:23 | inserting another copy of an existing argument anywhere does not change the answer |
| Position.IndexIn | test/typelist-test.cpp:77-85 | the first position holding `t`: in range, holds `t`, and no earlier position does |
| Position.TwoPositionsTwoOccurrences | test/typelist-test.cpp:76-86 | two distinct positions holding `t` mean `t` occurs at least twice, i.e. is not unique |
| Position.IndexOfUnique | test/typelist-test.cpp:76-86 | for a `T` occurring exactly once, the result is in range, holds `T`, and is the only position holding `T` |
| Position.IndexOfUniqueAgreesWithContains | test/typelist-test.cpp:76-86 | a unique `T` is contained in `S`, and not contained in the arguments before or after its index |
| Flip.FlipAll | test/typelist-test.cpp:41-74 | leaves are kept; a container keeps its shape and arity (where arguments go is stated by the lemmas below) |
| Flip.FlipAllInvolution | test/typelist-test.cpp:49-50 | `flip_all<flip_all<S>>` is `S` for every type |
| Flip.FlipAllKeepsSkeleton | test/typelist-test.cpp:53-67 | the shape, arity and position of every nested container are unchanged; only leaves move |
| Flip.FlipAllSwapsEachPair | test/typelist-test.cpp:45-50 | on a list of two-leaf containers, each element keeps its place and shape and has its two leaves swapped |
| Flip.FlipAllKeepsCompoundSlots | test/typelist-test.cpp:69-73 | a two-slot container with a compound slot is not swapped; each slot is flipped in place |
| Flip.FlipAllKeepsPositions | test/typelist-test.cpp:53-67 | on a level that is not a pair of two leaves, every argument stays at its position: leaves unchanged, containers flipped in place |
| Flip.FlipAllSwapsLeafPair | test/typelist-test.cpp:44-73 | a container of exactly two leaves becomes the same container with the two leaves swapped |
| Flip.FlipAllFixpoint | test/typelist-test.cpp:41-74 | a type in which no container holds exactly two leaves is its own flip |
| Flip.FlipAllEmpty | test/typelist-test.cpp:42-43 | an empty container of any shape is its own flip |
| Flip.FlipAllKeepsWellFormed | test/typelist-test.cpp:69-73 | flipping keeps every `std::pair` at two arguments |
| Flattening.Spread | test/typelist-test.cpp:88-109 | what one argument contributes is leaves only, and a leaf contributes itself |
| Flattening.FlatArgs | test/typelist-test.cpp:88-109 | splicing a list of arguments yields leaves only |
| Flattening.Flatten | test/typelist-test.cpp:88-109 | `flatten<S>` has the outermost shape of `S` and holds leaves only |
| Flattening.FlatArgsIsFringe | test/typelist-test.cpp:88-109 | splicing equals the concatenation of the depth-first fringes of the arguments (reference definition) |
| Flattening.FlattenIsFringe | test/typelist-test.cpp:96-98 | `flatten<S>` lists exactly the leaves of `S` in depth-first left-to-right order |
| Flattening.FlatArgsAppend | test/typelist-test.cpp:93-95 | splicing distributes over concatenation of argument lists |
| Flattening.FlatArgsOfFlat | test/typelist-test.cpp:89 | a list of leaves splices to itself |
| Flattening.FlattenOfFlat | test/typelist-test.cpp:89 | an already flat type is its own flattening |
| Flattening.FlattenIdempotent | test/typelist-test.cpp:88-109 | flattening twice equals flattening once |
| Flattening.FlatArgsOfEmptyNest | test/typelist-test.cpp:100 | containers holding no leaf at any depth splice to nothing |
| Flattening.FlattenEmptyNest | test/typelist-test.cpp:99-100 | a type whose nested containers hold no leaf flattens to the empty container of its shape |
| Flattening.FlatArgsMembers | test/typelist-test.cpp:88-109 | a type is in the splice iff it is a leaf occurring at some depth of the list |
| Flattening.FlattenMembers | test/typelist-test.cpp:88-109 | a type is an argument of `flatten<S>` iff it is a leaf occurring somewhere in `S`; no container survives |
| Flattening.FlipAllKeepsLeaves | test/typelist-test.cpp:41-74 | the leaves of a type, with their counts, are the same after `flip_all` |
| Flattening.SameLeavesPointwise | test/typelist-test.cpp:88-109 | lists whose arguments have pointwise the same leaves splice to the same leaves |
| Flattening.FlattenAfterFlip | test/typelist-test.cpp:41-109 | `flatten<flip_all<S>>` is a rearrangement of `flatten<S>` |
| Sorting.Merge | test/typelist-test.cpp:133-177 | the merged list holds the elements of both inputs, each as often |
| Sorting.SortArgs | test/typelist-test.cpp:137-141 | the result is a rearrangement of the input; lists of length 0 or 1 are returned unchanged |
| Sorting.MergeSort | test/typelist-test.cpp:133-177 | `merge_sort<S, Cmp>` keeps the shape and the length of `S` and rearranges its arguments, keeping duplicates |
| Sorting.Peers | test/typelist-test.cpp:173-176 | the elements equivalent to `x`, drawn from the list and no longer than it |
| Sorting.SortedCons | test/typelist-test.cpp:133-177 | a head that nothing in a sorted tail must precede gives a sorted list |
| Sorting.MergeSorted | test/typelist-test.cpp:133-177 | merging two sorted lists under a strict weak order gives a sorted list |
| Sorting.SortArgsSorted | test/typelist-test.cpp:133-177 | the sorted arguments are sorted under a strict weak order |
| Sorting.SortedWithin | test/typelist-test.cpp:133-177 | sorting draws only on the input's elements |
| Sorting.MergeSortSorted | test/typelist-test.cpp:133-177 | under a strict weak order on the arguments, `merge_sort` returns a sorted list |
| Sorting.MergeOfSorted | test/typelist-test.cpp:145 | merging the two halves of a sorted list is their concatenation |
| Sorting.SortedSlices | test/typelist-test.cpp:145 | the two halves of a sorted list are sorted |
| Sorting.SortArgsOfSorted | test/typelist-test.cpp:145 | sorted arguments come back unchanged |
| Sorting.MergeSortOfSorted | test/typelist-test.cpp:145-175 | already sorted input is a fixed point, for any comparator |
| Sorting.MergeSortIdempotent | test/typelist-test.cpp:145-175 | sorting a sorted result again changes nothing |
| Sorting.SortedHeadsEqual | test/typelist-test.cpp:133-177 | two sorted lists over a tie-free order that contain each other's heads have the same head |
| Sorting.SortedPermutationsEqual | test/typelist-test.cpp:133-177 | two sorted rearrangements of the same elements are equal when the order leaves no ties |
| Sorting.MergeSortIsTheSortedPermutation | test/typelist-test.cpp:143-176 | under a tie-free strict weak order, the sorted rearrangement of the input is exactly what `merge_sort` returns |
| Sorting.SortedFromNeighbours | test/typelist-test.cpp:143-176 | neighbours in order imply the whole list is in order |
| Sorting.PeersAppend | test/typelist-test.cpp:173-176 | equivalent elements of a concatenation are those of each part, in order |
| Sorting.NoPeers | test/typelist-test.cpp:173-176 | a list with nothing equivalent to `x` has no peers of `x` |
| Sorting.MergeKeepsPeers | test/typelist-test.cpp:173-176 | merging keeps equivalent elements in their input order, left list first |
| Sorting.SortArgsKeepsPeers | test/typelist-test.cpp:173-176 | sorting keeps the relative order of equivalent elements |
| Sorting.MergeSortStable | test/typelist-test.cpp:173-176 | `merge_sort` is stable: the elements equivalent to any argument keep their relative order |
| Sorting.MergeSortKeepsWellFormed | test/typelist-test.cpp:133-177 | sorting keeps every `std::pair` at two arguments |
| Comparators.MakeIntList | test/typelist-test.cpp:114-115 | `make_int_list<List, Ns...>` has shape `List` and one `IntWrapper` per `N`, in order, carrying that `N` |
| Comparators.CppRem10 | test/typelist-test.cpp:130 | C++ `a % 10`: below 10 in magnitude, with the sign of `a`, and congruent to `a` modulo 10 |
| Comparators.LessCmp | test/typelist-test.cpp:117-123 | true only for two IntWrappers with the left value smaller |
| Comparators.Mod10GreaterCmp | test/typelist-test.cpp:125-131 | true only for two IntWrappers whose left last digit (C++ `%`) is greater |
| Comparators.LessCmpIsStrictWeakOrder | test/typelist-test.cpp:120-123 | `LessCmp` is a strict weak order on IntWrappers |
| Comparators.LessCmpIsDecisive | test/typelist-test.cpp:120-123 | `LessCmp` separates any two different IntWrappers |
| Comparators.Mod10GreaterCmpIsStrictWeakOrder | test/typelist-test.cpp:128-131 | `Mod10GreaterCmp` is a strict weak order on IntWrappers (ties: equal last digits) |
| Comparators.Mod10GreaterCmpIsDecisiveOn | test/typelist-test.cpp:128-131 | `Mod10GreaterCmp` has no ties on a list whose different elements have different last digits |
| Comparators.SortByLessIsAscending | test/typelist-test.cpp:143-171 | sorting IntWrappers with `LessCmp` gives non-decreasing values |
| Comparators.SortByMod10IsDescendingLastDigit | test/typelist-test.cpp:173-176 | sorting IntWrappers with `Mod10GreaterCmp` gives non-increasing last digits |
| Comparators.SortByLessIsUnique | test/typelist-test.cpp:143-171 | a rearrangement of IntWrappers whose neighbours are in `LessCmp` order is exactly what `merge_sort` returns |
| Comparators.Mod10ChainSeparates | test/typelist-test.cpp:174 | along a list that repeats or strictly lowers the last digit at each step, different elements have different last digits |
| Comparators.SortByMod10IsUnique | test/typelist-test.cpp:173-176 | a rearrangement listing equal elements together with strictly decreasing last digits is exactly what `merge_sort` with `Mod10GreaterCmp` returns |
| Comparators.WrappersKept | test/typelist-test.cpp:137-176 | sorting an IntWrapper list yields IntWrappers only |
| TypelistTests.ContainsTests | test/typelist-test.cpp:18-39 | every `contains` assertion of the suite |
| TypelistTests.ContainsIsShallow | test/typelist-test.cpp:18-39 | a type nested one level down is not contained |
| TypelistTests.FlipAllTests | test/typelist-test.cpp:41-74 | every `flip_all` assertion of the suite |
| TypelistTests.IndexOfUniqueTests | test/typelist-test.cpp:76-86 | every `index_of_unique` assertion of the suite |
| TypelistTests.FlattenTypeListTests | test/typelist-test.cpp:89-108 | the `flatten` assertions with a `TypeList` outside: lines 89-100, and the mixed one at line 108 (lines 102-107 are the next row's) |
| TypelistTests.FlattenTupleTests | test/typelist-test.cpp:102-107 | the `flatten` assertions with a `Tuple` outside |
| TypelistTests.MergeSortEmpty | test/typelist-test.cpp:134-135 | sorting empty containers of either shape |
| TypelistTests.MakeIntListTests | test/typelist-test.cpp:137-174 | every list of the `merge_sort` test case, `l1` to `l9_sorted`, is the `make_int_list` of its values |
| TypelistTests.MergeSortShortOrEqual | test/typelist-test.cpp:137-141 | one element, and two equal elements, are returned unchanged |
| TypelistTests.SwapsRearrange | test/typelist-test.cpp:143-176 | a series of exchanges keeps every element, each as often |
| TypelistTests.MergeSortL3 | test/typelist-test.cpp:143-146 | `l3` and `l3_sorted` both sort to `l3_sorted` |
| TypelistTests.MergeSortL4 | test/typelist-test.cpp:148-151 | `l4` and `l4_sorted` both sort to `l4_sorted` |
| TypelistTests.MergeSortL5 | test/typelist-test.cpp:153-156 | `l5` and `l5_sorted` both sort to `l5_sorted` |
| TypelistTests.MergeSortL6 | test/typelist-test.cpp:158-161 | `l6` and `l6_sorted` both sort to `l6_sorted` |
| TypelistTests.MergeSortL7 | test/typelist-test.cpp:163-166 | `l7` and `l7_sorted` both sort to `l7_sorted` |
| TypelistTests.MergeSortL8 | test/typelist-test.cpp:168-171 | `l8` and `l8_sorted` both sort to `l8_sorted` |
| TypelistTests.MergeSortL9 | test/typelist-test.cpp:173-176 | `l9` and `l9_sorted` both sort to `l9_sorted` under `Mod10GreaterCmp` |

## Left out

- The header `typelist.h` is not part of this model. The algorithms follow the library's
  stated rules above. The source citations point at the assertions of the suite that those
  rules must agree with.
- Catch2 (`TEST_CASE`, `STATIC_REQUIRE`) and the `#include`s are test plumbing.
- C++ template mechanics are not modelled: template-template parameters, partial
  specialisation, `std::is_same_v`, and how `std::tuple` and `std::pair` are declared. A shape
  is a tag, and type identity is tree equality.
- Position.IndexOfUnique: a `T` that occurs zero times or more than once is a compile-time
  error in C++. Here that case is excluded by the precondition; no error value is modelled.
- Comparators.LessCmp and Comparators.Mod10GreaterCmp: C++ defines them only for two
  IntWrappers, so any other instantiation does not compile. The model returns false there,
  and every sorting property about them requires IntWrapper arguments.
- Sorting.MergeSortSorted and Sorting.MergeSortStable: these say nothing about a comparator
  that is not a strict weak order on the arguments.
- Sorting.SortArgs: the suite does not pin down the split point; the model splits at the
  midpoint `|xs| / 2`. For a strict weak order, stability makes the result independent of the
  split point, so no assertion of the suite can tell.
- Flattening.Flatten: it does not promise a well-formed result. Flattening into a `Pair`
  with other than two leaves would be ill-formed C++, and the suite never does it.
- `IntWrapper`'s parameter is a 32-bit `int` (`TypeModel.Int32`). Nothing in the modelled
  operations does arithmetic that could overflow, so no wrap-around is modelled.
