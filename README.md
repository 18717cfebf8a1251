# Sheepdog in Dafny

Sheepdog adds Clojure-style higher-order methods to the Cocoa collections
through two Objective-C categories, `NSArray (Sheepdog)` and
`NSSet (Sheepdog)`. None of the methods mutates its receiver: each returns a
new array, set or dictionary, or a scalar. This project models every method
the two categories declare as a pure Dafny function and proves what the
header's documentation promises about it.

- `optional.dfy` — `Option<T>`: `None` stands for `nil`; a block that may
  return `nil` is a function `T -> Option<U>`.
- `ordering.dfy` — what `compare:` and the reduce block are assumed to obey.
  `le(a, b)` stands for `[a compare:b] != NSOrderedDescending`. Sorting and
  the extrema require it to be a total preorder. Set `reduce:block:` is
  modelled for commutative and associative blocks only.
- `sequences.dfy` — shared vocabulary: `Flatten`, order-preserving
  subsequence (`IsSubseq`), `NoDups`, `Elems`.
- `array_ops.dfy` — module `SheepdogArray`, the `NSArray` category on `seq<T>`.
- `set_ops.dfy` — module `SheepdogSet`, the `NSSet` category on `set<T>`.
  Where an answer depends on the set's iteration order (`max`, `min`,
  `reduce:block:`), the model fixes one unspecified enumeration
  (`Enumerate`). It then proves what holds for every enumeration.
- `scenarios.dfy` — concrete calls with their expected answers.

The model follows the declarations and doc comments of `Sheepdog/Sheepdog.h`;
the implementation file is not modelled. Where the header leaves a choice
open, the definition takes the straightforward scan:
- `distinct` keeps the first occurrence of each value.
- `max` and `min` keep the running extremum and replace it only on a strict
  improvement.
- `sort` is a stable insertion sort: elements that `compare:` ties keep their
  input order.

Some lemmas are consequences of these choices rather than of the header:
- `Distinct`'s subsequence clause, `DistinctFromConcat`, `DistinctSnoc` and
  `DistinctPrefix` follow from keeping first occurrences.
- `SortOfSorted` and `SortIdempotent` follow from the stable insertion sort.
  A sort that ordered tied elements differently could break both.

## Model

| member | source | states |
|---|---|---|
| SheepdogArray.Filter | Sheepdog/Sheepdog.h:29-33 | a value is in the result exactly when it is in the array and passes the block; the result is never longer than the array |
| SheepdogArray.FilterIsSubsequence | Sheepdog/Sheepdog.h:29-33 | the result is an order-preserving subsequence of the array holding every passing element with its full multiplicity and no failing one |
| SheepdogArray.FilterConcat | Sheepdog/Sheepdog.h:29-33 | filtering a concatenation is the concatenation of the filtered parts |
| SheepdogArray.Map | Sheepdog/Sheepdog.h:42-47 | the result is never longer than the array, because results that are nil are left out |
| SheepdogArray.MapIsFilterThenValues | Sheepdog/Sheepdog.h:42-47 | map equals "drop the elements whose block result is nil, then take the results of the rest in order"; its length is the number of non-nil results |
| SheepdogArray.MapTotal | Sheepdog/Sheepdog.h:42-47 | when the block never returns nil, the result has the array's length and index i holds the block's result on element i |
| SheepdogArray.MapConcat | Sheepdog/Sheepdog.h:42-47 | map keeps input order: the results for a concatenation are those of each part, in order |
| SheepdogArray.MapMembership | Sheepdog/Sheepdog.h:42-47 | a value is in the result exactly when the block returns it for some element |
| SheepdogArray.Reduce | Sheepdog/Sheepdog.h:35-40 | the seed on an empty array; otherwise the reduction of all but the last element, combined by the block with the last element |
| SheepdogArray.ReduceIsNested | Sheepdog/Sheepdog.h:35-40 | reduce is the left-nested combination block(...block(block(val, a[0]), a[1])..., a[n-1]); on an empty array it returns the seed |
| SheepdogArray.ReduceConcat | Sheepdog/Sheepdog.h:35-40 | reducing a concatenation reduces the second part, seeded with the reduction of the first |
| SheepdogArray.ReducePermutation | Sheepdog/Sheepdog.h:35-40 | when the order of combining does not matter, reducing any permutation of the array gives the same value |
| SheepdogArray.Any | Sheepdog/Sheepdog.h:85-89 | YES exactly when some element passes the block; NO on an empty array |
| SheepdogArray.Every | Sheepdog/Sheepdog.h:91-95 | YES exactly when every element passes the block; YES on an empty array |
| SheepdogArray.AnyIffFilterNonEmpty | Sheepdog/Sheepdog.h:85-89 | any holds exactly when filter with the same block keeps something |
| SheepdogArray.EveryIffFilterKeepsAll | Sheepdog/Sheepdog.h:91-95 | every holds exactly when filter with the same block keeps the whole array |
| SheepdogArray.EveryIsNotAnyNot | Sheepdog/Sheepdog.h:85-95 | every is the negation of any with the negated block |
| SheepdogArray.Insert | Sheepdog/Sheepdog.h:49-52 | inserting into a sorted array yields a sorted array with exactly one more occurrence of the value |
| SheepdogArray.Sort | Sheepdog/Sheepdog.h:49-52 | the result is a permutation of the array (same multiset) ordered by compare: |
| SheepdogArray.SortOfSorted | Sheepdog/Sheepdog.h:49-52 | sorting an already sorted array returns it unchanged |
| SheepdogArray.SortIdempotent | Sheepdog/Sheepdog.h:49-52 | sorting twice equals sorting once |
| SheepdogArray.SortedPermutationsEqual | Sheepdog/Sheepdog.h:49-52 | when compare: never ties distinct values, two sorted permutations of each other are equal |
| SheepdogArray.SortUnique | Sheepdog/Sheepdog.h:49-52 | when compare: never ties distinct values, sort returns the only sorted permutation of the array |
| SheepdogArray.Reverse | Sheepdog/Sheepdog.h:54-57 | the result has the array's length and index i holds element \|a\|-1-i |
| SheepdogArray.ReverseInvolution | Sheepdog/Sheepdog.h:54-57 | reversing twice gives back the original array |
| SheepdogArray.ReversePermutes | Sheepdog/Sheepdog.h:54-57 | reversing keeps every element with its multiplicity |
| SheepdogArray.ReverseConcat | Sheepdog/Sheepdog.h:54-57 | the reverse of a concatenation is the reversed second part followed by the reversed first |
| SheepdogArray.DistinctFrom | Sheepdog/Sheepdog.h:59-62 | the scan emits no value twice; it emits exactly the array's values not already seen, as a subsequence of the array |
| SheepdogArray.Distinct | Sheepdog/Sheepdog.h:59-62 | the result has no duplicates, holds exactly the set of values of the array, and keeps the array's order |
| SheepdogArray.DistinctFromConcat | Sheepdog/Sheepdog.h:59-62 | the unique values of a concatenation are those of the first part, then the new values of the second |
| SheepdogArray.DistinctSnoc | Sheepdog/Sheepdog.h:59-62 | first occurrences are kept: appending a value already present leaves the result unchanged, appending a new value adds it at the end |
| SheepdogArray.DistinctPrefix | Sheepdog/Sheepdog.h:59-62 | the unique values of a prefix of the array are a prefix of its unique values |
| SheepdogArray.DistinctFromOfNoDups | Sheepdog/Sheepdog.h:59-62 | an array without duplicates, none of whose values has been seen, is returned unchanged |
| SheepdogArray.DistinctIdempotent | Sheepdog/Sheepdog.h:59-62 | distinct applied twice equals distinct applied once |
| SheepdogArray.Partition | Sheepdog/Sheepdog.h:64-69 | for n > 0 the chunks concatenate back to the array, every chunk but the last has exactly n elements, the last has 1 to n, and the empty array gives no chunks |
| SheepdogArray.PartitionCount | Sheepdog/Sheepdog.h:64-69 | the number of chunks is \|a\|/n rounded up, and the last chunk holds the \|a\| - (chunks-1)*n left-over elements |
| SheepdogArray.PartitionBy | Sheepdog/Sheepdog.h:71-76 | the chunks concatenate back to the array, are non-empty, share one key within a chunk, and adjacent chunks have different keys |
| SheepdogArray.PartitionByRunsAreMaximal | Sheepdog/Sheepdog.h:71-76 | a new chunk starts exactly where the key changes: the last key of a chunk differs from the first key of the next |
| SheepdogArray.GroupBy | Sheepdog/Sheepdog.h:78-83 | the keys are exactly the block's results on the elements; each group is the order-preserving subsequence of elements with that key; no group is empty |
| SheepdogArray.GroupByMembership | Sheepdog/Sheepdog.h:78-83 | every element is in the group of its own key, in no other group, and with its full multiplicity |
| SheepdogArray.MaxFrom | Sheepdog/Sheepdog.h:97-101 | the scan returns the start value or an element, not less than the start value or any element |
| SheepdogArray.Max | Sheepdog/Sheepdog.h:97-101 | nil exactly on an empty array; otherwise an element of the array not less than any element |
| SheepdogArray.MinFrom | Sheepdog/Sheepdog.h:103-107 | the scan returns the start value or an element, not greater than the start value or any element |
| SheepdogArray.Min | Sheepdog/Sheepdog.h:103-107 | nil exactly on an empty array; otherwise an element of the array not greater than any element |
| SheepdogArray.MaxIsLastOfSort | Sheepdog/Sheepdog.h:49-52 | max compares equal to the last element of sort, and is equal to it when compare: never ties distinct values |
| SheepdogArray.MinIsFirstOfSort | Sheepdog/Sheepdog.h:49-52 | min compares equal to the first element of sort, and is equal to it when compare: never ties distinct values |
| SheepdogSet.Enumerate | Sheepdog/Sheepdog.h:113-119 | the iteration order of a set lists each member exactly once |
| SheepdogSet.Filter | Sheepdog/Sheepdog.h:120-124 | the result is a subset of the receiver; every member in it passes the block, and every member that passes is in it |
| SheepdogSet.FilterAgreesWithArray | Sheepdog/Sheepdog.h:120-124 | set filter is the set of members that pass the block, whatever the iteration order; it is a subset of the receiver |
| SheepdogSet.Map | Sheepdog/Sheepdog.h:133-138 | every non-nil block result on a member is in the result, and every value in it is the block's result on some member |
| SheepdogSet.MapAgreesWithArray | Sheepdog/Sheepdog.h:133-138 | set map is the set of non-nil block results, whatever the iteration order |
| SheepdogSet.MapCardinality | Sheepdog/Sheepdog.h:133-138 | set map has no more values than there are members with a non-nil result |
| SheepdogSet.MapAddMember | Sheepdog/Sheepdog.h:133-138 | a new member adds at most one value to map, and exactly one member to those with a non-nil result when its own result is non-nil |
| SheepdogSet.MapCollapses | Sheepdog/Sheepdog.h:133-138 | two members with the same non-nil result give one value, so the bound above can be strict |
| SheepdogSet.Reduce | Sheepdog/Sheepdog.h:126-131 | for a commutative and associative block, the fold of the members in the set's iteration order; the seed on an empty set, and block(seed, x) on the one-member set {x} |
| SheepdogSet.ReduceRemove | Sheepdog/Sheepdog.h:126-131 | any member may be folded in last: reduce is the reduction of the other members combined with that member |
| SheepdogSet.ReduceOrderIndependent | Sheepdog/Sheepdog.h:126-131 | for a commutative and associative block, folding the members in any order gives the set reduce |
| SheepdogSet.Any | Sheepdog/Sheepdog.h:140-144 | one passing member makes the answer YES; an empty set answers NO |
| SheepdogSet.Every | Sheepdog/Sheepdog.h:146-150 | one failing member makes the answer NO; an empty set answers YES |
| SheepdogSet.AnyEveryAgreeWithArray | Sheepdog/Sheepdog.h:140-150 | set any and every answer as the array ones do over any iteration order of the set |
| SheepdogSet.AnyEveryByFilter | Sheepdog/Sheepdog.h:140-150 | set any holds exactly when filter keeps something; set every holds exactly when filter keeps the whole set |
| SheepdogSet.Max | Sheepdog/Sheepdog.h:152-156 | nil exactly on an empty set; otherwise a member not less than any member |
| SheepdogSet.Min | Sheepdog/Sheepdog.h:158-162 | nil exactly on an empty set; otherwise a member not greater than any member |
| Scenarios.FilterPositives | Sheepdog/Sheepdog.h:29-33 | filtering [1, -1, -3, 4] by "positive" gives [1, 4] |
| Scenarios.ReduceSum | Sheepdog/Sheepdog.h:35-40 | reducing [1, -1, -2, 4] with + from 0 gives 2 |
| Scenarios.MapIncrement | Sheepdog/Sheepdog.h:42-47 | mapping [1, -1] by "add one" gives [2, 0] |
| Scenarios.PartitionPairs | Sheepdog/Sheepdog.h:64-69 | partitioning [1, 2, 3, 4] by 2 gives [[1, 2], [3, 4]]; partitioning [1, 2, 3, 4, 5] gives [[1, 2], [3, 4], [5]] |
| Scenarios.PartitionByLength | Sheepdog/Sheepdog.h:71-76 | partitioning bob cat mat sing song by length gives [bob cat mat] and [sing song] |
| Scenarios.AnyEveryNegative | Sheepdog/Sheepdog.h:85-95 | [1, -1, 2, 4] has a negative element but not only negative elements |

## Left out

- The Objective-C runtime: category injection, dynamic `id` typing, blocks as
  closures, and `NSDictionary` hashing. Elements are a generic `T`, blocks are
  Dafny functions, and the dictionary is a Dafny `map`.
- `compare:` itself. It is an ordering parameter `le` that callers must supply
  as a total preorder; the message dispatch is not modelled.
- Object identity versus `isEqual:`. `distinct`, sets, `partitionBy:` and
  `groupBy:` use Dafny value equality in place of `isEqual:`/`hash`.
- Exceptions raised inside blocks. They are not modelled, and every block is
  total.
- The failure of `partition:` on n <= 0. It is the precondition `n > 0`.
- Memory management, autorelease and threads. The library has no state and no
  concurrency.
- `find:` and the typed numeric extrema (`imax`, `fmax`, `imin`, `fmin`). They
  are not declared in `Sheepdog/Sheepdog.h` and are not part of this model.
- SheepdogArray.Sort: its contract does not state stability, because the
  header does not say how ties under `compare:` are ordered. The definition is
  a stable insertion sort, and `SortOfSorted` and `SortIdempotent` hold for it.
- SheepdogArray.Max: does not state which of several equivalent maxima is
  returned. The header does not say.
- SheepdogArray.Min: does not state which of several equivalent minima is
  returned. The header does not say.
- SheepdogSet.Max: the member chosen among equivalent maxima depends on the
  set's iteration order. It is not modelled.
- SheepdogSet.Min: the member chosen among equivalent minima depends on the
  set's iteration order. It is not modelled.
- SheepdogSet.Reduce: modelled only for commutative and associative blocks.
  For any other block the answer depends on the set's unspecified iteration
  order.
- A concrete `groupBy:` scenario (words grouped by their length). It is not
  among the scenarios; the general contract of `GroupBy` covers it.
