/**
  The `NSArray (Sheepdog)` category: higher-order operations on an array,
  modelled as functions on `seq<T>`. None of them changes its argument; each
  returns a new sequence, map or scalar.
 */
module SheepdogArray {
  import opened Optional
  import opened Ordering
  import opened Sequences

  // ---------------------------------------------------------------------------
  // filter:

  /** `filter:` keeps the elements for which `p` answers YES, and only those. */
  function Filter<T>(s: seq<T>, p: T -> bool): (r: seq<T>)
    ensures |r| <= |s|
    ensures forall x :: x in r ==> x in s && p(x)
    ensures forall x :: x in s && p(x) ==> x in r
  {
    if s == [] then []
    else
      var rest := Filter(s[1..], p);
      assert s == [s[0]] + s[1..];
      if p(s[0]) then [s[0]] + rest else rest
  }

  /**
    `filter:` keeps the passing elements in their original order and with their
    multiplicity: an order-preserving subsequence holding every passing occurrence.
   */
  lemma {:induction false} FilterIsSubsequence<T>(s: seq<T>, p: T -> bool)
    ensures IsSubseq(Filter(s, p), s)
    ensures multiset(Filter(s, p)) <= multiset(s)
    ensures forall x :: x in s ==> multiset(Filter(s, p))[x] == if p(x) then multiset(s)[x] else 0
  {
    if s != [] {
      FilterIsSubsequence(s[1..], p);
      assert s == [s[0]] + s[1..];
      var r, rest := Filter(s, p), Filter(s[1..], p);
      if p(s[0]) {
        assert r == [s[0]] + rest && r[1..] == rest;
      } else {
        assert r == rest;
      }
    }
  }

  /** Filtering a concatenation filters each part. */
  lemma {:induction false} FilterConcat<T>(a: seq<T>, b: seq<T>, p: T -> bool)
    ensures Filter(a + b, p) == Filter(a, p) + Filter(b, p)
  {
    if a == [] {
      assert a + b == b;
    } else {
      var ab := a + b;
      assert ab[0] == a[0] && ab[1..] == a[1..] + b;
      FilterConcat(a[1..], b, p);
      var head := if p(a[0]) then [a[0]] else [];
      assert Filter(ab, p) == head + Filter(ab[1..], p);
      assert Filter(a, p) == head + Filter(a[1..], p);
    }
  }

  // ---------------------------------------------------------------------------
  // map:

  /**
    `map:` applies `f` to every element in order; an element for which `f`
    returns nil (`None`) is left out of the result.
   */
  function Map<T, U>(s: seq<T>, f: T -> Option<U>): (r: seq<U>)
    ensures |r| <= |s|
  {
    if s == [] then []
    else
      var rest := Map(s[1..], f);
      match f(s[0])
      case Some(v) => [v] + rest
      case None => rest
  }

  /** The values of the (all non-nil) results of `f` on `s`, in order. */
  function Values<T, U>(s: seq<T>, f: T -> Option<U>): (r: seq<U>)
    requires forall x :: x in s ==> f(x).Some?
  {
    if s == [] then [] else [f(s[0]).value] + Values(s[1..], f)
  }

  /** `map:` is "drop the elements whose result is nil, then take the results of the rest". */
  lemma {:induction false} MapIsFilterThenValues<T, U>(s: seq<T>, f: T -> Option<U>)
    ensures |Map(s, f)| == |Filter(s, Present(f))|
    ensures Map(s, f) == Values(Filter(s, Present(f)), f)
  {
    if s != [] {
      MapIsFilterThenValues(s[1..], f);
      var fs, fr := Filter(s, Present(f)), Filter(s[1..], Present(f));
      if f(s[0]).Some? {
        assert fs == [s[0]] + fr;
        assert fs[1..] == fr;
      } else {
        assert fs == fr;
        assert Map(s, f) == Map(s[1..], f);
      }
    }
  }

  /** When `f` never returns nil, `map:` returns exactly one result per element, at the same index. */
  lemma MapTotal<T, U>(s: seq<T>, f: T -> Option<U>)
    requires forall x :: x in s ==> f(x).Some?
    ensures |Map(s, f)| == |s|
    ensures forall i :: 0 <= i < |s| ==> Map(s, f)[i] == f(s[i]).value
  {
    MapIsFilterThenValues(s, f);
    FilterKeepsAll(s, Present(f));
  }

  /** The results of `map:` on a concatenation are those of each part, in order. */
  lemma {:induction false} MapConcat<T, U>(a: seq<T>, b: seq<T>, f: T -> Option<U>)
    ensures Map(a + b, f) == Map(a, f) + Map(b, f)
  {
    if a == [] {
      assert a + b == b;
    } else {
      var ab := a + b;
      assert ab[0] == a[0] && ab[1..] == a[1..] + b;
      MapConcat(a[1..], b, f);
      assert Map(ab, f) == (if f(a[0]).Some? then [f(a[0]).value] else []) + Map(ab[1..], f);
      assert Map(a, f) == (if f(a[0]).Some? then [f(a[0]).value] else []) + Map(a[1..], f);
    }
  }

  /** A value is in the result of `map:` exactly when `f` returns it for some element. */
  lemma {:induction false} MapMembership<T, U>(s: seq<T>, f: T -> Option<U>, y: U)
    ensures y in Map(s, f) <==> exists x :: x in s && f(x) == Some(y)
  {
    if s != [] {
      MapMembership(s[1..], f, y);
      assert s == [s[0]] + s[1..];
      if exists x :: x in s && f(x) == Some(y) {
        var x :| x in s && f(x) == Some(y);
        assert x == s[0] || x in s[1..];
      }
    }
  }

  // ---------------------------------------------------------------------------
  // reduce:block:

  /**
    `reduce:block:` folds the array from the left, starting with the seed `val`:
    the seed on an empty array, and otherwise the reduction of all but the last
    element combined with the last element.
   */
  function Reduce<A, T>(s: seq<T>, val: A, f: (A, T) -> A): (r: A)
    ensures s == [] ==> r == val
    ensures s != [] ==> r == f(Reduce(s[..|s| - 1], val, f), s[|s| - 1])
  {
    if s == [] then val
    else
      assert |s| >= 2 ==> s[1..][..|s| - 2] == s[..|s| - 1][1..];
      Reduce(s[1..], f(val, s[0]), f)
  }

  /**
    The nested expression `f(...f(f(val, s[0]), s[1])..., s[n-1])`, written as it
    is read: the last element is combined last.
   */
  function Nested<A, T>(s: seq<T>, val: A, f: (A, T) -> A): A
  {
    if s == [] then val else f(Nested(s[..|s| - 1], val, f), s[|s| - 1])
  }

  /** Reducing a concatenation reduces the second part, seeded with the reduction of the first. */
  lemma {:induction false} ReduceConcat<A, T>(a: seq<T>, b: seq<T>, val: A, f: (A, T) -> A)
    ensures Reduce(a + b, val, f) == Reduce(b, Reduce(a, val, f), f)
  {
    if a == [] {
      assert a + b == b;
    } else {
      assert (a + b)[0] == a[0] && (a + b)[1..] == a[1..] + b;
      ReduceConcat(a[1..], b, f(val, a[0]), f);
    }
  }

  /** `reduce:block:` computes the left-nested combination; on the empty array it is the seed. */
  lemma {:induction false} ReduceIsNested<A, T>(s: seq<T>, val: A, f: (A, T) -> A)
    ensures Reduce(s, val, f) == Nested(s, val, f)
    ensures s == [] ==> Reduce(s, val, f) == val
  {
    if s != [] {
      var init, last := s[..|s| - 1], s[|s| - 1];
      assert s == init + [last];
      ReduceConcat(init, [last], val, f);
      ReduceIsNested(init, val, f);
    }
  }

  /**
    For a combiner whose order of application does not matter, reducing a
    permutation of `s` gives the same value.
   */
  lemma {:induction false} ReducePermutation<A(!new), T(!new)>(s: seq<T>, t: seq<T>, val: A, f: (A, T) -> A)
    requires RightCommutative(f)
    requires multiset(s) == multiset(t)
    ensures Reduce(s, val, f) == Reduce(t, val, f)
    decreases |s|
  {
    if s != [] {
      assert s[0] in multiset(t);
      var k :| 0 <= k < |t| && t[k] == s[0];
      var rest := t[..k] + t[k + 1..];
      assert t == t[..k] + [s[0]] + t[k + 1..];
      assert multiset(s[1..]) == multiset(rest) by {
        assert s == [s[0]] + s[1..];
        assert multiset(s) == multiset{s[0]} + multiset(s[1..]);
        assert multiset(t) == multiset(t[..k]) + multiset{s[0]} + multiset(t[k + 1..]);
        assert multiset(rest) == multiset(t[..k]) + multiset(t[k + 1..]);
        assert multiset(s[1..]) == multiset(s) - multiset{s[0]};
        assert multiset(rest) == multiset(t) - multiset{s[0]};
      }
      ReduceMoveToFront(t[..k], s[0], t[k + 1..], val, f);
      ReducePermutation(s[1..], rest, f(val, s[0]), f);
    } else {
      assert t == [];
    }
  }

  /** With a right-commutative combiner, one element may be folded in first instead of in its place. */
  lemma {:induction false} ReduceMoveToFront<A(!new), T(!new)>(a: seq<T>, x: T, b: seq<T>, val: A, f: (A, T) -> A)
    requires RightCommutative(f)
    ensures Reduce(a + [x] + b, val, f) == Reduce(a + b, f(val, x), f)
  {
    if a == [] {
      assert a + [x] + b == [x] + b;
      assert a + b == b;
    } else {
      assert (a + [x] + b)[0] == a[0] && (a + [x] + b)[1..] == a[1..] + [x] + b;
      assert (a + b)[0] == a[0] && (a + b)[1..] == a[1..] + b;
      ReduceMoveToFront(a[1..], x, b, f(val, a[0]), f);
      assert f(f(val, a[0]), x) == f(f(val, x), a[0]);
    }
  }

  // ---------------------------------------------------------------------------
  // any: and every:

  /** `any:` answers YES when `p` answers YES for at least one element; NO on an empty array. */
  function Any<T>(s: seq<T>, p: T -> bool): (b: bool)
    ensures b <==> exists i :: 0 <= i < |s| && p(s[i])
  {
    if s == [] then false else p(s[0]) || Any(s[1..], p)
  }

  /** `every:` answers YES when `p` answers YES for every element; YES on an empty array. */
  function Every<T>(s: seq<T>, p: T -> bool): (b: bool)
    ensures b <==> forall i :: 0 <= i < |s| ==> p(s[i])
  {
    if s == [] then true else p(s[0]) && Every(s[1..], p)
  }

  /** `any:` holds exactly when `filter:` with the same block keeps something. */
  lemma AnyIffFilterNonEmpty<T>(s: seq<T>, p: T -> bool)
    ensures Any(s, p) <==> Filter(s, p) != []
  {
    if Filter(s, p) != [] {
      assert Filter(s, p)[0] in Filter(s, p);
    }
  }

  /** `every:` holds exactly when `filter:` with the same block keeps the whole array. */
  lemma {:induction false} EveryIffFilterKeepsAll<T>(s: seq<T>, p: T -> bool)
    ensures Every(s, p) <==> Filter(s, p) == s
  {
    if Every(s, p) {
      FilterKeepsAll(s, p);
    }
  }

  lemma {:induction false} FilterKeepsAll<T>(s: seq<T>, p: T -> bool)
    requires forall x :: x in s ==> p(x)
    ensures Filter(s, p) == s
  {
    if s != [] {
      FilterKeepsAll(s[1..], p);
    }
  }

  /** `filter:` keeps nothing when no element passes. */
  lemma FilterNone<T>(s: seq<T>, p: T -> bool)
    requires forall x :: x in s ==> !p(x)
    ensures Filter(s, p) == []
  {
  }

  /** `every:` is the negation of `any:` with the negated block. */
  lemma EveryIsNotAnyNot<T>(s: seq<T>, p: T -> bool)
    ensures Every(s, p) == !Any(s, x => !p(x))
  {
  }

  // ---------------------------------------------------------------------------
  // sort

  /** Every element is `compare:`-not-greater than every later one. */
  ghost predicate Sorted<T>(s: seq<T>, le: (T, T) -> bool)
  {
    forall i, j :: 0 <= i < j < |s| ==> le(s[i], s[j])
  }

  /** Places `x` before the first element of the sorted `s` that is not less than it. */
  function Insert<T(!new)>(x: T, s: seq<T>, le: (T, T) -> bool): (r: seq<T>)
    requires TotalPreorder(le) && Sorted(s, le)
    ensures multiset(r) == multiset(s) + multiset{x}
    ensures Sorted(r, le)
  {
    if s == [] then [x]
    else if le(x, s[0]) then [x] + s
    else
      var rest := Insert(x, s[1..], le);
      assert s == [s[0]] + s[1..];
      assert forall j :: 0 <= j < |rest| ==> le(s[0], rest[j]) by {
        forall j | 0 <= j < |rest| ensures le(s[0], rest[j]) {
          assert rest[j] in multiset(rest);
          if rest[j] != x {
            assert rest[j] in multiset(s[1..]);
            var k :| 0 <= k < |s[1..]| && s[1..][k] == rest[j];
            assert s[k + 1] == rest[j];
          }
        }
      }
      [s[0]] + rest
  }

  /**
    `sort` returns the elements of the array ordered by `compare:`: a
    permutation of the input in which no element is greater than a later one.
   */
  function Sort<T(!new)>(s: seq<T>, le: (T, T) -> bool): (r: seq<T>)
    requires TotalPreorder(le)
    ensures multiset(r) == multiset(s)
    ensures |r| == |s|
    ensures Sorted(r, le)
  {
    if s == [] then []
    else
      assert s == [s[0]] + s[1..];
      Insert(s[0], Sort(s[1..], le), le)
  }

  /** Sorting an array that is already sorted returns it unchanged. */
  lemma {:induction false} SortOfSorted<T(!new)>(s: seq<T>, le: (T, T) -> bool)
    requires TotalPreorder(le) && Sorted(s, le)
    ensures Sort(s, le) == s
  {
    if s != [] {
      SortOfSorted(s[1..], le);
      assert Sorted(s[1..], le);
    }
  }

  /** Sorting twice is sorting once. */
  lemma SortIdempotent<T(!new)>(s: seq<T>, le: (T, T) -> bool)
    requires TotalPreorder(le)
    ensures Sort(Sort(s, le), le) == Sort(s, le)
  {
    SortOfSorted(Sort(s, le), le);
  }

  /** The first element of a sorted sequence is not greater than any of its elements. */
  lemma SortedHeadIsLeast<T(!new)>(a: seq<T>, x: T, le: (T, T) -> bool)
    requires TotalPreorder(le) && Sorted(a, le) && x in a
    ensures le(a[0], x)
  {
    var k :| 0 <= k < |a| && a[k] == x;
    if k == 0 {
      assert le(x, x) || le(x, x);
    }
  }

  /** Two sorted permutations of one another are equal when `compare:` never ties distinct values. */
  lemma {:induction false} SortedPermutationsEqual<T(!new)>(a: seq<T>, b: seq<T>, le: (T, T) -> bool)
    requires TotalPreorder(le) && AntiSymmetric(le)
    requires Sorted(a, le) && Sorted(b, le) && multiset(a) == multiset(b)
    ensures a == b
    decreases |a|
  {
    assert |a| == |multiset(a)| == |multiset(b)| == |b|;
    if a != [] {
      assert a[0] in multiset(b) && b[0] in multiset(a);
      SortedHeadIsLeast(b, a[0], le);
      SortedHeadIsLeast(a, b[0], le);
      assert a[0] == b[0];
      assert a == [a[0]] + a[1..] && b == [b[0]] + b[1..];
      assert multiset(a[1..]) == multiset(a) - multiset{a[0]};
      assert multiset(b[1..]) == multiset(b) - multiset{b[0]};
      assert Sorted(a[1..], le) && Sorted(b[1..], le);
      SortedPermutationsEqual(a[1..], b[1..], le);
    }
  }

  /** Under a total order, `sort` returns the only sorted permutation of the input. */
  lemma SortUnique<T(!new)>(s: seq<T>, t: seq<T>, le: (T, T) -> bool)
    requires TotalPreorder(le) && AntiSymmetric(le)
    requires Sorted(t, le) && multiset(t) == multiset(s)
    ensures Sort(s, le) == t
  {
    SortedPermutationsEqual(Sort(s, le), t, le);
  }

  // ---------------------------------------------------------------------------
  // reverse

  /** `reverse` returns the elements in the opposite order: index `i` holds what was at `|s| - 1 - i`. */
  function Reverse<T>(s: seq<T>): (r: seq<T>)
    ensures |r| == |s|
    ensures forall i :: 0 <= i < |s| ==> r[i] == s[|s| - 1 - i]
  {
    if s == [] then [] else Reverse(s[1..]) + [s[0]]
  }

  /** Reversing twice gives back the original array. */
  lemma ReverseInvolution<T>(s: seq<T>)
    ensures Reverse(Reverse(s)) == s
  {
  }

  /** Reversing keeps every element with its multiplicity. */
  lemma {:induction false} ReversePermutes<T>(s: seq<T>)
    ensures multiset(Reverse(s)) == multiset(s)
  {
    if s != [] {
      ReversePermutes(s[1..]);
      assert s == [s[0]] + s[1..];
    }
  }

  /** The reverse of a concatenation is the reversed second part followed by the reversed first. */
  lemma ReverseConcat<T>(a: seq<T>, b: seq<T>)
    ensures Reverse(a + b) == Reverse(b) + Reverse(a)
  {
  }

  // ---------------------------------------------------------------------------
  // distinct

  /**
    The elements of `s` that are not in `seen` and have not occurred earlier in
    `s`, each at its first occurrence: the scan that `distinct` performs, with
    the values already emitted in `seen`.
   */
  function DistinctFrom<T(==)>(s: seq<T>, seen: set<T>): (r: seq<T>)
    ensures NoDups(r)
    ensures Elems(r) == Elems(s) - seen
    ensures IsSubseq(r, s)
  {
    if s == [] then []
    else
      assert s == [s[0]] + s[1..];
      ElemsCons(s[0], s[1..]);
      if s[0] in seen then DistinctFrom(s[1..], seen)
      else
        var rest := DistinctFrom(s[1..], seen + {s[0]});
        ElemsCons(s[0], rest);
        [s[0]] + rest
  }

  /**
    `distinct` returns only unique values: no value twice, every value of the
    array present, in the array's order.
   */
  function Distinct<T(==)>(s: seq<T>): (r: seq<T>)
    ensures NoDups(r)
    ensures Elems(r) == Elems(s)
    ensures IsSubseq(r, s)
  {
    DistinctFrom(s, {})
  }

  /** Scanning a concatenation scans the first part, then the second with the first part's values seen. */
  lemma {:induction false} DistinctFromConcat<T>(a: seq<T>, b: seq<T>, seen: set<T>)
    ensures DistinctFrom(a + b, seen) == DistinctFrom(a, seen) + DistinctFrom(b, seen + Elems(a))
  {
    if a == [] {
      assert a + b == b;
      assert seen + Elems(a) == seen;
    } else {
      var ab := a + b;
      assert ab[0] == a[0] && ab[1..] == a[1..] + b;
      assert Elems(a) == {a[0]} + Elems(a[1..]) by {
        assert a == [a[0]] + a[1..];
      }
      if a[0] in seen {
        DistinctFromConcat(a[1..], b, seen);
        assert seen + Elems(a) == seen + Elems(a[1..]);
      } else {
        DistinctFromConcat(a[1..], b, seen + {a[0]});
        assert seen + {a[0]} + Elems(a[1..]) == seen + Elems(a);
      }
    }
  }

  /**
    `distinct` keeps first occurrences: appending a value that already occurs
    leaves the result unchanged, appending a new one adds it at the end.
   */
  lemma DistinctSnoc<T>(s: seq<T>, x: T)
    ensures Distinct(s + [x]) == if x in s then Distinct(s) else Distinct(s) + [x]
  {
    DistinctFromConcat(s, [x], {});
    assert {} + Elems(s) == Elems(s);
  }

  /** The unique values of a prefix are a prefix of the unique values. */
  lemma DistinctPrefix<T>(s: seq<T>, m: nat)
    requires m <= |s|
    ensures Distinct(s[..m]) <= Distinct(s)
  {
    assert s == s[..m] + s[m..];
    DistinctFromConcat(s[..m], s[m..], {});
  }

  /** A scan over values that are all new and pairwise different keeps them all. */
  lemma {:induction false} DistinctFromOfNoDups<T>(s: seq<T>, seen: set<T>)
    requires NoDups(s)
    requires forall x :: x in s ==> x !in seen
    ensures DistinctFrom(s, seen) == s
  {
    if s != [] {
      assert forall x :: x in s[1..] ==> x != s[0] by {
        forall x | x in s[1..] ensures x != s[0] {
          var k :| 0 <= k < |s[1..]| && s[1..][k] == x;
          assert s[k + 1] == x;
        }
      }
      DistinctFromOfNoDups(s[1..], seen + {s[0]});
      assert s == [s[0]] + s[1..];
    }
  }

  /** Applying `distinct` twice is applying it once. */
  lemma DistinctIdempotent<T>(s: seq<T>)
    ensures Distinct(Distinct(s)) == Distinct(s)
  {
    DistinctFromOfNoDups(Distinct(s), {});
  }

  // ---------------------------------------------------------------------------
  // partition:

  /**
    `partition:` cuts the array into consecutive chunks of `n` elements; the
    last chunk holds what is left over and may be shorter. `n` must be positive.
   */
  function Partition<T>(s: seq<T>, n: int): (r: seq<seq<T>>)
    requires n > 0
    ensures Flatten(r) == s
    ensures forall i :: 0 <= i < |r| - 1 ==> |r[i]| == n
    ensures r != [] ==> 0 < |r[|r| - 1]| <= n
    ensures r == [] <==> s == []
    decreases |s|
  {
    if s == [] then []
    else if |s| <= n then [s]
    else
      assert s == s[..n] + s[n..];
      [s[..n]] + Partition(s[n..], n)
  }

  /** The number of chunks is `|s| / n` rounded up, and the last one holds the remainder `|s| mod n` when it is not zero. */
  lemma {:induction false} PartitionCount<T>(s: seq<T>, n: int)
    requires n > 0
    ensures |Partition(s, n)| * n >= |s| > (|Partition(s, n)| - 1) * n
    ensures s != [] ==> |Partition(s, n)[|Partition(s, n)| - 1]| == |s| - (|Partition(s, n)| - 1) * n
    decreases |s|
  {
    if |s| > n {
      PartitionCount(s[n..], n);
      var r := Partition(s[n..], n);
      assert Partition(s, n) == [s[..n]] + r;
    }
  }

  // ---------------------------------------------------------------------------
  // partitionBy:

  /** All elements of `c` have the same key as its first one. */
  ghost predicate SameKey<T, K>(c: seq<T>, key: T -> K)
  {
    forall j :: 0 <= j < |c| ==> key(c[j]) == key(c[0])
  }

  /**
    `partitionBy:` cuts the array into maximal runs of consecutive elements on
    which `key` returns the same value; a new chunk starts each time the key changes.
   */
  function PartitionBy<T, K(==)>(s: seq<T>, key: T -> K): (r: seq<seq<T>>)
    ensures Flatten(r) == s
    ensures forall i :: 0 <= i < |r| ==> r[i] != [] && SameKey(r[i], key)
    ensures forall i :: 0 < i < |r| ==> key(r[i][0]) != key(r[i - 1][0])
    ensures s != [] ==> r != [] && r[0][0] == s[0]
  {
    if s == [] then []
    else
      var rest := PartitionBy(s[1..], key);
      assert s == [s[0]] + s[1..];
      if rest != [] && key(rest[0][0]) == key(s[0]) then
        var r := [[s[0]] + rest[0]] + rest[1..];
        assert Flatten(rest) == rest[0] + Flatten(rest[1..]);
        assert Flatten(r) == ([s[0]] + rest[0]) + Flatten(rest[1..]);
        r
      else
        var r := [[s[0]]] + rest;
        assert r[1..] == rest;
        r
  }

  /** Every chunk of `partitionBy:` is a whole run: its last key differs from the next chunk's first. */
  lemma PartitionByRunsAreMaximal<T, K>(s: seq<T>, key: T -> K, i: nat)
    requires 0 < i < |PartitionBy(s, key)|
    ensures var r := PartitionBy(s, key); key(r[i - 1][|r[i - 1]| - 1]) != key(r[i][0])
  {
    var r := PartitionBy(s, key);
    assert SameKey(r[i - 1], key);
  }

  // ---------------------------------------------------------------------------
  // groupBy:

  /** The predicate "`key` returns `k`". */
  function KeyIs<T, K(==)>(key: T -> K, k: K): T -> bool
  {
    x => key(x) == k
  }

  /**
    `groupBy:` maps each key returned by `key` to the elements that return it,
    in their original order; only keys that some element returns appear.
   */
  function GroupBy<T, K(==)>(s: seq<T>, key: T -> K): (r: map<K, seq<T>>)
    ensures r.Keys == set x | x in s :: key(x)
    ensures forall k :: k in r ==> r[k] == Filter(s, KeyIs(key, k))
    ensures forall k :: k in r ==> r[k] != []
  {
    if s == [] then map[]
    else
      var g := GroupBy(s[1..], key);
      var k := key(s[0]);
      var r := g[k := [s[0]] + (if k in g then g[k] else [])];
      GroupByStep(s, key, g, r);
      r
  }

  /** One step of `groupBy:`: adding the first element to the groups of the rest. */
  lemma GroupByStep<T, K>(s: seq<T>, key: T -> K, g: map<K, seq<T>>, r: map<K, seq<T>>)
    requires s != []
    requires g.Keys == set x | x in s[1..] :: key(x)
    requires forall k :: k in g ==> g[k] == Filter(s[1..], KeyIs(key, k))
    requires r == g[key(s[0]) := [s[0]] + (if key(s[0]) in g then g[key(s[0])] else [])]
    ensures r.Keys == set x | x in s :: key(x)
    ensures forall k :: k in r ==> r[k] == Filter(s, KeyIs(key, k))
  {
    var k := key(s[0]);
    assert s == [s[0]] + s[1..];
    assert r.Keys == set x | x in s :: key(x) by {
      forall j ensures j in r.Keys <==> j in set x | x in s :: key(x) {
        if j in set x | x in s :: key(x) {
          var x :| x in s && key(x) == j;
          assert x == s[0] || x in s[1..];
        }
      }
    }
    if k !in g {
      FilterNone(s[1..], KeyIs(key, k));
    }
    forall j | j in r ensures r[j] == Filter(s, KeyIs(key, j)) {
      if j == k {
        assert KeyIs(key, j)(s[0]);
      } else {
        assert !KeyIs(key, j)(s[0]);
      }
    }
  }

  /** An element is in the group of key `k` exactly when `key` returns `k` for it, and it keeps its multiplicity there. */
  lemma GroupByMembership<T, K>(s: seq<T>, key: T -> K, x: T)
    requires x in s
    ensures key(x) in GroupBy(s, key)
    ensures forall k :: k in GroupBy(s, key) ==> (x in GroupBy(s, key)[k] <==> key(x) == k)
    ensures multiset(GroupBy(s, key)[key(x)])[x] == multiset(s)[x]
  {
    var g := GroupBy(s, key);
    assert key(x) in g.Keys;
    FilterIsSubsequence(s, KeyIs(key, key(x)));
  }

  // ---------------------------------------------------------------------------
  // max and min

  /** The scan behind `max`: the running maximum starts at `best` and is replaced by each greater element. */
  function MaxFrom<T(!new)>(best: T, s: seq<T>, le: (T, T) -> bool): (m: T)
    requires TotalPreorder(le)
    ensures m == best || m in s
    ensures le(best, m)
    ensures forall i :: 0 <= i < |s| ==> le(s[i], m)
  {
    if s == [] then
      assert le(best, best) || le(best, best);
      best
    else
      var next := if le(s[0], best) then best else s[0];
      var m := MaxFrom(next, s[1..], le);
      assert le(best, next) && le(s[0], next);
      m
  }

  /** `max` returns nil on an empty array, otherwise an element not less than any element. */
  function Max<T(!new)>(s: seq<T>, le: (T, T) -> bool): (r: Option<T>)
    requires TotalPreorder(le)
    ensures r.None? <==> s == []
    ensures r.Some? ==> r.value in s && forall i :: 0 <= i < |s| ==> le(s[i], r.value)
  {
    if s == [] then None else Some(MaxFrom(s[0], s[1..], le))
  }

  /** The scan behind `min`: the running minimum starts at `best` and is replaced by each smaller element. */
  function MinFrom<T(!new)>(best: T, s: seq<T>, le: (T, T) -> bool): (m: T)
    requires TotalPreorder(le)
    ensures m == best || m in s
    ensures le(m, best)
    ensures forall i :: 0 <= i < |s| ==> le(m, s[i])
  {
    if s == [] then
      assert le(best, best) || le(best, best);
      best
    else
      var next := if le(best, s[0]) then best else s[0];
      var m := MinFrom(next, s[1..], le);
      assert le(next, best) && le(next, s[0]);
      m
  }

  /** `min` returns nil on an empty array, otherwise an element not greater than any element. */
  function Min<T(!new)>(s: seq<T>, le: (T, T) -> bool): (r: Option<T>)
    requires TotalPreorder(le)
    ensures r.None? <==> s == []
    ensures r.Some? ==> r.value in s && forall i :: 0 <= i < |s| ==> le(r.value, s[i])
  {
    if s == [] then None else Some(MinFrom(s[0], s[1..], le))
  }

  /** `max` and the last element of `sort` are equivalent under `compare:` (equal under a total order). */
  lemma MaxIsLastOfSort<T(!new)>(s: seq<T>, le: (T, T) -> bool)
    requires TotalPreorder(le) && s != []
    ensures var m, l := Max(s, le).value, Sort(s, le)[|s| - 1]; le(m, l) && le(l, m)
    ensures AntiSymmetric(le) ==> Max(s, le) == Some(Sort(s, le)[|s| - 1])
  {
    var m, t := Max(s, le).value, Sort(s, le);
    assert t[|s| - 1] in multiset(s);
    assert m in multiset(t);
    var k :| 0 <= k < |t| && t[k] == m;
    if k == |s| - 1 {
      assert le(m, m) || le(m, m);
    }
  }

  /** `min` and the first element of `sort` are equivalent under `compare:` (equal under a total order). */
  lemma MinIsFirstOfSort<T(!new)>(s: seq<T>, le: (T, T) -> bool)
    requires TotalPreorder(le) && s != []
    ensures var m, f := Min(s, le).value, Sort(s, le)[0]; le(m, f) && le(f, m)
    ensures AntiSymmetric(le) ==> Min(s, le) == Some(Sort(s, le)[0])
  {
    var m, t := Min(s, le).value, Sort(s, le);
    assert t[0] in multiset(s);
    assert m in multiset(t);
    SortedHeadIsLeast(t, m, le);
  }
}
