/**
  The `NSSet (Sheepdog)` category: higher-order operations on a set, modelled
  as functions on `set<T>`. The order in which a set is iterated is not
  specified; where an operation's answer could depend on it, the model takes
  one fixed but unspecified enumeration of the set (`Enumerate`) and proves
  what holds whatever that enumeration is.
 */
module SheepdogSet {
  import opened Optional
  import opened Ordering
  import opened Sequences
  import SheepdogArray

  /** Some enumeration of `s`: every element exactly once, in an unspecified order. */
  ghost function Enumerate<T>(s: set<T>): (xs: seq<T>)
    ensures multiset(xs) == multiset(s)
    ensures |xs| == |s|
    decreases s
  {
    if s == {} then []
    else
      var x :| x in s;
      var xs := [x] + Enumerate(s - {x});
      assert multiset(s) == multiset{x} + multiset(s - {x}) by {
        assert s == {x} + (s - {x});
      }
      xs
  }

  /** An enumeration lists exactly the members of the set. */
  lemma EnumerationElems<T>(xs: seq<T>, s: set<T>)
    requires multiset(xs) == multiset(s)
    ensures Elems(xs) == s
  {
    forall x ensures x in Elems(xs) <==> x in s {
      assert x in xs <==> x in multiset(xs);
    }
  }

  // ---------------------------------------------------------------------------
  // filter:

  /** `filter:` keeps the members for which `p` answers YES. */
  function Filter<T>(s: set<T>, p: T -> bool): (r: set<T>)
    ensures r <= s
    ensures forall x | x in r :: p(x)
    ensures forall x | x in s && p(x) :: x in r
  {
    set x | x in s && p(x)
  }

  /**
    The set `filter:` is the array `filter:` over any enumeration of the set,
    seen as a set; in particular it is a subset of `s`.
   */
  lemma FilterAgreesWithArray<T>(s: set<T>, xs: seq<T>, p: T -> bool)
    requires multiset(xs) == multiset(s)
    ensures Filter(s, p) == Elems(SheepdogArray.Filter(xs, p))
    ensures Filter(s, p) <= s
  {
    EnumerationElems(xs, s);
  }

  // ---------------------------------------------------------------------------
  // map:

  /**
    `map:` collects the non-nil results of `f` on the members. Being a set,
    the result holds each value once however many members produce it.
   */
  function Map<T, U>(s: set<T>, f: T -> Option<U>): (r: set<U>)
    ensures forall x | x in s && f(x).Some? :: f(x).value in r
    ensures forall y | y in r :: exists x :: x in s && f(x) == Some(y)
  {
    set x | x in s && f(x).Some? :: f(x).value
  }

  /** The set `map:` is the array `map:` over any enumeration of the set, seen as a set. */
  lemma MapAgreesWithArray<T, U(!new)>(s: set<T>, xs: seq<T>, f: T -> Option<U>)
    requires multiset(xs) == multiset(s)
    ensures Map(s, f) == Elems(SheepdogArray.Map(xs, f))
  {
    EnumerationElems(xs, s);
    var m := SheepdogArray.Map(xs, f);
    forall y ensures y in Map(s, f) <==> y in Elems(m) {
      SheepdogArray.MapMembership(xs, f, y);
      if y in Map(s, f) {
        var x :| x in s && f(x).Some? && f(x).value == y;
        assert x in Elems(xs);
        assert x in xs && f(x) == Some(y);
      }
      if y in m {
        var x :| x in xs && f(x) == Some(y);
        assert x in Elems(xs);
      }
    }
  }

  /** `map:` never has more values than there are members with a non-nil result. */
  lemma {:induction false} MapCardinality<T, U>(s: set<T>, f: T -> Option<U>)
    ensures |Map(s, f)| <= |Filter(s, Present(f))|
    decreases s
  {
    if s != {} {
      var x :| x in s;
      var s' := s - {x};
      MapCardinality(s', f);
      assert s == s' + {x};
      MapAddMember(s', x, f);
    }
  }

  /**
    Adding a new member adds at most one value to the result of `map:`, and
    adds exactly one member to the members with a non-nil result when its own
    result is non-nil.
   */
  lemma MapAddMember<T, U>(s: set<T>, x: T, f: T -> Option<U>)
    requires x !in s
    ensures |Map(s + {x}, f)| <= |Map(s, f)| + (if f(x).Some? then 1 else 0)
    ensures |Filter(s + {x}, Present(f))| == |Filter(s, Present(f))| + (if f(x).Some? then 1 else 0)
  {
    if f(x).Some? {
      assert Map(s + {x}, f) == Map(s, f) + {f(x).value};
      assert Filter(s + {x}, Present(f)) == Filter(s, Present(f)) + {x};
      assert x !in Filter(s, Present(f));
    } else {
      assert Map(s + {x}, f) == Map(s, f);
      assert Filter(s + {x}, Present(f)) == Filter(s, Present(f));
    }
  }

  /**
    Two members with the same non-nil result collapse into one value: the
    result of `map:` can be strictly smaller than the number of non-nil results.
   */
  lemma MapCollapses()
    ensures var f := (x: int) => Some(x % 2);
      |Map({1, 3}, f)| == 1 < |Filter({1, 3}, Present(f))| == 2
  {
    var f := (x: int) => Some(x % 2);
    assert Map({1, 3}, f) == {1};
    assert Filter({1, 3}, Present(f)) == {1, 3};
  }

  // ---------------------------------------------------------------------------
  // reduce:block:

  /**
    `reduce:block:` folds the members from the seed in the set's iteration
    order. Only for a commutative and associative `f` is the answer independent
    of that order; this model covers only that case.
   */
  ghost function Reduce<T(!new)>(s: set<T>, val: T, f: (T, T) -> T): (r: T)
    requires Commutative(f) && Associative(f)
    ensures s == {} ==> r == val
    ensures forall x | x in s :: s == {x} ==> r == f(val, x)
  {
    var xs := Enumerate(s);
    SingletonEnumeration(s, xs);
    SheepdogArray.Reduce(xs, val, f)
  }

  /** The only enumeration of a one-member set is that member alone. */
  lemma SingletonEnumeration<T>(s: set<T>, xs: seq<T>)
    requires multiset(xs) == multiset(s)
    ensures forall x | x in s :: s == {x} ==> xs == [x]
  {
    forall x | x in s && s == {x}
      ensures xs == [x]
    {
      assert |xs| == |multiset(xs)| == 1;
      assert xs[0] in multiset(xs);
    }
  }

  /**
    Any member may be the one folded in last: the set `reduce:block:` is the
    reduction of the other members combined with it.
   */
  lemma ReduceRemove<T(!new)>(s: set<T>, x: T, val: T, f: (T, T) -> T)
    requires Commutative(f) && Associative(f)
    requires x in s
    ensures Reduce(s, val, f) == f(Reduce(s - {x}, val, f), x)
  {
    var rest := Enumerate(s - {x});
    var xs := rest + [x];
    assert multiset(xs) == multiset(s) by {
      assert s == (s - {x}) + {x};
      assert multiset(s) == multiset(s - {x}) + multiset{x};
    }
    ReduceOrderIndependent(s, xs, val, f);
    assert xs[..|xs| - 1] == rest;
  }

  /** Folding the members in any order gives the set `reduce:block:`. */
  lemma ReduceOrderIndependent<T(!new)>(s: set<T>, xs: seq<T>, val: T, f: (T, T) -> T)
    requires Commutative(f) && Associative(f)
    requires multiset(xs) == multiset(s)
    ensures SheepdogArray.Reduce(xs, val, f) == Reduce(s, val, f)
  {
    CommutativeAssociativeIsRightCommutative(f);
    SheepdogArray.ReducePermutation(xs, Enumerate(s), val, f);
  }

  // ---------------------------------------------------------------------------
  // any: and every:

  /** `any:` answers YES when some member passes `p`. */
  function Any<T>(s: set<T>, p: T -> bool): (b: bool)
    ensures forall x | x in s && p(x) :: b
    ensures b ==> s != {}
  {
    exists x :: x in s && p(x)
  }

  /** `every:` answers YES when every member passes `p`. */
  function Every<T>(s: set<T>, p: T -> bool): (b: bool)
    ensures forall x | x in s && !p(x) :: !b
    ensures s == {} ==> b
  {
    forall x :: x in s ==> p(x)
  }

  /** The set `any:` and `every:` answer as the array ones do over any enumeration of the set. */
  lemma AnyEveryAgreeWithArray<T>(s: set<T>, xs: seq<T>, p: T -> bool)
    requires multiset(xs) == multiset(s)
    ensures Any(s, p) == SheepdogArray.Any(xs, p)
    ensures Every(s, p) == SheepdogArray.Every(xs, p)
  {
    EnumerationElems(xs, s);
    if Any(s, p) {
      var x :| x in s && p(x);
      assert x in Elems(xs);
    }
    if !Every(s, p) {
      var x :| x in s && !p(x);
      assert x in Elems(xs);
    }
  }

  /** `any:` holds exactly when `filter:` keeps something, `every:` when it keeps the whole set. */
  lemma AnyEveryByFilter<T>(s: set<T>, p: T -> bool)
    ensures Any(s, p) <==> Filter(s, p) != {}
    ensures Every(s, p) <==> Filter(s, p) == s
  {
    if Any(s, p) {
      var x :| x in s && p(x);
      assert x in Filter(s, p);
    }
  }

  // ---------------------------------------------------------------------------
  // max and min

  /**
    `max` returns nil on an empty set, otherwise a member not less than any
    member; which of several equivalent members is returned is not modelled.
   */
  ghost function Max<T(!new)>(s: set<T>, le: (T, T) -> bool): (r: Option<T>)
    requires TotalPreorder(le)
    ensures r.None? <==> s == {}
    ensures r.Some? ==> r.value in s && forall x :: x in s ==> le(x, r.value)
  {
    var xs := Enumerate(s);
    EnumerationElems(xs, s);
    SheepdogArray.Max(xs, le)
  }

  /**
    `min` returns nil on an empty set, otherwise a member not greater than any
    member; which of several equivalent members is returned is not modelled.
   */
  ghost function Min<T(!new)>(s: set<T>, le: (T, T) -> bool): (r: Option<T>)
    requires TotalPreorder(le)
    ensures r.None? <==> s == {}
    ensures r.Some? ==> r.value in s && forall x :: x in s ==> le(r.value, x)
  {
    var xs := Enumerate(s);
    EnumerationElems(xs, s);
    SheepdogArray.Min(xs, le)
  }
}
