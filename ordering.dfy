/**
  The contracts that the blocks and the `compare:` message are assumed to keep.
  `le(a, b)` stands for `[a compare:b] != NSOrderedDescending`, that is "a is not
  greater than b".
 */
module Ordering {

  /** `compare:` is a consistent ordering: any two objects are comparable, and it is transitive. */
  ghost predicate TotalPreorder<T(!new)>(le: (T, T) -> bool)
  {
    && (forall a, b :: le(a, b) || le(b, a))
    && (forall a, b, c :: le(a, b) && le(b, c) ==> le(a, c))
  }

  /** Objects that compare as equal are the same value. */
  ghost predicate AntiSymmetric<T(!new)>(le: (T, T) -> bool)
  {
    forall a, b :: le(a, b) && le(b, a) ==> a == b
  }

  ghost predicate Commutative<T(!new)>(f: (T, T) -> T)
  {
    forall a, b :: f(a, b) == f(b, a)
  }

  ghost predicate Associative<T(!new)>(f: (T, T) -> T)
  {
    forall a, b, c :: f(f(a, b), c) == f(a, f(b, c))
  }

  /** Folding `x` then `y` into an accumulator gives the same as folding `y` then `x`. */
  ghost predicate RightCommutative<A(!new), T(!new)>(f: (A, T) -> A)
  {
    forall acc, x, y :: f(f(acc, x), y) == f(f(acc, y), x)
  }

  lemma CommutativeAssociativeIsRightCommutative<T(!new)>(f: (T, T) -> T)
    requires Commutative(f) && Associative(f)
    ensures RightCommutative(f)
  {
    forall acc, x, y ensures f(f(acc, x), y) == f(f(acc, y), x) {
      calc {
        f(f(acc, x), y);
        f(acc, f(x, y));
        f(acc, f(y, x));
        f(f(acc, y), x);
      }
    }
  }
}
