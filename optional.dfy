/** The optional value that stands for an Objective-C object pointer that may be `nil`. */
module Optional {

  /** `None` plays the part of `nil`; `Some(v)` is a non-nil object `v`. */
  datatype Option<+T> = None | Some(value: T)

  /** The predicate "the block did not return nil", used to count what `map:` keeps. */
  function Present<T, U>(f: T -> Option<U>): T -> bool
  {
    x => f(x).Some?
  }
}
