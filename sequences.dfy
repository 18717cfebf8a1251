/** Vocabulary about sequences shared by the array and set operations. */
module Sequences {

  /** Concatenation of a sequence of chunks, in order. */
  function Flatten<T>(chunks: seq<seq<T>>): (r: seq<T>)
  {
    if chunks == [] then [] else chunks[0] + Flatten(chunks[1..])
  }

  /** `a` is obtained from `b` by deleting elements, without reordering the rest. */
  ghost predicate IsSubseq<T>(a: seq<T>, b: seq<T>)
  {
    if a == [] then true
    else if b == [] then false
    else (a[0] == b[0] && IsSubseq(a[1..], b[1..])) || IsSubseq(a, b[1..])
  }

  /** No value occurs twice. */
  ghost predicate NoDups<T>(s: seq<T>)
  {
    forall i, j :: 0 <= i < j < |s| ==> s[i] != s[j]
  }

  /** The set of values occurring in `s`. */
  ghost function Elems<T>(s: seq<T>): set<T>
  {
    set x | x in s
  }

  lemma ElemsCons<T>(x: T, s: seq<T>)
    ensures Elems([x] + s) == {x} + Elems(s)
  {
  }
}
