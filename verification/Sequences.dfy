/** What several of the models say about sequences. */
module Sequences {

  /** Eight bits. */
  type byte = b: int | 0 <= b < 256

  ghost predicate NoDup<T>(xs: seq<T>) {
    forall i, j | 0 <= i < j < |xs| :: xs[i] != xs[j]
  }

  function Elems<T>(xs: seq<T>): set<T> {
    set x | x in xs
  }

  lemma PrefixNext<T>(xs: seq<T>, i: nat)
    requires i < |xs|
    ensures xs[..i + 1][..i] == xs[..i] && xs[..i + 1] == xs[..i] + [xs[i]]
    ensures i + 1 == |xs| ==> xs[..i + 1] == xs
  {
  }
}
