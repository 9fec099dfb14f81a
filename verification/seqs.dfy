/** Facts about sequences that hold whatever they contain: the selection
    and the merged table's key order both rely on "no entry twice". */
module Seqs {

  predicate NoDuplicates<T(==)>(xs: seq<T>) {
    forall i, j :: 0 <= i < j < |xs| ==> xs[i] != xs[j]
  }

  /** A sequence without repeats has as many distinct elements as entries. */
  lemma {:induction false} DistinctCount<T>(xs: seq<T>)
    requires NoDuplicates(xs)
    ensures |set x | x in xs| == |xs|
    decreases |xs|
  {
    if |xs| != 0 {
      DistinctCount(xs[1..]);
      var rest := set x | x in xs[1..];
      assert xs == [xs[0]] + xs[1..];
      assert (set x | x in xs) == {xs[0]} + rest;
      assert xs[0] !in xs[1..];
      assert xs[0] !in rest;
      assert |{xs[0]} + rest| == 1 + |rest|;
    }
  }
}
