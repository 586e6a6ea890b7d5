/** Small vocabulary shared by the model's modules. */
module Prelude {
  datatype Option<+T> = None | Some(value: T)

  /** No two positions hold the same element. */
  ghost predicate Distinct<T>(s: seq<T>) {
    forall i, j :: 0 <= i < j < |s| ==> s[i] != s[j]
  }

  /** Pigeonhole: a sequence without repetition over a finite universe is no longer than the universe. */
  lemma {:induction false} DistinctFits<T>(s: seq<T>, universe: set<T>)
    requires Distinct(s)
    requires forall i :: 0 <= i < |s| ==> s[i] in universe
    ensures |s| <= |universe|
  {
    if s == [] {
    } else {
      var last := |s| - 1;
      DistinctFits(s[..last], universe - {s[last]});
    }
  }
}
