/** Sequences without repetition. */
module Collections {

  predicate Distinct<T(==)>(s: seq<T>) {
    forall i, j :: 0 <= i < j < |s| ==> s[i] != s[j]
  }

  function Members<T(==)>(s: seq<T>): set<T> {
    set x | x in s
  }

  /** A sequence without repetition is no longer than a set that holds all its members. */
  lemma {:induction false} DistinctFits<T>(s: seq<T>, within: set<T>)
    requires Distinct(s) && forall x | x in s :: x in within
    ensures |s| <= |within|
  {
    if s != [] {
      assert s[0] in within && s[0] !in s[1..];
      DistinctFits(s[1..], within - {s[0]});
    }
  }
}
