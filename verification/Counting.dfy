/** Counting facts the other modules share. */
module Counting {

  ghost predicate Distinct(s: seq<nat>) {
    forall i, j | 0 <= i < j < |s| :: s[i] != s[j]
  }

  lemma SubsetCard<T>(a: set<T>, b: set<T>)
    requires a <= b
    ensures |a| <= |b|
  {
    assert b == a + (b - a);
  }

  lemma {:induction false} DistinctCard(s: seq<nat>, u: set<nat>)
    requires Distinct(s) && forall x | x in s :: x in u
    ensures |s| <= |u|
    decreases |s|
  {
    if s != [] {
      forall x | x in s[1..] ensures x in u - {s[0]} {}
      DistinctCard(s[1..], u - {s[0]});
    }
  }
}
