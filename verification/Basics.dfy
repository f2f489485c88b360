/** What several of the models share. */
module Basics {

  datatype Option<+T> = None | Some(value: T)

  /** A 256-bit hash, as the number it denotes; 0 is the null hash. */
  type Hash = nat

  function Max(a: int, b: int): int {
    if a > b then a else b
  }

  function Reversed<T>(s: seq<T>): seq<T> {
    if s == [] then [] else [s[|s| - 1]] + Reversed(s[..|s| - 1])
  }

  predicate Distinct(s: seq<int>) {
    forall i, j :: 0 <= i < j < |s| ==> s[i] != s[j]
  }

  lemma SubsetCard<T>(a: set<T>, b: set<T>)
    requires a <= b
    ensures |a| <= |b|
  {
    assert b == a + (b - a);
  }
}
