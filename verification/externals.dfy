/** The ranges of the foreign collaborators of the matcher, and the list
    predicates used with them. The collaborators' algorithms are not
    modelled: they are passed in as function values whose results are
    constrained only by the types below. */
module Externals {
  /** A similarity ratio in [0, 1], as `difflib.SequenceMatcher.ratio`
      returns. */
  type Unit = r: real | 0.0 <= r <= 1.0

  /** A similarity score in [0, 100], as `rapidfuzz.fuzz.ratio` returns. */
  type Percent = r: real | 0.0 <= r <= 100.0

  /** `SequenceMatcher(None, a, b).ratio()` */
  type Ratio = (string, string) -> Unit

  /** `rapidfuzz.fuzz.ratio(a, b)` */
  type FuzzRatio = (string, string) -> Percent

  predicate NoDuplicates<T(==)>(l: seq<T>) {
    forall i, j :: 0 <= i < j < |l| ==> l[i] != l[j]
  }

  /** `l` lists the members of `s`, each exactly once. */
  predicate Lists(l: seq<nat>, s: set<nat>) {
    (forall x :: x in l ==> x in s) && (forall x :: x in s ==> x in l) && NoDuplicates(l)
  }

  /** Some listing of a set, in an order nobody relies on. */
  ghost function SomeListing(s: set<nat>): (l: seq<nat>)
    ensures Lists(l, s)
    decreases |s|
  {
    if s == {} then []
    else
      var x :| x in s;
      var rest := SomeListing(s - {x});
      [x] + rest
  }
}
