/** Facts about sequences shared by the search and the colour tally. */
module Seqs {

  /** No element of s occurs twice. */
  ghost predicate NoDup<T>(s: seq<T>)
  {
    forall a, b :: 0 <= a < b < |s| ==> s[a] != s[b]
  }
}
