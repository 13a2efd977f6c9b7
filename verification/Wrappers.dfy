/** What several components share. */
module Wrappers {

  datatype Option<+T> = None | Some(value: T)

  // No element stands in the sequence twice.
  ghost predicate Distinct<T>(s: seq<T>) {
    forall i, j :: 0 <= i < j < |s| ==> s[i] != s[j]
  }
}
