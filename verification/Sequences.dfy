/** Sequences without repetition, and the removal of one element. */
module Sequences {
  ghost predicate Distinct<T>(s: seq<T>) {
    forall i, j :: 0 <= i < j < |s| ==> s[i] != s[j]
  }

  /** r is s without its element i. */
  ghost predicate Dropped<T>(s: seq<T>, i: nat, r: seq<T>)
    requires i < |s|
  {
    && |r| == |s| - 1
    && (forall j :: 0 <= j < i ==> r[j] == s[j])
    && (forall j :: i <= j < |r| ==> r[j] == s[j + 1])
  }
}
