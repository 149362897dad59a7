/** Facts about sequences shared by the server's editing sets and the client's note list. */
module Sequences {
  predicate NoDup<T(==)>(s: seq<T>) {
    forall i, j :: 0 <= i < j < |s| ==> s[i] != s[j]
  }
}
