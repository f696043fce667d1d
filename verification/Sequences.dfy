/** What lists of free blocks and queues of processes have in common. */
module Sequences {

  predicate NoDuplicates(s: seq<nat>) {
    forall i, j :: 0 <= i < j < |s| ==> s[i] != s[j]
  }
}
