/** Ascending order of integer sequences, shared by the search and the sort. */
module Ordering {
  /** Ascending order, duplicates allowed. */
  predicate SortedAsc(a: seq<int>)
  {
    forall i, j :: 0 <= i < j < |a| ==> a[i] <= a[j]
  }
}
