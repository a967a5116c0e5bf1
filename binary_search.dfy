/**
 * Binary search over an ascending slice of integers, in the recursive and
 * the iterative variant. Both only read the slice and return the index of
 * an element equal to the target, or -1.
 *
 * The iterative variant is proved to return exactly what the recursive one
 * returns on the whole slice, so every property of the recursive variant
 * carries over to it.
 */
module BinarySearch {
  import opened Ordering

  /** The target occurs at no index of the closed range [left, right]. */
  predicate AbsentBetween(a: seq<int>, target: int, left: int, right: int)
    requires left > right || (0 <= left && right < |a|)
  {
    forall i :: left <= i <= right ==> a[i] != target
  }

  /** `left + (right-left)/2`: a midpoint that never leaves the range. */
  function Mid(left: int, right: int): (m: int)
    requires left <= right
    ensures left <= m <= right
  {
    left + (right - left) / 2
  }

  /**
   * The recursive variant on the closed range [left, right]. The caller must
   * give a range inside the slice, or an empty one (left > right), since the
   * middle element is read without a bounds check.
   */
  function SearchRec(a: seq<int>, target: int, left: int, right: int): (r: int)
    requires left > right || (0 <= left && right < |a|)
    ensures left > right ==> r == -1
    ensures r == -1 || (left <= r <= right && a[r] == target)
    ensures SortedAsc(a) ==> (r == -1 <==> AbsentBetween(a, target, left, right))
    decreases right - left
  {
    if left > right then
      -1
    else
      var mid := Mid(left, right);
      if a[mid] == target then
        mid
      else if a[mid] < target then
        SearchRec(a, target, mid + 1, right)
      else
        SearchRec(a, target, left, mid - 1)
  }

  /** The iterative variant: the same halving, with the range kept in two variables. */
  method SearchIterative(a: seq<int>, target: int) returns (r: int)
    ensures r == SearchRec(a, target, 0, |a| - 1)
    ensures r == -1 || (0 <= r < |a| && a[r] == target)
    ensures SortedAsc(a) ==> (r == -1 <==> target !in a)
    ensures |a| == 0 ==> r == -1
  {
    var left, right := 0, |a| - 1;
    while left <= right
      invariant 0 <= left <= right + 1 <= |a|
      invariant SearchRec(a, target, left, right) == SearchRec(a, target, 0, |a| - 1)
      decreases right - left
    {
      var mid := Mid(left, right);
      if a[mid] == target {
        return mid;
      }
      if a[mid] < target {
        left := mid + 1;
      } else {
        right := mid - 1;
      }
    }
    r := -1;
  }

  /** The example of the program: 7 sits at index 3 of the first eight odd numbers. */
  lemma FindsSevenAtThree()
    ensures SearchRec([1, 3, 5, 7, 9, 11, 13, 15], 7, 0, 7) == 3
  {
  }

  /** A target absent from the ascending slice is reported as missing. */
  lemma MissingTarget()
    ensures SearchRec([1, 3, 5, 7, 9, 11, 13, 15], 8, 0, 7) == -1
  {
    var a := [1, 3, 5, 7, 9, 11, 13, 15];
    assert SortedAsc(a);
    assert AbsentBetween(a, 8, 0, 7);
  }
}
