/**
 * Quicksort that builds new slices: the middle element is the pivot, one
 * pass splits the input into the elements below, equal to and above it, and
 * the result is the sorted lower part, the equal part and the sorted upper
 * part, concatenated. The input slice is only read.
 */
module Quicksort {
  import opened Ordering

  /** The three slices filled by the partition pass. */
  datatype Parts = Parts(less: seq<int>, equal: seq<int>, greater: seq<int>)

  /** Every element of p lies on the side of the pivot its slice is named after. */
  predicate Separated(p: Parts, pivot: int)
  {
    (forall x | x in p.less :: x < pivot)
    && (forall x | x in p.equal :: x == pivot)
    && (forall x | x in p.greater :: x > pivot)
  }

  /**
   * The partition pass: each element is appended to the slice of its case,
   * in input order. Defined on the prefix so that it follows the loop.
   */
  function Partition(s: seq<int>, pivot: int): (p: Parts)
    ensures Separated(p, pivot)
    ensures multiset(p.less) + multiset(p.equal) + multiset(p.greater) == multiset(s)
    ensures |p.less| + |p.equal| + |p.greater| == |s|
  {
    if |s| == 0 then
      Parts([], [], [])
    else
      assert s == s[..|s| - 1] + [s[|s| - 1]];
      Place(Partition(s[..|s| - 1], pivot), s[|s| - 1], pivot)
  }

  /** One step of the pass: x is appended to the slice of its case. */
  function Place(p: Parts, x: int, pivot: int): (q: Parts)
    requires Separated(p, pivot)
    ensures Separated(q, pivot)
    ensures multiset(q.less) + multiset(q.equal) + multiset(q.greater)
         == multiset(p.less) + multiset(p.equal) + multiset(p.greater) + multiset{x}
    ensures |q.less| + |q.equal| + |q.greater| == |p.less| + |p.equal| + |p.greater| + 1
  {
    if x < pivot then
      p.(less := p.less + [x])
    else if x == pivot then
      p.(equal := p.equal + [x])
    else
      p.(greater := p.greater + [x])
  }

  /** The loop of the partition pass, appending element by element. */
  method PartitionLoop(s: seq<int>, pivot: int) returns (less: seq<int>, equal: seq<int>, greater: seq<int>)
    ensures Parts(less, equal, greater) == Partition(s, pivot)
    ensures Separated(Parts(less, equal, greater), pivot)
    ensures multiset(less) + multiset(equal) + multiset(greater) == multiset(s)
  {
    less, equal, greater := [], [], [];
    for i := 0 to |s|
      invariant Parts(less, equal, greater) == Partition(s[..i], pivot)
    {
      PartitionStep(s, i, pivot);
      var num := s[i];
      if num < pivot {
        less := less + [num];
      } else if num == pivot {
        equal := equal + [num];
      } else {
        greater := greater + [num];
      }
    }
    assert s[..|s|] == s;
  }

  /** The pass over one more element places that element. */
  lemma PartitionStep(s: seq<int>, i: int, pivot: int)
    requires 0 <= i < |s|
    ensures Partition(s[..i + 1], pivot) == Place(Partition(s[..i], pivot), s[i], pivot)
  {
    assert s[..i + 1][..i] == s[..i];
  }

  /** When the pivot comes from s, both recursive inputs are shorter than s. */
  lemma PartitionShrinks(s: seq<int>, pivot: int)
    requires pivot in s
    ensures |Partition(s, pivot).less| < |s|
    ensures |Partition(s, pivot).greater| < |s|
  {
    var p := Partition(s, pivot);
    assert pivot !in p.less && pivot !in p.greater;
    assert pivot in multiset(p.less) + multiset(p.equal) + multiset(p.greater);
    assert pivot in p.equal;
  }

  /** Sorted lower part, equal part and sorted upper part concatenate to a sorted sequence. */
  lemma SortedJoin(l: seq<int>, e: seq<int>, g: seq<int>, pivot: int)
    requires SortedAsc(l) && SortedAsc(g)
    requires Separated(Parts(l, e, g), pivot)
    ensures SortedAsc(l + e + g)
  {
    var r := l + e + g;
    forall i, j | 0 <= i < j < |r|
      ensures r[i] <= r[j]
    {
      if j < |l| {
        assert r[i] == l[i] && r[j] == l[j];
      } else if i >= |l| + |e| {
        assert r[i] == g[i - |l| - |e|] && r[j] == g[j - |l| - |e|];
      } else {
        assert r[i] in l || r[i] in e;
        assert r[j] in e || r[j] in g;
      }
    }
  }

  /** Replacing the outer parts by permutations of them keeps them on their sides. */
  lemma SeparatedAfterSorting(p: Parts, l: seq<int>, g: seq<int>, pivot: int)
    requires Separated(p, pivot)
    requires multiset(l) == multiset(p.less) && multiset(g) == multiset(p.greater)
    ensures Separated(Parts(l, p.equal, g), pivot)
  {
    forall x | x in l
      ensures x < pivot
    {
      assert x in multiset(p.less);
      assert x in p.less;
    }
    forall x | x in g
      ensures x > pivot
    {
      assert x in multiset(p.greater);
      assert x in p.greater;
    }
  }

  /** The sort: sorted output holding exactly the input's elements. */
  function QuickSort(s: seq<int>): (r: seq<int>)
    ensures SortedAsc(r)
    ensures multiset(r) == multiset(s)
    ensures |s| <= 1 ==> r == s
    decreases |s|
  {
    if |s| <= 1 then
      s
    else
      var pivot := s[|s| / 2];
      var p := Partition(s, pivot);
      PartitionShrinks(s, pivot);
      var l := QuickSort(p.less);
      var g := QuickSort(p.greater);
      SeparatedAfterSorting(p, l, g, pivot);
      SortedJoin(l, p.equal, g, pivot);
      l + p.equal + g
  }

  lemma SortedHeadIsLeast(a: seq<int>, x: int)
    requires SortedAsc(a) && x in a
    ensures a[0] <= x
  {
  }

  lemma SortedTail(a: seq<int>)
    requires SortedAsc(a) && |a| > 0
    ensures SortedAsc(a[1..])
  {
  }

  /** Two sorted permutations of each other start with the same element. */
  lemma SameHead(a: seq<int>, b: seq<int>)
    requires SortedAsc(a) && SortedAsc(b)
    requires multiset(a) == multiset(b) && |a| > 0
    ensures |b| > 0 && a[0] == b[0]
  {
    assert a[0] in multiset(b);
    assert |b| > 0;
    assert b[0] in multiset(a);
    assert a[0] in b && b[0] in a;
    SortedHeadIsLeast(a, b[0]);
    SortedHeadIsLeast(b, a[0]);
  }

  /** Dropping equal heads from equal multisets leaves equal multisets. */
  lemma SameTails(a: seq<int>, b: seq<int>)
    requires multiset(a) == multiset(b) && |a| > 0 && |b| > 0 && a[0] == b[0]
    ensures multiset(a[1..]) == multiset(b[1..])
  {
    assert a == [a[0]] + a[1..];
    assert b == [b[0]] + b[1..];
    assert multiset(a) == multiset{a[0]} + multiset(a[1..]);
    assert multiset(b) == multiset{b[0]} + multiset(b[1..]);
    assert multiset(a[1..]) == multiset(a) - multiset{a[0]};
    assert multiset(b[1..]) == multiset(b) - multiset{b[0]};
  }

  /** A sorted sequence is fixed by its elements: two sorted permutations are equal. */
  lemma {:induction false} SortedPermutationUnique(a: seq<int>, b: seq<int>)
    requires SortedAsc(a) && SortedAsc(b)
    requires multiset(a) == multiset(b)
    ensures a == b
    decreases |a|
  {
    if |a| == 0 {
      assert |multiset(b)| == 0;
    } else {
      SameHead(a, b);
      SameTails(a, b);
      SortedTail(a);
      SortedTail(b);
      SortedPermutationUnique(a[1..], b[1..]);
      assert a == [a[0]] + a[1..];
      assert b == [b[0]] + b[1..];
    }
  }

  /** Whatever sorted permutation of s is asked for, QuickSort returns it. */
  lemma QuickSortIsTheSort(s: seq<int>, t: seq<int>)
    requires SortedAsc(t) && multiset(t) == multiset(s)
    ensures QuickSort(s) == t
  {
    SortedPermutationUnique(QuickSort(s), t);
  }

  /** Sorting twice is the same as sorting once. */
  lemma QuickSortIdempotent(s: seq<int>)
    ensures QuickSort(QuickSort(s)) == QuickSort(s)
  {
    QuickSortIsTheSort(QuickSort(s), QuickSort(s));
  }

  // The example input is turned into its sorted form by nine exchanges
  // (selection order), which shows that the two hold the same elements.

  /** Exchanges the elements at positions i and j. */
  function Swap(a: seq<int>, i: int, j: int): seq<int>
    requires 0 <= i < |a| && 0 <= j < |a|
  {
    a[i := a[j]][j := a[i]]
  }
  lemma SwapPerm(a: seq<int>, i: int, j: int)
    requires 0 <= i < |a| && 0 <= j < |a|
    ensures multiset(Swap(a, i, j)) == multiset(a)
  {}
  lemma ExampleSwapsOneToThree()
    ensures multiset([9, 7, 5, 11, 12, 2, 14, 3, 10, 6, 5, 5]) == multiset([2, 3, 5, 5, 12, 9, 14, 7, 10, 6, 11, 5])
  {
    var a0 := [9, 7, 5, 11, 12, 2, 14, 3, 10, 6, 5, 5];
    var a1 := [2, 7, 5, 11, 12, 9, 14, 3, 10, 6, 5, 5];
    var a2 := [2, 3, 5, 11, 12, 9, 14, 7, 10, 6, 5, 5];
    var a3 := [2, 3, 5, 5, 12, 9, 14, 7, 10, 6, 11, 5];
    assert Swap(a0, 0, 5) == a1;
    assert Swap(a1, 1, 7) == a2;
    assert Swap(a2, 3, 10) == a3;
    SwapPerm(a0, 0, 5); SwapPerm(a1, 1, 7); SwapPerm(a2, 3, 10);
  }
  lemma ExampleSwapsFourToSix()
    ensures multiset([2, 3, 5, 5, 12, 9, 14, 7, 10, 6, 11, 5]) == multiset([2, 3, 5, 5, 5, 6, 7, 14, 10, 9, 11, 12])
  {
    var a3 := [2, 3, 5, 5, 12, 9, 14, 7, 10, 6, 11, 5];
    var a4 := [2, 3, 5, 5, 5, 9, 14, 7, 10, 6, 11, 12];
    var a5 := [2, 3, 5, 5, 5, 6, 14, 7, 10, 9, 11, 12];
    var a6 := [2, 3, 5, 5, 5, 6, 7, 14, 10, 9, 11, 12];
    assert Swap(a3, 4, 11) == a4;
    assert Swap(a4, 5, 9) == a5;
    assert Swap(a5, 6, 7) == a6;
    SwapPerm(a3, 4, 11); SwapPerm(a4, 5, 9); SwapPerm(a5, 6, 7);
  }
  lemma ExampleSwapsSevenToNine()
    ensures multiset([2, 3, 5, 5, 5, 6, 7, 14, 10, 9, 11, 12]) == multiset([2, 3, 5, 5, 5, 6, 7, 9, 10, 11, 12, 14])
  {
    var a6 := [2, 3, 5, 5, 5, 6, 7, 14, 10, 9, 11, 12];
    var a7 := [2, 3, 5, 5, 5, 6, 7, 9, 10, 14, 11, 12];
    var a8 := [2, 3, 5, 5, 5, 6, 7, 9, 10, 11, 14, 12];
    var a9 := [2, 3, 5, 5, 5, 6, 7, 9, 10, 11, 12, 14];
    assert Swap(a6, 7, 9) == a7;
    assert Swap(a7, 9, 10) == a8;
    assert Swap(a8, 10, 11) == a9;
    SwapPerm(a6, 7, 9); SwapPerm(a7, 9, 10); SwapPerm(a8, 10, 11);
  }
  lemma ExamplePermutation()
    ensures multiset([9, 7, 5, 11, 12, 2, 14, 3, 10, 6, 5, 5]) == multiset([2, 3, 5, 5, 5, 6, 7, 9, 10, 11, 12, 14])
  {
    ExampleSwapsOneToThree();
    ExampleSwapsFourToSix();
    ExampleSwapsSevenToNine();
  }

  lemma ExampleSorted()
    ensures SortedAsc([2, 3, 5, 5, 5, 6, 7, 9, 10, 11, 12, 14])
  {
  }

  /** The example of the program, with three copies of 5. */
  lemma SortsTheExample()
    ensures QuickSort([9, 7, 5, 11, 12, 2, 14, 3, 10, 6, 5, 5]) == [2, 3, 5, 5, 5, 6, 7, 9, 10, 11, 12, 14]
  {
    ExamplePermutation();
    ExampleSorted();
    QuickSortIsTheSort([9, 7, 5, 11, 12, 2, 14, 3, 10, 6, 5, 5], [2, 3, 5, 5, 5, 6, 7, 9, 10, 11, 12, 14]);
  }
}
