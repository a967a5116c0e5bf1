# WB-L1 algorithms in Dafny

This project models four small algorithmic exercises of the WB-L1 Go
repository and proves what each of them promises:

- **Binary search** (`binary_search.dfy`, module `BinarySearch`). The
  recursive variant is the function `SearchRec` on a closed index range. The
  iterative variant is the method `SearchIterative`, which has the same
  halving loop. The method is proved to return what `SearchRec` returns on the
  whole slice. Both return either -1 or an index holding the target. On an
  ascending slice, -1 comes back exactly when the target is absent.
- **Quicksort** (`quicksort.dfy`, module `Quicksort`). The pivot is the middle
  element. One pass (`Partition`, and its loop form `PartitionLoop`) appends
  every element to the slice for less, equal or greater, in input order. The
  result is the sorted lower part, the equal part and the sorted upper part.
  `QuickSort` returns an ascending permutation of its input. A sorted
  permutation is unique, so `QuickSort` agrees with any other sort.
- **String set** (`string_set.dfy`, module `StringSet`). `MakeSet` fills a map
  whose keys are the strings of the slice. It then copies the keys into a new
  slice, in whatever order the map yields them. The result holds every
  distinct string of the input exactly once.
- **Bit set** (`bit_set.dfy`, module `BitSet`). `SetBit` sets or clears bit
  `i` of a 64-bit signed integer with the mask `1 << i`. The requested bit
  takes the requested value and every other bit stays as it was. A position
  of 64 or more leaves the number unchanged, because the mask is then 0.

`ordering.dfy` (module `Ordering`) holds the ascending-order predicate shared
by the search and the sort.

Go slices that are only read are modelled as Dafny sequences. The slices the
sort and the set build are modelled as new sequences. An `int64` is modelled
by its 64-bit two's-complement pattern (`bv64`), and a Go `uint` shift amount
as a `bv64`. The recursive binary search requires its range to lie inside the
slice, or to be empty. Outside that, the Go code may index out of bounds and
panic. The only call in the program passes `0` and `len(arr)-1`, which meets
this requirement.

## Model

| member | source | states |
|---|---|---|
| BinarySearch.Mid | Task17_BinarySearch/main17.go:10 | the midpoint `left + (right-left)/2` of a non-empty range lies inside the range |
| BinarySearch.SearchRec | Task17_BinarySearch/main17.go:24-37 | an empty range gives -1; any other result is an index of the range holding the target; on an ascending slice the result is -1 exactly when the target occurs nowhere in the range |
| BinarySearch.SearchIterative | Task17_BinarySearch/main17.go:6-21 | returns the same as the recursive variant on the whole slice; -1 or an index holding the target; on an ascending slice -1 exactly when the target is not in the slice; an empty slice gives -1 |
| BinarySearch.FindsSevenAtThree | Task17_BinarySearch/main17.go:40-48 | searching 7 in 1, 3, …, 15 over the whole slice gives index 3 |
| BinarySearch.MissingTarget | Task17_BinarySearch/main17.go:55 | searching 8, which is absent from the sorted example slice, gives -1 |
| Quicksort.Place | Task16_Quicksort/main16.go:18-25 | one element goes to the slice of its case: every part stays on its side of the pivot, and the parts gain exactly that element and one entry |
| Quicksort.Partition | Task16_Quicksort/main16.go:15-26 | less holds only elements below the pivot, equal only the pivot, greater only elements above it; together they hold exactly the input's elements (as a multiset) and its number of entries |
| Quicksort.PartitionLoop | Task16_Quicksort/main16.go:15-26 | the loop produces the same three slices as `Partition`, with the same side and multiset guarantees |
| Quicksort.PartitionShrinks | Task16_Quicksort/main16.go:12-29 | with the pivot taken from the input, both slices passed to the recursive calls are strictly shorter than the input |
| Quicksort.SortedJoin | Task16_Quicksort/main16.go:29 | sorted lower part, then the equal part, then the sorted upper part, is sorted |
| Quicksort.QuickSort | Task16_Quicksort/main16.go:5-30 | the result is ascending and a permutation (same multiset) of the input; an input of length 0 or 1 comes back unchanged |
| Quicksort.SortedPermutationUnique | Task16_Quicksort/main16.go:41-43 | two ascending sequences with the same multiset of elements are equal |
| Quicksort.QuickSortIsTheSort | Task16_Quicksort/main16.go:41-43 | for every ascending permutation t of s, `QuickSort(s)` equals t |
| Quicksort.QuickSortIdempotent | Task16_Quicksort/main16.go:5-30 | sorting a sorted result again returns it unchanged |
| Quicksort.SortsTheExample | Task16_Quicksort/main16.go:33-37 | the example slice 9, 7, 5, 11, 12, 2, 14, 3, 10, 6, 5, 5 sorts to 2, 3, 5, 5, 5, 6, 7, 9, 10, 11, 12, 14 |
| StringSet.MakeSet | Task12_StringSet/main12.go:6-18 | a string is in the result exactly when it is in the input; no duplicates; the length is the number of distinct input strings, so at most the input length; an empty input gives an empty result |
| StringSet.ElementsBound | Task12_StringSet/main12.go:8-13 | a slice has at most as many distinct strings as entries, so the map never has more keys than the slice has entries |
| StringSet.DistinctLength | Task12_StringSet/main12.go:14-16 | a slice without duplicates has exactly as many entries as distinct strings |
| StringSet.ExampleSet | Task12_StringSet/main12.go:21-29 | any result allowed for "cat", "cat", "dog", "cat", "tree" consists of exactly "cat", "dog" and "tree", three entries |
| BitSet.Mask | Task8_BitSet/main8.go:9 | the mask `int64(1) << i` is 0 exactly when the position is 64 or more, and never has more than one bit set |
| BitSet.SetBit | Task8_BitSet/main8.go:6-16 | value 1 sets the mask's bit (the OR branch) and every other value clears it (the AND NOT branch); the contract states that a position of 64 or more returns n, and the lemmas below give the result bit by bit |
| BitSet.MaskBit | Task8_BitSet/main8.go:9 | for a position below 64 the mask has exactly that bit set; for 64 or more it has no bit set |
| BitSet.SetBitTarget | Task8_BitSet/main8.go:6-16 | bit i of the result is 1 when value is 1, and 0 for every other value |
| BitSet.SetBitRest | Task8_BitSet/main8.go:6-16 | once bit i is cleared in both, the result equals n: nothing outside position i changes |
| BitSet.SetBitAt | Task8_BitSet/main8.go:6-16 | bit k of the result is the requested value when k is i, and bit k of n otherwise |
| BitSet.SetBitKeepsOthers | Task8_BitSet/main8.go:6-16 | every bit other than i is the same in n and in the result |
| BitSet.SetBitOutOfRange | Task8_BitSet/main8.go:9-15 | a position of 64 or more leaves n unchanged, in both branches |
| BitSet.SetBitIdempotent | Task8_BitSet/main8.go:6-16 | applying the same update twice equals applying it once |
| BitSet.SetBitNoChange | Task8_BitSet/main8.go:11-15 | when bit i of n already has the requested value, the result is n |
| BitSet.ClearLowestBitOfFive | Task8_BitSet/main8.go:20-24 | clearing bit 0 of 5 gives 4 |

## Left out

- The concurrency exercises are not part of this model: the worker pool, graceful shutdown, channel timeout, goroutine termination, concurrent map writes, the number pipeline and the concurrent counter. They need goroutines and channels.
- The runtime type detection exercise is not part of this model, because it uses reflection on `interface{}` values.
- The big-number calculator is not part of this model, because it reads standard input and uses arbitrary-precision library types.
- The struct embedding exercise is not part of this model, because it has no algorithm to verify.
- The `main` functions and their printing are left out. Their example inputs are kept as the example lemmas.
- SearchRec: Go's 64-bit `int` is modelled as an unbounded integer. For indices of a real slice, the midpoint and `mid+1`/`mid-1` stay far inside the 64-bit range.
- QuickSort: for inputs of length 0 or 1, Go returns the argument slice itself, sharing its backing array. The model returns an equal sequence. Aliasing and `append`'s reuse of spare capacity are not modelled.
- MakeSet: the capacity hint given to `make` has no effect on contents and is not modelled. Go's unspecified map iteration order is modelled by choosing any key not yet copied. Every contract holds whatever the order.
- SetBit: the `value` parameter (Go `int` on a 64-bit platform) is modelled as a 64-bit signed integer. The signed value of the result is not computed, only its bit pattern.
