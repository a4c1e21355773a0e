# codex search and sort core, in Dafny

A model of the algorithmic core of `codex`, a small library of classic
sequence algorithms, with proofs of what each routine promises:

- **Binary search** (`codex.search.binary`): exact search over a sequence
  sorted in ascending order. It returns some index that holds the target, or
  nothing.
- **Quick-select** (`codex.search.rank`): the k-th smallest element, using a
  random pivot and a Lomuto partition. It reorders the list in place.
- **Merge sort and quick sort** (`codex.sort.efficient`): comparison sorts
  that work in place. Merge sort is top-down with a stable merge. Quick sort
  uses Hoare's partition around the middle element.
- **Counting sort and radix sort** (`codex.sort.linear`): integer sorts that
  return a new list. Each is built from one counting pass: a histogram of
  keys, prefix sums, then a right-to-left placement.

How the model is built:

- **In-place updates.** Every in-place routine is a method on `seq<T>`. It
  takes the list's contents before the call and returns the contents after.
- **Orderings.** A comparison function `f: (T, T) -> int` returns a negative
  number, zero or a positive number, as `codex.types.Ordering` does. Where a
  proof needs it, `f` is required to be an `Ordering.Comparator`. That means
  `f(a, b) <= 0` is transitive, and `f` is sign-consistent:
  `f(a, b) < 0` exactly when `f(b, a) > 0`. Sign consistency is more than a
  total preorder gives. It is needed for two reasons:
  - Hoare's partition scans with the strict tests `f(x, pivot) < 0` and
    `f(x, pivot) > 0`. Each scan must stop at an element the other scan
    skips.
  - Stability is stated through `Ordering.Equivs`, the elements with
    `f(x, v) == 0`. That relation must be an equivalence.
  - Order statistics count the elements with `f(x, v) < 0` and those with
    `f(x, v) <= 0` (`Ordering.CountLess` and `Ordering.CountLeq`). These
    counts only relate to a sorted arrangement when `f` is sign-consistent.
- **Integer order.** Python's default order on integers is `Ordering.IntOrder`.
- **Linear sorts.** They share one counting pass, `Linear.CountingSortByKey`,
  which sorts by a key:
  - `Value`, the element itself, for `counting_sort`;
  - `Digit(exp, base)`, the digit `(x // exp) % base`, for
    `_counting_sort_by_digit`;
  - `Low(m)`, the value `x % m`, used in the proofs about the radix passes.
- **The reference stable sort.** Every result of a counting pass is compared
  against `Linear.Buckets`, which lists the elements of key 0, then key 1,
  and so on, each class in input order.

Files:

- `wrappers.dfy` holds `Option` and `Result`.
- `sequences.dfy` and `ordering.dfy` hold shared definitions: filters, window
  permutations, sortedness, stability and order statistics.
- Each source module has one file: `binary.dfy`, `rank.dfy`, `efficient.dfy`
  and `linear.dfy`.
- `cases.dfy` restates the library's unit tests as proofs about the model. Each case
  proves, from the contracts alone, that the modelled routine returns the
  answer the test expects.

## Model

| member | source | states |
|---|---|---|
| BinarySearch.BinarySearch | src/codex/search/binary.py:4-17 | Any index returned holds the target. On sorted input, nothing is returned exactly when the target is absent. Empty input gives nothing. |
| Rank.QuickSelect | src/codex/search/rank.py:5-14 | A rank outside `[0, len)` is rejected with the index error and the list is untouched. Any other rank gives the k-th order statistic: fewer than k+1 elements compare below it, and more than k compare at or below it. The list ends up a permutation of itself. |
| Rank.QuickSelectIsSortedAt | src/codex/search/rank.py:5-14 | The selected value compares equal to position k of every sorted permutation of the input. Under an antisymmetric order, such as the integers, it is that element itself. |
| Rank.Select | src/codex/search/rank.py:16-33 | Only the window `[low, high]` is rearranged. Position k ends up holding the returned value, with nothing above it before k and nothing below it after k in the window. |
| Rank.PivotAndPartition | src/codex/search/rank.py:22-26 | For any pivot index in the window, moving that element to the end and partitioning rearranges only the window. The pivot ends at the returned split, with smaller-or-equal elements before it and larger ones after it. |
| Rank.LomutoPartition | src/codex/search/rank.py:35-45 | The last element of the window lands at the returned index. Everything before it in the window is at most it, everything after is above it, and nothing outside the window moves. |
| Rank.LomutoSwapStep | src/codex/search/rank.py:40-43 | Swapping an element that is at most the pivot to the boundary keeps the partition invariant: the small part, the large part, the untouched pivot and the frame. |
| Rank.LomutoFinish | src/codex/search/rank.py:44-45 | The final swap puts the pivot between the two parts and leaves the rest of the list alone. |
| Efficient.MergeSort | src/codex/sort/efficient.py:4-39 | The result is a sorted permutation of the input. It is stable: the elements equivalent to any value keep their input order. A sorted input comes back unchanged. |
| Efficient.Merge | src/codex/sort/efficient.py:21-39 | The three loops write exactly the reference merge of the two halves into the list. The reference takes the smaller head, takes the left head on ties, and appends the rest. |
| Efficient.MergeWhileBoth | src/codex/sort/efficient.py:21-29 | When the first loop stops, one half is used up. The list prefix written so far is the reference merge of the used parts. |
| Efficient.CopyLeftRest | src/codex/sort/efficient.py:31-34 | Copying the rest of the left half completes the left half. What is written is still the reference merge of what was consumed. |
| Efficient.CopyRightRest | src/codex/sort/efficient.py:36-39 | Copying the rest of the right half completes the right half. What is written is still the reference merge of what was consumed. |
| Efficient.MergePerm | src/codex/sort/efficient.py:21-39 | The merge holds every element of both halves, each as often as the two halves together do. |
| Efficient.MergeSorted | src/codex/sort/efficient.py:21-39 | Merging two sorted runs gives a sorted run. |
| Efficient.MergeStable | src/codex/sort/efficient.py:22-28 | Taking the left element on ties keeps, for every value, the left run's equivalent elements before the right run's, each in its own order. |
| Efficient.MergeOfSortedConcat | src/codex/sort/efficient.py:21-39 | Merging the two halves of an already sorted list gives back that list. |
| Efficient.QuickSort | src/codex/sort/efficient.py:41-68 | The result is a sorted permutation of the input. Under an antisymmetric order it is the only sorted permutation. |
| Efficient.QuickSortRange | src/codex/sort/efficient.py:47-51 | Sorting `[low, high]` rearranges only that window and leaves it sorted. |
| Efficient.HoarePartition | src/codex/sort/efficient.py:53-66 | The split is strictly inside the window, so both recursive calls shrink. Only the window is rearranged. Every element up to the split is at most every element after it. |
| Efficient.HoareSweep | src/codex/sort/efficient.py:54-66 | Around the middle element's value, the sweep leaves elements at most the pivot up to the split and at least the pivot after it. It permutes only the window. |
| Efficient.ScanUp | src/codex/sort/efficient.py:58-60 | The left cursor stops at the first element not below the pivot. It never passes a position already known to hold such an element. |
| Efficient.ScanDown | src/codex/sort/efficient.py:61-63 | The right cursor stops at the first element not above the pivot. It never passes a position already known to hold such an element. |
| Linear.CountingSort | src/codex/sort/linear.py:4-25 | For values in `[0, k]`, the result has the input's length. It is a permutation in ascending order, and equal values keep their input order. |
| Linear.CountingSortByDigit | src/codex/sort/linear.py:41-55 | The result is a permutation ordered by the digit `(x // exp) % base`. Elements with equal digits keep their input order. |
| Linear.RadixSort | src/codex/sort/linear.py:27-39 | The result is a permutation. Empty input comes back unchanged. Non-negative input comes back in ascending order. For any input the result is the stable sort by `x % e`, where `e = base^n` and `n` is the pass count: `base^n` is the first power of the base above the largest element. |
| Linear.PowMono | src/codex/sort/linear.py:37 | Multiplying the exponent by a base of at least 2 never shrinks it: `base^i <= base^j` for `i <= j`. |
| Linear.PassCountUnique | src/codex/sort/linear.py:35-37 | The number of passes, and so the final modulus `e`, is determined by the largest element. So the radix sort contract fixes the result for every input, negative elements included. |
| Linear.CountingSortByKey | src/codex/sort/linear.py:11-23 | Histogram, prefix sums and right-to-left placement together give exactly the stable sort by key. |
| Linear.Histogram | src/codex/sort/linear.py:11-13 | Counter d ends up holding the number of elements whose key is d. |
| Linear.PrefixSums | src/codex/sort/linear.py:16-17 | Counter d ends up holding the total of counters 0 through d. |
| Linear.SumOfClassSizes | src/codex/sort/linear.py:16-17 | The total of the first d histogram counters is the length of the stable sort restricted to keys below d. So after the prefix sums, each counter marks where its key class ends. |
| Linear.Place | src/codex/sort/linear.py:19-23 | Given the class ends, writing elements from the last to the first into the slot below their key's counter produces the stable sort by key. It wraps `PlaceLoop`. |
| Linear.PlaceLoop | src/codex/sort/linear.py:19-23 | The right-to-left loop itself, also used at lines 50-54. At exit every class's counter has come down to where the class starts, and each class's segment holds that class in input order. |
| Linear.PlaceStep | src/codex/sort/linear.py:21-23 | Each step decrements a counter that stays inside its own class. The slot written extends that class's filled segment by the element, in input order, and touches no other class. |
| Linear.BucketsPerm | src/codex/sort/linear.py:7-9 | When every key is below n, the reference stable sort is a permutation of the input. |
| Linear.BucketsSorted | src/codex/sort/linear.py:7-9 | The reference stable sort is ordered by key. |
| Linear.BucketsStable | src/codex/sort/linear.py:7-9 | In the reference stable sort, every key class is the input's class, in input order. |
| Linear.BucketsUnique | src/codex/sort/linear.py:7-9 | Any sequence ordered by key that keeps every key class in input order is the reference stable sort. A sorted, stable result is therefore unique. |
| Linear.RadixStep | src/codex/sort/linear.py:35-37 | A stable pass by the digit at position e turns a permutation sorted by `x % e`, with each class in input order, into one sorted by `x % (e * base)`, with each class in input order. |
| Linear.DigitPassSorted | src/codex/sort/linear.py:35-37 | A digit pass over a sequence sorted by `x % e` gives one sorted by `x % (e * base)`. |
| Linear.DigitPassStable | src/codex/sort/linear.py:35-37 | A digit pass keeps the elements of each class of `x % (e * base)` in input order, given that the earlier passes did so for `x % e`. |
| Linear.RadixEnd | src/codex/sort/linear.py:35-39 | Once `max // exp` is 0, the invariant forces the result to be the stable sort by `x % exp`, which for non-negative input is ascending order. |
| Linear.LowSplit | src/codex/sort/linear.py:44 | `x % (e * b)` is the digit `(x // e) % b` times e, plus `x % e`. |
| Linear.Max | src/codex/sort/linear.py:31 | The maximum is an element of the list and bounds every element. |
| TestCases.SelectInts | src/codex/search/rank.py:5-14 | On integers with a rank in range, `quick_select` returns the entry at that rank of the ascending arrangement. It leaves the list a rearrangement of the input. |
| TestCases.MergeSortInts | src/codex/sort/efficient.py:4-39 | On integers, `merge_sort` leaves the list in the unique ascending arrangement of its elements. |
| TestCases.QuickSortInts | src/codex/sort/efficient.py:41-68 | On integers, `quick_sort` leaves the list in the unique ascending arrangement of its elements. |
| TestCases.CountingSortInts | src/codex/sort/linear.py:4-25 | On integers in `[0, k]`, `counting_sort` returns the unique ascending arrangement. |
| TestCases.RadixSortInts | src/codex/sort/linear.py:27-39 | On non-negative integers, `radix_sort` in base 10 returns the unique ascending arrangement. |
| TestCases.BinarySearchCases | tests/search/test_binary.py:3-7 | In `[0, .., 9]`, 3 is found at index 3 and 10 is not found. |
| TestCases.SelectionCases | tests/search/test_rank.py:4-11 | In `[3, 1, 2, 4, 0]`, ranks 2, 0 and 4 are 2, 0 and 4. |
| TestCases.DuplicateSelectionCases | tests/search/test_rank.py:13-16 | In `[1, 2, 1, 2, 1]`, rank 0 is 1. Rank 4 is 2, on the list as the first call left it. |
| TestCases.MergeSortCase | tests/sort/test_efficient.py:4-8 | Merge sort turns `[4, 2, 7, 1, 3]` into `[1, 2, 3, 4, 7]`. |
| TestCases.MergeSortDuplicatesCase | tests/sort/test_efficient.py:10-13 | Merge sort turns `[2, 1, 2, 1]` into `[1, 1, 2, 2]`. |
| TestCases.QuickSortCase | tests/sort/test_efficient.py:4-8 | Quick sort turns `[4, 2, 7, 1, 3]` into `[1, 2, 3, 4, 7]`. |
| TestCases.QuickSortDuplicatesCase | tests/sort/test_efficient.py:10-13 | Quick sort turns `[2, 1, 2, 1]` into `[1, 1, 2, 2]`. |
| TestCases.CountingSortCase | tests/sort/test_linear_sort.py:4-7 | Counting sort with bound 4 turns `[4, 1, 3, 4, 3]` into `[1, 3, 3, 4, 4]`. |
| TestCases.RadixSortCase | tests/sort/test_linear_sort.py:9-12 | Radix sort in base 10 turns `[170, 45, 75, 90, 802, 24, 2, 66]` into `[2, 24, 45, 66, 75, 90, 170, 802]`. |
| TestCases.RadixNegativeCase | src/codex/sort/linear.py:27-39 | On negative input the result is not ascending. In base 10, `[-5, 3]` makes one pass and comes back as `[3, -5]`, ordered by `x % 10`. |

## Left out

- `median_of_medians` (rank.py:47-63) defines a helper `_get_pivot` but never calls it. Its select step is a TODO, so the function ends without a `return` and gives `None` for every input. It has no result worth modelling.
- The random pivot of `_select` is an arbitrary choice in `[low, high]`, so every property holds whatever the random number generator returns.
- `binary_search` takes an ordering `f` that it never uses, so the model has no such argument. The model searches integers; the source works on any type with `==` and `<`.
- `codex.types` is not part of this model. `Ordering` is a function to `int`. `default_order` on integers is `Ordering.IntOrder`. The other routines take `f` explicitly instead of defaulting it. Likewise `radix_sort`'s default `base=10` (linear.py:27) is not modelled: the model always takes `base` explicitly.
- Efficient.MergeSort: requires a sign-consistent `Ordering.Comparator`. The merge at efficient.py:23 only tests `f(l, r) <= 0`, so the source also sorts under a comparator that is only a total preorder, such as `f(a, b) = 0 if a <= b else 1`. The model does not cover such comparators.
- Mutation of the caller's list is modelled as returning the new contents. Aliasing and object identity are not modelled. This includes `radix_sort` returning the same list object for empty input: the model returns an equal sequence.
- Linear.CountingSort: requires every element to be in `[0, k]`. In the source, a value above `k` raises `IndexError` at linear.py:13. A value in `[-(k+1), -1]` silently indexes the counters from the end. A value below `-(k+1)` raises `IndexError` there too. None of these behaviours is modelled.
- Linear.RadixSort: requires `base >= 2`. With base 1 the source loops forever on non-empty input with a positive maximum. With base 0 it raises `ZeroDivisionError` on the first pass. Negative bases are not modelled either.
- `bisect_left`, `bisect_right`, `find_first` and the integer square root are not part of this model. The tests import the two bisections, but `binary.py` defines none of these functions.
- Running time, auxiliary space and recursion depth are not modelled. This includes quick sort's worst case and Python's recursion limit.
