/** The library's own test cases, checked against the model: each method
    calls a modelled routine on the test's input and proves from that
    routine's contract alone that it returns the test's expected answer. */
module TestCases {
  import opened Wrappers
  import opened Ordering
  import BinarySearch
  import Rank
  import Efficient
  import Linear

  /** Integers in ascending order, neighbour by neighbour. */
  ghost predicate Ascending(t: seq<int>) {
    forall n :: 0 <= n < |t| - 1 ==> t[n] <= t[n + 1]
  }

  /** Over the integers there is one ascending arrangement of a multiset. */
  lemma SortedIntsUnique(r: seq<int>, t: seq<int>)
    requires Sorted(IntOrder, r) && Ascending(t)
    requires multiset(r) == multiset(t)
    ensures r == t
  {
    IntOrderIsTotalOrder();
    SortedIffAdjacent(IntOrder, t);
    SortedPermUnique(IntOrder, r, t);
  }

  /** The selected value is the one at rank `k` of the ascending
      arrangement `t` of the input. */
  lemma SelectedIsSortedAt(items: seq<int>, t: seq<int>, k: int, v: int)
    requires Ascending(t) && multiset(t) == multiset(items) && 0 <= k < |t|
    requires IsOrderStatistic(IntOrder, items, k, v)
    ensures v == t[k]
  {
    IntOrderIsTotalOrder();
    SortedIffAdjacent(IntOrder, t);
    Rank.QuickSelectIsSortedAt(IntOrder, items, t, k, v);
  }

  /** `test_binary_search`: 3 is found at index 3 of `[0, .., 9]`, and 10 is
      not found. */
  method BinarySearchCases() returns (found: Option<nat>, missing: Option<nat>)
    ensures found == Some(3) && missing == None
  {
    var items := [0, 1, 2, 3, 4, 5, 6, 7, 8, 9];
    assert forall i :: 0 <= i < |items| ==> items[i] == i;
    assert Sorted(IntOrder, items);
    assert items[3] == 3;
    found := BinarySearch.BinarySearch(3, items);
    missing := BinarySearch.BinarySearch(10, items);
  }

  /** `test_selection`: ranks 2, 0 and 4 of `[3, 1, 2, 4, 0]` are 2, 0
      and 4. */
  method SelectionCases() returns (median: int, least: int, greatest: int)
    ensures median == 2 && least == 0 && greatest == 4
  {
    var items, t := [3, 1, 2, 4, 0], [0, 1, 2, 3, 4];
    SelectionInput(); SelectionAnswer(); SelectionReorder();
    // Each query works on a fresh copy of the list.
    var copy;
    median, copy := SelectInts(items, t, 2);
    least, copy := SelectInts(items, t, 0);
    greatest, copy := SelectInts(items, t, 4);
  }

  /** `test_duplicates`: ranks 0 and 4 of `[1, 2, 1, 2, 1]` are 1 and 2. The
      second query runs on the list as the first one rearranged it. */
  method DuplicateSelectionCases() returns (least: int, greatest: int)
    ensures least == 1 && greatest == 2
  {
    var items, t := [1, 2, 1, 2, 1], [1, 1, 1, 2, 2];
    SelectionDupInput(); SelectionDupAnswer(); SelectionDupReorder();
    var after;
    least, after := SelectInts(items, t, 0);
    greatest, after := SelectInts(after, t, 4);
  }

  /** `quick_select` under the default integer order, for a rank in range:
      the entry at rank `k` of the ascending arrangement `t`, and the list as
      the call leaves it, still a rearrangement of `t`. */
  method SelectInts(items: seq<int>, t: seq<int>, k: int) returns (v: int, after: seq<int>)
    requires Ascending(t) && multiset(t) == multiset(items) && 0 <= k < |t|
    ensures v == t[k]
    ensures multiset(after) == multiset(t)
  {
    IntOrderIsTotalOrder();
    assert |t| == |multiset(t)| == |items|;
    var res;
    res, after := Rank.QuickSelect(items, k, IntOrder);
    v := res.value;
    SelectedIsSortedAt(items, t, k, v);
  }

  /** `merge_sort` under the default integer order returns the ascending
      arrangement of its input. */
  method MergeSortInts(items: seq<int>, t: seq<int>) returns (r: seq<int>)
    requires Ascending(t) && multiset(t) == multiset(items)
    ensures r == t
  {
    IntOrderIsTotalOrder();
    r := Efficient.MergeSort(items, IntOrder);
    SortedIntsUnique(r, t);
  }

  /** `quick_sort` under the default integer order returns the ascending
      arrangement of its input. */
  method QuickSortInts(items: seq<int>, t: seq<int>) returns (r: seq<int>)
    requires Ascending(t) && multiset(t) == multiset(items)
    ensures r == t
  {
    IntOrderIsTotalOrder();
    r := Efficient.QuickSort(items, IntOrder);
    SortedIntsUnique(r, t);
  }

  // The multisets of the tests' inputs and answers. Each equality goes
  // through multiset displays, one step per lemma.

  lemma SortingInput() ensures multiset([4, 2, 7, 1, 3]) == multiset{4, 2, 7, 1, 3} {}
  lemma SortingAnswer() ensures multiset([1, 2, 3, 4, 7]) == multiset{1, 2, 3, 4, 7} {}
  lemma SortingReorder() ensures multiset{4, 2, 7, 1, 3} == multiset{1, 2, 3, 4, 7} {}

  lemma SortingDupInput() ensures multiset([2, 1, 2, 1]) == multiset{2, 1, 2, 1} {}
  lemma SortingDupAnswer() ensures multiset([1, 1, 2, 2]) == multiset{1, 1, 2, 2} {}
  lemma SortingDupReorder() ensures multiset{2, 1, 2, 1} == multiset{1, 1, 2, 2} {}

  lemma CountingInput() ensures multiset([4, 1, 3, 4, 3]) == multiset{4, 1, 3, 4, 3} {}
  lemma CountingAnswer() ensures multiset([1, 3, 3, 4, 4]) == multiset{1, 3, 3, 4, 4} {}
  lemma CountingReorder() ensures multiset{4, 1, 3, 4, 3} == multiset{1, 3, 3, 4, 4} {}

  lemma RadixInput()
    ensures multiset([170, 45, 75, 90, 802, 24, 2, 66]) == multiset{170, 45, 75, 90, 802, 24, 2, 66}
  {}
  lemma RadixAnswer()
    ensures multiset([2, 24, 45, 66, 75, 90, 170, 802]) == multiset{2, 24, 45, 66, 75, 90, 170, 802}
  {}
  lemma RadixReorder()
    ensures multiset{170, 45, 75, 90, 802, 24, 2, 66} == multiset{2, 24, 45, 66, 75, 90, 170, 802}
  {}

  lemma RadixAnswerAscending() ensures Ascending([2, 24, 45, 66, 75, 90, 170, 802]) {}
  lemma RadixInputNonNegative()
    ensures var s := [170, 45, 75, 90, 802, 24, 2, 66]; forall i :: 0 <= i < |s| ==> 0 <= s[i]
  {}

  lemma SelectionInput() ensures multiset([3, 1, 2, 4, 0]) == multiset{3, 1, 2, 4, 0} {}
  lemma SelectionAnswer() ensures multiset([0, 1, 2, 3, 4]) == multiset{0, 1, 2, 3, 4} {}
  lemma SelectionReorder() ensures multiset{3, 1, 2, 4, 0} == multiset{0, 1, 2, 3, 4} {}

  lemma SelectionDupInput() ensures multiset([1, 2, 1, 2, 1]) == multiset{1, 2, 1, 2, 1} {}
  lemma SelectionDupAnswer() ensures multiset([1, 1, 1, 2, 2]) == multiset{1, 1, 1, 2, 2} {}
  lemma SelectionDupReorder() ensures multiset{1, 2, 1, 2, 1} == multiset{1, 1, 1, 2, 2} {}

  /** `test_efficient_sorting`, for merge sort, on distinct values. */
  method MergeSortCase() returns (r: seq<int>)
    ensures r == [1, 2, 3, 4, 7]
  {
    SortingInput(); SortingAnswer(); SortingReorder();
    r := MergeSortInts([4, 2, 7, 1, 3], [1, 2, 3, 4, 7]);
  }

  /** `test_efficient_sorting`, for merge sort, with duplicates. */
  method MergeSortDuplicatesCase() returns (r: seq<int>)
    ensures r == [1, 1, 2, 2]
  {
    SortingDupInput(); SortingDupAnswer(); SortingDupReorder();
    r := MergeSortInts([2, 1, 2, 1], [1, 1, 2, 2]);
  }

  /** `test_efficient_sorting`, for quick sort, on distinct values. */
  method QuickSortCase() returns (r: seq<int>)
    ensures r == [1, 2, 3, 4, 7]
  {
    SortingInput(); SortingAnswer(); SortingReorder();
    r := QuickSortInts([4, 2, 7, 1, 3], [1, 2, 3, 4, 7]);
  }

  /** `test_efficient_sorting`, for quick sort, with duplicates. */
  method QuickSortDuplicatesCase() returns (r: seq<int>)
    ensures r == [1, 1, 2, 2]
  {
    SortingDupInput(); SortingDupAnswer(); SortingDupReorder();
    r := QuickSortInts([2, 1, 2, 1], [1, 1, 2, 2]);
  }

  /** `counting_sort` with bound `k` returns the ascending arrangement of
      its input when every element lies in `[0, k]`. */
  method CountingSortInts(items: seq<int>, t: seq<int>, k: int) returns (r: seq<int>)
    requires Ascending(t) && multiset(t) == multiset(items)
    requires forall i :: 0 <= i < |items| ==> 0 <= items[i] <= k
    ensures r == t
  {
    r := Linear.CountingSort(items, k);
    SortedIntsUnique(r, t);
  }

  /** `radix_sort` in base 10 returns the ascending arrangement of a
      non-negative input. */
  method RadixSortInts(items: seq<int>, t: seq<int>) returns (r: seq<int>)
    requires Ascending(t) && multiset(t) == multiset(items)
    requires forall i :: 0 <= i < |items| ==> 0 <= items[i]
    ensures r == t
  {
    ghost var n, e;
    r, n, e := Linear.RadixSort(items, 10);
    SortedIntsUnique(r, t);
  }

  /** `test_counting_sort`. */
  method CountingSortCase() returns (r: seq<int>)
    ensures r == [1, 3, 3, 4, 4]
  {
    CountingInput(); CountingAnswer(); CountingReorder();
    r := CountingSortInts([4, 1, 3, 4, 3], [1, 3, 3, 4, 4], 4);
  }

  /** `test_radix_sort`, in the default base 10. */
  method RadixSortCase() returns (r: seq<int>)
    ensures r == [2, 24, 45, 66, 75, 90, 170, 802]
  {
    RadixInput(); RadixAnswer(); RadixReorder();
    RadixAnswerAscending(); RadixInputNonNegative();
    r := RadixSortInts([170, 45, 75, 90, 802, 24, 2, 66], [2, 24, 45, 66, 75, 90, 170, 802]);
  }

  /** On negative input `radix_sort` does not sort ascending: the largest
      element 3 needs one pass, so the result is the stable sort by `x % 10`,
      which puts 3 (digit 3) before -5 (digit 5). */
  method RadixNegativeCase() returns (r: seq<int>)
    ensures r == [3, -5]
  {
    var items := [-5, 3];
    ghost var n, e;
    r, n, e := Linear.RadixSort(items, 10);
    assert Linear.Max(items) == 3;
    assert Linear.IsPassCount(10, 3, 1);
    Linear.PassCountUnique(10, 3, n, 1);
    NegativeRadixAnswer();
  }

  /** `[3, -5]` is the stable sort of `[-5, 3]` by `x % 10`. */
  lemma NegativeRadixAnswer()
    ensures [3, -5] == Linear.Buckets([-5, 3], Linear.Low(10), 10)
  {
    var items, r, key := [-5, 3], [3, -5], Linear.Low(10);
    assert Linear.KeysBelow(items, key, 10);
    assert Linear.SortedByKey(r, key);
    forall d
      ensures Linear.KeyClass(r, key, d) == Linear.KeyClass(items, key, d)
    {
      assert r == [3] + [-5] && items == [-5] + [3];
    }
    Linear.BucketsUnique(items, r, key, 10);
  }
}
