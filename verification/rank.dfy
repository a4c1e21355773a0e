/** Quick-select (`codex.search.rank`): Lomuto partition around a pivot moved
    to the end of the window, then recursion into the one side that holds the
    wanted rank. The list is reordered in place; here each routine takes the
    contents before the call and returns the contents after it. */
module Rank {
  import opened Wrappers
  import opened Sequences
  import opened Ordering

  /** The `IndexError` raised for a rank outside `[0, len(items))`. */
  datatype SelectError = RankOutOfBounds

  /** Lomuto partition of `s[low..high]` around the pivot value `s[high]`:
      the pivot ends at the returned position `p`, everything before it in the
      window is at most the pivot, everything after it is above the pivot,
      and nothing outside the window moves. */
  method LomutoPartition<T>(s: seq<T>, low: int, high: int, f: (T, T) -> int) returns (r: seq<T>, p: int)
    requires 0 <= low <= high < |s|
    ensures low <= p <= high
    ensures PermutesWindow(s, r, low, high + 1)
    ensures r[p] == s[high]
    ensures forall m :: low <= m < p ==> f(r[m], s[high]) <= 0
    ensures forall m :: p < m <= high ==> f(r[m], s[high]) > 0
  {
    var pivot := s[high];
    r := s;
    var i := low;
    for j := low to high
      invariant low <= i <= j
      invariant LomutoInvariant(s, r, low, high, i, j, f)
    {
      if f(r[j], pivot) <= 0 {
        LomutoSwapStep(s, r, low, high, i, j, f);
        r := Swap(r, i, j);
        i := i + 1;
      }
    }
    LomutoFinish(s, r, low, high, i, f);
    r := Swap(r, i, high);
    p := i;
  }

  /** Loop invariant of `_partition`: nothing outside `[low, high)` has
      moved, the pivot `s[high]` is still in place, `[low, i)` holds elements
      at most the pivot and `[i, j)` elements above it. */
  ghost predicate LomutoInvariant<T>(s: seq<T>, r: seq<T>, low: int, high: int, i: int, j: int, f: (T, T) -> int)
    requires 0 <= low <= i <= j <= high < |s|
  {
    && |r| == |s| && multiset(r) == multiset(s)
    && (forall m :: 0 <= m < low ==> r[m] == s[m])
    && (forall m :: high <= m < |s| ==> r[m] == s[m])
    && (forall m :: low <= m < i ==> f(r[m], s[high]) <= 0)
    && (forall m :: i <= m < j ==> f(r[m], s[high]) > 0)
  }

  /** An element at most the pivot is swapped to the end of the lower part. */
  lemma LomutoSwapStep<T>(s: seq<T>, r: seq<T>, low: int, high: int, i: int, j: int, f: (T, T) -> int)
    requires 0 <= low <= i <= j < high < |s|
    requires LomutoInvariant(s, r, low, high, i, j, f)
    requires f(r[j], s[high]) <= 0
    ensures LomutoInvariant(s, Swap(r, i, j), low, high, i + 1, j + 1, f)
  {
    var r' := Swap(r, i, j);
    forall m | 0 <= m < |s| && m != i && m != j
      ensures r'[m] == r[m]
    {
    }
  }

  /** The final swap puts the pivot between the two parts. */
  lemma LomutoFinish<T>(s: seq<T>, r: seq<T>, low: int, high: int, i: int, f: (T, T) -> int)
    requires 0 <= low <= i <= high < |s|
    requires LomutoInvariant(s, r, low, high, i, high, f)
    ensures PermutesWindow(s, Swap(r, i, high), low, high + 1)
    ensures Swap(r, i, high)[i] == s[high]
    ensures forall m :: low <= m < i ==> f(Swap(r, i, high)[m], s[high]) <= 0
    ensures forall m :: i < m <= high ==> f(Swap(r, i, high)[m], s[high]) > 0
  {
    LomutoFinishFrame(s, r, low, high, i, f);
    var r' := Swap(r, i, high);
    forall m | low <= m < high && m != i
      ensures r'[m] == r[m]
    {
    }
  }

  /** The final swap moves nothing outside the window. */
  lemma LomutoFinishFrame<T>(s: seq<T>, r: seq<T>, low: int, high: int, i: int, f: (T, T) -> int)
    requires 0 <= low <= i <= high < |s|
    requires LomutoInvariant(s, r, low, high, i, high, f)
    ensures PermutesWindow(s, Swap(r, i, high), low, high + 1)
  {
    var r' := Swap(r, i, high);
    forall m | 0 <= m < low
      ensures r'[m] == s[m]
    {
      assert r'[m] == r[m];
    }
    forall m | high + 1 <= m < |s|
      ensures r'[m] == s[m]
    {
      assert r'[m] == r[m];
    }
    FramedPermutesWindow(s, r', low, high + 1);
  }

  /** Lines 22-26 of `_select`: move an arbitrarily chosen element of the
      window to its end and partition the window around it. */
  method PivotAndPartition<T>(s: seq<T>, low: int, high: int, f: (T, T) -> int) returns (r: seq<T>, p: int, ghost pivot: T)
    requires 0 <= low < high < |s|
    ensures low <= p <= high
    ensures PermutesWindow(s, r, low, high + 1)
    ensures r[p] == pivot
    ensures forall m :: low <= m < p ==> f(r[m], pivot) <= 0
    ensures forall m :: p < m <= high ==> f(r[m], pivot) > 0
  {
    var pivotIndex :| low <= pivotIndex <= high;
    var r0 := Swap(s, pivotIndex, high);
    r, p := LomutoPartition(r0, low, high, f);
    pivot := r0[high];
    SwapThenPermute(s, pivotIndex, high, r, low, high + 1);
  }

  /** `_select`: after the call, position `k` of the window holds the element
      that belongs there in sorted order, with nothing above it before it and
      nothing below it after it. The window shrinks on every recursive call,
      and `low <= k <= high` is kept throughout. The random pivot index is an
      arbitrary choice in `[low, high]`. */
  method Select<T(!new)>(s: seq<T>, low: int, high: int, k: int, f: (T, T) -> int) returns (v: T, r: seq<T>)
    requires Comparator(f)
    requires 0 <= low <= k <= high < |s|
    ensures PermutesWindow(s, r, low, high + 1)
    ensures v == r[k]
    ensures forall m :: low <= m < k ==> f(r[m], v) <= 0
    ensures forall m :: k < m <= high ==> f(v, r[m]) <= 0
    decreases high - low
  {
    if low == high {
      return s[low], s;
    }
    var r1, p, pivot := PivotAndPartition(s, low, high, f);
    if k == p {
      v, r := r1[p], r1;
      assert forall m :: k < m <= high ==> f(v, r[m]) <= 0 by {
        forall m | p < m <= high
          ensures f(v, r[m]) <= 0
        {
          assert f(r[m], pivot) > 0;
        }
      }
    } else if k < p {
      v, r := Select(r1, low, p - 1, k, f);
      SelectLeftSide(f, s, r1, r, low, p, high, k, pivot);
    } else {
      v, r := Select(r1, p + 1, high, k, f);
      SelectRightSide(f, s, r1, r, low, p, high, k, pivot);
    }
  }

  /** After recursing into the part left of the pivot, the pivot and the part
      right of it are still on the right side of the selected element. */
  lemma SelectLeftSide<T(!new)>(f: (T, T) -> int, s: seq<T>, r1: seq<T>, r: seq<T>, low: int, p: int, high: int, k: int, pivot: T)
    requires Comparator(f)
    requires 0 <= low <= k < p <= high < |s|
    requires PermutesWindow(s, r1, low, high + 1)
    requires r1[p] == pivot
    requires forall m :: low <= m < p ==> f(r1[m], pivot) <= 0
    requires forall m :: p < m <= high ==> f(r1[m], pivot) > 0
    requires PermutesWindow(r1, r, low, p)
    requires forall m :: k < m <= p - 1 ==> f(r[k], r[m]) <= 0
    ensures PermutesWindow(s, r, low, high + 1)
    ensures forall m :: k < m <= high ==> f(r[k], r[m]) <= 0
  {
    PermutesWindowNested(s, r1, r, low, high + 1, low, p);
    assert r[k] in multiset(r[low..p]);
    assert r[k] in r1[low..p];
    assert f(r[k], pivot) <= 0;
    forall m | p <= m <= high
      ensures f(r[k], r[m]) <= 0
    {
      assert r[m] == r1[m];
      if m > p {
        assert f(pivot, r1[m]) < 0;
        LeqTrans(f, r[k], pivot, r[m]);
      }
    }
  }

  /** After recursing into the part right of the pivot, the pivot and the part
      left of it are still on the left side of the selected element. */
  lemma SelectRightSide<T(!new)>(f: (T, T) -> int, s: seq<T>, r1: seq<T>, r: seq<T>, low: int, p: int, high: int, k: int, pivot: T)
    requires Comparator(f)
    requires 0 <= low <= p < k <= high < |s|
    requires PermutesWindow(s, r1, low, high + 1)
    requires r1[p] == pivot
    requires forall m :: low <= m < p ==> f(r1[m], pivot) <= 0
    requires forall m :: p < m <= high ==> f(r1[m], pivot) > 0
    requires PermutesWindow(r1, r, p + 1, high + 1)
    requires forall m :: p + 1 <= m < k ==> f(r[m], r[k]) <= 0
    ensures PermutesWindow(s, r, low, high + 1)
    ensures forall m :: low <= m < k ==> f(r[m], r[k]) <= 0
  {
    PermutesWindowNested(s, r1, r, low, high + 1, p + 1, high + 1);
    assert r[..p + 1] == r1[..p + 1];
    assert r[k] in multiset(r[p + 1..high + 1]);
    assert r[k] in r1[p + 1..high + 1];
    assert f(pivot, r[k]) < 0;
    forall m | low <= m <= p
      ensures f(r[m], r[k]) <= 0
    {
      assert r[m] == r1[m];
      if m < p {
        LeqTrans(f, r[m], pivot, r[k]);
      }
    }
  }

  /** `quick_select`: raises `RankOutOfBounds` exactly when `k` is not a valid
      index, before touching the list; otherwise returns the k-th order
      statistic of the input, duplicates counted, and leaves the list a
      permutation of what it was. */
  method QuickSelect<T(!new)>(items: seq<T>, k: int, f: (T, T) -> int) returns (res: Result<T, SelectError>, r: seq<T>)
    requires Comparator(f)
    ensures res.Failure? <==> !(0 <= k < |items|)
    ensures res.Failure? ==> res.error == RankOutOfBounds && r == items
    ensures res.Success? ==> multiset(r) == multiset(items) && IsOrderStatistic(f, items, k, res.value)
  {
    if !(0 <= k < |items|) {
      return Failure(RankOutOfBounds), items;
    }
    var v;
    v, r := Select(items, 0, |items| - 1, k, f);
    assert items[0..|items|] == items && r[0..|r|] == r;
    PivotIsOrderStatistic(f, r, k);
    CountPerm(r, items, x => f(x, v) < 0);
    CountPerm(r, items, x => f(x, v) <= 0);
    assert v in multiset(items);
    return Success(v), r;
  }

  /** The selected element is the one at position k of the sorted input: for
      any sorted permutation `t` of the input it compares equal to `t[k]`, and
      under a total order such as the integers it is `t[k]` itself. */
  lemma QuickSelectIsSortedAt<T(!new)>(f: (T, T) -> int, items: seq<T>, t: seq<T>, k: int, v: T)
    requires Comparator(f)
    requires Sorted(f, t) && multiset(t) == multiset(items)
    requires 0 <= k < |t|
    requires IsOrderStatistic(f, items, k, v)
    ensures f(v, t[k]) == 0
    ensures Antisymmetric(f) ==> v == t[k]
  {
    OrderStatisticOfSorted(f, items, t, k, v);
  }
}
