/** The comparison sorts of `codex.sort.efficient`: top-down merge sort and
    quick sort with Hoare's partition. Both sort a list in place; here each
    routine takes the contents before the call and returns the contents
    after it. */
module Efficient {
  import opened Sequences
  import opened Ordering

  // ---------------------------------------------------------------------
  // Merge sort
  // ---------------------------------------------------------------------

  /** Reference definition of the merge step: repeatedly take the smaller
      head, the left one on ties, and append what remains of the other run. */
  function MergeSpec<T>(a: seq<T>, b: seq<T>, f: (T, T) -> int): (r: seq<T>)
    ensures |r| == |a| + |b|
    decreases |a| + |b|
  {
    if |a| == 0 then b
    else if |b| == 0 then a
    else if f(a[0], b[0]) <= 0 then [a[0]] + MergeSpec(a[1..], b, f)
    else [b[0]] + MergeSpec(a, b[1..], f)
  }

  /** One step of the reference merge when the left head is taken. */
  lemma MergeTakeLeft<T>(a: seq<T>, b: seq<T>, f: (T, T) -> int)
    requires a != [] && (b == [] || f(a[0], b[0]) <= 0)
    ensures MergeSpec(a, b, f) == [a[0]] + MergeSpec(a[1..], b, f)
  {
    if b == [] {
      assert MergeSpec(a[1..], b, f) == a[1..];
      assert a == [a[0]] + a[1..];
    }
  }

  /** One step of the reference merge when the right head is taken. */
  lemma MergeTakeRight<T>(a: seq<T>, b: seq<T>, f: (T, T) -> int)
    requires b != [] && (a == [] || f(a[0], b[0]) > 0)
    ensures MergeSpec(a, b, f) == [b[0]] + MergeSpec(a, b[1..], f)
  {
    if a == [] {
      assert MergeSpec(a, b[1..], f) == b[1..];
      assert b == [b[0]] + b[1..];
    } else {
      assert |a| != 0 && |b| != 0 && !(f(a[0], b[0]) <= 0);
    }
  }

  /** Merging loses and invents nothing. */
  lemma {:induction false} MergePerm<T>(a: seq<T>, b: seq<T>, f: (T, T) -> int)
    ensures multiset(MergeSpec(a, b, f)) == multiset(a) + multiset(b)
    decreases |a| + |b|
  {
    if a != [] && b != [] {
      if f(a[0], b[0]) <= 0 {
        MergeTakeLeft(a, b, f);
        MergePerm(a[1..], b, f);
        assert a == [a[0]] + a[1..];
      } else {
        MergeTakeRight(a, b, f);
        MergePerm(a, b[1..], f);
        assert b == [b[0]] + b[1..];
      }
    }
  }

  /** The reference merge of the unconsumed parts `a[i..]` and `b[j..]`,
      indexed the way the merge loops of `merge_sort` walk the two runs. */
  function MergeFrom<T>(a: seq<T>, b: seq<T>, i: int, j: int, f: (T, T) -> int): (r: seq<T>)
    requires 0 <= i <= |a| && 0 <= j <= |b|
    ensures |r| == |a| - i + |b| - j
    decreases |a| - i + |b| - j
  {
    if i == |a| then b[j..]
    else if j == |b| then a[i..]
    else if f(a[i], b[j]) <= 0 then [a[i]] + MergeFrom(a, b, i + 1, j, f)
    else [b[j]] + MergeFrom(a, b, i, j + 1, f)
  }

  /** The indexed merge agrees with the reference merge of the two
      remainders. */
  lemma {:induction false} MergeFromIsMergeSpec<T>(a: seq<T>, b: seq<T>, i: int, j: int, f: (T, T) -> int)
    requires 0 <= i <= |a| && 0 <= j <= |b|
    ensures MergeFrom(a, b, i, j, f) == MergeSpec(a[i..], b[j..], f)
    decreases |a| - i + |b| - j
  {
    if i == |a| {
      assert a[i..] == [];
    } else if j == |b| {
      assert b[j..] == [];
    } else if f(a[i], b[j]) <= 0 {
      MergeTakeLeftAt(a, b, i, j, f);
      MergeFromIsMergeSpec(a, b, i + 1, j, f);
    } else {
      MergeTakeRightAt(a, b, i, j, f);
      MergeFromIsMergeSpec(a, b, i, j + 1, f);
    }
  }

  /** Taking the left head is one step of the indexed merge. */
  lemma MergeFromLeft<T>(a: seq<T>, b: seq<T>, i: int, j: int, f: (T, T) -> int)
    requires 0 <= i < |a| && 0 <= j <= |b|
    requires j == |b| || f(a[i], b[j]) <= 0
    ensures MergeFrom(a, b, i, j, f)[0] == a[i]
    ensures MergeFrom(a, b, i, j, f)[1..] == MergeFrom(a, b, i + 1, j, f)
  {
  }

  /** Taking the right head is one step of the indexed merge. */
  lemma MergeFromRight<T>(a: seq<T>, b: seq<T>, i: int, j: int, f: (T, T) -> int)
    requires 0 <= i <= |a| && 0 <= j < |b|
    requires i == |a| || f(a[i], b[j]) > 0
    ensures MergeFrom(a, b, i, j, f)[0] == b[j]
    ensures MergeFrom(a, b, i, j, f)[1..] == MergeFrom(a, b, i, j + 1, f)
  {
  }

  /** The merge loops' invariant: the first `i + j` slots of `r` hold the
      start of the merged output, and the rest of that output is the merge of
      the unconsumed parts `left[i..]` and `right[j..]`. */
  ghost predicate MergedUpTo<T>(r: seq<T>, left: seq<T>, right: seq<T>, i: int, j: int, f: (T, T) -> int)
    requires 0 <= i <= |left| && 0 <= j <= |right|
  {
    var whole := MergeFrom(left, right, 0, 0, f);
    && |r| == |whole|
    && (forall m :: 0 <= m < i + j ==> r[m] == whole[m])
    && whole[i + j..] == MergeFrom(left, right, i, j, f)
  }

  /** The three loops of `merge_sort` that write the merged halves back:
      every one of the `|left| + |right|` slots of `items` is overwritten, in
      the order the reference merge gives. */
  method Merge<T>(items: seq<T>, left: seq<T>, right: seq<T>, f: (T, T) -> int) returns (r: seq<T>)
    requires |items| == |left| + |right|
    ensures r == MergeSpec(left, right, f)
  {
    var i, j;
    r, i, j := MergeWhileBoth(items, left, right, f);
    r, i := CopyLeftRest(r, left, right, i, j, f);
    r, j := CopyRightRest(r, left, right, i, j, f);
    MergeFromIsMergeSpec(left, right, 0, 0, f);
    assert left[0..] == left && right[0..] == right;
  }

  /** First loop: while both runs have elements, write the smaller head, the
      left one on ties. Stops with one run used up. */
  method MergeWhileBoth<T>(items: seq<T>, left: seq<T>, right: seq<T>, f: (T, T) -> int) returns (r: seq<T>, i: int, j: int)
    requires |items| == |left| + |right|
    ensures 0 <= i <= |left| && 0 <= j <= |right| && (i == |left| || j == |right|)
    ensures MergedUpTo(r, left, right, i, j, f)
  {
    r := items;
    i, j := 0, 0;
    var k := 0;
    ghost var whole := MergeFrom(left, right, 0, 0, f);
    while i < |left| && j < |right|
      invariant 0 <= i <= |left| && 0 <= j <= |right| && k == i + j && |r| == |items|
      invariant forall m :: 0 <= m < k ==> r[m] == whole[m]
      invariant whole[k..] == MergeFrom(left, right, i, j, f)
    {
      assert whole[k + 1..] == whole[k..][1..];
      if f(left[i], right[j]) <= 0 {
        MergeFromLeft(left, right, i, j, f);
        r := r[k := left[i]];
        i := i + 1;
      } else {
        MergeFromRight(left, right, i, j, f);
        r := r[k := right[j]];
        j := j + 1;
      }
      k := k + 1;
    }
  }

  /** Second loop: copy what is left of the left run. */
  method CopyLeftRest<T>(r0: seq<T>, left: seq<T>, right: seq<T>, i0: int, j: int, f: (T, T) -> int) returns (r: seq<T>, i: int)
    requires 0 <= i0 <= |left| && 0 <= j <= |right| && (i0 == |left| || j == |right|)
    requires MergedUpTo(r0, left, right, i0, j, f)
    ensures i == |left|
    ensures MergedUpTo(r, left, right, i, j, f)
  {
    r, i := r0, i0;
    var k := i + j;
    ghost var whole := MergeFrom(left, right, 0, 0, f);
    while i < |left|
      invariant i0 <= i <= |left| && k == i + j && |r| == |r0|
      invariant forall m :: 0 <= m < k ==> r[m] == whole[m]
      invariant whole[k..] == MergeFrom(left, right, i, j, f)
    {
      assert whole[k + 1..] == whole[k..][1..];
      MergeFromLeft(left, right, i, j, f);
      r := r[k := left[i]];
      i := i + 1;
      k := k + 1;
    }
  }

  /** Third loop: copy what is left of the right run. The whole output has
      then been written. */
  method CopyRightRest<T>(r0: seq<T>, left: seq<T>, right: seq<T>, i: int, j0: int, f: (T, T) -> int) returns (r: seq<T>, j: int)
    requires i == |left| && 0 <= j0 <= |right|
    requires MergedUpTo(r0, left, right, i, j0, f)
    ensures j == |right|
    ensures r == MergeFrom(left, right, 0, 0, f)
  {
    r, j := r0, j0;
    var k := i + j;
    ghost var whole := MergeFrom(left, right, 0, 0, f);
    while j < |right|
      invariant j0 <= j <= |right| && k == i + j && |r| == |r0|
      invariant forall m :: 0 <= m < k ==> r[m] == whole[m]
      invariant whole[k..] == MergeFrom(left, right, i, j, f)
    {
      assert whole[k + 1..] == whole[k..][1..];
      MergeFromRight(left, right, i, j, f);
      r := r[k := right[j]];
      j := j + 1;
      k := k + 1;
    }
  }

  /** `MergeTakeLeft` on the unconsumed parts of two runs. */
  lemma MergeTakeLeftAt<T>(left: seq<T>, right: seq<T>, i: int, j: int, f: (T, T) -> int)
    requires 0 <= i < |left| && 0 <= j <= |right|
    requires j == |right| || f(left[i], right[j]) <= 0
    ensures MergeSpec(left[i..], right[j..], f) == [left[i]] + MergeSpec(left[i + 1..], right[j..], f)
  {
    assert left[i..][1..] == left[i + 1..];
    MergeTakeLeft(left[i..], right[j..], f);
  }

  /** `MergeTakeRight` on the unconsumed parts of two runs. */
  lemma MergeTakeRightAt<T>(left: seq<T>, right: seq<T>, i: int, j: int, f: (T, T) -> int)
    requires 0 <= i <= |left| && 0 <= j < |right|
    requires i == |left| || f(left[i], right[j]) > 0
    ensures MergeSpec(left[i..], right[j..], f) == [right[j]] + MergeSpec(left[i..], right[j + 1..], f)
  {
    assert right[j..][1..] == right[j + 1..];
    MergeTakeRight(left[i..], right[j..], f);
  }


  /** A head below everything after it extends a sorted sequence. */
  lemma SortedCons<T>(f: (T, T) -> int, h: T, rest: seq<T>)
    requires Sorted(f, rest)
    requires forall y :: y in rest ==> f(h, y) <= 0
    ensures Sorted(f, [h] + rest)
  {
    forall i, j | 0 <= i < j < |[h] + rest|
      ensures f(([h] + rest)[i], ([h] + rest)[j]) <= 0
    {
      if i == 0 {
        assert ([h] + rest)[j] == rest[j - 1];
        assert rest[j - 1] in rest;
      } else {
        assert ([h] + rest)[i] == rest[i - 1] && ([h] + rest)[j] == rest[j - 1];
      }
    }
  }

  /** The head of a sorted sequence is at most each of its elements. */
  lemma SortedHeadBelow<T(!new)>(f: (T, T) -> int, s: seq<T>, y: T)
    requires Comparator(f)
    requires Sorted(f, s) && s != [] && y in s
    ensures f(s[0], y) <= 0
  {
    var n :| 0 <= n < |s| && s[n] == y;
  }

  /** Merging two sorted runs gives a sorted run. */
  lemma {:induction false} MergeSorted<T(!new)>(f: (T, T) -> int, a: seq<T>, b: seq<T>)
    requires Comparator(f)
    requires Sorted(f, a) && Sorted(f, b)
    ensures Sorted(f, MergeSpec(a, b, f))
    decreases |a| + |b|
  {
    if a != [] && b != [] {
      if f(a[0], b[0]) <= 0 {
        var rest := MergeSpec(a[1..], b, f);
        MergeSorted(f, a[1..], b);
        MergePerm(a[1..], b, f);
        forall y | y in rest
          ensures f(a[0], y) <= 0
        {
          assert y in multiset(a[1..]) + multiset(b);
          if y in a[1..] {
            SortedHeadBelow(f, a, y);
          } else {
            SortedHeadBelow(f, b, y);
            LeqTrans(f, a[0], b[0], y);
          }
        }
        SortedCons(f, a[0], rest);
      } else {
        var rest := MergeSpec(a, b[1..], f);
        MergeSorted(f, a, b[1..]);
        MergePerm(a, b[1..], f);
        forall y | y in rest
          ensures f(b[0], y) <= 0
        {
          assert y in multiset(a) + multiset(b[1..]);
          if y in a {
            SortedHeadBelow(f, a, y);
            LeqTrans(f, b[0], a[0], y);
          } else {
            SortedHeadBelow(f, b, y);
          }
        }
        SortedCons(f, b[0], rest);
      }
    }
  }

  /** No element of a sorted run is equivalent to a value strictly below the
      run's head. */
  lemma NoEquivsBelowHead<T(!new)>(f: (T, T) -> int, a: seq<T>, h: T, v: T)
    requires Comparator(f)
    requires Sorted(f, a) && a != []
    requires f(h, a[0]) < 0 && f(h, v) == 0
    ensures Equivs(f, a, v) == []
  {
    forall x | x in a
      ensures f(x, v) != 0
    {
      SortedHeadBelow(f, a, x);
      LessLeqTrans(f, h, a[0], x);
      if f(x, v) == 0 {
        LeqTrans(f, x, v, h);
      }
    }
    FilterNone(a, x => f(x, v) == 0);
  }

  /** Merging is stable: the elements equivalent to any value come out as
      those of the left run followed by those of the right run. The left run
      must be sorted, so that a right element taken before a left one is
      strictly smaller than all of the left run. */
  lemma {:induction false} MergeStable<T(!new)>(f: (T, T) -> int, a: seq<T>, b: seq<T>, v: T)
    requires Comparator(f)
    requires Sorted(f, a)
    ensures Equivs(f, MergeSpec(a, b, f), v) == Equivs(f, a, v) + Equivs(f, b, v)
    decreases |a| + |b|
  {
    if a == [] {
      assert Equivs(f, a, v) == [];
    } else if b == [] {
      assert Equivs(f, b, v) == [];
    } else if f(a[0], b[0]) <= 0 {
      MergeStable(f, a[1..], b, v);
      MergeStableLeft(f, a, b, v);
    } else {
      MergeStable(f, a, b[1..], v);
      MergeStableRight(f, a, b, v);
    }
  }

  /** The equivalents of a non-empty sequence: those of its head, then those
      of its tail. */
  lemma EquivsCons<T>(f: (T, T) -> int, a: seq<T>, v: T)
    requires a != []
    ensures Equivs(f, a, v) == Equivs(f, [a[0]], v) + Equivs(f, a[1..], v)
  {
    EquivsConcat(f, [a[0]], a[1..], v);
    assert [a[0]] + a[1..] == a;
  }

  lemma SeqAssoc<T>(x: seq<T>, y: seq<T>, z: seq<T>)
    ensures x + (y + z) == (x + y) + z
  {
  }

  lemma SeqSwapEmpty<T>(x: seq<T>, y: seq<T>, z: seq<T>)
    requires x == [] || y == []
    ensures x + (y + z) == y + (x + z)
  {
    if x == [] {
      assert x + (y + z) == y + z;
      assert x + z == z;
    } else {
      assert y + z == z;
      assert y + (x + z) == x + z;
    }
  }

  /** Taking the left head keeps the tie order when the rest of the merge
      does. */
  lemma MergeStableLeft<T>(f: (T, T) -> int, a: seq<T>, b: seq<T>, v: T)
    requires a != [] && b != [] && f(a[0], b[0]) <= 0
    requires Equivs(f, MergeSpec(a[1..], b, f), v) == Equivs(f, a[1..], v) + Equivs(f, b, v)
    ensures Equivs(f, MergeSpec(a, b, f), v) == Equivs(f, a, v) + Equivs(f, b, v)
  {
    var rest := MergeSpec(a[1..], b, f);
    var head := Equivs(f, [a[0]], v);
    MergeTakeLeft(a, b, f);
    calc {
      Equivs(f, MergeSpec(a, b, f), v);
    == { EquivsConcat(f, [a[0]], rest, v); }
      head + Equivs(f, rest, v);
    ==
      head + (Equivs(f, a[1..], v) + Equivs(f, b, v));
    == { SeqAssoc(head, Equivs(f, a[1..], v), Equivs(f, b, v)); }
      (head + Equivs(f, a[1..], v)) + Equivs(f, b, v);
    == { EquivsCons(f, a, v); }
      Equivs(f, a, v) + Equivs(f, b, v);
    }
  }

  /** Taking the right head keeps the tie order when the rest of the merge
      does: the right head is strictly below every remaining left element,
      so none of those is equivalent to it. */
  lemma MergeStableRight<T(!new)>(f: (T, T) -> int, a: seq<T>, b: seq<T>, v: T)
    requires Comparator(f) && Sorted(f, a)
    requires a != [] && b != [] && f(a[0], b[0]) > 0
    requires Equivs(f, MergeSpec(a, b[1..], f), v) == Equivs(f, a, v) + Equivs(f, b[1..], v)
    ensures Equivs(f, MergeSpec(a, b, f), v) == Equivs(f, a, v) + Equivs(f, b, v)
  {
    var rest := MergeSpec(a, b[1..], f);
    var head := Equivs(f, [b[0]], v);
    assert head == [] || Equivs(f, a, v) == [] by {
      if f(b[0], v) == 0 {
        NoEquivsBelowHead(f, a, b[0], v);
      }
    }
    MergeTakeRight(a, b, f);
    calc {
      Equivs(f, MergeSpec(a, b, f), v);
    == { EquivsConcat(f, [b[0]], rest, v); }
      head + Equivs(f, rest, v);
    ==
      head + (Equivs(f, a, v) + Equivs(f, b[1..], v));
    == { SeqSwapEmpty(head, Equivs(f, a, v), Equivs(f, b[1..], v)); }
      Equivs(f, a, v) + (head + Equivs(f, b[1..], v));
    == { EquivsCons(f, b, v); }
      Equivs(f, a, v) + Equivs(f, b, v);
    }
  }

  /** When the left run already sits below the right one, merging is plain
      concatenation: ties go left, so nothing is reordered. */
  lemma {:induction false} MergeOfSortedConcat<T>(f: (T, T) -> int, a: seq<T>, b: seq<T>)
    requires Sorted(f, a + b)
    ensures MergeSpec(a, b, f) == a + b
    decreases |a|
  {
    if a != [] && b != [] {
      assert (a + b)[0] == a[0] && (a + b)[|a|] == b[0];
      assert a[1..] + b == (a + b)[1..];
      MergeOfSortedConcat(f, a[1..], b);
      assert a == [a[0]] + a[1..];
    }
  }

  /** `merge_sort`: sorts by splitting at the middle, sorting both halves and
      merging them. The result is a sorted, stable permutation of the input;
      an input of at most one element, or one already sorted, comes back
      unchanged. */
  method MergeSort<T(!new)>(items: seq<T>, f: (T, T) -> int) returns (r: seq<T>)
    requires Comparator(f)
    ensures multiset(r) == multiset(items)
    ensures Sorted(f, r)
    ensures Stable(f, items, r)
    ensures Sorted(f, items) ==> r == items
    decreases |items|
  {
    if |items| <= 1 {
      return items;
    }
    var mid := |items| / 2;
    var left := items[..mid];
    var right := items[mid..];
    assert items == left + right;
    var sortedLeft := MergeSort(left, f);
    var sortedRight := MergeSort(right, f);
    assert |sortedLeft| == |multiset(left)| && |sortedRight| == |multiset(right)|;
    r := Merge(items, sortedLeft, sortedRight, f);
    MergePerm(sortedLeft, sortedRight, f);
    MergeSorted(f, sortedLeft, sortedRight);
    forall v
      ensures Equivs(f, r, v) == Equivs(f, items, v)
    {
      MergeStable(f, sortedLeft, sortedRight, v);
      EquivsConcat(f, left, right, v);
    }
    if Sorted(f, items) {
      assert Sorted(f, left) && Sorted(f, right);
      MergeOfSortedConcat(f, left, right);
    }
  }

  // ---------------------------------------------------------------------
  // Quick sort
  // ---------------------------------------------------------------------

  /** Everything up to `p` is at most the pivot and everything after it is at
      least the pivot, so the two sides are ordered against each other. */
  lemma SplitAtPivot<T(!new)>(f: (T, T) -> int, r: seq<T>, low: int, p: int, high: int, pivot: T)
    requires Comparator(f)
    requires 0 <= low <= p < high < |r|
    requires forall m :: low <= m <= p ==> f(r[m], pivot) <= 0
    requires forall m :: p < m <= high ==> f(r[m], pivot) >= 0
    ensures AllLeq(f, r[low..p + 1], r[p + 1..high + 1])
  {
    forall x, y | x in r[low..p + 1] && y in r[p + 1..high + 1]
      ensures f(x, y) <= 0
    {
      var a :| low <= a <= p && r[a] == x;
      var b :| p < b <= high && r[b] == y;
      assert f(pivot, y) <= 0;
      LeqTrans(f, x, pivot, y);
    }
  }

  /** `_partition` inside `quick_sort`: Hoare's scheme with the middle element
      as pivot. The returned split point `p` satisfies `low <= p < high`, so
      both halves are non-empty and smaller than the window, and everything
      in `[low, p]` is at most everything in `[p + 1, high]`. Only the window
      `[low, high]` moves. */
  method HoarePartition<T(!new)>(s: seq<T>, low: int, high: int, f: (T, T) -> int) returns (r: seq<T>, p: int)
    requires Comparator(f)
    requires 0 <= low < high < |s|
    ensures low <= p < high
    ensures PermutesWindow(s, r, low, high + 1)
    ensures AllLeq(f, r[low..p + 1], r[p + 1..high + 1])
  {
    var pivot;
    r, p, pivot := HoareSweep(s, low, high, f);
    SplitAtPivot(f, r, low, p, high, pivot);
  }

  /** The cursor loop of `_partition`. Two cursors walk towards each other,
      skipping elements already on their side of the pivot and swapping a
      misplaced pair, until they meet; the right cursor's final position is
      the split point. Both cursors stay inside the window: each scan is
      stopped by a position known not to be on its side, the pivot itself in
      the first round and afterwards the element the other cursor has just
      swapped in. Only comparisons of the pivot with itself are assumed. */
  method HoareSweep<T>(s: seq<T>, low: int, high: int, f: (T, T) -> int) returns (r: seq<T>, p: int, pivot: T)
    requires 0 <= low < high < |s|
    requires f(s[(low + high) / 2], s[(low + high) / 2]) == 0
    ensures pivot == s[(low + high) / 2]
    ensures low <= p < high
    ensures PermutesWindow(s, r, low, high + 1)
    ensures forall m :: low <= m <= p ==> f(r[m], pivot) <= 0
    ensures forall m :: p < m <= high ==> f(r[m], pivot) >= 0
  {
    var mid := (low + high) / 2;
    pivot := s[mid];
    r := s;
    var i, j := low - 1, high + 1;
    ghost var stopI, stopJ := mid, mid;
    ghost var first := true;
    while true
      invariant low - 1 <= i < j <= high + 1
      invariant SweepInvariant(s, r, low, high, pivot, i, j, f)
      invariant i < stopI <= high && f(r[stopI], pivot) >= 0
      invariant low <= stopJ < j && f(r[stopJ], pivot) <= 0
      invariant first ==> i == low - 1 && j == high + 1 && stopI == mid && stopJ == mid
      invariant !first ==> j <= high
      decreases j - i
    {
      var i', j' := i, j;
      i := ScanUp(r, i + 1, pivot, f, stopI);
      j := ScanDown(r, j - 1, pivot, f, stopJ);
      SweepScanned(s, r, low, high, pivot, i', j', i, j, f);
      if i >= j {
        p := j;
        SweepDone(s, r, low, high, pivot, i, j, f);
        return;
      }
      SweepSwap(s, r, low, high, pivot, i, j, f);
      r := Swap(r, i, j);
      stopI, stopJ := j, i;
      first := false;
    }
  }

  /** Loop invariant of the cursor loop: nothing outside `[low, high]` has
      moved, everything up to the left cursor is at most the pivot and
      everything from the right cursor on is at least the pivot. */
  ghost predicate SweepInvariant<T>(s: seq<T>, r: seq<T>, low: int, high: int, pivot: T, i: int, j: int, f: (T, T) -> int)
    requires 0 <= low <= high < |s| && i <= high && low <= j
  {
    && |r| == |s| && multiset(r) == multiset(s)
    && (forall m :: 0 <= m < low ==> r[m] == s[m])
    && (forall m :: high < m < |s| ==> r[m] == s[m])
    && (forall m :: low <= m <= i ==> f(r[m], pivot) <= 0)
    && (forall m :: j <= m <= high ==> f(r[m], pivot) >= 0)
  }

  /** The two scans extend the settled ends up to, not including, the
      positions where they stopped. */
  lemma SweepScanned<T>(s: seq<T>, r: seq<T>, low: int, high: int, pivot: T, i0: int, j0: int, i: int, j: int, f: (T, T) -> int)
    requires 0 <= low <= high < |s| && low - 1 <= i0 < i <= high && low <= j < j0 <= high + 1
    requires SweepInvariant(s, r, low, high, pivot, i0, j0, f)
    requires forall m :: i0 + 1 <= m < i ==> f(r[m], pivot) < 0
    requires forall m :: j < m <= j0 - 1 ==> f(r[m], pivot) > 0
    ensures SweepInvariant(s, r, low, high, pivot, i - 1, j + 1, f)
  {
  }

  /** When the cursors have met, the right cursor splits the window. */
  lemma SweepDone<T>(s: seq<T>, r: seq<T>, low: int, high: int, pivot: T, i: int, j: int, f: (T, T) -> int)
    requires 0 <= low <= j <= i <= high < |s|
    requires SweepInvariant(s, r, low, high, pivot, i - 1, j + 1, f)
    requires f(r[j], pivot) <= 0
    ensures PermutesWindow(s, r, low, high + 1)
    ensures forall m :: low <= m <= j ==> f(r[m], pivot) <= 0
    ensures forall m :: j < m <= high ==> f(r[m], pivot) >= 0
  {
    FramedPermutesWindow(s, r, low, high + 1);
  }

  /** Swapping the misplaced pair the two scans stopped at extends both
      settled ends of the window by one position and moves nothing outside
      it. */
  lemma SweepSwap<T>(s: seq<T>, r: seq<T>, low: int, high: int, pivot: T, i: int, j: int, f: (T, T) -> int)
    requires 0 <= low <= i < j <= high < |s|
    requires SweepInvariant(s, r, low, high, pivot, i - 1, j + 1, f)
    requires f(r[i], pivot) >= 0 && f(r[j], pivot) <= 0
    ensures SweepInvariant(s, Swap(r, i, j), low, high, pivot, i, j, f)
    ensures f(Swap(r, i, j)[i], pivot) <= 0 && f(Swap(r, i, j)[j], pivot) >= 0
  {
    var r' := Swap(r, i, j);
    forall m | 0 <= m < |s| && m != i && m != j
      ensures r'[m] == r[m]
    {
    }
  }

  /** The left scan of `_partition`, which advances while the element is
      below the pivot: it stops at the first position from `i0` on that is
      not below the pivot. A position known
      not to be below the pivot keeps the scan inside the window. */
  method ScanUp<T>(r: seq<T>, i0: int, pivot: T, f: (T, T) -> int, ghost stop: int) returns (i: int)
    requires 0 <= i0 <= stop < |r| && f(r[stop], pivot) >= 0
    ensures i0 <= i <= stop && f(r[i], pivot) >= 0
    ensures forall m :: i0 <= m < i ==> f(r[m], pivot) < 0
  {
    i := i0;
    while f(r[i], pivot) < 0
      invariant i0 <= i <= stop
      invariant forall m :: i0 <= m < i ==> f(r[m], pivot) < 0
      decreases stop - i
    {
      i := i + 1;
    }
  }

  /** The right scan of `_partition`, which moves down while the element is
      above the pivot: it stops at the last position from `j0` down that is
      not above the pivot. */
  method ScanDown<T>(r: seq<T>, j0: int, pivot: T, f: (T, T) -> int, ghost stop: int) returns (j: int)
    requires 0 <= stop <= j0 < |r| && f(r[stop], pivot) <= 0
    ensures stop <= j <= j0 && f(r[j], pivot) <= 0
    ensures forall m :: j < m <= j0 ==> f(r[m], pivot) > 0
  {
    j := j0;
    while f(r[j], pivot) > 0
      invariant stop <= j <= j0
      invariant forall m :: j < m <= j0 ==> f(r[m], pivot) > 0
      decreases j - stop
    {
      j := j - 1;
    }
  }

  /** `_quick_sort(low, high)`: sorts the window `[low, high]` (empty when
      `low > high`) and leaves everything outside it in place. */
  method QuickSortRange<T(!new)>(s: seq<T>, low: int, high: int, f: (T, T) -> int) returns (r: seq<T>)
    requires Comparator(f)
    requires 0 <= low <= high + 1 <= |s|
    ensures PermutesWindow(s, r, low, high + 1)
    ensures Sorted(f, r[low..high + 1])
    decreases high + 1 - low
  {
    if low >= high {
      return s;
    }
    var r1, p := HoarePartition(s, low, high, f);
    var r2 := QuickSortRange(r1, low, p, f);
    r := QuickSortRange(r2, p + 1, high, f);
    QuickSortCombine(f, s, r1, r2, r, low, p, high);
  }

  /** The two recursive calls of `_quick_sort` put together: sorting each side
      of a split point sorts the whole window. */
  lemma QuickSortCombine<T(!new)>(f: (T, T) -> int, s: seq<T>, r1: seq<T>, r2: seq<T>, r: seq<T>, low: int, p: int, high: int)
    requires Comparator(f)
    requires 0 <= low <= p < high < |s|
    requires PermutesWindow(s, r1, low, high + 1)
    requires AllLeq(f, r1[low..p + 1], r1[p + 1..high + 1])
    requires PermutesWindow(r1, r2, low, p + 1) && Sorted(f, r2[low..p + 1])
    requires PermutesWindow(r2, r, p + 1, high + 1) && Sorted(f, r[p + 1..high + 1])
    ensures PermutesWindow(s, r, low, high + 1)
    ensures Sorted(f, r[low..high + 1])
  {
    PermutesWindowNested(s, r1, r2, low, high + 1, low, p + 1);
    PermutesWindowNested(s, r2, r, low, high + 1, p + 1, high + 1);
    SortedHalvesKept(r1, r2, r, low, p, high);
    AllLeqPerm(f, r1[low..p + 1], r1[p + 1..high + 1], r[low..p + 1], r[p + 1..high + 1]);
    SortedConcatWindow(f, r, low, p, high);
  }

  /** Sorting one half of the window leaves the other half as it was. */
  lemma SortedHalvesKept<T>(r1: seq<T>, r2: seq<T>, r: seq<T>, low: int, p: int, high: int)
    requires 0 <= low <= p < high < |r1|
    requires PermutesWindow(r1, r2, low, p + 1)
    requires PermutesWindow(r2, r, p + 1, high + 1)
    ensures multiset(r[low..p + 1]) == multiset(r1[low..p + 1])
    ensures multiset(r[p + 1..high + 1]) == multiset(r1[p + 1..high + 1])
  {
    assert r2[p + 1..high + 1] == r1[p + 1..high + 1] by {
      assert r2[p + 1..] == r1[p + 1..];
    }
    assert r[low..p + 1] == r2[low..p + 1] by {
      assert r[..p + 1] == r2[..p + 1];
    }
  }

  /** Two sorted adjacent parts of a window, the first entirely at most the
      second, make a sorted window. */
  lemma SortedConcatWindow<T(!new)>(f: (T, T) -> int, r: seq<T>, low: int, p: int, high: int)
    requires Comparator(f)
    requires 0 <= low <= p < high < |r|
    requires Sorted(f, r[low..p + 1]) && Sorted(f, r[p + 1..high + 1])
    requires AllLeq(f, r[low..p + 1], r[p + 1..high + 1])
    ensures Sorted(f, r[low..high + 1])
  {
    SortedConcat(f, r[low..p + 1], r[p + 1..high + 1]);
    assert r[low..high + 1] == r[low..p + 1] + r[p + 1..high + 1];
  }

  /** `quick_sort`: the result is a sorted permutation of the input. Quick sort
      is not stable, but under a total order there is only one sorted
      permutation, so the result is that one (the same one merge sort gives)
      and an already sorted input comes back unchanged. */
  method QuickSort<T(!new)>(items: seq<T>, f: (T, T) -> int) returns (r: seq<T>)
    requires Comparator(f)
    ensures multiset(r) == multiset(items)
    ensures Sorted(f, r)
    ensures Antisymmetric(f) ==> forall t :: Sorted(f, t) && multiset(t) == multiset(items) ==> r == t
  {
    r := QuickSortRange(items, 0, |items| - 1, f);
    assert r[0..|items|] == r && items[0..|items|] == items;
    if Antisymmetric(f) {
      forall t | Sorted(f, t) && multiset(t) == multiset(items)
        ensures r == t
      {
        SortedPermUnique(f, r, t);
      }
    }
  }
}
