/** Exact binary search (`codex.search.binary.binary_search`): halve a closed
    window `[l, r]` of a read-only sequence until the probe equals the target
    or the window is empty. Elements are compared with the natural integer
    order, as the source does through `==` and `<`. */
module BinarySearch {
  import opened Wrappers
  import opened Ordering

  /** Returns some index holding `x`, or `None`. A returned index is always
      correct; on a sorted sequence `None` is returned exactly when `x` is
      absent. Among duplicates no particular occurrence is promised. */
  method BinarySearch(x: int, items: seq<int>) returns (r: Option<nat>)
    ensures r.Some? ==> r.value < |items| && items[r.value] == x
    ensures Sorted(IntOrder, items) ==> (r.None? <==> x !in items)
    ensures |items| == 0 ==> r == None
  {
    var l, h := 0, |items| - 1;
    while l <= h
      invariant 0 <= l <= h + 1 <= |items|
      invariant Sorted(IntOrder, items) ==> forall i :: 0 <= i < l ==> items[i] < x
      invariant Sorted(IntOrder, items) ==> forall i :: h < i < |items| ==> x < items[i]
      decreases h - l + 1
    {
      var m := (l + h) / 2;
      if items[m] == x {
        return Some(m);
      } else if x < items[m] {
        if Sorted(IntOrder, items) {
          forall i | m <= i < |items|
            ensures x < items[i]
          {
            assert IntOrder(items[m], items[i]) <= 0 || i == m;
          }
        }
        h := m - 1;
      } else {
        if Sorted(IntOrder, items) {
          forall i | 0 <= i <= m
            ensures items[i] < x
          {
            assert IntOrder(items[i], items[m]) <= 0 || i == m;
          }
        }
        l := m + 1;
      }
    }
    return None;
  }
}
