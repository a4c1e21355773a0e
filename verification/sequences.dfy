/** Generic facts about sequences shared by every search and sort routine:
    filtering, counting, swapping, and how permutations interact with them. */
module Sequences {

  /** The elements of `s` that satisfy `p`, in their original order. */
  function Filter<T>(s: seq<T>, p: T -> bool): (r: seq<T>)
    ensures |r| <= |s|
    ensures forall x :: x in r ==> x in s && p(x)
  {
    if s == [] then []
    else (if p(s[0]) then [s[0]] else []) + Filter(s[1..], p)
  }

  /** Number of elements of `s` that satisfy `p`. */
  function Count<T>(s: seq<T>, p: T -> bool): (n: nat)
  {
    |Filter(s, p)|
  }

  /** Filtering distributes over concatenation. */
  lemma {:induction false} FilterConcat<T>(a: seq<T>, b: seq<T>, p: T -> bool)
    ensures Filter(a + b, p) == Filter(a, p) + Filter(b, p)
  {
    if a == [] {
      assert a + b == b;
    } else {
      assert (a + b)[0] == a[0];
      assert (a + b)[1..] == a[1..] + b;
      FilterConcat(a[1..], b, p);
    }
  }

  /** Filtering keeps every occurrence of a satisfying value and drops every
      occurrence of the others. */
  lemma {:induction false} FilterMultiplicity<T>(s: seq<T>, p: T -> bool, x: T)
    ensures multiset(Filter(s, p))[x] == if p(x) then multiset(s)[x] else 0
  {
    if s != [] {
      FilterMultiplicity(s[1..], p, x);
      assert s == [s[0]] + s[1..];
    }
  }

  /** Permutations have permuted filters. */
  lemma FilterPerm<T>(a: seq<T>, b: seq<T>, p: T -> bool)
    requires multiset(a) == multiset(b)
    ensures multiset(Filter(a, p)) == multiset(Filter(b, p))
  {
    var fa, fb := multiset(Filter(a, p)), multiset(Filter(b, p));
    forall x
      ensures fa[x] == fb[x]
    {
      FilterMultiplicity(a, p, x);
      FilterMultiplicity(b, p, x);
    }
    MultisetExt(fa, fb);
  }

  lemma MultisetExt<T>(a: multiset<T>, b: multiset<T>)
    requires forall x :: a[x] == b[x]
    ensures a == b
  {
  }

  /** Counting depends only on the multiset of the elements. */
  lemma CountPerm<T>(a: seq<T>, b: seq<T>, p: T -> bool)
    requires multiset(a) == multiset(b)
    ensures Count(a, p) == Count(b, p)
  {
    FilterPerm(a, b, p);
    assert |Filter(a, p)| == |multiset(Filter(a, p))|;
    assert |Filter(b, p)| == |multiset(Filter(b, p))|;
  }

  lemma CountConcat<T>(a: seq<T>, b: seq<T>, p: T -> bool)
    ensures Count(a + b, p) == Count(a, p) + Count(b, p)
  {
    FilterConcat(a, b, p);
  }

  /** A filter every element passes is the identity. */
  lemma {:induction false} FilterAll<T>(s: seq<T>, p: T -> bool)
    requires forall x :: x in s ==> p(x)
    ensures Filter(s, p) == s
  {
    if s != [] {
      assert s[0] in s;
      FilterAll(s[1..], p);
      assert s == [s[0]] + s[1..];
    }
  }

  /** A filter no element passes is empty. */
  lemma {:induction false} FilterNone<T>(s: seq<T>, p: T -> bool)
    requires forall x :: x in s ==> !p(x)
    ensures Filter(s, p) == []
  {
    if s != [] {
      assert s[0] in s;
      FilterNone(s[1..], p);
    }
  }

  /** A sequence is its prefix followed by its suffix. */
  lemma SplitAt<T>(s: seq<T>, t: int)
    requires 0 <= t <= |s|
    ensures s[..t] + s[t..] == s
  {
  }

  /** Adjacent slices from the start join into one. */
  lemma PrefixJoin<T>(s: seq<T>, a: seq<T>, b: seq<T>, i: int, j: int)
    requires 0 <= i <= j <= |s|
    requires s[..i] == a && s[i..j] == b
    ensures s[..j] == a + b
  {
    assert s[..j] == s[..i] + s[i..j];
  }

  /** Overwriting a position outside a slice leaves the slice alone. */
  lemma SliceUpdateOutside<T>(s: seq<T>, lo: int, hi: int, p: int, v: T)
    requires 0 <= lo <= hi <= |s| && 0 <= p < |s| && (p < lo || hi <= p)
    ensures s[p := v][lo..hi] == s[lo..hi]
  {
  }

  /** Overwriting the first position of a slice replaces its head. */
  lemma SliceUpdateFirst<T>(s: seq<T>, lo: int, hi: int, v: T)
    requires 0 <= lo < hi <= |s|
    ensures s[lo := v][lo..hi] == [v] + s[lo + 1..hi]
  {
  }

  /** Exchanges the elements at positions `i` and `j`. */
  function Swap<T>(s: seq<T>, i: int, j: int): (r: seq<T>)
    requires 0 <= i < |s| && 0 <= j < |s|
    ensures |r| == |s|
    ensures r[i] == s[j] && r[j] == s[i]
    ensures multiset(r) == multiset(s)
  {
    s[i := s[j]][j := s[i]]
  }

  /** Two permutations of each other that agree outside `[lo, hi)` hold
      permutations of each other inside it. */
  lemma RangePerm<T>(s: seq<T>, r: seq<T>, lo: int, hi: int)
    requires 0 <= lo <= hi <= |s| == |r|
    requires s[..lo] == r[..lo] && s[hi..] == r[hi..]
    requires multiset(s) == multiset(r)
    ensures multiset(s[lo..hi]) == multiset(r[lo..hi])
  {
    assert s == s[..lo] + s[lo..hi] + s[hi..];
    assert r == r[..lo] + r[lo..hi] + r[hi..];
    var outside := multiset(s[..lo]) + multiset(s[hi..]);
    assert multiset(s[lo..hi]) == multiset(s) - outside;
    assert multiset(r[lo..hi]) == multiset(r) - outside;
  }

  /** Conversely, permuting `[lo, hi)` and keeping the rest permutes the whole. */
  lemma RangePermWhole<T>(s: seq<T>, r: seq<T>, lo: int, hi: int)
    requires 0 <= lo <= hi <= |s| == |r|
    requires s[..lo] == r[..lo] && s[hi..] == r[hi..]
    requires multiset(s[lo..hi]) == multiset(r[lo..hi])
    ensures multiset(s) == multiset(r)
  {
    assert s == s[..lo] + s[lo..hi] + s[hi..];
    assert r == r[..lo] + r[lo..hi] + r[hi..];
  }

  /** `r` rearranges only the window `[lo, hi)` of `s`: same length, same
      elements outside the window, a permutation inside it. */
  ghost predicate PermutesWindow<T>(s: seq<T>, r: seq<T>, lo: int, hi: int)
    requires 0 <= lo <= hi <= |s|
  {
    && |r| == |s|
    && r[..lo] == s[..lo] && r[hi..] == s[hi..]
    && multiset(r[lo..hi]) == multiset(s[lo..hi])
  }

  /** Rearranging a window and then a sub-window of it rearranges the window. */
  lemma PermutesWindowNested<T>(a: seq<T>, b: seq<T>, c: seq<T>, lo: int, hi: int, lo2: int, hi2: int)
    requires 0 <= lo <= lo2 <= hi2 <= hi <= |a|
    requires PermutesWindow(a, b, lo, hi)
    requires PermutesWindow(b, c, lo2, hi2)
    ensures PermutesWindow(a, c, lo, hi)
  {
    RangePermWhole(a, b, lo, hi);
    RangePermWhole(b, c, lo2, hi2);
    assert c[..lo] == c[..lo2][..lo] && b[..lo] == b[..lo2][..lo];
    assert c[hi..] == c[hi2..][hi - hi2..] && b[hi..] == b[hi2..][hi - hi2..];
    RangePerm(a, c, lo, hi);
  }

  /** A permutation that keeps every position outside a window in place
      rearranges only that window. */
  lemma FramedPermutesWindow<T>(s: seq<T>, r: seq<T>, lo: int, hi: int)
    requires 0 <= lo <= hi <= |s| == |r|
    requires multiset(r) == multiset(s)
    requires forall m :: 0 <= m < lo ==> r[m] == s[m]
    requires forall m :: hi <= m < |s| ==> r[m] == s[m]
    ensures PermutesWindow(s, r, lo, hi)
  {
    assert r[..lo] == s[..lo];
    assert r[hi..] == s[hi..];
    RangePerm(s, r, lo, hi);
  }

  /** Exchanging two positions inside a window rearranges only that window. */
  lemma SwapPermutesWindow<T>(s: seq<T>, i: int, j: int, lo: int, hi: int)
    requires 0 <= lo <= i < hi <= |s| && lo <= j < hi
    ensures PermutesWindow(s, Swap(s, i, j), lo, hi)
  {
    var r := Swap(s, i, j);
    assert r[..lo] == s[..lo];
    assert r[hi..] == s[hi..];
    RangePerm(s, r, lo, hi);
  }

  /** A swap inside a window followed by a rearrangement of that window is a
      rearrangement of the window. */
  lemma SwapThenPermute<T>(s: seq<T>, i: int, j: int, r: seq<T>, lo: int, hi: int)
    requires 0 <= lo <= i < hi <= |s| && lo <= j < hi
    requires PermutesWindow(Swap(s, i, j), r, lo, hi)
    ensures PermutesWindow(s, r, lo, hi)
  {
    SwapPermutesWindow(s, i, j, lo, hi);
    PermutesWindowNested(s, Swap(s, i, j), r, lo, hi, lo, hi);
  }
}
