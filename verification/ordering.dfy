/** The ordering abstraction every search, selection and sort routine is
    parameterised by: a three-way comparison `f(a, b)` that is negative,
    zero or positive, and the notions (sortedness, equivalence classes,
    order statistics) that the routines are specified against. */
module Ordering {
  import opened Sequences

  /** Transitivity at one triple. It is kept apart from `Transitive` so that
      the verifier applies it only where a proof names the triple (through
      `LeqTrans` and its variants) rather than to every pair of comparisons
      in sight. */
  ghost predicate TransitiveAt<T>(f: (T, T) -> int, a: T, b: T, c: T) {
    f(a, b) <= 0 && f(b, c) <= 0 ==> f(a, c) <= 0
  }

  ghost predicate Transitive<T(!new)>(f: (T, T) -> int) {
    forall a, b, c :: TransitiveAt(f, a, b, c)
  }

  /** Swapping the arguments flips the sign of the answer. */
  ghost predicate SignSymmetric<T(!new)>(f: (T, T) -> int) {
    forall a, b :: f(a, b) < 0 <==> f(b, a) > 0
  }

  /** What the model asks of an `Ordering`: `f(a, b) <= 0` is transitive,
      and the three-way answers are consistent in both argument orders. The
      second part is more than a total preorder: Hoare's partition relies on
      its strict `< 0` and `> 0` scans being mirror images, and stability is
      stated through `Equivs`, which must be an equivalence. Distinct
      elements may compare equal (sorting by a key, for instance).
      Reflexivity and totality follow from sign symmetry; see
      `ComparatorIsTotalPreorder`. */
  ghost predicate Comparator<T(!new)>(f: (T, T) -> int) {
    Transitive(f) && SignSymmetric(f)
  }

  /** Every element compares equal to itself, and any two elements are
      ordered one way or the other. */
  lemma ComparatorIsTotalPreorder<T(!new)>(f: (T, T) -> int)
    requires Comparator(f)
    ensures forall a :: f(a, a) == 0
    ensures forall a, b :: f(a, b) <= 0 || f(b, a) <= 0
  {
  }

  /** A comparator that calls only identical elements equal: a total order. */
  ghost predicate Antisymmetric<T(!new)>(f: (T, T) -> int) {
    forall a, b :: f(a, b) == 0 ==> a == b
  }

  /** The natural order on integers, as Python's `<` and `==` give it. */
  function IntOrder(a: int, b: int): (c: int) {
    if a < b then -1 else if a == b then 0 else 1
  }

  lemma IntOrderIsTotalOrder()
    ensures Comparator(IntOrder) && Antisymmetric(IntOrder)
  {
    forall a: int, b: int, c: int
      ensures TransitiveAt(IntOrder, a, b, c)
    {
    }
  }

  /** `s` is ascending under `f`: no element is greater than a later one. */
  ghost predicate Sorted<T>(f: (T, T) -> int, s: seq<T>) {
    forall i, j :: 0 <= i < j < |s| ==> f(s[i], s[j]) <= 0
  }

  /** Every element of `a` is at most every element of `b`. */
  ghost predicate AllLeq<T>(f: (T, T) -> int, a: seq<T>, b: seq<T>) {
    forall x, y :: x in a && y in b ==> f(x, y) <= 0
  }

  /** The elements of `s` that compare equal to `v`, in their original order. */
  function Equivs<T>(f: (T, T) -> int, s: seq<T>, v: T): (r: seq<T>) {
    Filter(s, x => f(x, v) == 0)
  }

  /** `r` is a stable rearrangement of `s`: for every value, the elements
      equivalent to it appear in `r` exactly as they do in `s`. */
  ghost predicate Stable<T(!new)>(f: (T, T) -> int, s: seq<T>, r: seq<T>) {
    forall v :: Equivs(f, r, v) == Equivs(f, s, v)
  }

  /** Number of elements of `s` strictly below `v`. */
  function CountLess<T>(f: (T, T) -> int, s: seq<T>, v: T): (n: nat) {
    Count(s, x => f(x, v) < 0)
  }

  /** Number of elements of `s` at most `v`. */
  function CountLeq<T>(f: (T, T) -> int, s: seq<T>, v: T): (n: nat) {
    Count(s, x => f(x, v) <= 0)
  }

  /** `v` is an element of `s` that would sit at position `k` once `s` is
      sorted: at most `k` elements are below it and more than `k` are at most
      it. */
  ghost predicate IsOrderStatistic<T>(f: (T, T) -> int, s: seq<T>, k: int, v: T) {
    v in s && CountLess(f, s, v) <= k < CountLeq(f, s, v)
  }

  lemma LeqTrans<T(!new)>(f: (T, T) -> int, a: T, b: T, c: T)
    requires Comparator(f)
    requires f(a, b) <= 0 && f(b, c) <= 0
    ensures f(a, c) <= 0
  {
    assert TransitiveAt(f, a, b, c);
  }

  lemma LeqLessTrans<T(!new)>(f: (T, T) -> int, a: T, b: T, c: T)
    requires Comparator(f)
    requires f(a, b) <= 0 && f(b, c) < 0
    ensures f(a, c) < 0
  {
    if f(a, c) >= 0 {
      LeqTrans(f, c, a, b);
    }
  }

  lemma LessLeqTrans<T(!new)>(f: (T, T) -> int, a: T, b: T, c: T)
    requires Comparator(f)
    requires f(a, b) < 0 && f(b, c) <= 0
    ensures f(a, c) < 0
  {
    if f(a, c) >= 0 {
      LeqTrans(f, b, c, a);
    }
  }

  /** Ascending neighbours chain into an ascending sequence. */
  lemma {:induction false} AdjacentChain<T(!new)>(f: (T, T) -> int, s: seq<T>, i: int, j: int)
    requires Comparator(f)
    requires forall n :: 0 <= n < |s| - 1 ==> f(s[n], s[n + 1]) <= 0
    requires 0 <= i <= j < |s|
    ensures f(s[i], s[j]) <= 0
    decreases j - i
  {
    if i < j {
      AdjacentChain(f, s, i + 1, j);
      LeqTrans(f, s[i], s[i + 1], s[j]);
    }
  }

  /** Sortedness as every pair or as every neighbouring pair are the same. */
  lemma SortedIffAdjacent<T(!new)>(f: (T, T) -> int, s: seq<T>)
    requires Comparator(f)
    ensures Sorted(f, s) <==> forall n :: 0 <= n < |s| - 1 ==> f(s[n], s[n + 1]) <= 0
  {
    if forall n :: 0 <= n < |s| - 1 ==> f(s[n], s[n + 1]) <= 0 {
      forall i, j | 0 <= i < j < |s|
        ensures f(s[i], s[j]) <= 0
      {
        AdjacentChain(f, s, i, j);
      }
    }
  }

  /** Two sorted runs, the first wholly below the second, concatenate to a
      sorted sequence. */
  lemma SortedConcat<T>(f: (T, T) -> int, a: seq<T>, b: seq<T>)
    requires Sorted(f, a) && Sorted(f, b) && AllLeq(f, a, b)
    ensures Sorted(f, a + b)
  {
    forall i, j | 0 <= i < j < |a + b|
      ensures f((a + b)[i], (a + b)[j]) <= 0
    {
      if j < |a| {
      } else if i >= |a| {
        assert (a + b)[i] == b[i - |a|] && (a + b)[j] == b[j - |a|];
      } else {
        assert (a + b)[i] in a && (a + b)[j] in b;
      }
    }
  }

  /** `AllLeq` depends only on the multisets of its two sides. */
  lemma AllLeqPerm<T>(f: (T, T) -> int, a: seq<T>, b: seq<T>, a': seq<T>, b': seq<T>)
    requires AllLeq(f, a, b)
    requires multiset(a) == multiset(a') && multiset(b) == multiset(b')
    ensures AllLeq(f, a', b')
  {
    forall x, y | x in a' && y in b'
      ensures f(x, y) <= 0
    {
      assert x in multiset(a') && y in multiset(b');
      assert x in a && y in b;
    }
  }

  lemma EquivsConcat<T>(f: (T, T) -> int, a: seq<T>, b: seq<T>, v: T)
    ensures Equivs(f, a + b, v) == Equivs(f, a, v) + Equivs(f, b, v)
  {
    FilterConcat(a, b, x => f(x, v) == 0);
  }

  /** An element that every earlier element is at most and every later element
      is at least is the order statistic of its own position. */
  lemma PivotIsOrderStatistic<T(!new)>(f: (T, T) -> int, s: seq<T>, k: int)
    requires Comparator(f)
    requires 0 <= k < |s|
    requires forall i :: 0 <= i < k ==> f(s[i], s[k]) <= 0
    requires forall i :: k < i < |s| ==> f(s[k], s[i]) <= 0
    ensures IsOrderStatistic(f, s, k, s[k])
  {
    var v := s[k];
    var less := x => f(x, v) < 0;
    var leq := x => f(x, v) <= 0;
    assert s == s[..k] + s[k..];
    CountConcat(s[..k], s[k..], less);
    forall x | x in s[k..]
      ensures !less(x)
    {
      var i :| k <= i < |s| && s[i] == x;
    }
    FilterNone(s[k..], less);
    assert s == s[..k + 1] + s[k + 1..];
    CountConcat(s[..k + 1], s[k + 1..], leq);
    forall x | x in s[..k + 1]
      ensures leq(x)
    {
      var i :| 0 <= i <= k && s[i] == x;
    }
    FilterAll(s[..k + 1], leq);
  }

  /** The k-th element of a sorted permutation of `s` is an order statistic of
      `s` at rank k. */
  lemma SortedIsOrderStatistic<T(!new)>(f: (T, T) -> int, s: seq<T>, t: seq<T>, k: int)
    requires Comparator(f)
    requires Sorted(f, t) && multiset(t) == multiset(s)
    requires 0 <= k < |t|
    ensures IsOrderStatistic(f, s, k, t[k])
  {
    assert |t| == |multiset(t)| == |s|;
    PivotIsOrderStatistic(f, t, k);
    CountPerm(t, s, x => f(x, t[k]) < 0);
    CountPerm(t, s, x => f(x, t[k]) <= 0);
    assert t[k] in multiset(s);
  }

  /** In a sorted sequence, if the k-th element is below `v` then so are the
      first k + 1 elements. */
  lemma SortedPrefixBelow<T(!new)>(f: (T, T) -> int, t: seq<T>, k: int, v: T)
    requires Comparator(f) && Sorted(f, t)
    requires 0 <= k < |t| && f(t[k], v) < 0
    ensures CountLess(f, t, v) > k
  {
    var less := x => f(x, v) < 0;
    SortedPrefixAllBelow(f, t, k, v);
    FilterAll(t[..k + 1], less);
    assert t == t[..k + 1] + t[k + 1..];
    CountConcat(t[..k + 1], t[k + 1..], less);
  }

  /** In a sorted sequence, everything up to a position below `v` is below `v`. */
  lemma SortedPrefixAllBelow<T(!new)>(f: (T, T) -> int, t: seq<T>, k: int, v: T)
    requires Comparator(f) && Sorted(f, t)
    requires 0 <= k < |t| && f(t[k], v) < 0
    ensures forall x :: x in t[..k + 1] ==> f(x, v) < 0
  {
    forall x | x in t[..k + 1]
      ensures f(x, v) < 0
    {
      var i :| 0 <= i <= k && t[i] == x;
      if i < k {
        LeqLessTrans(f, x, t[k], v);
      }
    }
  }

  /** In a sorted sequence, if `v` is below the k-th element then it is below
      every element from position k on. */
  lemma SortedSuffixAbove<T(!new)>(f: (T, T) -> int, t: seq<T>, k: int, v: T)
    requires Comparator(f) && Sorted(f, t)
    requires 0 <= k < |t| && f(v, t[k]) < 0
    ensures CountLeq(f, t, v) <= k
  {
    var leq := x => f(x, v) <= 0;
    SortedSuffixAllAbove(f, t, k, v);
    FilterNone(t[k..], leq);
    assert t == t[..k] + t[k..];
    CountConcat(t[..k], t[k..], leq);
  }

  /** In a sorted sequence, everything from a position above `v` on is above
      `v`. */
  lemma SortedSuffixAllAbove<T(!new)>(f: (T, T) -> int, t: seq<T>, k: int, v: T)
    requires Comparator(f) && Sorted(f, t)
    requires 0 <= k < |t| && f(v, t[k]) < 0
    ensures forall x :: x in t[k..] ==> !(f(x, v) <= 0)
  {
    forall x | x in t[k..]
      ensures !(f(x, v) <= 0)
    {
      var i :| k <= i < |t| && t[i] == x;
      if i > k {
        LessLeqTrans(f, v, t[k], x);
      }
    }
  }

  /** Conversely, every order statistic at rank k is equivalent to the k-th
      element of any sorted permutation. */
  lemma OrderStatisticOfSorted<T(!new)>(f: (T, T) -> int, s: seq<T>, t: seq<T>, k: int, v: T)
    requires Comparator(f)
    requires Sorted(f, t) && multiset(t) == multiset(s)
    requires 0 <= k < |t|
    requires IsOrderStatistic(f, s, k, v)
    ensures f(v, t[k]) == 0 && f(t[k], v) == 0
  {
    CountPerm(t, s, x => f(x, v) < 0);
    CountPerm(t, s, x => f(x, v) <= 0);
    if f(t[k], v) < 0 {
      SortedPrefixBelow(f, t, k, v);
    } else if f(v, t[k]) < 0 {
      SortedSuffixAbove(f, t, k, v);
    }
  }

  /** Under a total order a multiset has exactly one sorted arrangement: the
      element at each position is pinned down as the order statistic of that
      rank. */
  lemma SortedPermUnique<T(!new)>(f: (T, T) -> int, a: seq<T>, b: seq<T>)
    requires Comparator(f) && Antisymmetric(f)
    requires Sorted(f, a) && Sorted(f, b)
    requires multiset(a) == multiset(b)
    ensures a == b
  {
    assert |a| == |multiset(a)| == |b|;
    forall i | 0 <= i < |a|
      ensures a[i] == b[i]
    {
      SortedIsOrderStatistic(f, a, a, i);
      OrderStatisticOfSorted(f, a, b, i, a[i]);
    }
  }
}
