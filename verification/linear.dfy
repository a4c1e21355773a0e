/** Linear-time integer sorts (`codex.sort.linear`): counting sort by a small
    key, and least-significant-digit radix sort built from counting passes by
    one digit. Every counting pass is the same three loops: a histogram of
    keys, prefix sums of the histogram, and a right-to-left placement into a
    fresh output list. All three routines return a new list. */
module Linear {
  import opened Sequences
  import opened Ordering

  /** Positive integers: digit positions and bases. */
  type Pos = n: int | n >= 1 witness 1

  /** What a counting pass sorts by. `Value` is the element itself
      (`counting_sort`); `Digit(exp, base)` is the digit `(x // exp) % base`
      of `_counting_sort_by_digit`; `Low(m)` is `x % m`, the part of `x` below
      position `m` that the radix passes so far have sorted by. Python's `//`
      and `%` by a positive number round towards minus infinity, and Dafny's
      do the same for a positive divisor, so the keys agree with the source
      on negative numbers too. */
  datatype SortKey = Value | Digit(exp: Pos, base: Pos) | Low(modulus: Pos)

  function KeyOf(key: SortKey, x: int): (d: int) {
    match key
    case Value => x
    case Digit(exp, base) => (x / exp) % base
    case Low(m) => x % m
  }

  /** The elements of `s` whose key is `d`, in input order. */
  function KeyClass(s: seq<int>, key: SortKey, d: int): (c: seq<int>) {
    Filter(s, x => KeyOf(key, x) == d)
  }

  /** The stable sort of `s` by key, as a reference: the elements with key 0,
      then those with key 1, and so on up to key `n - 1`, each class in input
      order. */
  function Buckets(s: seq<int>, key: SortKey, n: int): (r: seq<int>)
    decreases n
  {
    if n <= 0 then [] else Buckets(s, key, n - 1) + KeyClass(s, key, n - 1)
  }

  /** Every key in `s` is a valid index into a histogram of `n` counters. */
  ghost predicate KeysBelow(s: seq<int>, key: SortKey, n: int) {
    forall x :: x in s ==> 0 <= KeyOf(key, x) < n
  }

  ghost predicate SortedByKey(s: seq<int>, key: SortKey) {
    forall i, j :: 0 <= i < j < |s| ==> KeyOf(key, s[i]) <= KeyOf(key, s[j])
  }

  /** `r` keeps the elements of every key class of `s`, in their order. */
  ghost predicate StableByKey(s: seq<int>, r: seq<int>, key: SortKey) {
    forall d :: KeyClass(r, key, d) == KeyClass(s, key, d)
  }

  // ---------------------------------------------------------------------
  // Key classes

  lemma KeyClassConcat(a: seq<int>, b: seq<int>, key: SortKey, d: int)
    ensures KeyClass(a + b, key, d) == KeyClass(a, key, d) + KeyClass(b, key, d)
  {
    FilterConcat(a, b, x => KeyOf(key, x) == d);
  }

  lemma KeyClassSingle(x: int, key: SortKey, d: int)
    ensures KeyClass([x], key, d) == if KeyOf(key, x) == d then [x] else []
  {
    assert [x][1..] == [];
  }

  /** An element of `s` is in the class of its own key. */
  lemma KeyClassHas(s: seq<int>, key: SortKey, x: int)
    requires x in s
    ensures x in KeyClass(s, key, KeyOf(key, x))
  {
    FilterMultiplicity(s, y => KeyOf(key, y) == KeyOf(key, x), x);
  }

  /** `s` has no element of key `d`. */
  lemma KeyClassEmpty(s: seq<int>, key: SortKey, d: int)
    requires forall x :: x in s ==> KeyOf(key, x) != d
    ensures KeyClass(s, key, d) == []
  {
    FilterNone(s, x => KeyOf(key, x) == d);
  }

  /** Every element of `s` has key `d`. */
  lemma KeyClassFull(s: seq<int>, key: SortKey, d: int)
    requires forall x :: x in s ==> KeyOf(key, x) == d
    ensures KeyClass(s, key, d) == s
  {
    FilterAll(s, x => KeyOf(key, x) == d);
  }

  /** Key `k2` refines key `k1`: every element of class `c` of `k2` lies in
      class `d` of `k1`. */
  ghost predicate Refines(k2: SortKey, c: int, k1: SortKey, d: int) {
    forall x :: KeyOf(k2, x) == c ==> KeyOf(k1, x) == d
  }

  /** Picking a class of a finer key out of a class of a coarser one that
      contains it is picking it out of the whole. */
  lemma {:induction false} KeyClassRefine(s: seq<int>, k1: SortKey, d: int, k2: SortKey, c: int)
    requires Refines(k2, c, k1, d)
    ensures KeyClass(KeyClass(s, k1, d), k2, c) == KeyClass(s, k2, c)
  {
    if s != [] {
      KeyClassRefine(s[1..], k1, d, k2, c);
      assert s == [s[0]] + s[1..];
      KeyClassConcat([s[0]], s[1..], k1, d);
      KeyClassConcat([s[0]], s[1..], k2, c);
      KeyClassSingle(s[0], k1, d);
      KeyClassSingle(s[0], k2, c);
      KeyClassConcat(KeyClass([s[0]], k1, d), KeyClass(s[1..], k1, d), k2, c);
      if KeyOf(k1, s[0]) == d {
        KeyClassSingle(s[0], k2, c);
      } else {
        assert KeyClass([], k2, c) == [];
      }
    }
  }

  // ---------------------------------------------------------------------
  // The reference stable sort

  /** The stable sort by key holds each element of `s` with a key in
      `[0, n)` exactly as often as `s` does, and nothing else. */
  lemma {:induction false} BucketsMultiplicity(s: seq<int>, key: SortKey, n: int, x: int)
    ensures multiset(Buckets(s, key, n))[x] == if 0 <= KeyOf(key, x) < n then multiset(s)[x] else 0
    decreases n
  {
    if n > 0 {
      BucketsMultiplicity(s, key, n - 1, x);
      BucketsMultiplicityStep(s, key, n - 1, x);
    }
  }

  lemma BucketsMultiplicityStep(s: seq<int>, key: SortKey, d: int, x: int)
    requires 0 <= d
    requires multiset(Buckets(s, key, d))[x] == if 0 <= KeyOf(key, x) < d then multiset(s)[x] else 0
    ensures multiset(Buckets(s, key, d + 1))[x] == if 0 <= KeyOf(key, x) < d + 1 then multiset(s)[x] else 0
  {
    KeyClassMultiplicity(s, key, d, x);
    var k, m := KeyOf(key, x), multiset(s)[x];
    MultiplicityJoin(Buckets(s, key, d), KeyClass(s, key, d), x, if 0 <= k < d then m else 0, if k == d then m else 0);
  }

  lemma MultiplicityJoin(a: seq<int>, b: seq<int>, x: int, ma: int, mb: int)
    requires multiset(a)[x] == ma && multiset(b)[x] == mb
    ensures multiset(a + b)[x] == ma + mb
  {
  }

  /** A key class holds every occurrence of the values with its key. */
  lemma KeyClassMultiplicity(s: seq<int>, key: SortKey, d: int, x: int)
    ensures multiset(KeyClass(s, key, d))[x] == if KeyOf(key, x) == d then multiset(s)[x] else 0
  {
    FilterMultiplicity(s, y => KeyOf(key, y) == d, x);
  }

  /** With every key in `[0, n)`, the stable sort is a permutation. */
  lemma BucketsPerm(s: seq<int>, key: SortKey, n: int)
    requires KeysBelow(s, key, n)
    ensures multiset(Buckets(s, key, n)) == multiset(s)
    ensures |Buckets(s, key, n)| == |s|
  {
    var a, b := multiset(Buckets(s, key, n)), multiset(s);
    forall x
      ensures a[x] == b[x]
    {
      BucketsMultiplicity(s, key, n, x);
    }
    MultisetExt(a, b);
    assert |Buckets(s, key, n)| == |a|;
  }

  /** The elements of the stable sort come from `s` and have keys in
      `[0, n)`. */
  lemma {:induction false} BucketsKeys(s: seq<int>, key: SortKey, n: int)
    ensures forall x :: x in Buckets(s, key, n) ==> x in s && 0 <= KeyOf(key, x) < n
    decreases n
  {
    if n > 0 {
      BucketsKeys(s, key, n - 1);
    }
  }

  /** Adding a key class lengthens the stable sort by the size of the class. */
  lemma {:induction false} BucketsLengthMono(s: seq<int>, key: SortKey, a: int, b: int)
    requires a <= b
    ensures |Buckets(s, key, a)| <= |Buckets(s, key, b)|
    decreases b - a
  {
    if a < b {
      BucketsLengthMono(s, key, a, b - 1);
      if b > 0 {
        assert |Buckets(s, key, b)| == |Buckets(s, key, b - 1)| + |KeyClass(s, key, b - 1)|;
      }
    }
  }

  lemma SortedByKeyConcat(a: seq<int>, b: seq<int>, key: SortKey)
    requires SortedByKey(a, key) && SortedByKey(b, key)
    requires forall x, y :: x in a && y in b ==> KeyOf(key, x) <= KeyOf(key, y)
    ensures SortedByKey(a + b, key)
  {
    var ab := a + b;
    forall i, j | 0 <= i < j < |ab|
      ensures KeyOf(key, ab[i]) <= KeyOf(key, ab[j])
    {
      if i < |a| && j >= |a| {
        assert ab[i] == a[i] && ab[j] == b[j - |a|];
      } else if i < |a| {
        assert ab[i] == a[i] && ab[j] == a[j];
      } else {
        assert ab[i] == b[i - |a|] && ab[j] == b[j - |a|];
      }
    }
  }

  /** The stable sort is sorted by key. */
  lemma {:induction false} BucketsSorted(s: seq<int>, key: SortKey, n: int)
    ensures SortedByKey(Buckets(s, key, n), key)
    decreases n
  {
    if n > 0 {
      BucketsSorted(s, key, n - 1);
      BucketsSortedStep(s, key, n - 1);
    }
  }

  /** Appending class `d` keeps the stable sort below `d` sorted. */
  lemma BucketsSortedStep(s: seq<int>, key: SortKey, d: int)
    requires 0 <= d && SortedByKey(Buckets(s, key, d), key)
    ensures SortedByKey(Buckets(s, key, d + 1), key)
  {
    BucketsKeys(s, key, d);
    KeyClassSortedByOwnKey(s, key, d);
    SortedByKeyAppendClass(Buckets(s, key, d), KeyClass(s, key, d), key, d);
  }

  /** A sequence sorted by key, all of whose keys are below `d`, followed by
      elements of key `d`, is sorted by key. */
  lemma SortedByKeyAppendClass(front: seq<int>, last: seq<int>, key: SortKey, d: int)
    requires SortedByKey(front, key) && SortedByKey(last, key)
    requires forall x :: x in front ==> KeyOf(key, x) < d
    requires forall y :: y in last ==> KeyOf(key, y) == d
    ensures SortedByKey(front + last, key)
  {
    SortedByKeyConcat(front, last, key);
  }

  /** A key class is trivially sorted by its own key. */
  lemma KeyClassSortedByOwnKey(s: seq<int>, key: SortKey, d: int)
    ensures SortedByKey(KeyClass(s, key, d), key)
  {
    var c := KeyClass(s, key, d);
    forall i, j | 0 <= i < j < |c|
      ensures KeyOf(key, c[i]) <= KeyOf(key, c[j])
    {
      assert c[i] in c && c[j] in c;
    }
  }

  /** The stable sort is stable: each of its key classes below `n` is the
      input's, and it has no elements of any other key. */
  lemma {:induction false} BucketsClass(s: seq<int>, key: SortKey, n: int, d: int)
    ensures KeyClass(Buckets(s, key, n), key, d) == if 0 <= d < n then KeyClass(s, key, d) else []
    decreases n
  {
    if n <= 0 {
      assert Buckets(s, key, n) == [];
    } else {
      BucketsClass(s, key, n - 1, d);
      BucketsClassStep(s, key, n - 1, d);
    }
  }

  lemma BucketsClassStep(s: seq<int>, key: SortKey, m: int, d: int)
    requires 0 <= m
    requires KeyClass(Buckets(s, key, m), key, d) == if 0 <= d < m then KeyClass(s, key, d) else []
    ensures KeyClass(Buckets(s, key, m + 1), key, d) == if 0 <= d < m + 1 then KeyClass(s, key, d) else []
  {
    var last := KeyClass(s, key, m);
    KeyClassConcat(Buckets(s, key, m), last, key, d);
    if d == m {
      KeyClassFull(last, key, d);
    } else {
      KeyClassEmpty(last, key, d);
    }
  }

  lemma BucketsStable(s: seq<int>, key: SortKey, n: int)
    requires KeysBelow(s, key, n)
    ensures StableByKey(s, Buckets(s, key, n), key)
  {
    forall d
      ensures KeyClass(Buckets(s, key, n), key, d) == KeyClass(s, key, d)
    {
      BucketsClass(s, key, n, d);
      if !(0 <= d < n) {
        KeyClassEmpty(s, key, d);
      }
    }
  }

  /** The stable sort depends only on the key classes. */
  lemma {:induction false} BucketsSameClasses(r: seq<int>, s: seq<int>, key: SortKey, n: int)
    requires forall d :: 0 <= d < n ==> KeyClass(r, key, d) == KeyClass(s, key, d)
    ensures Buckets(r, key, n) == Buckets(s, key, n)
    decreases n
  {
    if n > 0 {
      BucketsSameClasses(r, s, key, n - 1);
    }
  }

  /** Length of the longest prefix of `r` with keys below `m`. */
  function KeysBelowPrefix(r: seq<int>, key: SortKey, m: int): (t: nat)
    ensures t <= |r|
    ensures forall i :: 0 <= i < t ==> KeyOf(key, r[i]) < m
    ensures t < |r| ==> KeyOf(key, r[t]) >= m
  {
    if r == [] || KeyOf(key, r[0]) >= m then 0 else 1 + KeysBelowPrefix(r[1..], key, m)
  }

  /** A sequence already sorted by key is its own stable sort. */
  lemma {:induction false} SortedIsBuckets(r: seq<int>, key: SortKey, n: int)
    requires SortedByKey(r, key) && KeysBelow(r, key, n)
    ensures r == Buckets(r, key, n)
    decreases n
  {
    if n > 0 {
      var t := KeysBelowPrefix(r, key, n - 1);
      SortedSplit(r, key, n, t);
      SortedIsBuckets(r[..t], key, n - 1);
      BucketsJoin(r, key, n, t);
    } else {
      NoKeysBelowZero(r, key, n);
    }
  }

  /** Gluing the stable sort of the smaller keys to the largest key class. */
  lemma BucketsJoin(r: seq<int>, key: SortKey, n: int, t: int)
    requires n > 0 && 0 <= t <= |r|
    requires KeysBelow(r[..t], key, n - 1)
    requires forall x :: x in r[t..] ==> KeyOf(key, x) == n - 1
    requires r[..t] == Buckets(r[..t], key, n - 1)
    ensures r == Buckets(r, key, n)
  {
    SplitClasses(r, key, n, t);
    BucketsSameClasses(r, r[..t], key, n - 1);
    SplitAt(r, t);
  }

  /** No key lies below a bound that is not positive. */
  lemma NoKeysBelowZero(r: seq<int>, key: SortKey, n: int)
    requires KeysBelow(r, key, n)
    ensures n <= 0 ==> r == []
  {
    if r != [] {
      assert r[0] in r;
      assert 0 <= KeyOf(key, r[0]) < n;
    }
  }

  /** Cutting a sorted sequence where the largest key starts leaves a sorted
      part with the smaller keys and a part holding only the largest. */
  lemma SortedSplit(r: seq<int>, key: SortKey, n: int, t: int)
    requires SortedByKey(r, key) && KeysBelow(r, key, n)
    requires t == KeysBelowPrefix(r, key, n - 1)
    ensures KeysBelow(r[..t], key, n - 1) && SortedByKey(r[..t], key)
    ensures forall x :: x in r[t..] ==> KeyOf(key, x) == n - 1
  {
    forall x | x in r[t..]
      ensures KeyOf(key, x) == n - 1
    {
      var i :| t <= i < |r| && r[i] == x;
      assert KeyOf(key, r[t]) <= KeyOf(key, r[i]) || i == t;
      assert r[i] in r;
    }
    forall x | x in r[..t]
      ensures 0 <= KeyOf(key, x) < n - 1
    {
      var i :| 0 <= i < t && r[i] == x;
      assert r[i] in r;
    }
  }

  /** The key classes of the two parts of such a cut. */
  lemma SplitClasses(r: seq<int>, key: SortKey, n: int, t: int)
    requires 0 <= t <= |r|
    requires KeysBelow(r[..t], key, n - 1)
    requires forall x :: x in r[t..] ==> KeyOf(key, x) == n - 1
    ensures KeyClass(r, key, n - 1) == r[t..]
    ensures forall d :: 0 <= d < n - 1 ==> KeyClass(r, key, d) == KeyClass(r[..t], key, d)
  {
    var low, high := r[..t], r[t..];
    SplitAt(r, t);
    assert KeyClass(r, key, n - 1) == high by {
      KeyClassConcat(low, high, key, n - 1);
      KeyClassEmpty(low, key, n - 1);
      KeyClassFull(high, key, n - 1);
    }
    forall d | 0 <= d < n - 1
      ensures KeyClass(r, key, d) == KeyClass(low, key, d)
    {
      KeyClassConcat(low, high, key, d);
      KeyClassEmpty(high, key, d);
    }
  }

  /** The stable sort is the only rearrangement sorted by key that keeps every
      key class in order: any such result of a counting pass is determined. */
  lemma BucketsUnique(s: seq<int>, r: seq<int>, key: SortKey, n: int)
    requires KeysBelow(s, key, n)
    requires SortedByKey(r, key) && StableByKey(s, r, key)
    ensures r == Buckets(s, key, n)
  {
    forall x | x in r
      ensures 0 <= KeyOf(key, x) < n
    {
      KeyClassHas(r, key, x);
      assert x in KeyClass(s, key, KeyOf(key, x));
    }
    SortedIsBuckets(r, key, n);
    BucketsSameClasses(r, s, key, n);
  }

  // ---------------------------------------------------------------------
  // One counting pass

  /** The key classes of a sequence grown by one element at the end. */
  lemma KeyClassSnoc(s: seq<int>, x: int, key: SortKey, d: int)
    ensures KeyClass(s + [x], key, d) == KeyClass(s, key, d) + (if KeyOf(key, x) == d then [x] else [])
  {
    KeyClassConcat(s, [x], key, d);
    KeyClassSingle(x, key, d);
  }

  /** The key classes of a sequence grown by one element at the front. */
  lemma KeyClassCons(x: int, s: seq<int>, key: SortKey, d: int)
    ensures KeyClass([x] + s, key, d) == (if KeyOf(key, x) == d then [x] else []) + KeyClass(s, key, d)
  {
    KeyClassConcat([x], s, key, d);
    KeyClassSingle(x, key, d);
  }

  /** Lines 11-13 of `counting_sort` and 42-45 of `_counting_sort_by_digit`:
      one counter per key, counting the elements with that key. Python's
      `[0] * n` is empty for a negative `n`. */
  method Histogram(items: seq<int>, key: SortKey, n: int) returns (counts: seq<int>)
    requires KeysBelow(items, key, n)
    ensures |counts| == if n > 0 then n else 0
    ensures forall d :: 0 <= d < |counts| ==> counts[d] == |KeyClass(items, key, d)|
  {
    counts := seq(if n > 0 then n else 0, _ => 0);
    for i := 0 to |items|
      invariant |counts| == if n > 0 then n else 0
      invariant forall d :: 0 <= d < |counts| ==> counts[d] == |KeyClass(items[..i], key, d)|
    {
      var d := KeyOf(key, items[i]);
      assert items[i] in items;
      assert items[..i + 1] == items[..i] + [items[i]];
      forall e | 0 <= e < |counts|
        ensures |KeyClass(items[..i + 1], key, e)| == |KeyClass(items[..i], key, e)| + (if e == d then 1 else 0)
      {
        KeyClassSnoc(items[..i], items[i], key, e);
      }
      counts := counts[d := counts[d] + 1];
    }
    assert items[..|items|] == items;
  }

  /** The total of a sequence of counts. */
  function Sum(c: seq<int>): (t: int) {
    if c == [] then 0 else Sum(c[..|c| - 1]) + c[|c| - 1]
  }

  /** Lines 16-17 of `counting_sort` and 47-48 of `_counting_sort_by_digit`:
      each counter becomes the total of itself and all counters before it. */
  method PrefixSums(c: seq<int>) returns (r: seq<int>)
    ensures |r| == |c|
    ensures forall d :: 0 <= d < |r| ==> r[d] == Sum(c[..d + 1])
  {
    r := c;
    var i := 1;
    if |c| > 0 {
      assert c[..1][..0] == [];
    }
    while i < |r|
      invariant |r| == |c| && 1 <= i
      invariant forall d :: 0 <= d < i && d < |r| ==> r[d] == Sum(c[..d + 1])
      invariant forall d :: i <= d < |r| ==> r[d] == c[d]
    {
      assert c[..i + 1][..i] == c[..i];
      r := r[i := r[i] + r[i - 1]];
      i := i + 1;
    }
  }

  /** After the prefix sums, counter `d` holds the number of elements with a
      key of at most `d`: the end of key class `d` in the stable sort. */
  lemma {:induction false} SumOfClassSizes(items: seq<int>, key: SortKey, counts: seq<int>, d: int)
    requires 0 <= d <= |counts|
    requires forall e :: 0 <= e < |counts| ==> counts[e] == |KeyClass(items, key, e)|
    ensures Sum(counts[..d]) == |Buckets(items, key, d)|
    decreases d
  {
    if d > 0 {
      SumOfClassSizes(items, key, counts, d - 1);
      assert counts[..d][..d - 1] == counts[..d - 1];
    }
  }

  /** `ends[d]` is where key class `d` ends in an output of `|items|` slots
      laid out class by class: every class fits below its end, and class `d`
      ends before class `e` starts whenever `d < e`. */
  ghost predicate ClassEnds(items: seq<int>, key: SortKey, ends: seq<int>) {
    && (forall d :: 0 <= d < |ends| ==> |KeyClass(items, key, d)| <= ends[d] <= |items|)
    && (forall d, e :: 0 <= d < e < |ends| ==> ends[d] <= ends[e] - |KeyClass(items, key, e)|)
  }

  /** The ends of the classes in the stable sort are such ends. */
  lemma BucketEnds(items: seq<int>, key: SortKey, ends: seq<int>)
    requires KeysBelow(items, key, |ends|)
    requires forall d :: 0 <= d < |ends| ==> ends[d] == |Buckets(items, key, d + 1)|
    ensures ClassEnds(items, key, ends)
  {
    BucketEndsWithin(items, key, ends);
    BucketEndsOrdered(items, key, ends);
  }

  lemma BucketEndsWithin(items: seq<int>, key: SortKey, ends: seq<int>)
    requires KeysBelow(items, key, |ends|)
    requires forall d :: 0 <= d < |ends| ==> ends[d] == |Buckets(items, key, d + 1)|
    ensures forall d :: 0 <= d < |ends| ==> |KeyClass(items, key, d)| <= ends[d] <= |items|
  {
    BucketsPerm(items, key, |ends|);
    forall d | 0 <= d < |ends|
      ensures |KeyClass(items, key, d)| <= ends[d] <= |items|
    {
      BucketsLengthMono(items, key, d + 1, |ends|);
    }
  }

  lemma BucketEndsOrdered(items: seq<int>, key: SortKey, ends: seq<int>)
    requires forall d :: 0 <= d < |ends| ==> ends[d] == |Buckets(items, key, d + 1)|
    ensures forall d, e :: 0 <= d < e < |ends| ==> ends[d] <= ends[e] - |KeyClass(items, key, e)|
  {
    forall d, e | 0 <= d < e < |ends|
      ensures ends[d] <= ends[e] - |KeyClass(items, key, e)|
    {
      BucketsLengthMono(items, key, d + 1, e);
    }
  }

  /** Loop invariant of the placement loop once the elements from position
      `i` on are placed: counter `d` has moved down from the end of class
      `d` by the number of its elements placed so far, never below the start
      of the class, and the slots from the counter to the end of the class
      hold exactly those elements, in input order. */
  ghost predicate PlaceInvariant(items: seq<int>, key: SortKey, ends: seq<int>, counts: seq<int>, output: seq<int>, i: int)
    requires 0 <= i <= |items|
  {
    && |counts| == |ends| && |output| == |items|
    && (forall d :: 0 <= d < |counts| ==> counts[d] == ends[d] - |KeyClass(items[i..], key, d)|)
    && (forall d :: 0 <= d < |counts| ==> 0 <= ends[d] - |KeyClass(items, key, d)| <= counts[d] <= ends[d] <= |output|)
    && (forall d :: 0 <= d < |counts| ==> output[counts[d]..ends[d]] == KeyClass(items[i..], key, d))
  }

  /** Lines 19-23 of `counting_sort` and 50-54 of `_counting_sort_by_digit`:
      walk the input from right to left, decrement the counter of each
      element's key and write the element to the slot it names. Given the
      prefix sums, the output is the stable sort. */
  method Place(items: seq<int>, key: SortKey, n: int, counts: seq<int>) returns (output: seq<int>)
    requires KeysBelow(items, key, n)
    requires |counts| == if n > 0 then n else 0
    requires forall d :: 0 <= d < |counts| ==> counts[d] == |Buckets(items, key, d + 1)|
    ensures output == Buckets(items, key, n)
  {
    BucketEnds(items, key, counts);
    var c;
    output, c := PlaceLoop(items, key, counts);
    PlaceEnd(items, key, n, counts, c, output);
  }

  /** The placement loop itself, given where each key class ends. */
  method PlaceLoop(items: seq<int>, key: SortKey, ends: seq<int>) returns (output: seq<int>, c: seq<int>)
    requires KeysBelow(items, key, |ends|) && ClassEnds(items, key, ends)
    ensures PlaceInvariant(items, key, ends, c, output, 0)
  {
    output := seq(|items|, _ => 0);
    c := ends;
    PlaceStart(items, key, ends, output);
    var i := |items|;
    while i > 0
      invariant 0 <= i <= |items|
      invariant PlaceInvariant(items, key, ends, c, output, i)
    {
      var x := items[i - 1];
      var d := KeyOf(key, x);
      PlaceStep(items, key, ends, c, output, i);
      c := c[d := c[d] - 1];
      output := output[c[d] := x];
      i := i - 1;
    }
  }

  lemma PlaceStart(items: seq<int>, key: SortKey, ends: seq<int>, output: seq<int>)
    requires ClassEnds(items, key, ends) && |output| == |items|
    ensures PlaceInvariant(items, key, ends, ends, output, |items|)
  {
    assert items[|items|..] == [];
  }

  /** One step of the placement loop keeps its invariant. */
  lemma PlaceStep(items: seq<int>, key: SortKey, ends: seq<int>, c: seq<int>, output: seq<int>, i: int)
    requires KeysBelow(items, key, |ends|) && ClassEnds(items, key, ends) && 0 < i <= |items|
    requires PlaceInvariant(items, key, ends, c, output, i)
    ensures 0 <= KeyOf(key, items[i - 1]) < |c|
    ensures 1 <= c[KeyOf(key, items[i - 1])] <= |output|
    ensures PlaceInvariant(items, key, ends, c[KeyOf(key, items[i - 1]) := c[KeyOf(key, items[i - 1])] - 1],
                           output[c[KeyOf(key, items[i - 1])] - 1 := items[i - 1]], i - 1)
  {
    assert items[i - 1] in items;
    PlaceStepOwn(items, key, ends, c, output, i);
    PlaceSlotSame(items, key, ends, c, output, i);
    PlaceStepOthers(items, key, ends, c, output, i);
  }

  /** The counter of the placed element's class moves down by one and stays
      inside its class. */
  lemma PlaceStepOwn(items: seq<int>, key: SortKey, ends: seq<int>, c: seq<int>, output: seq<int>, i: int)
    requires 0 < i <= |items| && 0 <= KeyOf(key, items[i - 1]) < |ends|
    requires PlaceInvariant(items, key, ends, c, output, i)
    ensures 1 <= c[KeyOf(key, items[i - 1])] <= |output|
    ensures c[KeyOf(key, items[i - 1])] - 1 == ends[KeyOf(key, items[i - 1])] - |KeyClass(items[i - 1..], key, KeyOf(key, items[i - 1]))|
    ensures ends[KeyOf(key, items[i - 1])] - |KeyClass(items, key, KeyOf(key, items[i - 1]))| <= c[KeyOf(key, items[i - 1])] - 1
  {
    var x := items[i - 1];
    var d0 := KeyOf(key, x);
    assert items[i - 1..] == [x] + items[i..];
    KeyClassCons(x, items[i..], key, d0);
    SplitAt(items, i - 1);
    KeyClassConcat(items[..i - 1], items[i - 1..], key, d0);
  }

  /** The other counters and their slots are untouched. */
  lemma PlaceStepOthers(items: seq<int>, key: SortKey, ends: seq<int>, c: seq<int>, output: seq<int>, i: int)
    requires 0 < i <= |items| && 0 <= KeyOf(key, items[i - 1]) < |ends|
    requires ClassEnds(items, key, ends) && PlaceInvariant(items, key, ends, c, output, i)
    requires ends[KeyOf(key, items[i - 1])] - |KeyClass(items, key, KeyOf(key, items[i - 1]))| < c[KeyOf(key, items[i - 1])]
    ensures forall d :: 0 <= d < |c| && d != KeyOf(key, items[i - 1]) ==>
      && c[d] == ends[d] - |KeyClass(items[i - 1..], key, d)|
      && output[c[KeyOf(key, items[i - 1])] - 1 := items[i - 1]][c[d]..ends[d]] == KeyClass(items[i - 1..], key, d)
  {
    var x := items[i - 1];
    var d0 := KeyOf(key, x);
    var p := c[d0] - 1;
    assert items[i - 1..] == [x] + items[i..];
    forall d | 0 <= d < |c| && d != d0
      ensures c[d] == ends[d] - |KeyClass(items[i - 1..], key, d)|
      ensures output[p := x][c[d]..ends[d]] == KeyClass(items[i - 1..], key, d)
    {
      KeyClassCons(x, items[i..], key, d);
      SliceUpdateOutside(output, c[d], ends[d], p, x);
    }
  }

  /** The element placed lands at the new head of its own class. */
  lemma PlaceSlotSame(items: seq<int>, key: SortKey, ends: seq<int>, c: seq<int>, output: seq<int>, i: int)
    requires 0 < i <= |items| && 0 <= KeyOf(key, items[i - 1]) < |ends|
    requires PlaceInvariant(items, key, ends, c, output, i)
    requires 1 <= c[KeyOf(key, items[i - 1])]
    ensures output[c[KeyOf(key, items[i - 1])] - 1 := items[i - 1]][c[KeyOf(key, items[i - 1])] - 1..ends[KeyOf(key, items[i - 1])]]
            == KeyClass(items[i - 1..], key, KeyOf(key, items[i - 1]))
  {
    var x := items[i - 1];
    var d0 := KeyOf(key, x);
    assert items[i - 1..] == [x] + items[i..];
    KeyClassCons(x, items[i..], key, d0);
    SliceUpdateFirst(output, c[d0] - 1, ends[d0], x);
  }

  /** A sequence cut at the ends of the key classes, class by class, is the
      stable sort: each class starts where the previous one ends. */
  lemma {:induction false} TileBuckets(output: seq<int>, items: seq<int>, key: SortKey, ends: seq<int>, d: int)
    requires 0 <= d < |ends| && ends[0] == |KeyClass(items, key, 0)|
    requires forall e :: 0 < e < |ends| ==> ends[e] - |KeyClass(items, key, e)| == ends[e - 1]
    requires forall e :: 0 <= e < |ends| ==> 0 <= ends[e] - |KeyClass(items, key, e)| <= ends[e] <= |output|
    requires forall e :: 0 <= e < |ends| ==> output[ends[e] - |KeyClass(items, key, e)|..ends[e]] == KeyClass(items, key, e)
    ensures output[..ends[d]] == Buckets(items, key, d + 1)
    decreases d
  {
    var start := ends[d] - |KeyClass(items, key, d)|;
    if d > 0 {
      TileBuckets(output, items, key, ends, d - 1);
    } else {
      assert Buckets(items, key, 0) == [];
    }
    TileJoin(output, items, key, d, start, ends[d]);
  }

  /** The stable sort below `d` followed by class `d` is the stable sort
      below `d + 1`. */
  lemma TileJoin(output: seq<int>, items: seq<int>, key: SortKey, d: int, start: int, end: int)
    requires 0 <= d && 0 <= start <= end <= |output|
    requires output[..start] == Buckets(items, key, d)
    requires output[start..end] == KeyClass(items, key, d)
    ensures output[..end] == Buckets(items, key, d + 1)
  {
    PrefixJoin(output, Buckets(items, key, d), KeyClass(items, key, d), start, end);
  }

  /** After the placement loop, the output is cut at the ends of the key
      classes into the classes themselves, one after the other. */
  lemma PlaceEnd(items: seq<int>, key: SortKey, n: int, ends: seq<int>, c: seq<int>, output: seq<int>)
    requires KeysBelow(items, key, n) && |ends| == (if n > 0 then n else 0)
    requires forall d :: 0 <= d < |ends| ==> ends[d] == |Buckets(items, key, d + 1)|
    requires PlaceInvariant(items, key, ends, c, output, 0)
    ensures output == Buckets(items, key, n)
  {
    NoKeysBelowZero(items, key, n);
    if n > 0 {
      BucketsPerm(items, key, n);
      EndsAdjacent(items, key, ends);
      PlacedClasses(items, key, ends, c, output);
      TileBuckets(output, items, key, ends, n - 1);
    }
  }

  /** Each key class ends where the next one starts. */
  lemma EndsAdjacent(items: seq<int>, key: SortKey, ends: seq<int>)
    requires |ends| > 0
    requires forall d :: 0 <= d < |ends| ==> ends[d] == |Buckets(items, key, d + 1)|
    ensures ends[0] == |KeyClass(items, key, 0)|
    ensures forall e :: 0 < e < |ends| ==> ends[e] - |KeyClass(items, key, e)| == ends[e - 1]
  {
    assert Buckets(items, key, 1) == Buckets(items, key, 0) + KeyClass(items, key, 0);
    forall e | 0 < e < |ends|
      ensures ends[e] - |KeyClass(items, key, e)| == ends[e - 1]
    {
      assert Buckets(items, key, e + 1) == Buckets(items, key, e) + KeyClass(items, key, e);
    }
  }

  /** Once every element is placed, each key class fills its whole slot. */
  lemma PlacedClasses(items: seq<int>, key: SortKey, ends: seq<int>, c: seq<int>, output: seq<int>)
    requires PlaceInvariant(items, key, ends, c, output, 0)
    ensures forall e :: 0 <= e < |ends| ==> 0 <= ends[e] - |KeyClass(items, key, e)| <= ends[e] <= |output|
    ensures forall e :: 0 <= e < |ends| ==> output[ends[e] - |KeyClass(items, key, e)|..ends[e]] == KeyClass(items, key, e)
  {
    assert items[0..] == items;
  }

  /** One counting pass by `key`, for keys in `[0, n)`: histogram, prefix
      sums, placement. The result is the stable sort by key. */
  method CountingSortByKey(items: seq<int>, key: SortKey, n: int) returns (output: seq<int>)
    requires KeysBelow(items, key, n)
    ensures output == Buckets(items, key, n)
  {
    var counts := Histogram(items, key, n);
    var ends := PrefixSums(counts);
    forall d | 0 <= d < |ends|
      ensures ends[d] == |Buckets(items, key, d + 1)|
    {
      SumOfClassSizes(items, key, counts, d + 1);
    }
    output := Place(items, key, n, ends);
  }

  // ---------------------------------------------------------------------
  // The two sorts built on a counting pass

  /** `counting_sort`: for integers in `[0, k]`, a new list holding the same
      elements in ascending order, equal values in input order. The counters
      are indexed by value, so a value above `k` or below `-(k + 1)` raises
      an index error, and a value in `[-(k + 1), -1]` silently indexes the
      counters from the end; the precondition excludes all three. */
  method CountingSort(items: seq<int>, k: int) returns (output: seq<int>)
    requires forall x :: x in items ==> 0 <= x <= k
    ensures |output| == |items|
    ensures multiset(output) == multiset(items)
    ensures Sorted(IntOrder, output)
    ensures StableByKey(items, output, Value)
  {
    assert KeysBelow(items, Value, k + 1);
    output := CountingSortByKey(items, Value, k + 1);
    BucketsPerm(items, Value, k + 1);
    BucketsStable(items, Value, k + 1);
    BucketsSorted(items, Value, k + 1);
  }

  /** `_counting_sort_by_digit`: a new list holding the same elements, sorted
      by the digit `(x // exp) % base`, elements with equal digits in input
      order. */
  method CountingSortByDigit(items: seq<int>, exp: Pos, base: Pos) returns (res: seq<int>)
    ensures multiset(res) == multiset(items)
    ensures SortedByKey(res, Digit(exp, base))
    ensures StableByKey(items, res, Digit(exp, base))
  {
    assert KeysBelow(items, Digit(exp, base), base);
    res := CountingSortByKey(items, Digit(exp, base), base);
    BucketsPerm(items, Digit(exp, base), base);
    BucketsStable(items, Digit(exp, base), base);
    BucketsSorted(items, Digit(exp, base), base);
  }

  // ---------------------------------------------------------------------
  // Arithmetic of digits

  lemma MulSign(a: int, e: int)
    requires e >= 1
    ensures a >= 1 ==> a * e >= e
    ensures a <= -1 ==> a * e <= -e
  {
  }

  lemma MulMono(a: int, b: int, e: int)
    requires e >= 0
    ensures a <= b ==> a * e <= b * e
  {
  }

  /** Euclidean division has one answer: a quotient and a remainder in
      `[0, e)` that rebuild `c` are `c / e` and `c % e`. */
  lemma DivModUnique(c: int, e: int, q: int, r: int)
    requires e >= 1 && 0 <= r < e && c == q * e + r
    ensures c / e == q && c % e == r
  {
    var q', r' := c / e, c % e;
    assert (q - q') * e == r' - r;
    MulSign(q - q', e);
  }

  /** A quotient is positive exactly when the divisor fits in the dividend. */
  lemma DivPositive(m: int, e: int)
    requires e >= 1
    ensures m / e > 0 <==> m >= e
  {
    MulSign(m / e, e);
    if m >= e {
      DivModUnique(m, e, m / e, m % e);
    }
  }

  /** The digits of `c` below `e * b`: a digit `c / e` below `b` and a low
      part `c % e`. */
  lemma DivBound(c: int, e: Pos, b: Pos)
    requires 0 <= c < e * b
    ensures 0 <= c / e < b
  {
    MulSign(c / e, e);
    MulMono(b, c / e, e);
  }

  /** `x % (e * b)` is the digit at position `e` followed by `x % e`. */
  lemma LowSplit(x: int, e: Pos, b: Pos)
    ensures x % (e * b) == ((x / e) % b) * e + x % e
  {
    var q1, r1 := x / e, x % e;
    var q2, r2 := q1 / b, q1 % b;
    assert x == (q2 * b + r2) * e + r1;
    assert x == q2 * (e * b) + (r2 * e + r1);
    MulMono(r2, b - 1, e);
    assert (b - 1) * e == e * b - e;
    DivModUnique(x, e * b, q2, r2 * e + r1);
  }

  /** Elements with equal digits at `e` are ordered by `x % (e * b)` as they
      are by `x % e`. */
  lemma SameDigitLowOrder(x: int, y: int, e: Pos, b: Pos)
    requires KeyOf(Digit(e, b), x) == KeyOf(Digit(e, b), y)
    ensures KeyOf(Low(e * b), x) <= KeyOf(Low(e * b), y) <==> KeyOf(Low(e), x) <= KeyOf(Low(e), y)
  {
    LowSplit(x, e, b);
    LowSplit(y, e, b);
  }

  /** A smaller digit at `e` means a smaller `x % (e * b)`. */
  lemma LowerDigitBelow(x: int, y: int, e: Pos, b: Pos)
    requires KeyOf(Digit(e, b), x) < KeyOf(Digit(e, b), y)
    ensures KeyOf(Low(e * b), x) < KeyOf(Low(e * b), y)
  {
    var dx, dy := (x / e) % b, (y / e) % b;
    LowSplit(x, e, b);
    LowSplit(y, e, b);
    MulMono(dx + 1, dy, e);
    assert (dx + 1) * e == dx * e + e;
  }

  /** The class of `c` under `x % (e * b)` lies inside the class of digit
      `c / e` and inside the class of `c % e` under `x % e`. */
  lemma LowRefines(c: int, e: Pos, b: Pos)
    requires 0 <= c < e * b
    ensures 0 <= c / e < b
    ensures Refines(Low(e * b), c, Digit(e, b), c / e)
    ensures Refines(Low(e * b), c, Low(e), c % e)
  {
    DivBound(c, e, b);
    forall x | KeyOf(Low(e * b), x) == c
      ensures KeyOf(Digit(e, b), x) == c / e && KeyOf(Low(e), x) == c % e
    {
      LowSplit(x, e, b);
      DivModUnique(c, e, (x / e) % b, x % e);
    }
  }

  // ---------------------------------------------------------------------
  // Radix sort

  /** A key class of a sequence sorted by another key is sorted by it too. */
  lemma {:induction false} KeyClassSortedBy(s: seq<int>, k: SortKey, d: int, k2: SortKey)
    requires SortedByKey(s, k2)
    ensures SortedByKey(KeyClass(s, k, d), k2)
  {
    if s != [] {
      var head := if KeyOf(k, s[0]) == d then [s[0]] else [];
      var rest := KeyClass(s[1..], k, d);
      SortedByKeyTail(s, k2);
      KeyClassSortedBy(s[1..], k, d, k2);
      SplitAt(s, 1);
      KeyClassCons(s[0], s[1..], k, d);
      SortedByKeyConcat(head, rest, k2);
    }
  }

  /** The tail of a sequence sorted by key is sorted, and its head comes
      first. */
  lemma SortedByKeyTail(s: seq<int>, k: SortKey)
    requires SortedByKey(s, k) && s != []
    ensures SortedByKey(s[1..], k)
    ensures forall y :: y in s[1..] ==> KeyOf(k, s[0]) <= KeyOf(k, y)
  {
    forall y | y in s[1..]
      ensures KeyOf(k, s[0]) <= KeyOf(k, y)
    {
      var j :| 1 <= j < |s| && s[j] == y;
    }
  }

  /** A digit pass over a sequence sorted by `x % e` yields one sorted by
      `x % (e * b)`: digit classes come in digit order, and each keeps the
      order by `x % e` it had. */
  lemma {:induction false} DigitPassSorted(r: seq<int>, e: Pos, b: Pos, n: int)
    requires SortedByKey(r, Low(e)) && n <= b
    ensures SortedByKey(Buckets(r, Digit(e, b), n), Low(e * b))
    decreases n
  {
    if n > 0 {
      DigitPassSorted(r, e, b, n - 1);
      DigitPassSortedStep(r, e, b, n - 1);
    }
  }

  /** Appending the class of digit `d` keeps the pass sorted by
      `x % (e * b)`. */
  lemma DigitPassSortedStep(r: seq<int>, e: Pos, b: Pos, d: int)
    requires SortedByKey(r, Low(e)) && 0 <= d
    requires SortedByKey(Buckets(r, Digit(e, b), d), Low(e * b))
    ensures SortedByKey(Buckets(r, Digit(e, b), d + 1), Low(e * b))
  {
    var front, cls := Buckets(r, Digit(e, b), d), KeyClass(r, Digit(e, b), d);
    BucketsKeys(r, Digit(e, b), d);
    DigitClassSorted(r, e, b, d);
    forall x, y | x in front && y in cls
      ensures KeyOf(Low(e * b), x) <= KeyOf(Low(e * b), y)
    {
      LowerDigitBelow(x, y, e, b);
    }
    SortedByKeyConcat(front, cls, Low(e * b));
  }

  /** One digit class of a sequence sorted by `x % e` is sorted by
      `x % (e * b)`. */
  lemma DigitClassSorted(r: seq<int>, e: Pos, b: Pos, d: int)
    requires SortedByKey(r, Low(e))
    ensures SortedByKey(KeyClass(r, Digit(e, b), d), Low(e * b))
  {
    var cls := KeyClass(r, Digit(e, b), d);
    KeyClassSortedBy(r, Digit(e, b), d, Low(e));
    forall i, j | 0 <= i < j < |cls|
      ensures KeyOf(Low(e * b), cls[i]) <= KeyOf(Low(e * b), cls[j])
    {
      assert cls[i] in cls && cls[j] in cls;
      SameDigitLowOrder(cls[i], cls[j], e, b);
    }
  }

  /** A class of a finer key, picked out of the stable sort by a coarser one,
      is picked out of the coarse class that contains it. */
  lemma {:induction false} BucketsClassOfFiner(s: seq<int>, k1: SortKey, n: int, k2: SortKey, c: int, d: int)
    requires Refines(k2, c, k1, d) && 0 <= d < n
    ensures KeyClass(Buckets(s, k1, n), k2, c) == KeyClass(KeyClass(s, k1, d), k2, c)
    decreases n
  {
    var front, cls := Buckets(s, k1, n - 1), KeyClass(s, k1, n - 1);
    KeyClassConcat(front, cls, k2, c);
    if d == n - 1 {
      BucketsKeys(s, k1, n - 1);
      KeyClassEmpty(front, k2, c);
    } else {
      BucketsClassOfFiner(s, k1, n - 1, k2, c, d);
      KeyClassEmpty(cls, k2, c);
    }
  }

  /** A digit pass keeps elements of equal `x % (e * b)` in input order, when
      the sequence it is applied to kept elements of equal `x % e` in input
      order. */
  lemma DigitPassStable(items: seq<int>, r: seq<int>, e: Pos, b: Pos, c: int)
    requires StableByKey(items, r, Low(e))
    ensures KeyClass(Buckets(r, Digit(e, b), b), Low(e * b), c) == KeyClass(items, Low(e * b), c)
  {
    if 0 <= c < e * b {
      LowRefines(c, e, b);
      BucketsClassOfFiner(r, Digit(e, b), b, Low(e * b), c, c / e);
      KeyClassRefine(r, Digit(e, b), c / e, Low(e * b), c);
      KeyClassRefine(r, Low(e), c % e, Low(e * b), c);
      KeyClassRefine(items, Low(e), c % e, Low(e * b), c);
    } else {
      KeyClassEmpty(Buckets(r, Digit(e, b), b), Low(e * b), c);
      KeyClassEmpty(items, Low(e * b), c);
    }
  }

  /** Loop invariant of `radix_sort` once every digit below position `exp`
      has had its pass: a permutation of the input, sorted by `x % exp`, with
      elements of equal `x % exp` in input order. */
  ghost predicate RadixInvariant(items: seq<int>, output: seq<int>, exp: Pos) {
    && multiset(output) == multiset(items)
    && SortedByKey(output, Low(exp))
    && StableByKey(items, output, Low(exp))
  }

  /** A pass by the digit at `e` moves the invariant from `e` to `e * b`. */
  lemma RadixStep(items: seq<int>, r: seq<int>, next: seq<int>, e: Pos, b: Pos)
    requires RadixInvariant(items, r, e)
    requires multiset(next) == multiset(r)
    requires SortedByKey(next, Digit(e, b)) && StableByKey(r, next, Digit(e, b))
    ensures RadixInvariant(items, next, e * b)
  {
    BucketsUnique(r, next, Digit(e, b), b);
    DigitPassSorted(r, e, b, b);
    DigitPassStableAll(items, r, e, b);
  }

  lemma DigitPassStableAll(items: seq<int>, r: seq<int>, e: Pos, b: Pos)
    requires StableByKey(items, r, Low(e))
    ensures StableByKey(items, Buckets(r, Digit(e, b), b), Low(e * b))
  {
    forall c
      ensures KeyClass(Buckets(r, Digit(e, b), b), Low(e * b), c) == KeyClass(items, Low(e * b), c)
    {
      DigitPassStable(items, r, e, b, c);
    }
  }

  /** The largest element, as Python's `max` finds it. */
  function Max(s: seq<int>): (m: int)
    requires s != []
    ensures m in s && forall x :: x in s ==> x <= m
  {
    if |s| == 1 then s[0]
    else
      var m := Max(s[1..]);
      assert forall x :: x in s ==> x == s[0] || x in s[1..];
      if s[0] >= m then s[0] else m
  }

  /** `b` to the power `n`. */
  function Pow(b: Pos, n: nat): (p: Pos)
  {
    if n == 0 then 1 else b * Pow(b, n - 1)
  }

  /** Powers of a base of at least 2 grow with the exponent. */
  lemma {:induction false} PowMono(b: Pos, i: nat, j: nat)
    requires b >= 2 && i <= j
    ensures Pow(b, i) <= Pow(b, j)
  {
    if i < j {
      PowMono(b, i, j - 1);
      MulMono(1, b, Pow(b, j - 1));
    }
  }

  /** `n` is the number of passes `radix_sort` makes when the largest element
      is `m`: `b^n` is the first power of the base above `m`. */
  ghost predicate IsPassCount(b: Pos, m: int, n: nat) {
    m < Pow(b, n) && (n == 0 || Pow(b, n - 1) <= m)
  }

  /** The number of passes, and so the final modulus, is determined by the
      largest element. */
  lemma PassCountUnique(b: Pos, m: int, n1: nat, n2: nat)
    requires b >= 2 && IsPassCount(b, m, n1) && IsPassCount(b, m, n2)
    ensures n1 == n2
  {
    if n1 < n2 {
      PowMono(b, n1, n2 - 1);
    } else if n2 < n1 {
      PowMono(b, n2, n1 - 1);
    }
  }

  /** `radix_sort`: least-significant-digit passes while some digit of the
      largest element is left. After `n` passes the result is the stable sort
      of the input by `x % e`, where `e = base^n` is the first power of the
      base above the largest element (1 for empty input). For non-negative
      input that is the ascending order. Negative elements are taken modulo
      `e` as Python's `//` and `%` do, so such input comes back in that order
      rather than ascending. The pass count and modulus are ghost outputs
      that name this result; `PassCountUnique` shows they are determined by
      the input. */
  method RadixSort(items: seq<int>, base: int) returns (output: seq<int>, ghost n: nat, ghost e: Pos)
    requires base >= 2
    ensures multiset(output) == multiset(items)
    ensures items == [] ==> output == items && n == 0
    ensures e == Pow(base, n)
    ensures items != [] ==> IsPassCount(base, Max(items), n)
    ensures output == Buckets(items, Low(e), e)
    ensures (forall x :: x in items ==> 0 <= x) ==> Sorted(IntOrder, output)
  {
    n, e := 0, 1;
    if items == [] {
      assert KeysBelow(items, Low(1), 1);
      assert Buckets(items, Low(1), 1) == [];
      return items, n, e;
    }
    var maxVal := Max(items);
    var exp: Pos := 1;
    output := items;
    RadixStart(items);
    while maxVal / exp > 0
      invariant RadixInvariant(items, output, exp)
      invariant exp == Pow(base, n)
      invariant n == 0 || Pow(base, n - 1) <= maxVal
      decreases maxVal - exp
    {
      var next := CountingSortByDigit(output, exp, base);
      RadixStep(items, output, next, exp, base);
      output := next;
      DivPositive(maxVal, exp);
      MulMono(2, base, exp);
      exp := exp * base;
      n := n + 1;
    }
    DivPositive(maxVal, exp);
    RadixEnd(items, output, exp);
    e := exp;
  }

  lemma RadixStart(items: seq<int>)
    ensures RadixInvariant(items, items, 1)
  {
  }

  /** Once the exponent passes every element, the invariant pins the result
      down. */
  lemma RadixEnd(items: seq<int>, output: seq<int>, e: Pos)
    requires RadixInvariant(items, output, e)
    requires forall x :: x in items ==> x < e
    ensures output == Buckets(items, Low(e), e)
    ensures (forall x :: x in items ==> 0 <= x) ==> Sorted(IntOrder, output)
  {
    BucketsUnique(items, output, Low(e), e);
    if forall x :: x in items ==> 0 <= x {
      LowOrderIsOrder(items, output, e);
    }
  }

  /** Below the modulus, ordering by `x % e` is ordering by value. */
  lemma LowOrderIsOrder(items: seq<int>, output: seq<int>, e: Pos)
    requires multiset(output) == multiset(items)
    requires forall x :: x in items ==> 0 <= x < e
    requires SortedByKey(output, Low(e))
    ensures Sorted(IntOrder, output)
  {
    forall i, j | 0 <= i < j < |output|
      ensures IntOrder(output[i], output[j]) <= 0
    {
      var x, y := output[i], output[j];
      assert x in multiset(items) && y in multiset(items);
      assert x in items && y in items;
      DivModUnique(x, e, 0, x);
      DivModUnique(y, e, 0, y);
    }
  }
}
