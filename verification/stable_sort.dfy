/** Python's `items.sort(key=score, reverse=True)`: a stable sort into
    non-increasing key order. Both bots rank their candidates with it. */
module StableSort {

  /** Keys never rise from left to right. */
  predicate NonIncreasing<T>(xs: seq<T>, key: T -> real)
  {
    forall i, j :: 0 <= i < j < |xs| ==> key(xs[i]) >= key(xs[j])
  }

  /** The entries of `xs` whose key is `k`, in their order in `xs`. */
  function WithKey<T>(xs: seq<T>, key: T -> real, k: real): seq<T>
  {
    if |xs| == 0 then []
    else (if key(xs[0]) == k then [xs[0]] else []) + WithKey(xs[1..], key, k)
  }

  /** Places `x` after every entry whose key is at least `key(x)`. */
  function Insert<T>(ys: seq<T>, x: T, key: T -> real): (r: seq<T>)
    requires NonIncreasing(ys, key)
    ensures NonIncreasing(r, key)
    ensures multiset(r) == multiset(ys) + multiset{x}
    ensures |r| == |ys| + 1
    ensures key(r[0]) == key(x) || (|ys| > 0 && key(r[0]) == key(ys[0]))
  {
    if |ys| == 0 then [x]
    else if key(ys[0]) < key(x) then
      ConsNonIncreasing(x, ys, key);
      [x] + ys
    else
      var rest := Insert(ys[1..], x, key);
      assert ys == [ys[0]] + ys[1..];
      ConsNonIncreasing(ys[0], rest, key);
      [ys[0]] + rest
  }

  lemma ConsNonIncreasing<T>(a: T, xs: seq<T>, key: T -> real)
    requires NonIncreasing(xs, key)
    requires |xs| > 0 ==> key(xs[0]) <= key(a)
    ensures NonIncreasing([a] + xs, key)
  {
    var r := [a] + xs;
    forall i, j | 0 <= i < j < |r| ensures key(r[i]) >= key(r[j]) {
      if i == 0 && j > 1 {
        assert key(xs[0]) >= key(xs[j - 1]);
      }
    }
  }

  /** Insertion sort over the prefixes of `xs`, in the order Python's sort
      leaves them: non-increasing keys, a permutation of `xs`. */
  function Sort<T>(xs: seq<T>, key: T -> real): (r: seq<T>)
    ensures NonIncreasing(r, key)
    ensures multiset(r) == multiset(xs)
  {
    if |xs| == 0 then []
    else
      assert xs == xs[..|xs| - 1] + [xs[|xs| - 1]];
      Insert(Sort(xs[..|xs| - 1], key), xs[|xs| - 1], key)
  }

  lemma {:induction false} WithKeyAppend<T>(a: seq<T>, b: seq<T>, key: T -> real, k: real)
    ensures WithKey(a + b, key, k) == WithKey(a, key, k) + WithKey(b, key, k)
    decreases |a|
  {
    if |a| == 0 {
      assert a + b == b;
    } else {
      assert (a + b)[0] == a[0];
      assert (a + b)[1..] == a[1..] + b;
      WithKeyAppend(a[1..], b, key, k);
    }
  }

  lemma {:induction false} WithKeyNone<T>(xs: seq<T>, key: T -> real, k: real)
    requires forall i :: 0 <= i < |xs| ==> key(xs[i]) != k
    ensures WithKey(xs, key, k) == []
    decreases |xs|
  {
    if |xs| != 0 {
      WithKeyNone(xs[1..], key, k);
    }
  }

  lemma {:induction false} WithKeyAll<T>(xs: seq<T>, key: T -> real, k: real)
    requires forall i :: 0 <= i < |xs| ==> key(xs[i]) == k
    ensures WithKey(xs, key, k) == xs
    decreases |xs|
  {
    if |xs| != 0 {
      WithKeyAll(xs[1..], key, k);
      assert xs == [xs[0]] + xs[1..];
    }
  }

  lemma WithKeySingle<T>(x: T, key: T -> real, k: real)
    ensures WithKey([x], key, k) == if key(x) == k then [x] else []
  {
    assert [x][1..] == [];
  }

  /** Inserting `x` appends it to the entries that share its key. */
  lemma {:induction false} InsertWithKey<T>(ys: seq<T>, x: T, key: T -> real, k: real)
    requires NonIncreasing(ys, key)
    ensures WithKey(Insert(ys, x, key), key, k)
         == WithKey(ys, key, k) + (if key(x) == k then [x] else [])
    decreases |ys|
  {
    var tail := if key(x) == k then [x] else [];
    WithKeySingle(x, key, k);
    if |ys| == 0 {
      assert Insert(ys, x, key) == [x];
    } else if key(ys[0]) < key(x) {
      assert Insert(ys, x, key) == [x] + ys;
      WithKeyAppend([x], ys, key, k);
      if key(x) == k {
        WithKeyNone(ys, key, k);
      }
    } else {
      var rest := Insert(ys[1..], x, key);
      assert Insert(ys, x, key) == [ys[0]] + rest;
      InsertWithKey(ys[1..], x, key, k);
      assert WithKey(rest, key, k) == WithKey(ys[1..], key, k) + tail;
      WithKeyAppend([ys[0]], rest, key, k);
      WithKeyAppend([ys[0]], ys[1..], key, k);
      assert [ys[0]] + ys[1..] == ys;
    }
  }

  /** Stability: entries with equal keys keep their original relative order. */
  lemma {:induction false} SortKeepsTies<T>(xs: seq<T>, key: T -> real, k: real)
    ensures WithKey(Sort(xs, key), key, k) == WithKey(xs, key, k)
    decreases |xs|
  {
    if |xs| != 0 {
      var init, last := xs[..|xs| - 1], xs[|xs| - 1];
      assert xs == init + [last];
      SortKeepsTies(init, key, k);
      InsertWithKey(Sort(init, key), last, key, k);
      WithKeyAppend(init, [last], key, k);
    }
  }

  /** When every key is the same the sort changes nothing. */
  lemma SortOfEqualKeys<T>(xs: seq<T>, key: T -> real, k: real)
    requires forall i :: 0 <= i < |xs| ==> key(xs[i]) == k
    ensures Sort(xs, key) == xs
  {
    var r := Sort(xs, key);
    forall i | 0 <= i < |r| ensures key(r[i]) == k {
      assert r[i] in multiset(r);
    }
    SortKeepsTies(xs, key, k);
    WithKeyAll(xs, key, k);
    WithKeyAll(r, key, k);
  }
  /** The first entry with key `k` heads the entries with that key. */
  lemma {:induction false} WithKeyFirst<T>(xs: seq<T>, key: T -> real, k: real, i: int)
    requires 0 <= i < |xs| && key(xs[i]) == k
    requires forall j :: 0 <= j < i ==> key(xs[j]) != k
    ensures |WithKey(xs, key, k)| > 0 && WithKey(xs, key, k)[0] == xs[i]
    decreases i
  {
    if i > 0 {
      WithKeyFirst(xs[1..], key, k, i - 1);
    }
  }

  /** The position of the first entry of `xs` whose key is `k`. */
  function FirstWithKey<T>(xs: seq<T>, key: T -> real, k: real, bound: int): (i: int)
    requires 0 <= bound < |xs| && key(xs[bound]) == k
    ensures 0 <= i <= bound && key(xs[i]) == k
    ensures forall j :: 0 <= j < i ==> key(xs[j]) != k
    decreases bound
  {
    if key(xs[0]) == k then 0
    else 1 + FirstWithKey(xs[1..], key, k, bound - 1)
  }

  /** No entry of the input has a larger key than the head of the sort. */
  lemma SortHeadIsMax<T>(xs: seq<T>, key: T -> real)
    requires |xs| > 0
    ensures |Sort(xs, key)| == |xs|
    ensures forall j :: 0 <= j < |xs| ==> key(xs[j]) <= key(Sort(xs, key)[0])
  {
    var r := Sort(xs, key);
    assert |r| == |multiset(r)| == |multiset(xs)| == |xs|;
    forall j | 0 <= j < |xs| ensures key(xs[j]) <= key(r[0]) {
      assert xs[j] in multiset(r);
      var m :| 0 <= m < |r| && r[m] == xs[j];
      if m > 0 {
        assert key(r[0]) >= key(r[m]);
      }
    }
  }

  /** `xs[i]` has the largest key of `xs`, and no earlier entry shares it. */
  predicate FirstBest<T>(xs: seq<T>, key: T -> real, i: int)
  {
    && 0 <= i < |xs|
    && (forall j :: 0 <= j < |xs| ==> key(xs[j]) <= key(xs[i]))
    && (forall j :: 0 <= j < i ==> key(xs[j]) < key(xs[i]))
  }

  /** The sort's head is the first entry holding the head's key. */
  lemma SortHeadIsFirstWithItsKey<T>(xs: seq<T>, key: T -> real, i: int)
    requires |xs| > 0 && |Sort(xs, key)| == |xs|
    requires 0 <= i < |xs| && key(xs[i]) == key(Sort(xs, key)[0])
    requires forall j :: 0 <= j < i ==> key(xs[j]) != key(xs[i])
    ensures Sort(xs, key)[0] == xs[i]
  {
    var r := Sort(xs, key);
    var k := key(r[0]);
    WithKeyFirst(xs, key, k, i);
    WithKeyFirst(r, key, k, 0);
    SortKeepsTies(xs, key, k);
  }

  /** The head of the sorted list is the first entry of the input with the
      largest key: every earlier entry has a strictly smaller key. */
  lemma SortHeadIsFirstBest<T>(xs: seq<T>, key: T -> real)
    requires |xs| > 0
    ensures exists i :: FirstBest(xs, key, i) && Sort(xs, key)[0] == xs[i]
  {
    SortHeadIsMax(xs, key);
    var r := Sort(xs, key);
    var k := key(r[0]);
    assert r[0] in multiset(xs);
    var b :| 0 <= b < |xs| && xs[b] == r[0];
    var i := FirstWithKey(xs, key, k, b);
    SortHeadIsFirstWithItsKey(xs, key, i);
    assert FirstBest(xs, key, i);
  }
}
