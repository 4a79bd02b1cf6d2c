/** A model of `Array.prototype.sort` with a comparator `(a, b) => key(a) - key(b)`: the
    ECMAScript sort is stable, so the result is the unique stable ordering of the input by `key`.
    It is given here by insertion sort, with the properties that characterise it proved. */
module StableSort {
  import opened Seqs

  /** Non-decreasing by `key`. */
  ghost predicate SortedBy<T>(s: seq<T>, key: T -> int)
  {
    forall i, j :: 0 <= i < j < |s| ==> key(s[i]) <= key(s[j])
  }

  /** The elements of `s` whose key is `k`, in the order of `s`. */
  function WithKey<T>(s: seq<T>, key: T -> int, k: int): seq<T>
  {
    if s == [] then []
    else (if key(s[0]) == k then [s[0]] else []) + WithKey(s[1..], key, k)
  }

  /** Puts `x` before the first element whose key is not smaller than its own. */
  function Insert<T>(x: T, t: seq<T>, key: T -> int): (r: seq<T>)
    ensures |r| == |t| + 1
    ensures multiset(r) == multiset(t) + multiset{x}
  {
    if t == [] || key(x) <= key(t[0]) then [x] + t
    else
      assert t == [t[0]] + t[1..];
      [t[0]] + Insert(x, t[1..], key)
  }

  lemma {:induction false} InsertSorted<T>(x: T, t: seq<T>, key: T -> int)
    requires SortedBy(t, key)
    ensures SortedBy(Insert(x, t, key), key)
  {
    if t != [] && key(t[0]) < key(x) {
      var tail := t[1..];
      var rest := Insert(x, tail, key);
      InsertSorted(x, tail, key);
      assert rest[0] == x || rest[0] == tail[0];
      assert key(t[0]) <= key(rest[0]);
      var r := [t[0]] + rest;
      forall i, j | 0 <= i < j < |r|
        ensures key(r[i]) <= key(r[j])
      {
        assert r[j] == rest[j - 1];
        if i > 0 {
          assert r[i] == rest[i - 1];
        } else if j > 1 {
          assert key(rest[0]) <= key(rest[j - 1]);
        }
      }
    }
  }

  /** The stable sort of `s` by `key`. */
  function Sort<T>(s: seq<T>, key: T -> int): (r: seq<T>)
    ensures |r| == |s|
    ensures multiset(r) == multiset(s)
    ensures SortedBy(r, key)
  {
    if s == [] then []
    else
      assert s == [s[0]] + s[1..];
      var t := Sort(s[1..], key);
      InsertSorted(s[0], t, key);
      Insert(s[0], t, key)
  }

  /** The group of `[y] + s`: `y` in front when it has the key. */
  lemma WithKeyCons<T>(y: T, s: seq<T>, key: T -> int, k: int)
    ensures WithKey([y] + s, key, k) == (if key(y) == k then [y] else []) + WithKey(s, key, k)
  {
    assert ([y] + s)[1..] == s;
  }

  lemma {:induction false} InsertWithKey<T>(x: T, t: seq<T>, key: T -> int, k: int)
    ensures WithKey(Insert(x, t, key), key, k) == (if key(x) == k then [x] else []) + WithKey(t, key, k)
  {
    if t == [] || key(x) <= key(t[0]) {
      WithKeyCons(x, t, key, k);
    } else {
      var rest := Insert(x, t[1..], key);
      WithKeyCons(t[0], rest, key, k);
      InsertWithKey(x, t[1..], key, k);
      if key(x) == k {
        assert key(t[0]) != k;
      }
    }
  }

  /** Stability: among elements with equal keys the input order is kept. */
  lemma {:induction false} SortStable<T>(s: seq<T>, key: T -> int, k: int)
    ensures WithKey(Sort(s, key), key, k) == WithKey(s, key, k)
  {
    if s != [] {
      SortStable(s[1..], key, k);
      InsertWithKey(s[0], Sort(s[1..], key), key, k);
    }
  }

  /** Selecting by key commutes with concatenation, which is what "in input order" means. */
  lemma {:induction false} WithKeyAppend<T>(a: seq<T>, b: seq<T>, key: T -> int, k: int)
    ensures WithKey(a + b, key, k) == WithKey(a, key, k) + WithKey(b, key, k)
  {
    if a != [] {
      assert (a + b)[1..] == a[1..] + b;
      WithKeyAppend(a[1..], b, key, k);
    } else {
      assert a + b == b;
    }
  }

  /** Cutting a prefix keeps a prefix of every equal-key group. */
  lemma WithKeyPrefix<T>(s: seq<T>, n: nat, key: T -> int, k: int)
    requires n <= |s|
    ensures var w := WithKey(s[..n], key, k);
      |w| <= |WithKey(s, key, k)| && w == WithKey(s, key, k)[..|w|]
  {
    assert s == s[..n] + s[n..];
    WithKeyAppend(s[..n], s[n..], key, k);
  }

  /** The first `n` of the sorted sequence are at most `n` elements of `s`, in key order. */
  lemma TakeSorted<T>(s: seq<T>, key: T -> int, n: nat)
    ensures var top := Take(Sort(s, key), n);
      && |top| == (if |s| < n then |s| else n)
      && multiset(top) <= multiset(s)
      && SortedBy(top, key)
  {
    var sorted := Sort(s, key);
    var top := Take(sorted, n);
    assert sorted == top + sorted[|top|..];
    assert multiset(sorted) == multiset(top) + multiset(sorted[|top|..]);
  }

  /** The first `n` of the sorted sequence have the smallest keys: no element left out has a
      smaller key than one kept. */
  lemma TakeSortedBest<T>(s: seq<T>, key: T -> int, n: nat)
    ensures var top := Take(Sort(s, key), n);
      forall p, q :: p in s && p !in top && q in top ==> key(q) <= key(p)
  {
    var sorted := Sort(s, key);
    var top := Take(sorted, n);
    forall p, q | p in s && p !in top && q in top
      ensures key(q) <= key(p)
    {
      assert p in multiset(sorted);
      var j :| 0 <= j < |sorted| && sorted[j] == p;
      var i :| 0 <= i < |top| && top[i] == q;
      assert |top| <= j;
      assert sorted[i] == q;
    }
  }
}
