/** Generic sequence operations the pipeline uses: `slice(0, n)`, concatenation of parts, and
    the insertion order of a JavaScript `Set`. */
module Seqs {

  /** `s.slice(0, n)`: the first `n` elements, or all of them when there are fewer. */
  function Take<T>(s: seq<T>, n: nat): (r: seq<T>)
    ensures |r| == if |s| < n then |s| else n
    ensures r == s[..|r|]
  {
    if |s| < n then s else s[..n]
  }

  /** The parts of `ss` joined in order (`out.push(...part)` for every part). */
  function Flatten<T>(ss: seq<seq<T>>): seq<T>
  {
    if ss == [] then [] else Flatten(ss[..|ss| - 1]) + ss[|ss| - 1]
  }

  lemma {:induction false} FlattenAppend<T>(ss: seq<seq<T>>, tt: seq<seq<T>>)
    ensures Flatten(ss + tt) == Flatten(ss) + Flatten(tt)
    decreases |tt|
  {
    if tt == [] {
      assert ss + tt == ss;
    } else {
      var init, last := tt[..|tt| - 1], tt[|tt| - 1];
      assert (ss + tt)[..|ss + tt| - 1] == ss + init;
      FlattenAppend(ss, init);
      assert Flatten(ss + tt) == (Flatten(ss) + Flatten(init)) + last;
      assert Flatten(tt) == Flatten(init) + last;
    }
  }

  /** Joining a first part and the rest. */
  lemma FlattenCons<T>(head: seq<T>, tt: seq<seq<T>>)
    ensures Flatten([head] + tt) == head + Flatten(tt)
  {
    FlattenAppend([head], tt);
    assert [head][..0] == [];
  }

  /** Distinct(s) is `[...new Set(s)]`: each value once, in the order of its first occurrence.
      It is written as the left fold of `Set.add` over `s`. */
  function Distinct<T(==, !new)>(s: seq<T>): (r: seq<T>)
    ensures forall x :: x in r <==> x in s
    ensures forall i, j :: 0 <= i < j < |r| ==> r[i] != r[j]
    ensures |r| <= |s|
  {
    if s == [] then []
    else
      var d := Distinct(s[..|s| - 1]);
      assert forall x :: x in s <==> x in s[..|s| - 1] || x == s[|s| - 1] by {
        assert s == s[..|s| - 1] + [s[|s| - 1]];
      }
      if s[|s| - 1] in d then d else d + [s[|s| - 1]]
  }

  /** Adding a value that is already present changes nothing; a new value goes last. */
  lemma DistinctSnoc<T(!new)>(s: seq<T>, x: T)
    ensures Distinct(s + [x]) == if x in s then Distinct(s) else Distinct(s) + [x]
  {
    assert (s + [x])[..|s + [x]| - 1] == s;
  }

  /** `s.map(f)`: `f` applied to every element, in order. */
  function Map<T, U>(f: T -> U, s: seq<T>): seq<U>
  {
    seq(|s|, i requires 0 <= i < |s| => f(s[i]))
  }

  /** Mapping distributes over concatenation. */
  lemma MapAppend<T, U>(f: T -> U, a: seq<T>, b: seq<T>)
    ensures Map(f, a + b) == Map(f, a) + Map(f, b)
  {
    assert forall i :: 0 <= i < |a| ==> (a + b)[i] == a[i];
    assert forall i :: 0 <= i < |b| ==> (a + b)[|a| + i] == b[i];
  }

  /** Taking element `j` out of a sequence takes its image out of the mapped sequence. */
  lemma MapRemove<T, U>(f: T -> U, b: seq<T>, j: int)
    requires 0 <= j < |b|
    ensures multiset(Map(f, b)) == multiset(Map(f, b[..j] + b[j + 1..])) + multiset{f(b[j])}
  {
    var pre, x, post := b[..j], b[j], b[j + 1..];
    assert b == pre + [x] + post;
    MapAppend(f, pre + [x], post);
    MapAppend(f, pre, [x]);
    MapAppend(f, pre, post);
    assert Map(f, [x]) == [f(x)];
  }

  /** Taking the same element out of two permutations of each other leaves permutations. */
  lemma RemoveFromPermutation<T>(a: seq<T>, b: seq<T>, j: int)
    requires multiset(a) == multiset(b) && a != [] && 0 <= j < |b| && b[j] == a[0]
    ensures multiset(a[1..]) == multiset(b[..j] + b[j + 1..])
  {
    var x, rest := a[0], b[..j] + b[j + 1..];
    assert a == [x] + a[1..];
    assert b == b[..j] + [x] + b[j + 1..];
    assert multiset(a) == multiset{x} + multiset(a[1..]);
    assert multiset(b) == multiset(b[..j]) + multiset{x} + multiset(b[j + 1..]);
    assert multiset(rest) == multiset(b[..j]) + multiset(b[j + 1..]);
    assert forall y :: multiset(a[1..])[y] == multiset(rest)[y] by {
      forall y
        ensures multiset(a[1..])[y] == multiset(rest)[y]
      {
        assert multiset(a)[y] == multiset{x}[y] + multiset(a[1..])[y];
        assert multiset(b)[y] == multiset{x}[y] + multiset(rest)[y];
      }
    }
  }

  /** Mapping permutations of each other gives permutations of each other. */
  lemma {:induction false} MapPermutation<T, U>(f: T -> U, a: seq<T>, b: seq<T>)
    requires multiset(a) == multiset(b)
    ensures multiset(Map(f, a)) == multiset(Map(f, b))
    decreases |a|
  {
    if a == [] {
      assert |b| == |multiset(b)| == 0;
    } else {
      assert a[0] in multiset(b);
      var j :| 0 <= j < |b| && b[j] == a[0];
      RemoveFromPermutation(a, b, j);
      MapPermutation(f, a[1..], b[..j] + b[j + 1..]);
      MapRemove(f, b, j);
      MapRemove(f, a, 0);
      assert a[..0] + a[1..] == a[1..];
    }
  }
}
