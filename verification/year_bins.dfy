/** The binning engine of `backend/index.js`: `makeYearBins` cuts the span of the candidates'
    years into contiguous ranges at five quantiles, and `assignBins` files the rows into them. */
module YearBins {
  import opened Wrappers
  import opened Papers
  import opened Seqs
  import StableSort

  /** An inclusive year range `[start, end]`. */
  datatype Range = Range(lo: int, hi: int)

  /** A range with the rows whose year falls in it. */
  datatype Bin = Bin(range: Range, papers: seq<Candidate>)

  ghost predicate NonDecreasing(s: seq<int>)
  {
    forall i, j :: 0 <= i < j < |s| ==> s[i] <= s[j]
  }

  ghost predicate StrictlyIncreasing(s: seq<int>)
  {
    forall i, j :: 0 <= i < j < |s| ==> s[i] < s[j]
  }

  /** `rows.map(p => p.year).filter(y => Number.isInteger(y))`. */
  function IntYears(rows: seq<Candidate>): (ys: seq<int>)
    ensures |ys| <= |rows|
    ensures forall y :: y in ys <==> exists i :: 0 <= i < |rows| && rows[i].year == Some(y)
  {
    if rows == [] then []
    else
      var rest := IntYears(rows[1..]);
      assert forall i :: 0 < i < |rows| ==> rows[i] == rows[1..][i - 1];
      assert forall i :: 0 <= i < |rows| - 1 ==> rows[1..][i] == rows[i + 1];
      match rows[0].year
      case Some(y) => [y] + rest
      case None => rest
  }

  /** One dated row gives its year, an undated one nothing. */
  lemma IntYearsSingle(p: Candidate)
    ensures IntYears([p]) == if p.year.Some? then [p.year.value] else []
  {
    assert [p][1..] == [];
  }

  /** The years are read row by row, in row order: one per dated row, repeats kept. */
  lemma {:induction false} IntYearsAppend(a: seq<Candidate>, b: seq<Candidate>)
    ensures IntYears(a + b) == IntYears(a) + IntYears(b)
  {
    if a == [] {
      assert a + b == b;
    } else {
      assert (a + b)[1..] == a[1..] + b;
      IntYearsAppend(a[1..], b);
    }
  }

  /** The sort key of the comparator `(a, b) => a - b`: a year orders by its own value. */
  function YearKey(y: int): int
  {
    y
  }

  /** `.sort((a, b) => a - b)` applied to the integer years. */
  function SortedYears(rows: seq<Candidate>): (ys: seq<int>)
    ensures |ys| == |IntYears(rows)|
    ensures multiset(ys) == multiset(IntYears(rows))
    ensures NonDecreasing(ys)
  {
    var ys := StableSort.Sort(IntYears(rows), YearKey);
    assert forall i, j :: 0 <= i < j < |ys| ==> YearKey(ys[i]) <= YearKey(ys[j]);
    ys
  }

  /** `lo` and `hi` are the smallest and largest integer year among `rows`. */
  ghost predicate YearSpan(rows: seq<Candidate>, lo: int, hi: int)
  {
    && (exists i :: 0 <= i < |rows| && rows[i].year == Some(lo))
    && (exists i :: 0 <= i < |rows| && rows[i].year == Some(hi))
    && (forall i :: 0 <= i < |rows| && rows[i].year.Some? ==> lo <= rows[i].year.value <= hi)
  }

  /** The first and last sorted years are the span of the rows' years. */
  /** Every sorted year is the year of some row. */
  lemma RowOfSortedYear(rows: seq<Candidate>, y: int) returns (i: int)
    requires y in SortedYears(rows)
    ensures 0 <= i < |rows| && rows[i].year == Some(y)
  {
    assert y in multiset(SortedYears(rows));
    assert y in multiset(IntYears(rows));
    assert y in IntYears(rows);
    i :| 0 <= i < |rows| && rows[i].year == Some(y);
  }

  /** Every row's integer year lies between the first and the last sorted year. */
  lemma RowYearInSpan(rows: seq<Candidate>, i: int)
    requires 0 <= i < |rows| && rows[i].year.Some?
    ensures var ys := SortedYears(rows); |ys| > 0 && ys[0] <= rows[i].year.value <= ys[|ys| - 1]
  {
    var ys := SortedYears(rows);
    var y := rows[i].year.value;
    assert y in IntYears(rows);
    assert y in multiset(IntYears(rows));
    assert y in multiset(ys);
    var j :| 0 <= j < |ys| && ys[j] == y;
  }

  lemma SortedYearsSpan(rows: seq<Candidate>)
    requires |SortedYears(rows)| >= 1
    ensures var ys := SortedYears(rows); YearSpan(rows, ys[0], ys[|ys| - 1])
  {
    var ys := SortedYears(rows);
    var lo := RowOfSortedYear(rows, ys[0]);
    var hi := RowOfSortedYear(rows, ys[|ys| - 1]);
    forall i | 0 <= i < |rows| && rows[i].year.Some?
      ensures ys[0] <= rows[i].year.value <= ys[|ys| - 1]
    {
      RowYearInSpan(rows, i);
    }
  }

  /** The array positions `floor(q * (n - 1))` for q = 0.3, 0.5, 0.7, 0.85, 0.95, in exact
      integer arithmetic. */
  function CutIndices(n: nat): (ix: seq<nat>)
    requires n >= 1
    ensures |ix| == 5
    ensures forall k :: 0 <= k < 5 ==> ix[k] < n
    ensures forall i, j :: 0 <= i <= j < 5 ==> ix[i] <= ix[j]
  {
    var m := n - 1;
    [3 * m / 10, m / 2, 7 * m / 10, 17 * m / 20, 19 * m / 20]
  }

  /** The five cut years read from the sorted years at the quantile positions. */
  function Cuts(ys: seq<int>): (cuts: seq<int>)
    requires |ys| >= 1
    ensures |cuts| == 5
    ensures forall k :: 0 <= k < 5 ==> cuts[k] in ys
    ensures NonDecreasing(ys) ==> NonDecreasing(cuts)
  {
    var ix := CutIndices(|ys|);
    var cuts := seq(5, k requires 0 <= k < 5 => ys[ix[k]]);
    assert NonDecreasing(ys) ==> NonDecreasing(cuts) by {
      if NonDecreasing(ys) {
        forall i, j | 0 <= i < j < 5
          ensures cuts[i] <= cuts[j]
        {
          if ix[i] < ix[j] {
            assert ys[ix[i]] <= ys[ix[j]];
          }
        }
      }
    }
    cuts
  }

  /** `[...new Set(cuts)]`. */
  function CutPoints(ys: seq<int>): (u: seq<int>)
    requires |ys| >= 1
    ensures 1 <= |u| <= 5
    ensures forall c :: c in u ==> c in ys
  {
    var cuts := Cuts(ys);
    assert cuts[0] in Distinct(cuts);
    Distinct(cuts)
  }

  /** Deduplicating a non-decreasing sequence leaves it strictly increasing. */
  lemma {:induction false} DistinctOfSorted(s: seq<int>)
    requires NonDecreasing(s)
    ensures StrictlyIncreasing(Distinct(s))
  {
    if s != [] {
      var init := s[..|s| - 1];
      var x := s[|s| - 1];
      DistinctOfSorted(init);
      var d := Distinct(init);
      if x !in d {
        forall i | 0 <= i < |d|
          ensures d[i] < x
        {
          assert d[i] in init;
        }
      }
    }
  }

  /** `bins` are non-empty ranges that follow each other without gap or overlap and together
      span exactly `[lo, hi]`. */
  ghost predicate Tiles(bins: seq<Range>, lo: int, hi: int)
  {
    && |bins| > 0
    && bins[0].lo == lo
    && bins[|bins| - 1].hi == hi
    && (forall i :: 0 <= i < |bins| ==> bins[i].lo <= bins[i].hi)
    && (forall i :: 0 < i < |bins| ==> bins[i].lo == bins[i - 1].hi + 1)
  }

  /** Appending the range that starts right after the last one extends the tiling. */
  lemma TilesSnoc(bins: seq<Range>, lo: int, start: int, c: int)
    requires bins == [] ==> start == lo
    requires bins != [] ==> Tiles(bins, lo, start - 1)
    requires start <= c
    ensures Tiles(bins + [Range(start, c)], lo, c)
  {
    var b := bins + [Range(start, c)];
    assert forall i :: 0 <= i < |bins| ==> b[i] == bins[i];
  }

  predicate Contains(r: Range, y: int)
  {
    r.lo <= y <= r.hi
  }

  lemma {:induction false} TilesOrdered(bins: seq<Range>, lo: int, hi: int, i: nat, j: nat)
    requires Tiles(bins, lo, hi)
    requires i < j < |bins|
    ensures bins[i].hi < bins[j].lo
    decreases j - i
  {
    if i + 1 < j {
      TilesOrdered(bins, lo, hi, i + 1, j);
    }
  }

  lemma {:induction false} TilesBounds(bins: seq<Range>, lo: int, hi: int, i: nat)
    requires Tiles(bins, lo, hi)
    requires i < |bins|
    ensures lo <= bins[i].lo && bins[i].hi <= hi
  {
    if 0 < i {
      TilesOrdered(bins, lo, hi, 0, i);
    }
    if i < |bins| - 1 {
      TilesOrdered(bins, lo, hi, i, |bins| - 1);
    }
  }

  /** A year lies in `[lo, hi]` exactly when one of the tiling ranges holds it, and then only one does. */
  lemma {:induction false} TilesPartition(bins: seq<Range>, lo: int, hi: int, y: int)
    requires Tiles(bins, lo, hi)
    ensures (lo <= y <= hi) <==> exists i :: 0 <= i < |bins| && Contains(bins[i], y)
    ensures forall i, j :: 0 <= i < |bins| && 0 <= j < |bins| && Contains(bins[i], y) && Contains(bins[j], y) ==> i == j
  {
    forall i, j | 0 <= i < |bins| && 0 <= j < |bins| && Contains(bins[i], y) && Contains(bins[j], y)
      ensures i == j
    {
      if i < j {
        TilesOrdered(bins, lo, hi, i, j);
      } else if j < i {
        TilesOrdered(bins, lo, hi, j, i);
      }
    }
    if lo <= y <= hi {
      var k := 0;
      while bins[k].hi < y
        invariant 0 <= k < |bins|
        invariant bins[k].lo <= y
        decreases |bins| - k
      {
        k := k + 1;
      }
      assert Contains(bins[k], y);
    }
    forall i | 0 <= i < |bins| && Contains(bins[i], y)
      ensures lo <= y <= hi
    {
      TilesBounds(bins, lo, hi, i);
    }
  }

  /** The state of the makeYearBins loop after the first `k` cut points: the ranges so far
      tile `[first, start - 1]`, end at cut points, and, when the cuts strictly increase, the
      `i`-th range ends at the `i`-th cut. */
  ghost predicate Walked(bins: seq<Range>, cuts: seq<int>, first: int, start: int, k: nat)
  {
    && k <= |cuts| && |bins| <= k
    && first <= start
    && (bins == [] ==> start == first)
    && (bins != [] ==> Tiles(bins, first, start - 1))
    && (forall i :: 0 <= i < |bins| ==> bins[i].hi in cuts)
    && (StrictlyIncreasing(cuts) ==> |bins| == k && forall i :: 0 <= i < k ==> bins[i].hi == cuts[i])
  }

  /** Emitting `[start, c]` for the next cut `c` keeps the loop state. */
  lemma WalkedPush(bins: seq<Range>, cuts: seq<int>, first: int, start: int, k: nat)
    requires Walked(bins, cuts, first, start, k)
    requires k < |cuts| && start <= cuts[k]
    ensures Walked(bins + [Range(start, cuts[k])], cuts, first, cuts[k] + 1, k + 1)
  {
    var b := bins + [Range(start, cuts[k])];
    TilesSnoc(bins, first, start, cuts[k]);
    assert forall i :: 0 <= i < |bins| ==> b[i] == bins[i];
  }

  /** With strictly increasing cuts the next cut is never below the cursor. */
  lemma WalkedNext(bins: seq<Range>, cuts: seq<int>, first: int, start: int, k: nat)
    requires Walked(bins, cuts, first, start, k)
    requires k < |cuts|
    requires forall c :: c in cuts ==> first <= c
    ensures StrictlyIncreasing(cuts) ==> start <= cuts[k]
  {
    assert cuts[k] in cuts;
    if StrictlyIncreasing(cuts) && k > 0 {
      assert bins[k - 1].hi == cuts[k - 1] < cuts[k];
    }
  }

  /** Skipping a cut keeps the loop state when the cuts do not strictly increase. */
  lemma WalkedSkip(bins: seq<Range>, cuts: seq<int>, first: int, start: int, k: nat)
    requires Walked(bins, cuts, first, start, k)
    requires k < |cuts| && !StrictlyIncreasing(cuts)
    ensures Walked(bins, cuts, first, start, k + 1)
  {
  }

  /** After the last cut, the tail `[start, last]` (when not empty) completes the tiling of
      `[first, last]`. */
  lemma WalkedDone(bins: seq<Range>, cuts: seq<int>, first: int, start: int, last: int)
    requires Walked(bins, cuts, first, start, |cuts|) && start <= last + 1 && first <= last
    ensures var done := if start <= last then bins + [Range(start, last)] else bins;
      && Tiles(done, first, last)
      && |done| <= |cuts| + 1
      && (forall i :: 0 <= i < |done| - 1 ==> done[i].hi in cuts)
      && (StrictlyIncreasing(cuts) && cuts != [] ==>
        && |done| == (if cuts[|cuts| - 1] < last then |cuts| + 1 else |cuts|)
        && (forall i :: 0 <= i < |cuts| ==> done[i].hi == cuts[i]))
  {
    if start <= last {
      TilesSnoc(bins, first, start, last);
      var done := bins + [Range(start, last)];
      assert forall i :: 0 <= i < |bins| ==> done[i] == bins[i];
    }
  }

  /** The ranges the makeYearBins loop emits from cut `k` on with cursor `start`: `[start, c]`
      for each cut `c` not below the cursor, which then moves to `c + 1`, and finally
      `[start, last]` if that is not empty. */
  function Walk(cuts: seq<int>, k: nat, start: int, last: int): seq<Range>
    requires k <= |cuts|
    decreases |cuts| - k
  {
    if k == |cuts| then (if start <= last then [Range(start, last)] else [])
    else if cuts[k] < start then Walk(cuts, k + 1, start, last)
    else [Range(start, cuts[k])] + Walk(cuts, k + 1, cuts[k] + 1, last)
  }

  /** The walk emits at most one range per remaining cut plus the tail. */
  lemma {:induction false} WalkLength(cuts: seq<int>, k: nat, start: int, last: int)
    requires k <= |cuts|
    ensures |Walk(cuts, k, start, last)| <= |cuts| - k + 1
    decreases |cuts| - k
  {
    if k < |cuts| {
      WalkLength(cuts, k + 1, if cuts[k] < start then start else cuts[k] + 1, last);
    }
  }

  /** The loop state against the walk: what is emitted so far, followed by the walk over the
      remaining cuts from the cursor, is the whole walk. */
  ghost predicate WalkRest(bins: seq<Range>, cuts: seq<int>, first: int, start: int, k: nat, last: int)
  {
    k <= |cuts| && bins + Walk(cuts, k, start, last) == Walk(cuts, 0, first, last)
  }

  /** Emitting `[start, c]` for a cut not below the cursor is a step of the walk. */
  lemma WalkRestPush(bins: seq<Range>, cuts: seq<int>, first: int, start: int, k: nat, last: int)
    requires WalkRest(bins, cuts, first, start, k, last) && k < |cuts| && start <= cuts[k]
    ensures WalkRest(bins + [Range(start, cuts[k])], cuts, first, cuts[k] + 1, k + 1, last)
  {
    var r := Range(start, cuts[k]);
    var tail := Walk(cuts, k + 1, cuts[k] + 1, last);
    assert bins + ([r] + tail) == (bins + [r]) + tail;
  }

  /** From any loop state, finishing the walk tiles `[first, last]` with ranges that end at cuts,
      one per cut when the cuts strictly increase. */
  lemma {:induction false} WalkTiles(bins: seq<Range>, cuts: seq<int>, first: int, start: int, k: nat, last: int)
    requires Walked(bins, cuts, first, start, k) && start <= last + 1 && first <= last
    requires forall c :: c in cuts ==> first <= c <= last
    ensures var done := bins + Walk(cuts, k, start, last);
      && Tiles(done, first, last)
      && |done| <= |cuts| + 1
      && (forall i :: 0 <= i < |done| - 1 ==> done[i].hi in cuts)
      && (StrictlyIncreasing(cuts) && cuts != [] ==>
        && |done| == (if cuts[|cuts| - 1] < last then |cuts| + 1 else |cuts|)
        && (forall i :: 0 <= i < |cuts| ==> done[i].hi == cuts[i]))
    decreases |cuts| - k
  {
    if k == |cuts| {
      WalkedDone(bins, cuts, first, start, last);
      assert bins + Walk(cuts, k, start, last) == if start <= last then bins + [Range(start, last)] else bins;
    } else {
      var c := cuts[k];
      assert c in cuts;
      WalkedNext(bins, cuts, first, start, k);
      if c < start {
        WalkedSkip(bins, cuts, first, start, k);
        WalkTiles(bins, cuts, first, start, k + 1, last);
      } else {
        var r := Range(start, c);
        WalkedPush(bins, cuts, first, start, k);
        WalkTiles(bins + [r], cuts, first, c + 1, k + 1, last);
        assert bins + Walk(cuts, k, start, last) == (bins + [r]) + Walk(cuts, k + 1, c + 1, last);
      }
    }
  }

  /** The loop of makeYearBins: walks the cut points with a `start` cursor, emitting `[start, c]`
      for every cut `c` not below `start`, then the tail `[start, last]` if it is not empty. */
  method RangesFromCuts(cuts: seq<int>, first: int, last: int) returns (bins: seq<Range>)
    requires first <= last
    requires forall c :: c in cuts ==> first <= c <= last
    ensures bins == Walk(cuts, 0, first, last)
    ensures Tiles(bins, first, last)
    ensures |bins| <= |cuts| + 1
    ensures forall i :: 0 <= i < |bins| - 1 ==> bins[i].hi in cuts
    ensures StrictlyIncreasing(cuts) && cuts != [] ==>
      && |bins| == (if cuts[|cuts| - 1] < last then |cuts| + 1 else |cuts|)
      && (forall i :: 0 <= i < |cuts| ==> bins[i].hi == cuts[i])
  {
    bins := [];
    var start := first;
    for k := 0 to |cuts|
      invariant WalkRest(bins, cuts, first, start, k, last)
    {
      var c := cuts[k];
      if c < start {
        continue;
      }
      WalkRestPush(bins, cuts, first, start, k, last);
      bins := bins + [Range(start, c)];
      start := c + 1;
    }
    if start <= last {
      bins := bins + [Range(start, last)];
    }
    assert [] + Walk(cuts, 0, first, last) == Walk(cuts, 0, first, last);
    WalkTiles([], cuts, first, first, 0, last);
  }

  /** What makeYearBins returns: no bins for fewer than two integer years, otherwise the walk
      over the deduplicated cuts from the first to the last sorted year. */
  function YearBinsOf(rows: seq<Candidate>): seq<Range>
  {
    var ys := SortedYears(rows);
    if |ys| < 2 then [] else Walk(CutPoints(ys), 0, ys[0], ys[|ys| - 1])
  }

  /** makeYearBins never returns more than six bins. */
  lemma YearBinsAtMostSix(rows: seq<Candidate>)
    ensures |YearBinsOf(rows)| <= 6
  {
    var ys := SortedYears(rows);
    if |ys| >= 2 {
      WalkLength(CutPoints(ys), 0, ys[0], ys[|ys| - 1]);
    }
  }

  /** makeYearBins: the integer years sorted, five quantile cuts deduplicated, and the ranges
      between them. Fewer than two integer years give no bins; otherwise the bins tile the span
      of the years, end at the cut points (and at the last year), and number at most six. */
  method MakeYearBins(rows: seq<Candidate>) returns (bins: seq<Range>)
    ensures bins == YearBinsOf(rows)
    ensures |IntYears(rows)| < 2 ==> bins == []
    ensures |bins| <= 6
    ensures |IntYears(rows)| >= 2 ==>
      && |bins| > 0
      && Tiles(bins, bins[0].lo, bins[|bins| - 1].hi)
      && YearSpan(rows, bins[0].lo, bins[|bins| - 1].hi)
    ensures |IntYears(rows)| >= 2 ==>
      var ys := SortedYears(rows);
      var u := CutPoints(ys);
      && |bins| == (if u[|u| - 1] < ys[|ys| - 1] then |u| + 1 else |u|)
      && (forall i :: 0 <= i < |u| ==> bins[i].hi == u[i])
    ensures |IntYears(rows)| >= 2 && bins[0].lo == bins[|bins| - 1].hi ==> bins == [Range(bins[0].lo, bins[0].lo)]
  {
    var ys := SortedYears(rows);
    if |IntYears(rows)| < 2 {
      return [];
    }
    SortedYearsSpan(rows);
    var unique := CutPoints(ys);
    var first, last := ys[0], ys[|ys| - 1];
    forall c | c in unique
      ensures first <= c <= last
    {
      var j :| 0 <= j < |ys| && ys[j] == c;
    }
    DistinctOfSorted(Cuts(ys));
    bins := RangesFromCuts(unique, first, last);
    if |bins| > 1 {
      TilesOrdered(bins, first, last, 0, |bins| - 1);
    }
  }

  /** `p.year >= start && p.year <= end`; a `null` year compares as 0, as JavaScript does. */
  predicate InBin(p: Candidate, r: Range)
  {
    Contains(r, p.year.GetOr(0))
  }

  /** `rows.filter(p => p.year >= start && p.year <= end)`. */
  function RowsIn(rows: seq<Candidate>, r: Range): (ps: seq<Candidate>)
    ensures |ps| <= |rows|
    ensures forall p :: p in ps <==> p in rows && InBin(p, r)
  {
    if rows == [] then []
    else
      assert forall p :: p in rows <==> p == rows[0] || p in rows[1..] by {
        assert rows == [rows[0]] + rows[1..];
      }
      (if InBin(rows[0], r) then [rows[0]] else []) + RowsIn(rows[1..], r)
  }

  /** The filter keeps the input order: it distributes over concatenation. */
  lemma {:induction false} RowsInAppend(a: seq<Candidate>, b: seq<Candidate>, r: Range)
    ensures RowsIn(a + b, r) == RowsIn(a, r) + RowsIn(b, r)
  {
    if a == [] {
      assert a + b == b;
    } else {
      assert (a + b)[1..] == a[1..] + b;
      RowsInAppend(a[1..], b, r);
    }
  }

  /** assignBins: one bin per range, with the same range, holding the rows that fall in it. */
  function AssignBins(rows: seq<Candidate>, bins: seq<Range>): (binned: seq<Bin>)
    ensures |binned| == |bins|
    ensures forall i :: 0 <= i < |bins| ==> binned[i].range == bins[i]
    ensures forall i :: 0 <= i < |bins| ==> binned[i].papers == RowsIn(rows, bins[i])
  {
    seq(|bins|, i requires 0 <= i < |bins| => Bin(bins[i], RowsIn(rows, bins[i])))
  }

  /** With bins that tile the span of the rows' years, every row with an integer year is
      filed in exactly one bin. */
  lemma DatedRowInOneBin(rows: seq<Candidate>, bins: seq<Range>, lo: int, hi: int, p: Candidate)
    requires Tiles(bins, lo, hi) && YearSpan(rows, lo, hi)
    requires p in rows && p.year.Some?
    ensures var binned := AssignBins(rows, bins);
      && (exists i :: 0 <= i < |binned| && p in binned[i].papers)
      && (forall i, j :: 0 <= i < |binned| && 0 <= j < |binned| && p in binned[i].papers && p in binned[j].papers ==> i == j)
  {
    var binned := AssignBins(rows, bins);
    TilesPartition(bins, lo, hi, p.year.value);
    var k :| 0 <= k < |rows| && rows[k] == p;
    var i :| 0 <= i < |bins| && Contains(bins[i], p.year.value);
    assert p in binned[i].papers;
  }

  /** Rows without a year compare as year 0, so when every bin lies after year 0 they are in no bin. */
  lemma UndatedRowsInNoBin(rows: seq<Candidate>, bins: seq<Range>, lo: int, hi: int, p: Candidate, i: nat)
    requires Tiles(bins, lo, hi) && lo > 0
    requires p.year.None? && i < |bins|
    ensures p !in AssignBins(rows, bins)[i].papers
  {
    TilesBounds(bins, lo, hi, i);
  }
}
