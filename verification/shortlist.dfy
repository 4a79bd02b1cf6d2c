/** The shortlist loop of the query handler: from every bin, its five most cited rows. */
module Shortlist {
  import opened Papers
  import opened Seqs
  import opened YearBins
  import StableSort

  /** `perBin`. */
  const PER_BIN: nat := 5

  /** `bin.papers.sort((a, b) => (b.citationCount || 0) - (a.citationCount || 0)).slice(0, perBin)`. */
  function TopCited(papers: seq<Candidate>): seq<Candidate>
  {
    Take(StableSort.Sort(papers, CandidateCiteKey), PER_BIN)
  }

  /** A bin contributes at most five rows, taken from the bin. */
  lemma TopCitedSize(papers: seq<Candidate>)
    ensures var top := TopCited(papers);
      && |top| == (if |papers| < PER_BIN then |papers| else PER_BIN)
      && multiset(top) <= multiset(papers)
  {
    StableSort.TakeSorted(papers, CandidateCiteKey, PER_BIN);
  }

  /** A bin's rows come by non-increasing citation count, and no row left out has more
      citations than a row kept. */
  lemma TopCitedBest(papers: seq<Candidate>)
    ensures var top := TopCited(papers);
      && (forall i, j :: 0 <= i < j < |top| ==> CandidateCites(top[i]) >= CandidateCites(top[j]))
      && (forall p, q :: p in papers && p !in top && q in top ==> CandidateCites(p) <= CandidateCites(q))
  {
    var top := TopCited(papers);
    StableSort.TakeSorted(papers, CandidateCiteKey, PER_BIN);
    StableSort.TakeSortedBest(papers, CandidateCiteKey, PER_BIN);
    forall i, j | 0 <= i < j < |top|
      ensures CandidateCites(top[i]) >= CandidateCites(top[j])
    {
      assert CandidateCiteKey(top[i]) <= CandidateCiteKey(top[j]);
    }
    forall p, q | p in papers && p !in top && q in top
      ensures CandidateCites(p) <= CandidateCites(q)
    {
      assert CandidateCiteKey(q) <= CandidateCiteKey(p);
    }
  }

  /** Ties keep the order they had in the bin: the kept rows of any one citation count are
      the first rows of that count in the bin. */
  lemma TopCitedStable(papers: seq<Candidate>, k: int)
    ensures var w := StableSort.WithKey(TopCited(papers), CandidateCiteKey, k);
      |w| <= |StableSort.WithKey(papers, CandidateCiteKey, k)|
      && w == StableSort.WithKey(papers, CandidateCiteKey, k)[..|w|]
  {
    var sorted := StableSort.Sort(papers, CandidateCiteKey);
    StableSort.SortStable(papers, CandidateCiteKey, k);
    StableSort.WithKeyPrefix(sorted, |TopCited(papers)|, CandidateCiteKey, k);
  }

  /** The per-bin tops, in bin order. */
  function Tops(binned: seq<Bin>): (ts: seq<seq<Candidate>>)
    ensures |ts| == |binned|
  {
    seq(|binned|, i requires 0 <= i < |binned| => TopCited(binned[i].papers))
  }

  /** The shortlist: the per-bin tops concatenated in bin order. */
  function ShortlistOf(binned: seq<Bin>): seq<Candidate>
  {
    Flatten(Tops(binned))
  }

  lemma TopsSnoc(binned: seq<Bin>, k: nat)
    requires k < |binned|
    ensures Tops(binned[..k + 1]) == Tops(binned[..k]) + [TopCited(binned[k].papers)]
  {
    var a := Tops(binned[..k + 1]);
    var b := Tops(binned[..k]) + [TopCited(binned[k].papers)];
    forall i | 0 <= i < |a|
      ensures a[i] == b[i]
    {
      assert binned[..k + 1][i] == binned[i];
      if i < k {
        assert binned[..k][i] == binned[i];
      }
    }
  }

  /** Every shortlisted row comes from one of the bins. */
  lemma {:induction false} ShortlistFromBins(binned: seq<Bin>, p: Candidate)
    requires p in ShortlistOf(binned)
    ensures exists i :: 0 <= i < |binned| && p in binned[i].papers
  {
    var k := |binned| - 1;
    assert binned[..k + 1] == binned;
    TopsSnoc(binned, k);
    var top := TopCited(binned[k].papers);
    assert ShortlistOf(binned) == ShortlistOf(binned[..k]) + top;
    if p in top {
      TopCitedSize(binned[k].papers);
      assert p in multiset(top);
    } else {
      ShortlistFromBins(binned[..k], p);
      var i :| 0 <= i < k && p in binned[..k][i].papers;
    }
  }

  /** The shortlist loop: for each bin in order, push its top rows. */
  method BuildShortlist(binned: seq<Bin>) returns (shortlist: seq<Candidate>)
    ensures shortlist == ShortlistOf(binned)
    ensures |shortlist| <= PER_BIN * |binned|
  {
    shortlist := [];
    for k := 0 to |binned|
      invariant shortlist == ShortlistOf(binned[..k])
      invariant |shortlist| <= PER_BIN * k
    {
      var top := TopCited(binned[k].papers);
      TopCitedSize(binned[k].papers);
      TopsSnoc(binned, k);
      shortlist := shortlist + top;
    }
    assert binned[..|binned|] == binned;
  }
}
