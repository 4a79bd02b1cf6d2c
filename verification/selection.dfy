/** `selectWithGemini`: the relevance selector. The language model, its answer text and
    `JSON.parse` are inputs: `hasKey` says whether a model key is configured, `response` is the
    text the model returned (or the error its call threw), and `parse` is `JSON.parse` followed
    by reading `selected` (None when either throws). */
module Selection {
  import opened Wrappers
  import opened Papers
  import opened Seqs
  import StableSort

  /** The default of the `paperCount` parameter. */
  const DEFAULT_PAPER_COUNT: nat := 9
  /** Only the first 30 candidates go into the prompt. */
  const PROMPT_CANDIDATES: nat := 30
  /** Abstracts in the prompt are cut to 900 characters. */
  const PROMPT_ABSTRACT: nat := 900

  /** A candidate as sent in the prompt. */
  datatype CompactPaper = CompactPaper(id: PaperId, title: Option<string>, year: Option<int>, venue: Option<string>, citations: int, abstractText: string)

  /** One entry of the model's `selected` list. */
  datatype Pick = Pick(id: PaperId, whyImportant: Option<string>, timelineTitle: Option<string>)

  /** The parsed model answer; `selected` may be missing. */
  datatype Reply = Reply(selected: Option<seq<Pick>>)

  /** The justification kept for one id: `{why: s.why_important || "", key: s.timeline_title || ""}`. */
  datatype Reason = Reason(why: string, key: string)

  type Parser = string -> Option<Reply>

  /** The compact payload of the prompt: the first 30 candidates, abstracts cut to 900 characters. */
  function Compact(candidates: seq<Paper>): (r: seq<CompactPaper>)
    ensures |r| == if |candidates| < PROMPT_CANDIDATES then |candidates| else PROMPT_CANDIDATES
    ensures forall i :: 0 <= i < |r| ==>
      && r[i].id == candidates[i].id
      && r[i].title == candidates[i].title
      && r[i].year == candidates[i].year
      && r[i].venue == candidates[i].venue
      && r[i].citations == candidates[i].citationCount
    ensures forall i :: 0 <= i < |r| ==>
      var abs := candidates[i].abstractText;
      && |r[i].abstractText| == (if |abs| < PROMPT_ABSTRACT then |abs| else PROMPT_ABSTRACT)
      && r[i].abstractText == abs[..|r[i].abstractText|]
  {
    var head := Take(candidates, PROMPT_CANDIDATES);
    seq(|head|, i requires 0 <= i < |head| =>
      var p := head[i];
      CompactPaper(p.id, p.title, p.year, p.venue, p.citationCount, Take(p.abstractText, PROMPT_ABSTRACT)))
  }

  function PapersOf(sel: seq<Selection>): (ps: seq<Paper>)
    ensures |ps| == |sel| && forall i :: 0 <= i < |sel| ==> ps[i] == sel[i].paper
  {
    seq(|sel|, i requires 0 <= i < |sel| => sel[i].paper)
  }

  /** `[...candidates].sort(by citations, descending).slice(0, paperCount)`, with both
      justification fields blank. */
  function CitationFallback(candidates: seq<Paper>, paperCount: nat): seq<Selection>
  {
    var top := Take(StableSort.Sort(candidates, PaperCiteKey), paperCount);
    seq(|top|, i requires 0 <= i < |top| => Selection(top[i], "", ""))
  }

  /** The fallback holds `min(paperCount, |candidates|)` entries, with blank justifications. */
  lemma CitationFallbackSpec(candidates: seq<Paper>, paperCount: nat)
    ensures var r := CitationFallback(candidates, paperCount);
      && |r| == (if |candidates| < paperCount then |candidates| else paperCount)
      && (forall i :: 0 <= i < |r| ==> r[i].whyImportant == "" && r[i].timelineTitle == "")
  {
    assert |StableSort.Sort(candidates, PaperCiteKey)| == |candidates|;
  }

  /** The fallback's papers are candidates, each used no more often than it occurs. */
  lemma CitationFallbackFrom(candidates: seq<Paper>, paperCount: nat)
    ensures multiset(PapersOf(CitationFallback(candidates, paperCount))) <= multiset(candidates)
  {
    var r := CitationFallback(candidates, paperCount);
    StableSort.TakeSorted(candidates, PaperCiteKey, paperCount);
    assert PapersOf(r) == Take(StableSort.Sort(candidates, PaperCiteKey), paperCount);
  }

  /** The fallback is by non-increasing citation count, and no candidate left out is cited
      more than one kept. */
  lemma CitationFallbackBest(candidates: seq<Paper>, paperCount: nat)
    ensures var r := CitationFallback(candidates, paperCount);
      && (forall i, j :: 0 <= i < j < |r| ==> r[i].paper.citationCount >= r[j].paper.citationCount)
      && (forall p, i :: p in candidates && p !in PapersOf(r) && 0 <= i < |r| ==> p.citationCount <= r[i].paper.citationCount)
  {
    var r := CitationFallback(candidates, paperCount);
    var top := Take(StableSort.Sort(candidates, PaperCiteKey), paperCount);
    StableSort.TakeSorted(candidates, PaperCiteKey, paperCount);
    StableSort.TakeSortedBest(candidates, PaperCiteKey, paperCount);
    assert PapersOf(r) == top;
    forall i, j | 0 <= i < j < |r|
      ensures r[i].paper.citationCount >= r[j].paper.citationCount
    {
      assert PaperCiteKey(top[i]) <= PaperCiteKey(top[j]);
    }
    forall p, i | p in candidates && p !in PapersOf(r) && 0 <= i < |r|
      ensures p.citationCount <= r[i].paper.citationCount
    {
      assert top[i] in top;
      assert PaperCiteKey(top[i]) <= PaperCiteKey(p);
    }
  }

  /** Ties in the fallback keep the candidates' order. */
  lemma CitationFallbackStable(candidates: seq<Paper>, paperCount: nat, k: int)
    ensures var w := StableSort.WithKey(PapersOf(CitationFallback(candidates, paperCount)), PaperCiteKey, k);
      |w| <= |StableSort.WithKey(candidates, PaperCiteKey, k)|
      && w == StableSort.WithKey(candidates, PaperCiteKey, k)[..|w|]
  {
    var sorted := StableSort.Sort(candidates, PaperCiteKey);
    assert PapersOf(CitationFallback(candidates, paperCount)) == sorted[..|Take(sorted, paperCount)|];
    StableSort.SortStable(candidates, PaperCiteKey, k);
    StableSort.WithKeyPrefix(sorted, |Take(sorted, paperCount)|, PaperCiteKey, k);
  }

  function IndexOf(s: string, c: char): (r: Option<nat>)
    ensures r.None? <==> c !in s
    ensures r.Some? ==> r.value < |s| && s[r.value] == c && forall k :: 0 <= k < r.value ==> s[k] != c
  {
    if s == [] then None
    else if s[0] == c then Some(0)
    else
      var rest := IndexOf(s[1..], c);
      assert s == [s[0]] + s[1..];
      if rest.None? then None
      else Some(rest.value + 1)
  }

  function LastIndexOf(s: string, c: char): (r: Option<nat>)
    ensures r.None? <==> c !in s
    ensures r.Some? ==> r.value < |s| && s[r.value] == c && forall k :: r.value < k < |s| ==> s[k] != c
  {
    if s == [] then None
    else if s[|s| - 1] == c then Some(|s| - 1)
    else
      var rest := LastIndexOf(s[..|s| - 1], c);
      assert s == s[..|s| - 1] + [s[|s| - 1]];
      if rest.None? then None
      else Some(rest.value)
  }

  /** A `{` before a `}` puts the first `{` before the last `}`. */
  lemma BracesOrdered(txt: string, i: nat, j: nat)
    requires i < j < |txt| && txt[i] == '{' && txt[j] == '}'
    ensures IndexOf(txt, '{').Some? && LastIndexOf(txt, '}').Some?
    ensures IndexOf(txt, '{').value <= i && j <= LastIndexOf(txt, '}').value
  {
    assert txt[i] in txt && txt[j] in txt;
  }

  /** `txt.match(/\{[\s\S]*\}/)`: the greedy span from the first `{` to the last `}`, if a `}`
      follows some `{`. */
  function JsonSpan(txt: string): (r: Option<string>)
    ensures r.Some? ==> exists i, j ::
      && 0 <= i < j < |txt| && r.value == txt[i..j + 1]
      && txt[i] == '{' && (forall k :: 0 <= k < i ==> txt[k] != '{')
      && txt[j] == '}' && (forall k :: j < k < |txt| ==> txt[k] != '}')
  {
    var open, close := IndexOf(txt, '{'), LastIndexOf(txt, '}');
    if open.Some? && close.Some? && open.value < close.value then
      Some(txt[open.value..close.value + 1])
    else
      None
  }

  /** The pattern matches exactly when some `{` comes before some `}`. */
  lemma JsonSpanFound(txt: string)
    ensures JsonSpan(txt).Some? <==> exists i, j :: 0 <= i < j < |txt| && txt[i] == '{' && txt[j] == '}'
  {
    if exists i, j :: 0 <= i < j < |txt| && txt[i] == '{' && txt[j] == '}' {
      var i, j :| 0 <= i < j < |txt| && txt[i] == '{' && txt[j] == '}';
      BracesOrdered(txt, i, j);
    }
  }

  /** The picks the model's answer yields, or None when the call threw, the text holds no
      `{...}` span, or parsing failed: the three ways the `try` block throws. */
  function ModelPicks(response: Result<string, Error>, parse: Parser): Option<seq<Pick>>
  {
    if response.Failure? then None
    else
      match JsonSpan(response.value)
      case None => None
      case Some(span) =>
        match parse(span)
        case None => None
        case Some(reply) => Some(reply.selected.GetOr([]))
  }

  function ReasonOf(s: Pick): Reason
  {
    Reason(s.whyImportant.GetOr(""), s.timelineTitle.GetOr(""))
  }

  /** `reasons[id]` after the loop: the reason of the last pick with that id. */
  function ReasonFor(picks: seq<Pick>, id: PaperId): (r: Option<Reason>)
    ensures r.None? <==> forall i :: 0 <= i < |picks| ==> picks[i].id != id
    ensures r.Some? ==> exists i :: LastPickAt(picks, id, i) && r.value == ReasonOf(picks[i])
  {
    if picks == [] then None
    else
      var n := |picks| - 1;
      if picks[n].id == id then
        assert LastPickAt(picks, id, n);
        Some(ReasonOf(picks[n]))
      else
        var rest := ReasonFor(picks[..n], id);
        LastPickExtend(picks, id);
        rest
  }

  /** `picks[i]` is the last pick with id `id`. */
  ghost predicate LastPickAt(picks: seq<Pick>, id: PaperId, i: int)
  {
    0 <= i < |picks| && picks[i].id == id && forall k :: i < k < |picks| ==> picks[k].id != id
  }

  /** A final pick with another id changes neither whether `id` was picked nor its last pick. */
  lemma LastPickExtend(picks: seq<Pick>, id: PaperId)
    requires |picks| > 0 && picks[|picks| - 1].id != id
    ensures forall i :: LastPickAt(picks[..|picks| - 1], id, i) ==> LastPickAt(picks, id, i)
    ensures forall i :: 0 <= i < |picks| - 1 ==> picks[..|picks| - 1][i] == picks[i]
  {
  }

  /** The loop over `parsed.selected`: `ids.add(s.id)` and `reasons[s.id] = ...` for every pick. */
  method CollectPicks(picks: seq<Pick>) returns (ids: set<PaperId>, reasons: map<PaperId, Reason>)
    ensures ids == set s | s in picks :: s.id
    ensures reasons.Keys == ids
    ensures forall id :: id in reasons ==> ReasonFor(picks, id) == Some(reasons[id])
  {
    ids, reasons := {}, map[];
    for k := 0 to |picks|
      invariant ids == set s | s in picks[..k] :: s.id
      invariant reasons.Keys == ids
      invariant forall id :: id in reasons ==> ReasonFor(picks[..k], id) == Some(reasons[id])
    {
      var s := picks[k];
      assert picks[..k + 1] == picks[..k] + [s];
      assert picks[..k + 1][..k] == picks[..k];
      ids := ids + {s.id};
      reasons := reasons[s.id := ReasonOf(s)];
    }
    assert picks[..|picks|] == picks;
  }

  /** `candidates.filter(p => ids.has(p.id))`. */
  function Reconcile(candidates: seq<Paper>, ids: set<PaperId>): (chosen: seq<Paper>)
    ensures |chosen| <= |candidates|
    ensures forall p :: p in chosen <==> p in candidates && p.id in ids
  {
    if candidates == [] then []
    else
      assert forall p :: p in candidates <==> p == candidates[0] || p in candidates[1..] by {
        assert candidates == [candidates[0]] + candidates[1..];
      }
      (if candidates[0].id in ids then [candidates[0]] else []) + Reconcile(candidates[1..], ids)
  }

  /** The model's choice only filters the candidates: their order is kept. */
  lemma {:induction false} ReconcileAppend(a: seq<Paper>, b: seq<Paper>, ids: set<PaperId>)
    ensures Reconcile(a + b, ids) == Reconcile(a, ids) + Reconcile(b, ids)
  {
    if a == [] {
      assert a + b == b;
    } else {
      assert (a + b)[1..] == a[1..] + b;
      ReconcileAppend(a[1..], b, ids);
    }
  }

  /** `chosen.map(p => ({...p, why_important: reasons[p.id]?.why || "", timeline_title: ...}))`. */
  function Annotate(chosen: seq<Paper>, picks: seq<Pick>): (r: seq<Selection>)
    ensures PapersOf(r) == chosen
    ensures forall i :: 0 <= i < |r| ==>
      match ReasonFor(picks, chosen[i].id)
      case Some(reason) => r[i].whyImportant == reason.why && r[i].timelineTitle == reason.key
      case None => r[i].whyImportant == "" && r[i].timelineTitle == ""
  {
    seq(|chosen|, i requires 0 <= i < |chosen| =>
      var reason := ReasonFor(picks, chosen[i].id);
      Selection(chosen[i], if reason.Some? then reason.value.why else "", if reason.Some? then reason.value.key else ""))
  }

  /** What selectWithGemini returns: without a key, or when the model's answer cannot be read,
      or when none of its ids is a candidate, the citation fallback; otherwise the candidates it
      picked, in candidate order, with its justifications. */
  function Select(candidates: seq<Paper>, paperCount: nat, hasKey: bool, response: Result<string, Error>, parse: Parser): seq<Selection>
  {
    if !hasKey then CitationFallback(candidates, paperCount)
    else
      match ModelPicks(response, parse)
      case None => CitationFallback(candidates, paperCount)
      case Some(picks) =>
        var chosen := Reconcile(candidates, set s | s in picks :: s.id);
        if chosen == [] then CitationFallback(candidates, paperCount) else Annotate(chosen, picks)
  }

  /** The selector never comes back empty when there are candidates to choose from. */
  lemma SelectNonEmpty(candidates: seq<Paper>, paperCount: nat, hasKey: bool, response: Result<string, Error>, parse: Parser)
    requires candidates != [] && paperCount > 0
    ensures Select(candidates, paperCount, hasKey, response, parse) != []
  {
    CitationFallbackSpec(candidates, paperCount);
  }

  /** Every selected paper is one of the candidates: the model never adds papers. */
  lemma SelectFromCandidates(candidates: seq<Paper>, paperCount: nat, hasKey: bool, response: Result<string, Error>, parse: Parser)
    ensures var r := Select(candidates, paperCount, hasKey, response, parse);
      forall i :: 0 <= i < |r| ==> r[i].paper in candidates
  {
    var r := Select(candidates, paperCount, hasKey, response, parse);
    CitationFallbackFrom(candidates, paperCount);
    forall i | 0 <= i < |r|
      ensures r[i].paper in candidates
    {
      assert PapersOf(r)[i] == r[i].paper;
      if r == CitationFallback(candidates, paperCount) {
        assert r[i].paper in multiset(PapersOf(r));
      }
    }
  }

  /** The fallback tiers: without a key, when the model's answer cannot be read, or when none
      of the picked ids is a candidate, the result is the citation fallback. */
  lemma SelectTiers(candidates: seq<Paper>, paperCount: nat, hasKey: bool, response: Result<string, Error>, parse: Parser)
    ensures !hasKey || ModelPicks(response, parse).None? ==>
      Select(candidates, paperCount, hasKey, response, parse) == CitationFallback(candidates, paperCount)
    ensures hasKey && ModelPicks(response, parse).Some? ==>
      var picks := ModelPicks(response, parse).value;
      Reconcile(candidates, set s | s in picks :: s.id) == [] ==>
        Select(candidates, paperCount, hasKey, response, parse) == CitationFallback(candidates, paperCount)
  {
  }

  /** The model tier: when some picked id is a candidate, the result is those candidates, in
      candidate order, each with the justification of the last pick of its id. */
  lemma SelectPicked(candidates: seq<Paper>, paperCount: nat, hasKey: bool, response: Result<string, Error>, parse: Parser)
    requires hasKey && ModelPicks(response, parse).Some?
    requires Reconcile(candidates, set s | s in ModelPicks(response, parse).value :: s.id) != []
    ensures var picks := ModelPicks(response, parse).value;
      var r := Select(candidates, paperCount, hasKey, response, parse);
      && r == Annotate(Reconcile(candidates, set s | s in picks :: s.id), picks)
      && PapersOf(r) == Reconcile(candidates, set s | s in picks :: s.id)
      && forall i :: 0 <= i < |r| ==> ReasonFor(picks, r[i].paper.id) == Some(Reason(r[i].whyImportant, r[i].timelineTitle))
  {
    var picks := ModelPicks(response, parse).value;
    var chosen := Reconcile(candidates, set s | s in picks :: s.id);
    var r := Select(candidates, paperCount, hasKey, response, parse);
    assert r == Annotate(chosen, picks);
    forall i | 0 <= i < |r|
      ensures ReasonFor(picks, r[i].paper.id) == Some(Reason(r[i].whyImportant, r[i].timelineTitle))
    {
      assert PapersOf(r)[i] == chosen[i];
      assert chosen[i] in chosen;
      var s :| s in picks && s.id == chosen[i].id;
      var k :| 0 <= k < |picks| && picks[k] == s;
    }
  }

  /** selectWithGemini. */
  method SelectPapers(candidates: seq<Paper>, paperCount: nat, hasKey: bool, response: Result<string, Error>, parse: Parser)
    returns (selected: seq<Selection>)
    ensures selected == Select(candidates, paperCount, hasKey, response, parse)
  {
    if !hasKey {
      return CitationFallback(candidates, paperCount);
    }
    if response.Failure? {
      return CitationFallback(candidates, paperCount);
    }
    var span := JsonSpan(response.value);
    if span.None? {
      return CitationFallback(candidates, paperCount);
    }
    var parsed := parse(span.value);
    if parsed.None? {
      return CitationFallback(candidates, paperCount);
    }
    var picks := parsed.value.selected.GetOr([]);
    var ids, reasons := CollectPicks(picks);
    var chosen := Reconcile(candidates, ids);
    if chosen == [] {
      return CitationFallback(candidates, paperCount);
    }
    selected := seq(|chosen|, i requires 0 <= i < |chosen| =>
      var reason := if chosen[i].id in reasons then Some(reasons[chosen[i].id]) else None;
      Selection(chosen[i], if reason.Some? then reason.value.why else "", if reason.Some? then reason.value.key else ""));
    var annotated := Annotate(chosen, picks);
    forall i | 0 <= i < |chosen|
      ensures selected[i] == annotated[i]
    {
      var id := chosen[i].id;
      if id in reasons {
        assert ReasonFor(picks, id) == Some(reasons[id]);
      }
    }
  }
}
