/** The `/api/query` handler: query validation, the candidate gathering, the pipeline through
    dedup, bins, shortlist, hydration and selection, and the final timeline. The search, batch,
    model and present-day services are inputs, as is the current year. */
module Timeline {
  import opened Wrappers
  import opened Papers
  import opened Seqs
  import StableSort
  import YearBins
  import Shortlist
  import Dedup
  import Hydration
  import Sel = Selection

  const MISSING_Q: string := "missing q"
  const INTERNAL_ERROR: string := "An internal server error occurred."
  /** The topic that gets the two-query search. */
  const LLM_TOPIC: string := "large language models"
  const LLM_EXTRA_QUERY: string := "transformer model"
  const PRESENT_DAY_ID: string := "present-day"
  const PRESENT_DAY_PREFIX: string := "Present Day: "

  /** The present-day entry's data, as the model returns it or as the fallback gives it. */
  datatype PresentDay = PresentDay(title: string, summary: string, url: string)

  /** The constant answer of generatePresentDaySummary without a key or after an error. */
  const PRESENT_DAY_FALLBACK: PresentDay := PresentDay(
    "Present Day",
    "Current research focuses on improving efficiency, safety, and multimodal capabilities in large language models.",
    "")

  /** The handler's answer: status 400, status 500, or the JSON body. */
  datatype Response =
    | BadRequest(error: string)
    | ServerError(error: string)
    | Ok(query: string, bins: seq<YearBins.Range>, count: nat, papers: seq<TimelineEntry>)

  /** The first page of a bulk search: the transport's result and `data.data`, which may be absent. */
  type Search = string -> Result<HttpReply<Option<seq<Candidate>>>, Error>
  /** The model's answer text for a topic and the compact candidates. */
  type Ask = (string, seq<Sel.CompactPaper>) -> Result<string, Error>
  /** The model's present-day answer for a topic; None when the call or its parse throws. */
  type PresentDayModel = string -> Option<PresentDay>

  /** ECMAScript WhiteSpace and LineTerminator code points: what `String.prototype.trim` removes. */
  predicate IsJsWhitespace(c: char)
  {
    var n := c as int;
    || 0x09 <= n <= 0x0D                       // tab, line feed, vertical tab, form feed, carriage return
    || n == 0x20 || n == 0xA0 || n == 0x1680   // space, no-break space, ogham space mark
    || 0x2000 <= n <= 0x200A                   // en quad .. hair space
    || n == 0x2028 || n == 0x2029              // line and paragraph separators
    || n == 0x202F || n == 0x205F || n == 0x3000
    || n == 0xFEFF                             // byte order mark
  }

  /** Leading white space removed: the longest white-space prefix goes. */
  function TrimStart(s: string): (r: string)
    ensures |r| <= |s| && r == s[|s| - |r|..]
    ensures r == [] || !IsJsWhitespace(r[0])
    ensures forall k :: 0 <= k < |s| - |r| ==> IsJsWhitespace(s[k])
  {
    if s != [] && IsJsWhitespace(s[0]) then
      var r := TrimStart(s[1..]);
      assert forall k :: 1 <= k < |s| ==> s[k] == s[1..][k - 1];
      r
    else s
  }

  /** Trailing white space removed: the longest white-space suffix goes. */
  function TrimEnd(s: string): (r: string)
    ensures |r| <= |s| && r == s[..|r|]
    ensures r == [] || !IsJsWhitespace(r[|r| - 1])
    ensures forall k :: |r| <= k < |s| ==> IsJsWhitespace(s[k])
  {
    if s != [] && IsJsWhitespace(s[|s| - 1]) then TrimEnd(s[..|s| - 1]) else s
  }

  /** `String.prototype.trim`. */
  function Trim(s: string): string
  {
    TrimEnd(TrimStart(s))
  }

  /** The number of leading white-space characters trim drops. */
  function Lead(s: string): nat
  {
    |s| - |TrimStart(s)|
  }

  /** Trim keeps a contiguous slice of `s`. */
  lemma TrimSlice(s: string)
    ensures Lead(s) + |Trim(s)| <= |s| && Trim(s) == s[Lead(s)..Lead(s) + |Trim(s)|]
  {
    var t := TrimStart(s);
    assert t == s[Lead(s)..];
  }

  /** What trim drops before the slice it keeps is white space. */
  lemma TrimDropsLeading(s: string)
    ensures forall k :: 0 <= k < Lead(s) ==> IsJsWhitespace(s[k])
  {
    var t := TrimStart(s);
    assert forall k :: 0 <= k < |s| - |t| ==> IsJsWhitespace(s[k]);
  }

  /** What trim drops after the slice it keeps is white space. */
  lemma TrimDropsTrailing(s: string)
    ensures forall k :: Lead(s) + |Trim(s)| <= k < |s| ==> IsJsWhitespace(s[k])
  {
    forall k | Lead(s) + |Trim(s)| <= k < |s| {
      TrimDropsTrailingAt(s, k);
    }
  }

  lemma TrimDropsTrailingAt(s: string, k: int)
    requires Lead(s) + |Trim(s)| <= k < |s|
    ensures IsJsWhitespace(s[k])
  {
    var t := TrimStart(s);
    var i := Lead(s);
    assert t[k - i] == s[k];
  }

  /** What trim keeps neither starts nor ends with white space. */
  lemma TrimEdges(s: string)
    ensures Trim(s) == [] || (!IsJsWhitespace(Trim(s)[0]) && !IsJsWhitespace(Trim(s)[|Trim(s)| - 1]))
  {
    var t := TrimStart(s);
    var r := TrimEnd(t);
    if r != [] {
      assert r[0] == t[0];
    }
  }

  /** Trimming twice is trimming once. */
  lemma TrimIdempotent(s: string)
    ensures Trim(Trim(s)) == Trim(s)
  {
    var r := Trim(s);
    TrimEdges(s);
    if r != [] {
      assert TrimStart(r) == r;
      assert TrimEnd(r) == r;
    }
  }

  /** The trimmed string is empty exactly when `s` is all white space. */
  lemma TrimBlank(s: string)
    ensures Trim(s) == [] <==> forall k :: 0 <= k < |s| ==> IsJsWhitespace(s[k])
  {
    TrimSlice(s);
    TrimDropsLeading(s);
    TrimDropsTrailing(s);
    TrimEdges(s);
    if Trim(s) != [] {
      assert Trim(s)[0] == s[Lead(s)];
    }
  }

  /** `(req.query.q || "").trim()`, None when the result is blank (the 400 case). */
  function ValidQuery(q: Option<string>): Option<string>
  {
    var t := Trim(q.GetOr(""));
    if t == [] then None else Some(t)
  }

  /** A query is refused exactly when it is missing or all white space. */
  lemma ValidQueryRefuses(q: Option<string>)
    ensures ValidQuery(q).None? <==> q.None? || forall k :: 0 <= k < |q.value| ==> IsJsWhitespace(q.value[k])
  {
    TrimBlank(q.GetOr(""));
  }

  /** An accepted query is non-empty and already trimmed. */
  lemma ValidQueryTrimmed(q: Option<string>)
    requires ValidQuery(q).Some?
    ensures ValidQuery(q).value != [] && Trim(ValidQuery(q).value) == ValidQuery(q).value
  {
    TrimIdempotent(q.GetOr(""));
  }

  /** `toLowerCase` on the letters A-Z. */
  function AsciiLower(c: char): char
  {
    if 'A' <= c <= 'Z' then (c as int + 32) as char else c
  }

  /** `q.toLowerCase() === "large language models"`. No character outside A-Z lower-cases to a
      letter of this topic, so comparing A-Z case-insensitively is exact here. */
  predicate IsLlmTopic(q: string)
  {
    |q| == |LLM_TOPIC| && forall i :: 0 <= i < |q| ==> AsciiLower(q[i]) == LLM_TOPIC[i]
  }

  /** The searches run for a topic: the topic itself, and for the language-model topic also
      "transformer model". */
  function SearchQueries(q: string): (qs: seq<string>)
    ensures 1 <= |qs| <= 2 && qs[0] == q
    ensures |qs| == 2 <==> IsLlmTopic(q)
    ensures |qs| == 2 ==> qs[1] == LLM_EXTRA_QUERY
  {
    if IsLlmTopic(q) then [q, LLM_EXTRA_QUERY] else [q]
  }

  /** bulkSearch with one page: a failed request or a status outside 2xx throws; a missing
      `data` gives no rows. */
  function BulkSearch(query: string, search: Search): Result<seq<Candidate>, Error>
  {
    var reply := search(query);
    if reply.Failure? then Failure(reply.error)
    else if !IsOk(reply.value.status) then Failure(HttpStatus(reply.value.status))
    else Success(reply.value.body.GetOr([]))
  }

  /** The rows of every search, concatenated in query order; the first failing search's error. */
  function Gather(queries: seq<string>, search: Search): Result<seq<Candidate>, Error>
  {
    if queries == [] then Success([])
    else
      var init := Gather(queries[..|queries| - 1], search);
      if init.Failure? then init
      else
        var last := BulkSearch(queries[|queries| - 1], search);
        if last.Failure? then last else Success(init.value + last.value)
  }

  /** Gathering succeeds exactly when every search does. */
  lemma {:induction false} GatherSuccess(queries: seq<string>, search: Search)
    ensures Gather(queries, search).Success? <==> forall i :: 0 <= i < |queries| ==> BulkSearch(queries[i], search).Success?
  {
    if queries != [] {
      var init := queries[..|queries| - 1];
      GatherSuccess(init, search);
      assert forall i :: 0 <= i < |init| ==> init[i] == queries[i];
    }
  }

  /** generatePresentDaySummary: the constant fallback without a key or when the model fails. */
  function PresentDaySummary(topic: string, hasKey: bool, model: PresentDayModel): PresentDay
  {
    if !hasKey then PRESENT_DAY_FALLBACK
    else
      var answer := model(topic);
      if answer.None? then PRESENT_DAY_FALLBACK else answer.value
  }

  /** `(a.year || 0) - (b.year || 0)`: the key of the historical sort. */
  function SelectionYear(s: Selection): int
  {
    YearOrZero(s.paper.year)
  }

  /** One historical entry: `summary: p.why_important || p.abstract`. */
  function EntryOf(s: Selection): TimelineEntry
  {
    var p := s.paper;
    TimelineEntry(p.id, p.title, p.year, p.url, if s.whyImportant != "" then s.whyImportant else p.abstractText)
  }

  function PresentDayEntry(pd: PresentDay, currentYear: int): TimelineEntry
  {
    TimelineEntry(PRESENT_DAY_ID, Some(PRESENT_DAY_PREFIX + pd.title), Some(currentYear), pd.url, pd.summary)
  }

  /** `finalPapers`: the sorted selection mapped to entries, then the present-day entry. */
  function Assemble(selected: seq<Selection>, pd: PresentDay, currentYear: int): seq<TimelineEntry>
  {
    Map(EntryOf, selected) + [PresentDayEntry(pd, currentYear)]
  }

  /** The timeline of a selection: its papers sorted by `year || 0` (stably), then the
      present-day entry. */
  function TimelineOf(selected: seq<Selection>, pd: PresentDay, currentYear: int): seq<TimelineEntry>
  {
    Assemble(StableSort.Sort(selected, SelectionYear), pd, currentYear)
  }

  /** `e` is the entry of one of the selected papers. */
  ghost predicate IsEntryOfSome(e: TimelineEntry, selected: seq<Selection>)
  {
    exists s :: s in selected && e == EntryOf(s)
  }

  /** The timeline has one entry per selected paper plus exactly one present-day entry, last,
      carrying the current year. */
  lemma TimelineShape(selected: seq<Selection>, pd: PresentDay, currentYear: int)
    ensures var t := TimelineOf(selected, pd, currentYear);
      && |t| == |selected| + 1
      && t[|selected|] == TimelineEntry(PRESENT_DAY_ID, Some(PRESENT_DAY_PREFIX + pd.title), Some(currentYear), pd.url, pd.summary)
  {
    assert |StableSort.Sort(selected, SelectionYear)| == |selected|;
  }

  /** Each historical entry is a selected paper's entry, summarised by its justification or,
      when that is blank, its abstract. */
  lemma TimelineEntriesFrom(selected: seq<Selection>, pd: PresentDay, currentYear: int)
    ensures var t := TimelineOf(selected, pd, currentYear);
      forall i :: 0 <= i < |selected| ==> IsEntryOfSome(t[i], selected)
  {
    var sorted := StableSort.Sort(selected, SelectionYear);
    var t := TimelineOf(selected, pd, currentYear);
    forall i | 0 <= i < |selected|
      ensures IsEntryOfSome(t[i], selected)
    {
      assert sorted[i] in multiset(selected);
      assert t[i] == EntryOf(sorted[i]);
    }
  }

  /** Every selected paper has its entry among the historical entries. */
  lemma TimelineEntriesAll(selected: seq<Selection>, pd: PresentDay, currentYear: int)
    ensures var t := TimelineOf(selected, pd, currentYear);
      forall s :: s in selected ==> EntryOf(s) in t[..|selected|]
  {
    var sorted := StableSort.Sort(selected, SelectionYear);
    var t := TimelineOf(selected, pd, currentYear);
    forall s | s in selected
      ensures EntryOf(s) in t[..|selected|]
    {
      assert s in multiset(sorted);
      var i :| 0 <= i < |sorted| && sorted[i] == s;
      assert t[..|selected|][i] == EntryOf(s);
    }
  }

  /** The historical entries are exactly the selected papers' entries, each as often as its
      paper is selected: a permutation of them. */
  lemma TimelinePermutation(selected: seq<Selection>, pd: PresentDay, currentYear: int)
    ensures var t := TimelineOf(selected, pd, currentYear);
      |t| == |selected| + 1 && multiset(t[..|selected|]) == multiset(Map(EntryOf, selected))
  {
    var sorted := StableSort.Sort(selected, SelectionYear);
    var t := TimelineOf(selected, pd, currentYear);
    assert t[..|selected|] == Map(EntryOf, sorted);
    MapPermutation(EntryOf, sorted, selected);
  }

  /** The historical entries are in non-decreasing `year || 0` order. */
  lemma TimelineOrdered(selected: seq<Selection>, pd: PresentDay, currentYear: int)
    ensures var t := TimelineOf(selected, pd, currentYear);
      forall i, j :: 0 <= i < j < |selected| ==> YearOrZero(t[i].year) <= YearOrZero(t[j].year)
  {
    var sorted := StableSort.Sort(selected, SelectionYear);
    var t := TimelineOf(selected, pd, currentYear);
    forall i, j | 0 <= i < j < |selected|
      ensures YearOrZero(t[i].year) <= YearOrZero(t[j].year)
    {
      assert SelectionYear(sorted[i]) <= SelectionYear(sorted[j]);
      assert t[i] == EntryOf(sorted[i]) && t[j] == EntryOf(sorted[j]);
    }
  }

  /** Papers with equal `year || 0` keep their selection order. */
  lemma TimelineStable(selected: seq<Selection>, k: int)
    ensures StableSort.WithKey(StableSort.Sort(selected, SelectionYear), SelectionYear, k) == StableSort.WithKey(selected, SelectionYear, k)
  {
    StableSort.SortStable(selected, SelectionYear, k);
  }

  /** When no selected paper is dated after the current year, the whole timeline, present day
      included, is in year order. */
  lemma TimelineOrderedWhole(selected: seq<Selection>, pd: PresentDay, currentYear: int)
    requires forall s :: s in selected ==> SelectionYear(s) <= currentYear
    ensures var t := TimelineOf(selected, pd, currentYear);
      forall i, j :: 0 <= i < j < |t| ==> YearOrZero(t[i].year) <= YearOrZero(t[j].year)
  {
    var sorted := StableSort.Sort(selected, SelectionYear);
    var t := TimelineOf(selected, pd, currentYear);
    var n := |selected|;
    TimelineOrdered(selected, pd, currentYear);
    assert YearOrZero(t[n].year) == currentYear;
    forall i | 0 <= i < n
      ensures YearOrZero(t[i].year) <= currentYear
    {
      assert sorted[i] in multiset(selected);
      assert t[i] == EntryOf(sorted[i]);
    }
    forall i, j | 0 <= i < j < |t|
      ensures YearOrZero(t[i].year) <= YearOrZero(t[j].year)
    {
      if j == n {
        assert YearOrZero(t[i].year) <= currentYear;
      }
    }
  }

  /** The candidate gathering loop: one bulk search per query, rows appended in order. */
  method GatherCandidates(queries: seq<string>, search: Search) returns (r: Result<seq<Candidate>, Error>)
    ensures r == Gather(queries, search)
  {
    var all: seq<Candidate> := [];
    for k := 0 to |queries|
      invariant Gather(queries[..k], search) == Success(all)
    {
      assert queries[..k + 1][..k] == queries[..k];
      var rows := BulkSearch(queries[k], search);
      if rows.Failure? {
        GatherFailsFrom(queries, k, search);
        return rows;
      }
      all := all + rows.value;
    }
    assert queries[..|queries|] == queries;
    return Success(all);
  }

  /** Once a search fails, the gathering fails with its error. */
  lemma {:induction false} GatherFailsFrom(queries: seq<string>, k: nat, search: Search)
    requires k < |queries|
    requires Gather(queries[..k], search).Success?
    requires BulkSearch(queries[k], search).Failure?
    ensures Gather(queries, search) == BulkSearch(queries[k], search)
    decreases |queries|
  {
    assert queries[..k + 1][..k] == queries[..k];
    if k + 1 < |queries| {
      var init := queries[..|queries| - 1];
      assert init[..k] == queries[..k];
      GatherFailsFrom(init, k, search);
    } else {
      assert queries[..k] == queries[..|queries| - 1];
    }
  }

  /** The shape of the `papers` list: year-ordered historical entries, then the present-day
      entry with the current year. */
  ghost predicate IsTimeline(papers: seq<TimelineEntry>, currentYear: int)
  {
    && |papers| >= 1
    && papers[|papers| - 1].id == PRESENT_DAY_ID
    && papers[|papers| - 1].year == Some(currentYear)
    && forall i, j :: 0 <= i < j < |papers| - 1 ==> YearOrZero(papers[i].year) <= YearOrZero(papers[j].year)
  }

  /** Every selection yields a list of that shape. */
  lemma TimelineIsTimeline(selected: seq<Selection>, pd: PresentDay, currentYear: int)
    ensures IsTimeline(TimelineOf(selected, pd, currentYear), currentYear)
  {
    TimelineShape(selected, pd, currentYear);
    TimelineOrdered(selected, pd, currentYear);
  }

  /** `count` is the number of distinct ids among the rows the searches for `query` returned. */
  ghost predicate CountsUnique(query: string, count: nat, search: Search)
  {
    var all := Gather(SearchQueries(query), search);
    all.Success? && count == |Distinct(Dedup.Ids(all.value))|
  }

  /** The ids the handler hydrates for the gathered rows: the rows deduplicated by id, filed
      into makeYearBins' ranges, and cut to each bin's most cited. */
  function HydrationIds(rows: seq<Candidate>): seq<PaperId>
  {
    var unique := Dedup.DedupById(rows);
    Dedup.Ids(Shortlist.ShortlistOf(YearBins.AssignBins(unique, YearBins.YearBinsOf(unique))))
  }

  /** The handler's answer once its searches returned `rows`: the 500 answer when hydration
      fails, otherwise the topic, the bins, the number of distinct rows and the timeline of
      the selection made from the hydrated papers and the model's answer (asked only with a
      key). */
  function Pipeline(topic: string, rows: seq<Candidate>, currentYear: int, batch: Hydration.BatchFetch,
                    hasKey: bool, ask: Ask, parse: Sel.Parser, presentDay: PresentDayModel): Response
  {
    var unique := Dedup.DedupById(rows);
    var hydrated := Hydration.Hydrate(HydrationIds(rows), batch);
    if hydrated.Failure? then ServerError(INTERNAL_ERROR)
    else
      var response := if hasKey then ask(topic, Sel.Compact(hydrated.value)) else Failure(NetworkError);
      var selected := Sel.Select(hydrated.value, Sel.DEFAULT_PAPER_COUNT, hasKey, response, parse);
      Ok(topic, YearBins.YearBinsOf(unique), |unique|,
         TimelineOf(selected, PresentDaySummary(topic, hasKey, presentDay), currentYear))
  }

  /** The `/api/query` handler's answer: 400 for a missing or blank query, 500 when a search
      fails, and otherwise the pipeline's answer on the gathered rows. */
  function Handle(q: Option<string>, currentYear: int, search: Search, batch: Hydration.BatchFetch,
                  hasKey: bool, ask: Ask, parse: Sel.Parser, presentDay: PresentDayModel): Response
  {
    var query := ValidQuery(q);
    if query.None? then BadRequest(MISSING_Q)
    else
      var all := Gather(SearchQueries(query.value), search);
      if all.Failure? then ServerError(INTERNAL_ERROR)
      else Pipeline(query.value, all.value, currentYear, batch, hasKey, ask, parse, presentDay)
  }

  /** The pipeline answers 500 exactly when hydration fails, and never 400. */
  lemma PipelineFails(topic: string, rows: seq<Candidate>, currentYear: int, batch: Hydration.BatchFetch,
                      hasKey: bool, ask: Ask, parse: Sel.Parser, presentDay: PresentDayModel)
    ensures var res := Pipeline(topic, rows, currentYear, batch, hasKey, ask, parse, presentDay);
      && (res.Ok? || res == ServerError(INTERNAL_ERROR))
      && (res.ServerError? <==> Hydration.Hydrate(HydrationIds(rows), batch).Failure?)
  {
  }

  /** A 200 answer carries the topic, makeYearBins' ranges of the distinct rows (at most six),
      the number of distinct rows, and a timeline ending in the present-day entry. */
  lemma PipelineOk(topic: string, rows: seq<Candidate>, currentYear: int, batch: Hydration.BatchFetch,
                   hasKey: bool, ask: Ask, parse: Sel.Parser, presentDay: PresentDayModel)
    ensures var res := Pipeline(topic, rows, currentYear, batch, hasKey, ask, parse, presentDay);
      res.Ok? ==>
        && res.query == topic
        && res.bins == YearBins.YearBinsOf(Dedup.DedupById(rows)) && |res.bins| <= 6
        && res.count == |Distinct(Dedup.Ids(rows))|
        && IsTimeline(res.papers, currentYear)
  {
    var unique := Dedup.DedupById(rows);
    Dedup.DedupByIdSpec(rows);
    assert |Dedup.Ids(unique)| == |unique|;
    YearBins.YearBinsAtMostSix(unique);
    var res := Pipeline(topic, rows, currentYear, batch, hasKey, ask, parse, presentDay);
    if res.Ok? {
      var hydrated := Hydration.Hydrate(HydrationIds(rows), batch);
      var response := if hasKey then ask(topic, Sel.Compact(hydrated.value)) else Failure(NetworkError);
      var selected := Sel.Select(hydrated.value, Sel.DEFAULT_PAPER_COUNT, hasKey, response, parse);
      TimelineIsTimeline(selected, PresentDaySummary(topic, hasKey, presentDay), currentYear);
    }
  }

  /** What the handler answers for `q`: 400 exactly when the query is missing or blank, 500
      with the fixed message exactly when a search or the hydration fails, the pipeline's
      answer whenever the searches succeed, and on a 200 the trimmed query, the number of
      distinct papers the searches found, at most six bins and a timeline. */
  ghost predicate Answers(q: Option<string>, currentYear: int, search: Search, batch: Hydration.BatchFetch,
                         hasKey: bool, ask: Ask, parse: Sel.Parser, presentDay: PresentDayModel, res: Response)
  {
    && (ValidQuery(q).None? <==> res == BadRequest(MISSING_Q))
    && (res.ServerError? <==>
          ValidQuery(q).Some? &&
          var all := Gather(SearchQueries(ValidQuery(q).value), search);
          all.Failure? || Hydration.Hydrate(HydrationIds(all.value), batch).Failure?)
    && (res.ServerError? ==> res.error == INTERNAL_ERROR)
    && (ValidQuery(q).Some? && Gather(SearchQueries(ValidQuery(q).value), search).Success? ==>
          res == Pipeline(ValidQuery(q).value, Gather(SearchQueries(ValidQuery(q).value), search).value,
                          currentYear, batch, hasKey, ask, parse, presentDay))
    && (res.Ok? ==> ValidQuery(q) == Some(res.query))
    && (res.Ok? ==> CountsUnique(res.query, res.count, search))
    && (res.Ok? ==> |res.bins| <= 6 && IsTimeline(res.papers, currentYear))
  }

  /** The handler's answer meets its description. */
  lemma HandleAnswers(q: Option<string>, currentYear: int, search: Search, batch: Hydration.BatchFetch,
                      hasKey: bool, ask: Ask, parse: Sel.Parser, presentDay: PresentDayModel)
    ensures Answers(q, currentYear, search, batch, hasKey, ask, parse, presentDay,
                    Handle(q, currentYear, search, batch, hasKey, ask, parse, presentDay))
  {
    var res := Handle(q, currentYear, search, batch, hasKey, ask, parse, presentDay);
    var query := ValidQuery(q);
    if query.None? {
      assert res == BadRequest(MISSING_Q);
    } else {
      var topic := query.value;
      var all := Gather(SearchQueries(topic), search);
      if all.Failure? {
        assert res == ServerError(INTERNAL_ERROR);
      } else {
        assert res == Pipeline(topic, all.value, currentYear, batch, hasKey, ask, parse, presentDay);
        PipelineFails(topic, all.value, currentYear, batch, hasKey, ask, parse, presentDay);
        PipelineOk(topic, all.value, currentYear, batch, hasKey, ask, parse, presentDay);
        assert res.Ok? ==> CountsUnique(res.query, res.count, search);
      }
    }
  }

  /** The gathered rows deduplicated, binned by year and cut to each bin's most cited: the
      number of distinct rows, the bins and the ids to hydrate. */
  method ShortlistIds(rows: seq<Candidate>) returns (count: nat, bins: seq<YearBins.Range>, ids: seq<PaperId>)
    ensures count == |Dedup.DedupById(rows)| == |Distinct(Dedup.Ids(rows))|
    ensures bins == YearBins.YearBinsOf(Dedup.DedupById(rows))
    ensures ids == HydrationIds(rows)
  {
    var unique := Dedup.DedupById(rows);
    Dedup.DedupByIdSpec(rows);
    bins := YearBins.MakeYearBins(unique);
    var binned := YearBins.AssignBins(unique, bins);
    var shortlist := Shortlist.BuildShortlist(binned);
    ids := Dedup.Ids(shortlist);
    assert |Dedup.Ids(unique)| == |unique|;
    count := |unique|;
  }

  /** The handler after its searches succeeded: dedup, bins, shortlist, hydration, selection
      and the timeline. A failed hydration is the 500 answer. */
  method RunPipeline(topic: string, rows: seq<Candidate>, currentYear: int, batch: Hydration.BatchFetch,
                     hasKey: bool, ask: Ask, parse: Sel.Parser, presentDay: PresentDayModel)
    returns (res: Response)
    ensures res == Pipeline(topic, rows, currentYear, batch, hasKey, ask, parse, presentDay)
  {
    var count, bins, ids := ShortlistIds(rows);
    var hydrated, _ := Hydration.HydratePapers(ids, batch);
    if hydrated.Failure? {
      return ServerError(INTERNAL_ERROR);
    }
    var response := if hasKey then ask(topic, Sel.Compact(hydrated.value)) else Failure(NetworkError);
    var selected := Sel.SelectPapers(hydrated.value, Sel.DEFAULT_PAPER_COUNT, hasKey, response, parse);
    var pd := PresentDaySummary(topic, hasKey, presentDay);
    var papers := TimelineOf(selected, pd, currentYear);
    return Ok(topic, bins, count, papers);
  }

  /** The `/api/query` handler. */
  method HandleQuery(q: Option<string>, currentYear: int, search: Search, batch: Hydration.BatchFetch,
                     hasKey: bool, ask: Ask, parse: Sel.Parser, presentDay: PresentDayModel)
    returns (res: Response)
    ensures res == Handle(q, currentYear, search, batch, hasKey, ask, parse, presentDay)
    ensures Answers(q, currentYear, search, batch, hasKey, ask, parse, presentDay, res)
  {
    HandleAnswers(q, currentYear, search, batch, hasKey, ask, parse, presentDay);
    var query := ValidQuery(q);
    if query.None? {
      return BadRequest(MISSING_Q);
    }
    var topic := query.value;
    var all := GatherCandidates(SearchQueries(topic), search);
    if all.Failure? {
      return ServerError(INTERNAL_ERROR);
    }
    res := RunPipeline(topic, all.value, currentYear, batch, hasKey, ask, parse, presentDay);
  }
}
