# Evolve: a verified model of the paper-timeline curation pipeline

Evolve answers a research topic with a timeline of milestone papers. The back end
(`backend/index.js`) runs the pipeline this project models:

1. It searches Semantic Scholar for the topic. The topic "large language models" also gets
   "transformer model".
2. It deduplicates the rows by `paperId`.
3. It cuts the years into at most six contiguous bins at quantile cut points.
4. It keeps the five most cited rows of each bin.
5. It hydrates those ids in chunks of 500 through the batch endpoint.
6. It lets a language model pick the milestones, with a citation-count fallback.
7. It sorts the picks by year and appends a "present day" entry.

The front end keeps its navigation state in a store (`frontend/src/core/SceneManager.jsx`).
The store moves forward and back along a fixed order of scenes. It also remembers a zoom-out
camera per scene.

The model is in Dafny. Each module follows one piece of the source:

| file | module | models |
|---|---|---|
| `wrappers.dfy` | `Wrappers` | `Option` (JSON `null`, missing fields) and `Result` (a thrown error) |
| `seqs.dfy` | `Seqs` | `slice(0, n)`, flattening of `push(...)` loops, and the insertion order of a `Set` |
| `stable_sort.dfy` | `StableSort` | `Array.prototype.sort` with a numeric-key comparator; the sort is stable |
| `papers.dfy` | `Papers` | the records: search rows, raw and normalised batch records, selections, timeline entries |
| `year_bins.dfy` | `YearBins` | `makeYearBins`, `assignBins` |
| `shortlist.dfy` | `Shortlist` | the per-bin top-five loop |
| `dedup.dfy` | `Dedup` | `Array.from(new Map(rows.map(p => [p.paperId, p])).values())` |
| `hydration.dfy` | `Hydration` | `hydratePapers`: chunking, the batch replies, record defaults |
| `selection.dfy` | `Selection` | `selectWithGemini`: fallback, JSON-span extraction, reconciliation |
| `timeline.dfy` | `Timeline` | the `/api/query` handler: validation, searches, pipeline, final list |
| `scene_manager.dfy` | `SceneManager` | `useSceneStore` as a class whose methods update its fields |

Services are parameters of the model, not part of it:

- The search endpoint is a function-typed parameter (`Timeline.Search`).
- The batch endpoint is a function-typed parameter (`Hydration.BatchFetch`).
- The language model's answers are parameters: `Timeline.Ask`, `Timeline.PresentDayModel`, and the `hasKey` flag.
- `JSON.parse` is a parameter (`Selection.Parser`).
- The clock is a parameter: the current year.

JavaScript's `||` and `??` defaults on JSON values become `Option.GetOr`. A `null` year compares
as `0` in `assignBins` and in the final sort, as it does in JavaScript.

## Model

| member | source | states |
|---|---|---|
| YearBins.IntYears | backend/index.js:56-58 | the integer years are exactly the years present on the rows, at most one per row |
| YearBins.IntYearsSingle | backend/index.js:56-58 | a dated row gives its one year, an undated row none |
| YearBins.IntYearsAppend | backend/index.js:56-58 | the years of a concatenation are the years of its parts, in row order, repeats kept |
| YearBins.SortedYears | backend/index.js:56-59 | the sorted years are a permutation of the integer years, in non-decreasing order |
| YearBins.RowOfSortedYear | backend/index.js:56-59 | every sorted year is the year of some row |
| YearBins.RowYearInSpan | backend/index.js:56-59 | every row's integer year lies between the first and the last sorted year |
| YearBins.SortedYearsSpan | backend/index.js:56-59 | the first and last sorted years bound every row's year |
| YearBins.CutIndices | backend/index.js:63-65 | the five quantile indices lie in `[0, n-1]` and do not decrease |
| YearBins.Cuts | backend/index.js:63-65 | the five cut points are years of the input, non-decreasing when the years are sorted |
| YearBins.CutPoints | backend/index.js:67 | after deduplication there are one to five cut points, all years of the input |
| Seqs.Distinct | backend/index.js:67 | `[...new Set(s)]` has the same members as `s`, no duplicates, and is no longer than `s` |
| Seqs.DistinctSnoc | backend/index.js:67 | adding an element to a `Set` appends it exactly when it is new |
| YearBins.DistinctOfSorted | backend/index.js:67 | deduplicating a non-decreasing list gives a strictly increasing one |
| YearBins.TilesSnoc | backend/index.js:73-74 | pushing `[start, c]` with `start = previous end + 1` keeps the bins contiguous |
| YearBins.TilesOrdered | backend/index.js:69-80 | contiguous bins are disjoint and in increasing order |
| YearBins.TilesBounds | backend/index.js:69-80 | every contiguous bin lies inside the overall span |
| YearBins.TilesPartition | backend/index.js:69-80 | contiguous bins cover exactly `[lo, hi]`, and each year in it lies in exactly one bin |
| YearBins.Walk | backend/index.js:69-80 | the ranges the cursor loop emits: `[start, c]` for each cut not below the cursor, which moves to `c + 1`, then the tail `[start, last]` when it is not empty |
| YearBins.WalkLength | backend/index.js:69-80 | the walk emits at most one range per cut plus the tail |
| YearBins.WalkTiles | backend/index.js:69-80 | finishing the walk from any loop state tiles `[first, last]` with ranges that end at cuts, one range per cut when the cuts strictly increase |
| YearBins.RangesFromCuts | backend/index.js:69-80 | the cursor loop computes the walk over the cuts; its bins are contiguous over `[first, last]`, and with strictly increasing cuts bin `i` ends at cut `i` |
| YearBins.YearBinsOf | backend/index.js:55-83 | makeYearBins' answer: no bins for fewer than two integer years, otherwise the walk over the deduplicated cut points from the smallest to the largest year |
| YearBins.YearBinsAtMostSix | backend/index.js:55-83 | makeYearBins never returns more than six bins |
| YearBins.MakeYearBins | backend/index.js:55-83 | computes makeYearBins' answer; with fewer than two integer years there are no bins; otherwise there are 1 to 6 contiguous bins from the minimum to the maximum year, ending at the cut points plus an optional tail; equal years give the single bin `[y, y]` |
| YearBins.RowsIn | backend/index.js:88 | a bin's rows are exactly the input rows whose year (null as 0) lies in its range, no more rows than the input |
| YearBins.RowsInAppend | backend/index.js:88 | the filter keeps input order: filtering a concatenation concatenates the filtered parts |
| YearBins.AssignBins | backend/index.js:85-90 | one entry per bin, with the same range and that range's rows |
| YearBins.DatedRowInOneBin | backend/index.js:85-90 | over contiguous bins spanning the rows' years, every dated row lands in exactly one bin |
| YearBins.UndatedRowsInNoBin | backend/index.js:88 | when all bins start after year 0, a row with a null year lands in no bin |
| StableSort.Insert | backend/index.js:326 | inserting adds exactly one element and keeps the others |
| StableSort.InsertSorted | backend/index.js:326 | inserting into a sorted list keeps it sorted |
| StableSort.Sort | backend/index.js:326 | sorting keeps the length and the multiset, and orders by key |
| StableSort.InsertWithKey | backend/index.js:326 | inserting adds the element to its key group in front and leaves the other groups alone |
| StableSort.WithKeyCons | backend/index.js:326 | an element in front joins the front of its key group only |
| StableSort.SortStable | backend/index.js:326 | sorting keeps the input order among elements with equal keys |
| StableSort.WithKeyAppend | backend/index.js:326 | the equal-key group of a concatenation is the concatenation of the groups |
| StableSort.WithKeyPrefix | backend/index.js:327 | cutting a prefix keeps a prefix of every equal-key group |
| StableSort.TakeSorted | backend/index.js:326-327 | the first `n` after sorting are `min(n, length)` input elements, in key order |
| StableSort.TakeSortedBest | backend/index.js:326-327 | no element left out of the first `n` after sorting has a smaller key than one kept |
| Seqs.Take | backend/index.js:327 | `slice(0, n)` is the prefix of length `min(n, length)` |
| Shortlist.TopCitedSize | backend/index.js:325-327 | a bin contributes `min(5, size)` of its own rows |
| Shortlist.TopCitedBest | backend/index.js:325-327 | a bin's top rows come by non-increasing citation count, and no row left out is cited more than a row kept |
| Shortlist.TopCitedStable | backend/index.js:325-327 | rows with equal citation counts keep their order in the bin |
| Shortlist.TopsSnoc | backend/index.js:324-328 | one more loop iteration adds exactly the next bin's top rows |
| Shortlist.TopCited | backend/index.js:325-327 | a bin's rows sorted by citation count, most cited first, cut to five |
| Shortlist.ShortlistOf | backend/index.js:322-329 | the tops of the bins, concatenated in bin order |
| Shortlist.ShortlistFromBins | backend/index.js:324-329 | every shortlisted row comes from one of the bins |
| Shortlist.BuildShortlist | backend/index.js:322-329 | the loop yields the per-bin tops concatenated in bin order, at most 5 per bin |
| Seqs.FlattenAppend | backend/index.js:328 | pushing the tops of more bins extends the shortlist by exactly their rows |
| Seqs.FlattenCons | backend/index.js:99-126 | joining a first chunk's part with the rest puts that part's elements first |
| Seqs.MapAppend | backend/index.js:355-361 | `map` distributes over concatenation |
| Seqs.MapPermutation | backend/index.js:343-361 | mapping two permutations of each other gives two permutations of each other |
| Dedup.Ids | backend/index.js:306 | one key per row, in row order |
| Dedup.DedupById | backend/index.js:305-307 | the rows folded through `Map.set` keyed by `paperId`, in row order |
| Dedup.MapSet | backend/index.js:306 | `Map.set` keeps the key list when the key is present and appends it otherwise |
| Dedup.MapSetValues | backend/index.js:306 | `Map.set` on a present key replaces only that key's value, in place |
| Dedup.MapSetNew | backend/index.js:306 | `Map.set` on a new key appends the entry |
| Dedup.LastWithId | backend/index.js:306 | the last row with a given id is a row of the input with that id |
| Dedup.LastWithIdSnoc | backend/index.js:306 | a later row with the same id takes over as the last one |
| Dedup.DistinctIdsUnique | backend/index.js:305-307 | a record list whose ids are a deduplicated list has unique ids |
| Dedup.DedupStep | backend/index.js:305-307 | one `Map.set` step keeps "each value is the last row with its id" |
| Dedup.DedupByIdSpec | backend/index.js:305-307 | the ids come out in order of first occurrence, each with the record of its last occurrence |
| Dedup.UniqueIds | backend/index.js:305-307 | after deduplication no two records share an id |
| Dedup.KeepsEveryId | backend/index.js:305-307 | every input id is kept |
| Dedup.KeepsOnlyRows | backend/index.js:305-307 | every output record is an input row |
| Hydration.ChunksCover | backend/index.js:97-101 | the chunks of 500, joined, are the ids in order |
| Hydration.ChunksSized | backend/index.js:99-101 | each chunk holds 1 to 500 ids |
| Hydration.ChunksCount | backend/index.js:99 | there are `ceil(n/500)` chunks |
| Hydration.ChunksStep | backend/index.js:99-101 | the chunks from offset `i` are `ids.slice(i, i + 500)` followed by the chunks from `i + 500` |
| Hydration.Chunks | backend/index.js:99-101 | `ids.slice(i, i + 500)` for `i = 0, 500, 1000, ...` below the length |
| Hydration.FetchChunk | backend/index.js:101-125 | one batch request: a failed reply throws its error; otherwise its records are normalised |
| Hydration.FetchAll | backend/index.js:99-127 | the chunk requests in order, the records appended in order; the first failure ends hydration |
| Hydration.Hydrate | backend/index.js:95-128 | hydratePapers: the chunks of the ids fetched in order |
| Hydration.Normalize | backend/index.js:115-124 | a record keeps id and title; null year and venue stay null; the abstract defaults to `""`, citations to 0, authors to their names; the url defaults to the paper page |
| Hydration.NormalizeAll | backend/index.js:113-125 | a reply is normalised element by element; a null element throws |
| Hydration.Parts | backend/index.js:99-126 | one list of records per chunk: the normalised records of that chunk's reply whenever its request succeeds |
| Hydration.HydrateEmpty | backend/index.js:96 | hydrating no ids gives no records and sends no request |
| Hydration.FetchAllSucceeds | backend/index.js:99-127 | hydration succeeds exactly when every chunk's request does |
| Hydration.FetchAllRecords | backend/index.js:99-127 | a successful hydration holds the normalised records of all replies, in chunk order |
| Hydration.FetchAllFailure | backend/index.js:112 | a failed hydration fails with the error of the first chunk whose request failed |
| Hydration.PrependStep | backend/index.js:114-125 | appending one reply's records to the output commutes with the rest of the fetch |
| Hydration.PushRecords | backend/index.js:114-125 | the inner loop appends the normalised records of one reply, or throws on a null record |
| Hydration.HydratePapers | backend/index.js:95-128 | the chunk loop computes the hydration; requests go out for a prefix of the chunks, all of them on success, stopping at the first failure |
| Selection.Compact | backend/index.js:155-162 | the prompt holds the first `min(30, n)` candidates in order, each with its id, title, year, venue and citations, and the first `min(900, length)` characters of its abstract |
| Selection.PapersOf | backend/index.js:214-218 | one paper per selection, in order |
| Selection.CitationFallbackSpec | backend/index.js:141-146 | the fallback holds `min(paperCount, n)` entries with blank justifications |
| Selection.CitationFallbackFrom | backend/index.js:143-145 | the fallback's papers are candidates, none used more often than it occurs |
| Selection.CitationFallbackBest | backend/index.js:143-145 | the fallback is by non-increasing citations, and no candidate left out is cited more than one kept |
| Selection.CitationFallbackStable | backend/index.js:143-145 | candidates with equal citations keep their relative order in the fallback |
| Selection.CitationFallback | backend/index.js:141-146 | the candidates sorted by citation count, most cited first, cut to `paperCount`, with blank justification and title |
| Selection.IndexOf | backend/index.js:192 | the first position of a character, absent exactly when the character does not occur |
| Selection.LastIndexOf | backend/index.js:192 | the last position of a character, absent exactly when the character does not occur |
| Selection.BracesOrdered | backend/index.js:192 | a `{` before a `}` puts the first `{` before the last `}` |
| Selection.JsonSpan | backend/index.js:192 | the extracted span runs from the first `{` to the last `}` of the text |
| Selection.JsonSpanFound | backend/index.js:192-195 | a span is found exactly when some `{` precedes some `}` |
| Selection.ModelPicks | backend/index.js:185-200 | the model's picks: none when the call fails, no `{...}` span is found or the span does not parse; otherwise `parsed.selected \|\| []` |
| Selection.ReasonFor | backend/index.js:198-204 | an id has a reason exactly when some pick carries it, and the reason is that of the last pick with that id |
| Selection.CollectPicks | backend/index.js:186-204 | the loop collects exactly the picked ids, each with the reason of its last pick |
| Selection.Reconcile | backend/index.js:206 | the chosen papers are exactly the candidates whose id was picked, no more than the candidates |
| Selection.ReconcileAppend | backend/index.js:206 | the choice is a filter: it keeps candidate order |
| Selection.Annotate | backend/index.js:214-218 | annotating keeps the chosen papers in order; each gets the `why` and `key` of its id's reason, or empty strings when it has none |
| Selection.SelectNonEmpty | backend/index.js:140-227 | with candidates and a positive count the selection is never empty |
| Selection.SelectFromCandidates | backend/index.js:140-227 | every selected paper is one of the candidates |
| Selection.SelectTiers | backend/index.js:140-227 | without a key, without a readable model answer, or when no candidate was picked, the result is the citation fallback |
| Selection.SelectPicked | backend/index.js:186-218 | with a key, a readable answer and at least one picked candidate, the result is the picked candidates in candidate order, each with the reason of its last pick |
| Selection.Select | backend/index.js:140-227 | the three tiers: fallback without a key or readable answer, fallback when nothing picked is a candidate, otherwise the annotated picks |
| Selection.SelectPapers | backend/index.js:140-227 | the method computes the selection through the three tiers |
| Timeline.TrimStart | backend/index.js:287 | only leading white space goes, all of it |
| Timeline.TrimEnd | backend/index.js:287 | only trailing white space goes, all of it |
| Timeline.Trim | backend/index.js:287 | `String.prototype.trim`: leading then trailing white space removed |
| Timeline.TrimSlice | backend/index.js:287 | trim keeps a contiguous slice of the input |
| Timeline.TrimDropsLeading | backend/index.js:287 | everything trim drops before the kept slice is white space |
| Timeline.TrimDropsTrailing | backend/index.js:287 | everything trim drops after the kept slice is white space |
| Timeline.TrimEdges | backend/index.js:287 | the trimmed text neither starts nor ends with white space |
| Timeline.TrimIdempotent | backend/index.js:287 | trimming twice is trimming once |
| Timeline.TrimBlank | backend/index.js:287-288 | the trimmed text is empty exactly when the input is all white space |
| Timeline.ValidQueryRefuses | backend/index.js:287-288 | the query is refused exactly when it is missing or all white space |
| Timeline.ValidQueryTrimmed | backend/index.js:287-288 | an accepted query is non-empty and already trimmed |
| Timeline.ValidQuery | backend/index.js:287-288 | `(q \|\| "").trim()`, refused when empty |
| Timeline.IsLlmTopic | backend/index.js:292 | the lower-cased query equals "large language models" |
| Timeline.BulkSearch | backend/index.js:23-53 | one page of the bulk search: a failed reply throws, an absent `data` gives no rows |
| Timeline.Gather | backend/index.js:291-302 | the searches in order, their rows appended in order; the first failure ends the gathering |
| Timeline.SearchQueries | backend/index.js:292-302 | the topic is searched first, and a second query, "transformer model", is added exactly for the language-model topic |
| Timeline.GatherSuccess | backend/index.js:295-301 | gathering succeeds exactly when every search does |
| Timeline.GatherFailsFrom | backend/index.js:295-297 | the first failing search's error ends the gathering |
| Timeline.GatherCandidates | backend/index.js:291-302 | the search loop appends each query's rows in order, or throws at the first failure |
| Timeline.PresentDaySummary | backend/index.js:229-279 | the model's present-day answer with a key and a successful call, otherwise the constant fallback |
| Timeline.EntryOf | backend/index.js:355-361 | a selected paper's entry: its id, title, year and url, and its justification or else its abstract as summary |
| Timeline.PresentDayEntry | backend/index.js:347-353 | the `present-day` entry, titled "Present Day: " and the title, dated the current year |
| Timeline.TimelineOf | backend/index.js:343-363 | the selection sorted by `year \|\| 0`, mapped to entries, then the present-day entry |
| Timeline.TimelineShape | backend/index.js:346-363 | one entry per selected paper, then one `present-day` entry, last, titled "Present Day: ..." and dated the current year |
| Timeline.TimelineEntriesFrom | backend/index.js:343-360 | each historical entry is a selected paper's entry; its summary falls back from the justification to the abstract |
| Timeline.TimelineEntriesAll | backend/index.js:343-360 | every selected paper has its entry in the timeline |
| Timeline.TimelinePermutation | backend/index.js:343-361 | the historical entries are a permutation of the selected papers' entries: each appears as often as its paper is selected |
| Timeline.TimelineOrdered | backend/index.js:343 | historical entries are by non-decreasing `year \|\| 0` |
| Timeline.TimelineStable | backend/index.js:343 | papers with equal `year \|\| 0` keep their selection order |
| Timeline.TimelineOrderedWhole | backend/index.js:343-363 | if no paper postdates the current year, the whole list is in year order |
| Timeline.TimelineIsTimeline | backend/index.js:343-363 | every final list is non-empty, ends with the present-day entry dated the current year, and its other entries are by non-decreasing year |
| Timeline.ShortlistIds | backend/index.js:305-334 | the number of distinct rows (the number of distinct gathered ids), makeYearBins' ranges of the deduplicated rows, and the ids of their per-bin shortlist |
| Timeline.HydrationIds | backend/index.js:305-334 | the ids of the per-bin shortlist of the deduplicated rows, binned by makeYearBins |
| Timeline.Pipeline | backend/index.js:305-377 | after the searches: the internal error when hydration fails, otherwise the topic, the bins, the number of distinct rows and the timeline of the selection from the hydrated papers |
| Timeline.PipelineFails | backend/index.js:335-377 | the pipeline answers the internal error exactly when hydration fails, and never 400 |
| Timeline.PipelineOk | backend/index.js:305-373 | a 200 answer echoes the topic, carries makeYearBins' ranges of the distinct rows (at most six), counts the distinct ids, and holds a timeline ending in the present-day entry |
| Timeline.Handle | backend/index.js:285-377 | 400 for a missing or blank query, 500 when a search fails, otherwise the pipeline's answer on the gathered rows |
| Timeline.RunPipeline | backend/index.js:305-377 | the method computes the pipeline's answer on the gathered rows |
| Timeline.HandleQuery | backend/index.js:285-377 | the handler computes `Handle`, and its answer meets `Answers`: 400 exactly for a missing or blank query; 500 with the fixed message exactly when a search or the hydration fails; the pipeline's answer whenever the searches succeed; a 200 echoes the trimmed query, counts the unique candidates, has at most 6 bins, and ends with the present-day entry after the year-sorted picks |
| Timeline.HandleAnswers | backend/index.js:285-377 | the handler's answer meets `Answers` for every query, search, batch and model |
| SceneManager.IndexOf | frontend/src/core/SceneManager.jsx:59 | `indexOf` is the first position, or -1 exactly for a missing scene |
| SceneManager.IndexOfDistinct | frontend/src/core/SceneManager.jsx:59 | in a list of distinct scenes, `indexOf` finds each scene at its own position |
| SceneManager.Target | frontend/src/core/SceneManager.jsx:57-84 | the scene `endTransition` moves to: `min(i + 1, n - 1)` zooming in, `max(i - 1, 0)` zooming out |
| SceneManager.TargetIn | frontend/src/core/SceneManager.jsx:61-71 | zoom in targets the next scene, except at the last scene, where it targets the current one |
| SceneManager.TargetOut | frontend/src/core/SceneManager.jsx:72-82 | zoom out targets the previous scene, except at the first scene, where it targets the current one |
| SceneManager.TargetInOut | frontend/src/core/SceneManager.jsx:61-82 | zooming in then out comes back to the same scene, except from the last scene |
| SceneManager.TargetOutIn | frontend/src/core/SceneManager.jsx:61-82 | zooming out then in comes back to the same scene, except from the first scene |
| SceneManager.SceneStore.constructor | frontend/src/core/SceneManager.jsx:5-24 | the store starts on the galaxy scene with every flag off and every scene mapped to the default camera |
| SceneManager.SceneStore.SetLoadingProgress | frontend/src/core/SceneManager.jsx:26 | sets the progress, nothing else |
| SceneManager.SceneStore.SetLoadingText | frontend/src/core/SceneManager.jsx:27 | sets the text, nothing else |
| SceneManager.SceneStore.SetSceneZoomed | frontend/src/core/SceneManager.jsx:29-31 | sets the zoomed scene, nothing else |
| SceneManager.SceneStore.SetFullscreenActive | frontend/src/core/SceneManager.jsx:33-35 | sets the flag, nothing else |
| SceneManager.SceneStore.SubmitSearch | frontend/src/core/SceneManager.jsx:37 | sets `isSearchSubmitted`, nothing else |
| SceneManager.SceneStore.StartFadeToBlack | frontend/src/core/SceneManager.jsx:38 | sets `isFadingToBlack`, nothing else |
| SceneManager.SceneStore.SetOverlayColor | frontend/src/core/SceneManager.jsx:39 | sets the colour, nothing else |
| SceneManager.SceneStore.CompleteFade | frontend/src/core/SceneManager.jsx:40 | sets `isFadeComplete`, nothing else |
| SceneManager.SceneStore.ResetSearch | frontend/src/core/SceneManager.jsx:41 | clears `isSearchSubmitted`, nothing else |
| SceneManager.SceneStore.GetZoomOutCameraData | frontend/src/core/SceneManager.jsx:43-46 | a scene's camera data, absent for a scene without an entry |
| SceneManager.SceneStore.SetZoomOutCameraData | frontend/src/core/SceneManager.jsx:48-55 | the scene then reads back the new data; every other scene reads back what it did before |
| SceneManager.SceneStore.EndTransition | frontend/src/core/SceneManager.jsx:57-84 | moves to the next or previous scene, sets the direction and clears `sceneZoomed`; at either end nothing changes; the store stays valid |

## Left out

- Pagination in `bulkSearch` is not modelled; only the first page is searched (`maxPages` is 1). Request URLs and headers are not modelled. The search endpoint is a parameter.
- Sleeps (`delay`) are left out: they only pace requests.
- Logging, Express routing and CORS are left out. The `/api/health` route is left out.
- Gemini prompts and client calls are parameters. `JSON.parse` is a parameter. The `json` fenced-block extraction in `generatePresentDaySummary` is part of that parameter.
- `generatePresentDaySummary` is modelled only by its constant fallback. Its model answer is taken as well-formed strings; a parse that lacks `title` is not modelled.
- `scorePaper` is left out: it uses floating-point `log10` and is never called.
- `new Date().getFullYear()` is the `currentYear` parameter.
- Years are integers or null. Non-integer numeric years, which `Number.isInteger` drops, are not modelled. Missing `year` fields are not modelled: they make the comparisons in `assignBins` false instead of using 0.
- YearBins.IntYears: its own contract states membership and length only. That it keeps one year per dated row, in row order and with repeats, is stated by YearBins.IntYearsSingle and YearBins.IntYearsAppend.
- Selection.Compact: `slice(0, 900)` counts UTF-16 code units, and a Dafny string counts characters. An abstract with characters outside the Basic Multilingual Plane is cut at a different place, and a surrogate pair can be split in the source.
- YearBins.CutIndices: uses the exact integer quantile indices `floor(q(n-1))`. It does not model the floating-point products `q * (n - 1)`, which can round differently.
- Timeline.IsLlmTopic: compares case-insensitively on A-Z only. No other character lower-cases to a letter of "large language models", so the result agrees with `toLowerCase`.
- Timeline.ValidQueryRefuses: a repeated `q` parameter (an array, on which `trim` throws and the handler answers 500) is not modelled; `q` is a string or absent.
- Selection records and picks are well-formed records. A `null` element in `selected`, which makes the loop throw and fall back, is not modelled. Non-string ids are not modelled.
- Sorts are modelled on values, not in place. Each sorted array in the source (`years`, `bin.papers`, `selected` and the fallback copy) is local, so there is no aliasing to lose.
- Hydration.HydratePapers: a reply that is not a JSON array is not modelled. Raw batch records are typed; a record without `paperId` is not modelled.
- The rendering components, three.js scenes, DOM events and animation timers are not part of this model. Neither are `SCENE_MANAGER`'s contents: the scene order and the default camera are constructor parameters.
- SceneManager.SceneStore.EndTransition: is specified for a current scene that appears in the scene order. The store keeps that invariant (`Valid`). The `indexOf` result of -1, which the store never reaches, is modelled by `IndexOf` but not covered by the contract.
