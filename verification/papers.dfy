/** The records that flow through the query pipeline of `backend/index.js`. */
module Papers {
  import opened Wrappers

  type PaperId = string

  /** A search hit from the bulk search endpoint, lightweight fields only. `year` and
      `citationCount` are `null` in the service's JSON when it does not know them. */
  datatype Candidate = Candidate(paperId: PaperId, title: string, year: Option<int>, citationCount: Option<int>)

  /** One author object of a batch record; only `name` is kept by hydration. */
  datatype RawAuthor = RawAuthor(authorId: Option<string>, name: string)

  /** A record of the batch-detail endpoint, as it arrives: every field but the id may be missing. */
  datatype RawPaper = RawPaper(
    paperId: PaperId,
    title: Option<string>,
    year: Option<int>,
    venue: Option<string>,
    abstractText: Option<string>,
    citationCount: Option<int>,
    authors: Option<seq<RawAuthor>>,
    url: Option<string>)

  /** A hydrated paper: the defaults of the normalisation are already applied. */
  datatype Paper = Paper(
    id: PaperId,
    title: Option<string>,
    year: Option<int>,
    venue: Option<string>,
    abstractText: string,
    citationCount: int,
    authors: seq<string>,
    url: string)

  /** A paper chosen by the relevance selector, with its two justification fields. */
  datatype Selection = Selection(paper: Paper, whyImportant: string, timelineTitle: string)

  /** An entry of the response's `papers` list. */
  datatype TimelineEntry = TimelineEntry(id: string, title: Option<string>, year: Option<int>, url: string, summary: string)

  /** What the pipeline can throw: a rejected `fetch`, a response that is not `ok`, or reading a
      field of a `null` record. All of them end the request with the generic 500 answer. */
  datatype Error = NetworkError | HttpStatus(status: int) | NullRecord

  /** A response of an outbound HTTP call, with its decoded JSON body. */
  datatype HttpReply<T> = HttpReply(status: int, body: T)

  /** `Response.ok`: a status in the range 200-299. */
  predicate IsOk(status: int)
  {
    200 <= status <= 299
  }

  /** `p.citationCount || 0` on a search hit. */
  function CandidateCites(p: Candidate): int
  {
    p.citationCount.GetOr(0)
  }

  /** The sort key of `(a, b) => (b.citationCount || 0) - (a.citationCount || 0)`: ascending
      on the negated count is descending on the count. */
  function CandidateCiteKey(p: Candidate): int
  {
    -CandidateCites(p)
  }

  /** The same comparator on hydrated papers, whose count is already defaulted. */
  function PaperCiteKey(p: Paper): int
  {
    -p.citationCount
  }

  /** `p.year || 0`: a missing year (and the year 0) sorts as 0. */
  function YearOrZero(year: Option<int>): int
  {
    year.GetOr(0)
  }
}
