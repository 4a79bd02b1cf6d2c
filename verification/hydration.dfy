/** `hydratePapers`: the shortlisted ids are sent to the batch-detail endpoint in chunks of at
    most 500, and every returned record is normalised with defaults. The endpoint is a function
    parameter (an oracle from a chunk of ids to the HTTP reply, or to the error a failed `fetch`
    throws); the pacing sleep before each request has no effect on the result and is not modelled. */
module Hydration {
  import opened Wrappers
  import opened Papers
  import opened Seqs

  /** The service's per-request batch limit, `CHUNK`. */
  const CHUNK: nat := 500

  /** Prefix of the canonical paper page used when a record has no URL. */
  const PAPER_PAGE: string := "https://www.semanticscholar.org/paper/"

  /** The batch endpoint: a chunk of ids to its reply, whose body holds one record or `null`
      per id. */
  type BatchFetch = seq<PaperId> -> Result<HttpReply<seq<Option<RawPaper>>>, Error>

  /** The chunks `ids.slice(i, i + CHUNK)` for `i = 0, CHUNK, 2 * CHUNK, ...` below `|ids|`. */
  function Chunks(ids: seq<PaperId>): seq<seq<PaperId>>
    decreases |ids|
  {
    if ids == [] then [] else [Take(ids, CHUNK)] + Chunks(ids[|Take(ids, CHUNK)|..])
  }

  /** The chunks cover `ids` in order. */
  lemma {:induction false} ChunksCover(ids: seq<PaperId>)
    ensures Flatten(Chunks(ids)) == ids
    decreases |ids|
  {
    if ids != [] {
      var head := Take(ids, CHUNK);
      var rest := ids[|head|..];
      ChunksCover(rest);
      FlattenCons(head, Chunks(rest));
      assert ids == head + rest;
    }
  }

  /** Every chunk holds 1 to `CHUNK` ids. */
  lemma {:induction false} ChunksSized(ids: seq<PaperId>)
    ensures forall c :: c in Chunks(ids) ==> 0 < |c| <= CHUNK
    decreases |ids|
  {
    if ids != [] {
      var head := Take(ids, CHUNK);
      ChunksSized(ids[|head|..]);
    }
  }

  /** There are `ceil(|ids| / CHUNK)` chunks. */
  lemma {:induction false} ChunksCount(ids: seq<PaperId>)
    ensures |Chunks(ids)| == (|ids| + CHUNK - 1) / CHUNK
    decreases |ids|
  {
    if ids != [] {
      var head := Take(ids, CHUNK);
      ChunksCount(ids[|head|..]);
    }
  }

  /** The record built for one returned paper: `year ?? null`, `venue ?? null`,
      `abstract || ""`, `citationCount || 0`, author names only, and the canonical page
      when the URL is missing or empty. */
  function Normalize(raw: RawPaper): (p: Paper)
    ensures p.id == raw.paperId && p.title == raw.title
    ensures p.year == raw.year && p.venue == raw.venue
    ensures p.abstractText == raw.abstractText.GetOr("")
    ensures p.citationCount == raw.citationCount.GetOr(0)
    ensures var authors := raw.authors.GetOr([]);
      |p.authors| == |authors| && forall i :: 0 <= i < |authors| ==> p.authors[i] == authors[i].name
    ensures p.url != ""
    ensures raw.url.Some? && raw.url.value != "" ==> p.url == raw.url.value
    ensures raw.url.None? || raw.url.value == "" ==> p.url == PAPER_PAGE + raw.paperId
  {
    var authors := raw.authors.GetOr([]);
    Paper(
      raw.paperId,
      raw.title,
      raw.year,
      raw.venue,
      raw.abstractText.GetOr(""),
      raw.citationCount.GetOr(0),
      seq(|authors|, i requires 0 <= i < |authors| => authors[i].name),
      if raw.url.Some? && raw.url.value != "" then raw.url.value else PAPER_PAGE + raw.paperId)
  }

  /** The records of one reply, normalised in order; reading `paperId` of a `null` entry throws. */
  function NormalizeAll(body: seq<Option<RawPaper>>): (r: Result<seq<Paper>, Error>)
    ensures r.Success? <==> forall k :: 0 <= k < |body| ==> body[k].Some?
    ensures r.Success? ==> |r.value| == |body| && forall k :: 0 <= k < |body| ==> r.value[k] == Normalize(body[k].value)
    ensures r.Failure? ==> r.error == NullRecord
  {
    if body == [] then Success([])
    else
      var rest := NormalizeAll(body[1..]);
      assert forall k :: 0 < k < |body| ==> body[k] == body[1..][k - 1];
      match body[0]
      case None => Failure(NullRecord)
      case Some(raw) =>
        if rest.Failure? then rest else Success([Normalize(raw)] + rest.value)
  }

  /** One batch request: a rejected `fetch` or a reply that is not `ok` fails the hydration. */
  function FetchChunk(chunk: seq<PaperId>, batch: BatchFetch): (r: Result<seq<Paper>, Error>)
  {
    match batch(chunk)
    case Failure(e) => Failure(e)
    case Success(reply) =>
      if !IsOk(reply.status) then Failure(HttpStatus(reply.status)) else NormalizeAll(reply.body)
  }

  /** The chunks fetched one after the other; the first failure discards everything. */
  function FetchAll(chunks: seq<seq<PaperId>>, batch: BatchFetch): (r: Result<seq<Paper>, Error>)
  {
    if chunks == [] then Success([])
    else
      match FetchChunk(chunks[0], batch)
      case Failure(e) => Failure(e)
      case Success(ps) =>
        match FetchAll(chunks[1..], batch)
        case Failure(e) => Failure(e)
        case Success(rest) => Success(ps + rest)
  }

  /** What hydratePapers returns or throws. */
  function Hydrate(ids: seq<PaperId>, batch: BatchFetch): Result<seq<Paper>, Error>
  {
    FetchAll(Chunks(ids), batch)
  }

  /** An empty id list needs no request and gives no papers. */
  lemma HydrateEmpty(batch: BatchFetch)
    ensures Hydrate([], batch) == Success([])
  {
  }

  /** The records of the replies to the chunks, one part per chunk (meaningful when all succeed). */
  function Parts(chunks: seq<seq<PaperId>>, batch: BatchFetch): (ps: seq<seq<Paper>>)
    ensures |ps| == |chunks|
    ensures forall i :: 0 <= i < |chunks| && FetchChunk(chunks[i], batch).Success? ==>
      ps[i] == FetchChunk(chunks[i], batch).value
  {
    if chunks == [] then []
    else
      var head := FetchChunk(chunks[0], batch);
      [if head.Success? then head.value else []] + Parts(chunks[1..], batch)
  }

  /** Hydration succeeds exactly when the request for every chunk does. */
  lemma {:induction false} FetchAllSucceeds(chunks: seq<seq<PaperId>>, batch: BatchFetch)
    ensures FetchAll(chunks, batch).Success? <==> forall k :: 0 <= k < |chunks| ==> FetchChunk(chunks[k], batch).Success?
  {
    if chunks != [] {
      var tail := chunks[1..];
      FetchAllSucceeds(tail, batch);
      assert forall k :: 0 < k < |chunks| ==> chunks[k] == tail[k - 1];
    }
  }

  /** A successful hydration holds, in order, the normalised records of the replies to all
      chunks. */
  lemma {:induction false} FetchAllRecords(chunks: seq<seq<PaperId>>, batch: BatchFetch)
    requires FetchAll(chunks, batch).Success?
    ensures FetchAll(chunks, batch).value == Flatten(Parts(chunks, batch))
  {
    if chunks != [] {
      var tail := chunks[1..];
      var head := FetchChunk(chunks[0], batch).value;
      var rest := FetchAll(tail, batch);
      assert rest.Success? && FetchAll(chunks, batch).value == head + rest.value;
      FetchAllRecords(tail, batch);
      assert Parts(chunks, batch) == [head] + Parts(tail, batch);
      FlattenCons(head, Parts(tail, batch));
    }
  }

  /** A failed hydration carries the error of the first chunk that failed. */
  lemma {:induction false} FetchAllFailure(chunks: seq<seq<PaperId>>, batch: BatchFetch)
    requires FetchAll(chunks, batch).Failure?
    ensures exists k :: 0 <= k < |chunks| && FetchChunk(chunks[k], batch) == Failure(FetchAll(chunks, batch).error)
                        && forall j :: 0 <= j < k ==> FetchChunk(chunks[j], batch).Success?
  {
    var e := FetchAll(chunks, batch).error;
    if FetchChunk(chunks[0], batch).Success? {
      FetchAllFailure(chunks[1..], batch);
      var k :| 0 <= k < |chunks| - 1 && FetchChunk(chunks[1..][k], batch) == Failure(e)
                && forall j :: 0 <= j < k ==> FetchChunk(chunks[1..][j], batch).Success?;
      assert FetchChunk(chunks[k + 1], batch) == Failure(e);
      forall j | 0 < j < k + 1
        ensures FetchChunk(chunks[j], batch).Success?
      {
        assert chunks[j] == chunks[1..][j - 1];
      }
    }
  }

  lemma ChunksStep(ids: seq<PaperId>, i: nat)
    requires i < |ids|
    ensures var j := if i + CHUNK < |ids| then i + CHUNK else |ids|;
      Chunks(ids[i..]) == [ids[i..j]] + Chunks(ids[j..])
  {
    var j := if i + CHUNK < |ids| then i + CHUNK else |ids|;
    assert Take(ids[i..], CHUNK) == ids[i..j];
    assert ids[i..][j - i..] == ids[j..];
  }

  /** `out` followed by what `r` holds, or the error of `r`. */
  function Prepend(out: seq<Paper>, r: Result<seq<Paper>, Error>): Result<seq<Paper>, Error>
  {
    match r
    case Failure(e) => Failure(e)
    case Success(rest) => Success(out + rest)
  }

  /** Fetching one more chunk, seen from the records gathered so far. */
  lemma PrependStep(out: seq<Paper>, chunk: seq<PaperId>, rest: seq<seq<PaperId>>, batch: BatchFetch)
    ensures var c := FetchChunk(chunk, batch);
      Prepend(out, FetchAll([chunk] + rest, batch)) ==
        if c.Failure? then Failure(c.error) else Prepend(out + c.value, FetchAll(rest, batch))
  {
    assert ([chunk] + rest)[1..] == rest;
    var c := FetchChunk(chunk, batch);
    var more := FetchAll(rest, batch);
    if c.Success? && more.Success? {
      assert out + (c.value + more.value) == (out + c.value) + more.value;
    }
  }

  /** The inner loop of hydratePapers: push the normalised records of one reply onto `out`. */
  method PushRecords(out: seq<Paper>, body: seq<Option<RawPaper>>) returns (r: Result<seq<Paper>, Error>)
    ensures r == Prepend(out, NormalizeAll(body))
  {
    var acc := out;
    assert body[0..] == body;
    for k := 0 to |body|
      invariant Prepend(out, NormalizeAll(body)) == Prepend(acc, NormalizeAll(body[k..]))
    {
      assert body[k..][1..] == body[k + 1..];
      if body[k].None? {
        return Failure(NullRecord);
      }
      var rest := NormalizeAll(body[k + 1..]);
      if rest.Success? {
        assert acc + ([Normalize(body[k].value)] + rest.value) == (acc + [Normalize(body[k].value)]) + rest.value;
      }
      acc := acc + [Normalize(body[k].value)];
    }
    assert body[|body|..] == [] && acc + [] == acc;
    return Success(acc);
  }

  /** hydratePapers: nothing is requested for no ids; otherwise the chunks are requested in
      order until one fails, and the result is the normalised records of all replies. */
  method HydratePapers(ids: seq<PaperId>, batch: BatchFetch) returns (r: Result<seq<Paper>, Error>, sent: seq<seq<PaperId>>)
    ensures r == Hydrate(ids, batch)
    ensures ids == [] ==> sent == [] && r == Success([])
    ensures |sent| <= |Chunks(ids)| && sent == Chunks(ids)[..|sent|]
    ensures r.Success? ==> sent == Chunks(ids)
    ensures r.Failure? ==> sent != [] && FetchChunk(sent[|sent| - 1], batch) == Failure(r.error)
  {
    sent := [];
    if |ids| == 0 {
      return Success([]), sent;
    }
    var out: seq<Paper> := [];
    var i := 0;
    assert ids[0..] == ids;
    assert Prepend(out, Hydrate(ids, batch)) == Hydrate(ids, batch) by {
      var h := Hydrate(ids, batch);
      if h.Success? {
        assert out + h.value == h.value;
      }
    }
    while i < |ids|
      invariant 0 <= i
      invariant i > |ids| ==> i - CHUNK < |ids|
      invariant var m := if i < |ids| then i else |ids|;
        && sent + Chunks(ids[m..]) == Chunks(ids)
        && Hydrate(ids, batch) == Prepend(out, FetchAll(Chunks(ids[m..]), batch))
      decreases |ids| - i
    {
      var j := if i + CHUNK < |ids| then i + CHUNK else |ids|;
      var chunk := ids[i..j];
      ChunksStep(ids, i);
      PrependStep(out, chunk, Chunks(ids[j..]), batch);
      sent := sent + [chunk];
      assert sent + Chunks(ids[j..]) == Chunks(ids);
      var reply := batch(chunk);
      if reply.Failure? {
        return Failure(reply.error), sent;
      }
      if !IsOk(reply.value.status) {
        return Failure(HttpStatus(reply.value.status)), sent;
      }
      var pushed := PushRecords(out, reply.value.body);
      if pushed.Failure? {
        return pushed, sent;
      }
      out := pushed.value;
      i := i + CHUNK;
    }
    assert ids[|ids|..] == [] && out + [] == out;
    r := Success(out);
  }
}
