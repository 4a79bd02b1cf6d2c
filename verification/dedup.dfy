/** Deduplication of the merged search hits by `paperId`, through a JavaScript `Map`:
    `Array.from(new Map(rows.map(p => [p.paperId, p])).values())`. */
module Dedup {
  import opened Papers
  import opened Seqs

  function Ids(rows: seq<Candidate>): (ids: seq<PaperId>)
    ensures |ids| == |rows|
    ensures forall i :: 0 <= i < |rows| ==> ids[i] == rows[i].paperId
  {
    seq(|rows|, i requires 0 <= i < |rows| => rows[i].paperId)
  }

  /** `Map.prototype.set` on the entries in insertion order: a key already present keeps its
      place and takes the new value; a new key goes last. */
  function MapSet(entries: seq<Candidate>, p: Candidate): (r: seq<Candidate>)
    ensures Ids(r) == if p.paperId in Ids(entries) then Ids(entries) else Ids(entries) + [p.paperId]
  {
    if entries == [] then [p]
    else if entries[0].paperId == p.paperId then [p] + entries[1..]
    else
      assert Ids(entries) == [entries[0].paperId] + Ids(entries[1..]);
      [entries[0]] + MapSet(entries[1..], p)
  }

  /** The `Map` built by inserting every row in order, read back as its values. */
  function DedupById(rows: seq<Candidate>): seq<Candidate>
  {
    if rows == [] then [] else MapSet(DedupById(rows[..|rows| - 1]), rows[|rows| - 1])
  }

  /** The last row of `rows` whose id is `id`. */
  function LastWithId(rows: seq<Candidate>, id: PaperId): (p: Candidate)
    requires id in Ids(rows)
    ensures p in rows && p.paperId == id
  {
    var n := |rows| - 1;
    if rows[n].paperId == id then rows[n]
    else
      assert Ids(rows[..n]) == Ids(rows)[..n];
      LastWithId(rows[..n], id)
  }

  /** With distinct keys, `set` overwrites the one entry with the key and no other. */
  lemma {:induction false} MapSetValues(entries: seq<Candidate>, p: Candidate, i: nat)
    requires UniqueKeys(entries)
    requires i < |entries|
    ensures MapSet(entries, p)[i] == if entries[i].paperId == p.paperId then p else entries[i]
  {
    if entries[0].paperId != p.paperId && i > 0 {
      MapSetValues(entries[1..], p, i - 1);
    }
  }

  lemma {:induction false} MapSetNew(entries: seq<Candidate>, p: Candidate)
    requires p.paperId !in Ids(entries)
    ensures MapSet(entries, p) == entries + [p]
  {
    if entries != [] {
      assert Ids(entries)[0] == entries[0].paperId;
      assert Ids(entries[1..]) == Ids(entries)[1..];
      MapSetNew(entries[1..], p);
    }
  }

  /** The last occurrence in `init + [x]`: `x` for its own id, otherwise the one in `init`. */
  lemma LastWithIdSnoc(init: seq<Candidate>, x: Candidate, id: PaperId)
    requires id == x.paperId || id in Ids(init)
    ensures Ids(init + [x]) == Ids(init) + [x.paperId]
    ensures LastWithId(init + [x], id) == if id == x.paperId then x else LastWithId(init, id)
  {
    var rows := init + [x];
    assert rows[..|rows| - 1] == init;
  }

  /** Deduplication: each id once, ids in the order of their first occurrence, each with the
      record of its last occurrence. */
  lemma {:induction false} DedupByIdSpec(rows: seq<Candidate>)
    ensures var r := DedupById(rows);
      && Ids(r) == Distinct(Ids(rows))
      && (forall i :: 0 <= i < |r| ==> r[i].paperId in Ids(rows) && r[i] == LastWithId(rows, r[i].paperId))
  {
    if rows != [] {
      var n := |rows| - 1;
      var init, x := rows[..n], rows[n];
      assert rows == init + [x];
      DedupByIdSpec(init);
      var prev := DedupById(init);
      var r := DedupById(rows);
      assert r == MapSet(prev, x);
      LastWithIdSnoc(init, x, x.paperId);
      DistinctSnoc(Ids(init), x.paperId);
      assert Ids(r) == Distinct(Ids(rows));
      forall i | 0 <= i < |r|
        ensures r[i].paperId in Ids(rows) && r[i] == LastWithId(rows, r[i].paperId)
      {
        DedupStep(init, prev, x, i);
      }
    }
  }

  /** No two entries share an id. */
  ghost predicate UniqueKeys(entries: seq<Candidate>)
  {
    forall j, k :: 0 <= j < k < |entries| ==> entries[j].paperId != entries[k].paperId
  }

  lemma DistinctIdsUnique(entries: seq<Candidate>, ids: seq<PaperId>)
    requires Ids(entries) == Distinct(ids)
    ensures UniqueKeys(entries)
  {
    forall j, k | 0 <= j < k < |entries|
      ensures entries[j].paperId != entries[k].paperId
    {
      assert Ids(entries)[j] == entries[j].paperId && Ids(entries)[k] == entries[k].paperId;
    }
  }

  /** One insertion step of the deduplication, for one entry. */
  lemma DedupStep(init: seq<Candidate>, prev: seq<Candidate>, x: Candidate, i: nat)
    requires Ids(prev) == Distinct(Ids(init))
    requires forall k :: 0 <= k < |prev| ==> prev[k].paperId in Ids(init) && prev[k] == LastWithId(init, prev[k].paperId)
    requires i < |MapSet(prev, x)|
    ensures var r := MapSet(prev, x);
      r[i].paperId in Ids(init + [x]) && r[i] == LastWithId(init + [x], r[i].paperId)
  {
    var r := MapSet(prev, x);
    if i < |prev| {
      DistinctIdsUnique(prev, Ids(init));
      MapSetValues(prev, x, i);
      LastWithIdSnoc(init, x, prev[i].paperId);
    } else {
      assert x.paperId !in Ids(prev) by {
        assert |Ids(r)| == |r| > |prev| == |Ids(prev)|;
      }
      MapSetNew(prev, x);
      LastWithIdSnoc(init, x, x.paperId);
    }
  }

  /** After deduplication every id appears exactly once. */
  lemma UniqueIds(rows: seq<Candidate>)
    ensures UniqueKeys(DedupById(rows))
  {
    DedupByIdSpec(rows);
    DistinctIdsUnique(DedupById(rows), Ids(rows));
  }

  /** Every input id survives deduplication. */
  lemma KeepsEveryId(rows: seq<Candidate>)
    ensures forall p :: p in rows ==> exists q :: q in DedupById(rows) && q.paperId == p.paperId
  {
    var r := DedupById(rows);
    assert Ids(r) == Distinct(Ids(rows)) by {
      DedupByIdSpec(rows);
    }
    forall p | p in rows
      ensures exists q :: q in r && q.paperId == p.paperId
    {
      var k :| 0 <= k < |rows| && rows[k] == p;
      assert Ids(rows)[k] == p.paperId;
      assert p.paperId in Ids(r);
      var i :| 0 <= i < |r| && Ids(r)[i] == p.paperId;
      assert r[i] in r;
    }
  }

  /** Every deduplicated record is one of the input rows. */
  lemma KeepsOnlyRows(rows: seq<Candidate>)
    ensures forall q :: q in DedupById(rows) ==> q in rows
  {
    var r := DedupById(rows);
    assert forall i :: 0 <= i < |r| ==> r[i] == LastWithId(rows, r[i].paperId) by {
      DedupByIdSpec(rows);
    }
    forall q | q in r
      ensures q in rows
    {
      var i :| 0 <= i < |r| && r[i] == q;
    }
  }
}
