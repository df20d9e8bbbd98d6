/** The in-memory vector store. */
module VectorStore {
  import opened OrderedDict
  import opened Ranking
  import opened Sequences
  import opened Similarity

  /** What a payload holds under a key: a string, or something that is none. */
  datatype Value = Null | Text(text: string) | Other(what: string)

  type Payload = map<string, Value>

  /** `payload.get(key)`. */
  function Get(p: Payload, key: string): Value { if key in p then p[key] else Null }

  datatype VectorRecord = VectorRecord(id: string, vector: seq<real>, payload: Payload)

  datatype VectorHit = VectorHit(id: string, score: real, payload: Payload)

  /** No filters at all are met by every payload. */
  predicate Matches(p: Payload, filters: map<string, Value>) {
    forall key :: key in filters ==> Get(p, key) == filters[key]
  }

  function MatchTest(filters: map<string, Value>): VectorRecord -> bool {
    (r: VectorRecord) => Matches(r.payload, filters)
  }

  function Scoring(query: seq<real>): VectorRecord -> VectorHit {
    (r: VectorRecord) => VectorHit(r.id, Cosine(query, r.vector), r.payload)
  }

  function ScoredAmong(rs: seq<VectorRecord>, query: seq<real>, filters: map<string, Value>): seq<VectorHit> {
    Picked(rs, MatchTest(filters), Scoring(query))
  }

  function VectorScore(): VectorHit -> real { (h: VectorHit) => h.score }

  function RecordKey(): VectorRecord -> string { (r: VectorRecord) => r.id }

  // ----- what a search promises, in plain terms -----

  /** The payload has what the filters ask for, and nothing where they ask for nothing. */
  ghost predicate MeetsAll(p: Payload, filters: map<string, Value>) {
    forall key :: key in filters ==> if key in p then p[key] == filters[key] else filters[key] == Null
  }

  ghost predicate IsHit(d: Dict<VectorRecord>, query: seq<real>, filters: map<string, Value>, h: VectorHit) {
    && h.id in d.at && MeetsAll(d.at[h.id].payload, filters)
    && h.payload == d.at[h.id].payload && h.score == PlainScore(query, d.at[h.id].vector)
  }

  ghost predicate Missing(d: Dict<VectorRecord>, filters: map<string, Value>, hits: seq<VectorHit>, id: string) {
    id in d.at && MeetsAll(d.at[id].payload, filters) && forall h :: h in hits ==> h.id != id
  }

  /** At most `limit` records that meet the filters, with their scores, best first, none twice; all of them if fewer
      came back; and no record left out scores better than one returned. */
  ghost predicate PlainHits(d: Dict<VectorRecord>, query: seq<real>, limit: nat, filters: map<string, Value>,
                            hits: seq<VectorHit>) {
    && |hits| <= limit
    && (forall h :: h in hits ==> IsHit(d, query, filters, h))
    && (forall i, j :: 0 <= i < j < |hits| ==> hits[i].id != hits[j].id && hits[i].score >= hits[j].score)
    && (forall id :: Missing(d, filters, hits, id) ==>
          |hits| == limit && forall h :: h in hits ==> h.score >= PlainScore(query, d.at[id].vector))
  }

  ghost predicate Comparable(d: Dict<VectorRecord>, query: seq<real>, a: string, b: string)
    requires a in d.at && b in d.at
  {
    && |query| == |d.at[a].vector| == |d.at[b].vector| && |query| > 0
    && SquaredNorm(d.at[a].vector) == SquaredNorm(d.at[b].vector)
  }

  /** Among vectors of equal norm no record left out is nearer to the query than one returned. */
  ghost predicate ReturnsNearest(d: Dict<VectorRecord>, query: seq<real>, filters: map<string, Value>,
                                 hits: seq<VectorHit>) {
    forall h, id :: h in hits && h.id in d.at && Missing(d, filters, hits, id) && Comparable(d, query, h.id, id)
      ==> SquaredDistance(query, d.at[h.id].vector) <= SquaredDistance(query, d.at[id].vector)
  }

  lemma ScoredAre(d: Dict<VectorRecord>, query: seq<real>, filters: map<string, Value>)
    requires d.Valid() && forall id :: id in d.at ==> d.at[id].id == id
    ensures forall h :: h in ScoredAmong(d.Values(), query, filters) <==> IsHit(d, query, filters, h)
    ensures var hs := ScoredAmong(d.Values(), query, filters);
            forall i, j :: 0 <= i < j < |hs| ==> hs[i].id != hs[j].id
  {
    var rs := d.Values();
    PickedAre(rs, MatchTest(filters), Scoring(query));
    var from := PickedFrom(rs, MatchTest(filters), Scoring(query));
    assert forall i :: 0 <= i < |rs| ==> d.order[i] in d.at && rs[i].id == d.order[i];
    forall h ensures h in ScoredAmong(rs, query, filters) <==> IsHit(d, query, filters, h) {
      ScoredIff(d, query, filters, h);
    }
  }

  lemma ScoredIff(d: Dict<VectorRecord>, query: seq<real>, filters: map<string, Value>, h: VectorHit)
    requires d.Valid() && forall id :: id in d.at ==> d.at[id].id == id
    ensures h in ScoredAmong(d.Values(), query, filters) <==> IsHit(d, query, filters, h)
  {
    PickedAre(d.Values(), MatchTest(filters), Scoring(query));
    if r :| r in d.Values() && MatchTest(filters)(r) && Scoring(query)(r) == h {
      ValuesOf(d, r);
      ScoreIsDistance(query, r.vector);
    }
    if IsHit(d, query, filters, h) {
      var r := d.at[h.id];
      ValuesOf(d, r);
      ScoreIsDistance(query, r.vector);
      assert MatchTest(filters)(r) && Scoring(query)(r) == h;
    }
  }

  lemma SortedMembers(all: seq<VectorHit>)
    ensures var sorted := SortDesc(all, VectorScore());
            && (forall h :: h in sorted <==> h in all)
            && (forall i, j :: 0 <= i < j < |sorted| ==> sorted[i].score >= sorted[j].score)
  {
    var sorted := SortDesc(all, VectorScore());
    SortDescSorts(all, VectorScore());
    forall h ensures h in sorted <==> h in all {
      assert (h in sorted <==> h in multiset(sorted)) && (h in all <==> h in multiset(all));
    }
    forall i, j | 0 <= i < j < |sorted| ensures sorted[i].score >= sorted[j].score {
      assert VectorScore()(sorted[i]) >= VectorScore()(sorted[j]);
    }
  }

  /** What a cut, ranked list leaves out scores no better. */
  lemma CutLeavesOut(sorted: seq<VectorHit>, limit: nat, x: VectorHit)
    requires forall i, j :: 0 <= i < j < |sorted| ==> sorted[i].score >= sorted[j].score
    requires x in sorted && x !in Slice(sorted, limit)
    ensures |Slice(sorted, limit)| == limit && forall h :: h in Slice(sorted, limit) ==> h.score >= x.score
  {
    var j :| 0 <= j < |sorted| && sorted[j] == x;
    var hits := Slice(sorted, limit);
    assert forall i :: 0 <= i < |hits| ==> hits[i] == sorted[i];
    assert j >= |hits|;
  }

  lemma HitsInPlainTerms(d: Dict<VectorRecord>, query: seq<real>, limit: nat, filters: map<string, Value>,
                         hits: seq<VectorHit>)
    requires d.Valid() && forall id :: id in d.at ==> d.at[id].id == id
    requires hits == Slice(SortDesc(ScoredAmong(d.Values(), query, filters), VectorScore()), limit)
    ensures PlainHits(d, query, limit, filters, hits)
  {
    var all := ScoredAmong(d.Values(), query, filters);
    var sorted := SortDesc(all, VectorScore());
    ScoredAre(d, query, filters);
    SortedMembers(all);
    SortDescSorts(all, VectorScore());
    SortedIdsDiffer(all, sorted);
    assert forall i :: 0 <= i < |hits| ==> hits[i] == sorted[i];
    forall id | Missing(d, filters, hits, id)
      ensures |hits| == limit && forall h :: h in hits ==> h.score >= PlainScore(query, d.at[id].vector)
    {
      var x := VectorHit(id, PlainScore(query, d.at[id].vector), d.at[id].payload);
      assert IsHit(d, query, filters, x);
      CutLeavesOut(sorted, limit, x);
    }
  }

  lemma SortedIdsDiffer(all: seq<VectorHit>, sorted: seq<VectorHit>)
    requires multiset(sorted) == multiset(all) && forall i, j :: 0 <= i < j < |all| ==> all[i].id != all[j].id
    ensures forall i, j :: 0 <= i < j < |sorted| ==> sorted[i].id != sorted[j].id
  {
    DistinctRearranged(all, sorted);
    forall i, j | 0 <= i < j < |sorted| ensures sorted[i].id != sorted[j].id {
      assert sorted[i] in multiset(all) && sorted[j] in multiset(all) && sorted[i] != sorted[j];
    }
  }

  lemma PlainHitsAreNearest(d: Dict<VectorRecord>, query: seq<real>, limit: nat, filters: map<string, Value>,
                            hits: seq<VectorHit>)
    requires PlainHits(d, query, limit, filters, hits)
    ensures ReturnsNearest(d, query, filters, hits)
  {
    forall h, id | h in hits && h.id in d.at && Missing(d, filters, hits, id) && Comparable(d, query, h.id, id)
      ensures SquaredDistance(query, d.at[h.id].vector) <= SquaredDistance(query, d.at[id].vector)
    {
      NearerScoresHigher(query, d.at[h.id].vector, d.at[id].vector);
    }
  }

  class InMemoryVectorStore {
    var records: Dict<VectorRecord>

    ghost predicate Valid()
      reads this
    {
      records.Valid() && forall id :: id in records.at ==> records.at[id].id == id
    }

    constructor ()
      ensures Valid() && records == Empty()
    {
      records := Empty();
    }

    method Upsert(rs: seq<VectorRecord>)
      requires Valid()
      modifies this
      ensures Valid() && records == PutAll(old(records), rs, RecordKey())
    {
      for i := 0 to |rs|
        invariant Valid() && records == PutAll(old(records), rs[..i], RecordKey())
      {
        assert rs[..i + 1][..i] == rs[..i];
        records := records.Put(rs[i].id, rs[i]);
      }
      assert rs[..|rs|] == rs;
    }

    method Delete(ids: seq<string>)
      requires Valid()
      modifies this
      ensures Valid() && records.at == old(records.at) - (set id | id in ids)
      ensures records.order == Where(old(records.order), Outside(set id | id in ids))
    {
      ghost var gone: set<string> := {};
      WhereAll(records.order, Outside(gone));
      for i := 0 to |ids|
        invariant gone == set id | id in ids[..i]
        invariant Valid() && records.at == old(records.at) - gone
        invariant records.order == Where(old(records.order), Outside(gone))
      {
        assert ids[..i + 1] == ids[..i] + [ids[i]];
        WhereTwice(old(records.order), Outside(gone), Outside({ids[i]}), Outside(gone + {ids[i]}));
        records := records.Remove(ids[i]);
        gone := gone + {ids[i]};
      }
      assert ids[..|ids|] == ids;
    }

    method Search(query: seq<real>, limit: int, filters: map<string, Value>) returns (hits: seq<VectorHit>)
      requires Valid()
      ensures hits == Slice(SortDesc(ScoredAmong(records.Values(), query, filters), VectorScore()), limit)
      ensures limit >= 0 ==>
                PlainHits(records, query, limit, filters, hits) && ReturnsNearest(records, query, filters, hits)
    {
      var results: seq<VectorHit> := [];
      var all := records.Values();
      for i := 0 to |all|
        invariant results == Picked(all[..i], MatchTest(filters), Scoring(query))
      {
        PickedNext(all, i, MatchTest(filters), Scoring(query));
        if Matches(all[i].payload, filters) {
          results := results + [VectorHit(all[i].id, Cosine(query, all[i].vector), all[i].payload)];
        }
      }
      assert all[..|all|] == all;
      hits := Slice(SortDesc(results, VectorScore()), limit);
      if limit >= 0 {
        HitsInPlainTerms(records, query, limit, filters, hits);
        PlainHitsAreNearest(records, query, limit, filters, hits);
      }
    }
  }
}
