/** The keyword, vector and hybrid searches. */
module RagService {
  import opened OrderedDict
  import opened PlainRetrieval
  import opened RagRecords
  import opened Ranking
  import opened Retrieval
  import opened Sequences
  import opened VectorStore

  /** `rows` stands for the visible chunks of a workspace, as a query returns them. */
  class RagService {
    const store: InMemoryVectorStore
    const embed: string -> seq<real>
    const digest: string -> string

    constructor (store: InMemoryVectorStore, embed: string -> seq<real>, digest: string -> string)
      ensures this.store == store && this.embed == embed && this.digest == digest
    {
      this.store, this.embed, this.digest := store, embed, digest;
    }

    method IndexChunks(rows: seq<ChunkRow>) returns (stamped: seq<ChunkRow>)
      requires store.Valid()
      modifies store
      ensures stamped == StampedRows(rows, digest)
      ensures store.Valid() && store.records == PutAll(old(store.records), RecordsOf(rows, embed, digest), RecordKey())
      ensures PlainIndex(store.records, rows, stamped, embed, digest)
    {
      ghost var before := store.records;
      var records: seq<VectorRecord> := [];
      stamped := [];
      for i := 0 to |rows|
        invariant records == RecordsOf(rows[..i], embed, digest)
        invariant |stamped| == i && forall k :: 0 <= k < i ==> stamped[k] == Stamped(rows[k], digest)
      {
        assert rows[..i + 1][..i] == rows[..i];
        records := records + [RecordOf(rows[i], embed, digest)];
        stamped := stamped + [Stamped(rows[i], digest)];
      }
      assert rows[..|rows|] == rows;
      if records != [] {
        store.Upsert(records);
      }
      IndexInPlainTerms(before, rows, embed, digest);
    }

    method KeywordSearch(rows: seq<ChunkRow>, keywordScore: ChunkRow -> real, limit: int) returns (hits: seq<SearchHit>)
      ensures hits == Top(KeywordHits(rows, keywordScore), limit)
      ensures limit >= 0 ==> PlainKeywords(rows, keywordScore, limit, hits)
    {
      var results: seq<SearchHit> := [];
      for i := 0 to |rows|
        invariant results == Picked(rows[..i], PositiveTest(keywordScore), KeywordHit(keywordScore))
      {
        PickedNext(rows, i, PositiveTest(keywordScore), KeywordHit(keywordScore));
        var score := keywordScore(rows[i]);
        if score > 0.0 {
          results := results + [SearchHit(rows[i].chunk, rows[i].document, rows[i].content, score, Row)];
        }
      }
      assert rows[..|rows|] == rows;
      hits := Top(results, limit);
      if limit >= 0 { KeywordsInPlainTerms(rows, keywordScore, limit); }
    }

    static method ConvertHits(found: seq<VectorHit>) returns (hits: seq<SearchHit>)
      ensures hits == HitsOf(found)
    {
      hits := [];
      for i := 0 to |found|
        invariant hits == HitsOf(found[..i])
      {
        assert found[..i + 1] == found[..i] + [found[i]];
        HitsOfLast(found[..i], found[i]);
        if Get(found[i].payload, CHUNK_ID).Text? && Get(found[i].payload, DOCUMENT_ID).Text? {
          hits := hits + [HitOf(found[i])];
        }
      }
      assert found[..|found|] == found;
    }

    method VectorSearch(rows: seq<ChunkRow>, query: string, workspace: string, limit: int)
      returns (hits: seq<SearchHit>)
      requires store.Valid()
      modifies store
      ensures store.Valid() && store.records == PutAll(old(store.records), RecordsOf(rows, embed, digest), RecordKey())
      ensures hits == HitsOf(Slice(SortDesc(ScoredAmong(store.records.Values(), embed(query), OfWorkspace(workspace)),
                                            VectorScore()), limit))
    {
      var _ := IndexChunks(rows);
      var found := store.Search(embed(query), limit, OfWorkspace(workspace));
      hits := ConvertHits(found);
    }

    static method MergeKeyword(keywordHits: seq<SearchHit>) returns (merged: Dict<SearchHit>)
      ensures merged == PutKeyword(keywordHits)
    {
      merged := Empty();
      for i := 0 to |keywordHits|
        invariant merged == PutKeyword(keywordHits[..i])
      {
        var result := keywordHits[i];
        assert keywordHits[..i + 1][..i] == keywordHits[..i];
        merged := merged.Put(result.chunk, Boosted(result));
      }
      assert keywordHits[..|keywordHits|] == keywordHits;
    }

    static method MergeVector(boosted: Dict<SearchHit>, vectorHits: seq<SearchHit>) returns (merged: Dict<SearchHit>)
      requires boosted.Valid() && forall c :: c in boosted.at ==> boosted.at[c].chunk == c
      ensures merged == PutVector(boosted, vectorHits)
    {
      merged := boosted;
      for i := 0 to |vectorHits|
        invariant merged == PutVector(boosted, vectorHits[..i])
      {
        assert vectorHits[..i + 1][..i] == vectorHits[..i];
        var result := vectorHits[i];
        assert PutVector(boosted, vectorHits[..i + 1]) == Raise(merged, result);
        if result.chunk !in merged.at || result.score > merged.at[result.chunk].score {
          merged := merged.Put(result.chunk, result.(origin := Vector));
        }
      }
      assert vectorHits[..|vectorHits|] == vectorHits;
    }

    /** Keyword and vector hits merged by chunk, the better score winning; a tie keeps the keyword hit.
        `rows` and `indexed` are the same chunks as two queries return them, newest first and in any order. */
    method HybridSearch(rows: seq<ChunkRow>, indexed: seq<ChunkRow>, keywordScore: ChunkRow -> real, query: string,
                        workspace: string, limit: int, ghost key: string -> string)
      returns (hits: seq<SearchHit>)
      requires store.Valid()
      modifies store
      ensures store.Valid()
      ensures store.records == PutAll(old(store.records), RecordsOf(indexed, embed, digest), RecordKey())
      // one record a chunk is kept up, and then nothing is lost by cutting the two lists first
      ensures old(WellKeyed(store.records, key)) && RowsKeyed(indexed, digest, key) ==> WellKeyed(store.records, key)
      ensures WellKeyed(store.records, key) ==>
                hits == Hybrid(KeywordHits(rows, keywordScore), StoreHits(store.records, embed(query), workspace),
                               limit)
      ensures WellKeyed(store.records, key) && DistinctRows(rows) && limit >= 0 ==>
                Lossless(hits, KeywordHits(rows, keywordScore), StoreHits(store.records, embed(query), workspace),
                         limit)
      ensures WellKeyed(store.records, key) && DistinctRows(rows) && limit >= 0 ==>
                PlainHybrid(PlainRetrieval.Search(rows, keywordScore, store.records, embed(query), workspace), limit,
                            hits)
    {
      var keywordHits := KeywordSearch(rows, keywordScore, limit);
      var merged := MergeKeyword(keywordHits);
      var vectorHits := VectorSearch(indexed, query, workspace, limit);
      merged := MergeVector(merged, vectorHits);
      hits := Top(merged.Values(), limit);
      HybridPromise(old(store.records), store.records, rows, indexed, keywordScore, query, workspace, limit, key, hits);
    }

    lemma HybridPromise(before: Dict<VectorRecord>, after: Dict<VectorRecord>, rows: seq<ChunkRow>,
                        indexed: seq<ChunkRow>, keywordScore: ChunkRow -> real, query: string, workspace: string,
                        limit: int, key: string -> string, hits: seq<SearchHit>)
      requires before.Valid() && after.Valid()
      requires after == PutAll(before, RecordsOf(indexed, embed, digest), RecordKey())
      requires var found := SortDesc(ScoredAmong(after.Values(), embed(query), OfWorkspace(workspace)), VectorScore());
               var keyword := Top(KeywordHits(rows, keywordScore), limit);
               hits == Top(Fuse(keyword, HitsOf(Slice(found, limit))).Values(), limit)
      ensures WellKeyed(before, key) && RowsKeyed(indexed, digest, key) ==> WellKeyed(after, key)
      ensures WellKeyed(after, key) ==>
                hits == Hybrid(KeywordHits(rows, keywordScore), StoreHits(after, embed(query), workspace), limit)
      ensures WellKeyed(after, key) && DistinctRows(rows) && limit >= 0 ==>
                Lossless(hits, KeywordHits(rows, keywordScore), StoreHits(after, embed(query), workspace), limit)
      ensures WellKeyed(after, key) && DistinctRows(rows) && limit >= 0 ==>
                PlainHybrid(PlainRetrieval.Search(rows, keywordScore, after, embed(query), workspace), limit, hits)
    {
      if WellKeyed(before, key) && RowsKeyed(indexed, digest, key) {
        RowsKeyedRecords(indexed, embed, digest, key);
        UpsertKeepsKeys(before, RecordsOf(indexed, embed, digest), key);
      }
      if WellKeyed(after, key) {
        var scored := ScoredAmong(after.Values(), embed(query), OfWorkspace(workspace));
        WellKeyedScores(after, key, embed(query), OfWorkspace(workspace));
        VectorTop(scored, limit);
        if DistinctRows(rows) && limit >= 0 {
          KeywordHitsOf(rows, keywordScore);
          TruncationLossless(KeywordHits(rows, keywordScore), HitsOf(scored), limit);
          HybridInPlainTerms(PlainRetrieval.Search(rows, keywordScore, after, embed(query), workspace), key, limit,
                             hits);
        }
      }
    }
  }
}
