/** Chunk rows, the vector records indexed for them, and the hits that searches make of both. */
module RagRecords {
  import opened OrderedDict
  import opened Ranking
  import opened Retrieval
  import opened Sequences
  import opened VectorStore

  const WORKSPACE_ID := "workspace_id"
  const CHUNK_ID := "chunk_id"
  const DOCUMENT_ID := "document_id"
  const CONTENT := "content"

  datatype ChunkRow = ChunkRow(chunk: string, document: string, workspace: string, content: string,
                               vectorId: Option<string>)

  function OfWorkspace(workspace: string): map<string, Value> { map[WORKSPACE_ID := Text(workspace)] }

  predicate IsUsable(p: Payload) { Get(p, CHUNK_ID).Text? && Get(p, DOCUMENT_ID).Text? }

  function HitOf(v: VectorHit): SearchHit
    requires IsUsable(v.payload)
  {
    var content := Get(v.payload, CONTENT);
    var text := if content.Text? then content.text else "";
    SearchHit(Get(v.payload, CHUNK_ID).text, Get(v.payload, DOCUMENT_ID).text, text, v.score, Vector)
  }

  /** Hits whose payload lacks a chunk or document id are skipped. */
  function HitsOf(vs: seq<VectorHit>): seq<SearchHit> {
    if vs == [] then []
    else (if IsUsable(vs[0].payload) then [HitOf(vs[0])] else []) + HitsOf(vs[1..])
  }

  lemma {:induction false} HitsOfLast(vs: seq<VectorHit>, v: VectorHit)
    ensures HitsOf(vs + [v]) == HitsOf(vs) + if IsUsable(v.payload) then [HitOf(v)] else []
  {
    if vs == [] {
      assert vs + [v] == [v];
    } else {
      HitsOfLast(vs[1..], v);
      assert (vs + [v])[1..] == vs[1..] + [v];
    }
  }

  /** All hits of the store for a workspace, unranked. */
  function StoreHits(d: Dict<VectorRecord>, query: seq<real>, workspace: string): seq<SearchHit>
    requires d.Valid()
  {
    HitsOf(ScoredAmong(d.Values(), query, OfWorkspace(workspace)))
  }

  /** The store holds one usable record a chunk, under the chunk's own vector id. */
  ghost predicate WellKeyed(d: Dict<VectorRecord>, key: string -> string) {
    && d.Valid()
    && forall id :: id in d.at ==>
         d.at[id].id == id && IsUsable(d.at[id].payload) && key(Get(d.at[id].payload, CHUNK_ID).text) == id
  }

  ghost predicate RecordsKeyed(rs: seq<VectorRecord>, key: string -> string) {
    forall i :: 0 <= i < |rs| ==> IsUsable(rs[i].payload) && rs[i].id == key(Get(rs[i].payload, CHUNK_ID).text)
  }

  lemma {:induction false} UpsertKeepsKeys(d: Dict<VectorRecord>, rs: seq<VectorRecord>, key: string -> string)
    requires WellKeyed(d, key) && RecordsKeyed(rs, key)
    ensures WellKeyed(PutAll(d, rs, RecordKey()), key)
  {
    if rs != [] {
      assert RecordsKeyed(rs[..|rs| - 1], key) by {
        assert forall i :: 0 <= i < |rs| - 1 ==> rs[..|rs| - 1][i] == rs[i];
      }
      UpsertKeepsKeys(d, rs[..|rs| - 1], key);
    }
  }

  ghost predicate OneUsable(vs: seq<VectorHit>) {
    && (forall i :: 0 <= i < |vs| ==> IsUsable(vs[i].payload))
    && (forall i, j :: 0 <= i < j < |vs| ==> Get(vs[i].payload, CHUNK_ID) != Get(vs[j].payload, CHUNK_ID))
  }

  lemma ScoredOneUsable(rs: seq<VectorRecord>, query: seq<real>, filters: map<string, Value>)
    requires forall i :: 0 <= i < |rs| ==> IsUsable(rs[i].payload)
    requires forall i, j :: 0 <= i < j < |rs| ==> Get(rs[i].payload, CHUNK_ID) != Get(rs[j].payload, CHUNK_ID)
    ensures OneUsable(ScoredAmong(rs, query, filters))
  {
    var at := PickedFrom(rs, MatchTest(filters), Scoring(query));
    var hs := ScoredAmong(rs, query, filters);
    assert forall i :: 0 <= i < |hs| ==> hs[i].payload == rs[at[i]].payload;
  }

  lemma WellKeyedScores(d: Dict<VectorRecord>, key: string -> string, query: seq<real>, filters: map<string, Value>)
    requires WellKeyed(d, key)
    ensures OneUsable(ScoredAmong(d.Values(), query, filters))
  {
    var rs := d.Values();
    forall i, j | 0 <= i < j < |rs| ensures Get(rs[i].payload, CHUNK_ID) != Get(rs[j].payload, CHUNK_ID) {
      assert d.order[i] in d.at && d.order[j] in d.at;
    }
    assert forall i :: 0 <= i < |rs| ==> d.order[i] in d.at;
    ScoredOneUsable(rs, query, filters);
  }

  lemma {:induction false} HitsOfUsable(vs: seq<VectorHit>)
    requires forall i :: 0 <= i < |vs| ==> IsUsable(vs[i].payload)
    ensures |HitsOf(vs)| == |vs| && forall i :: 0 <= i < |vs| ==> HitsOf(vs)[i] == HitOf(vs[i])
  {
    if vs != [] { HitsOfUsable(vs[1..]); }
  }

  ghost predicate AllUsable(vs: seq<VectorHit>) { forall v :: v in vs ==> IsUsable(v.payload) }

  /** Dropping unusable payloads after the cut loses nothing when there are none. */
  lemma {:induction false} SortThenConvert(vs: seq<VectorHit>)
    requires AllUsable(vs)
    ensures HitsOf(SortDesc(vs, VectorScore())) == SortDesc(HitsOf(vs), Score())
    ensures AllUsable(SortDesc(vs, VectorScore()))
  {
    SortDescSorts(vs, VectorScore());
    assert forall v :: v in SortDesc(vs, VectorScore()) ==> v in multiset(vs);
    if vs != [] {
      SortThenConvert(vs[1..]);
      InsertThenConvert(vs[0], SortDesc(vs[1..], VectorScore()));
      assert HitsOf(vs) == [HitOf(vs[0])] + HitsOf(vs[1..]);
    }
  }

  lemma {:induction false} InsertThenConvert(v: VectorHit, vs: seq<VectorHit>)
    requires IsUsable(v.payload) && AllUsable(vs)
    ensures HitsOf(Insert(v, vs, VectorScore())) == Insert(HitOf(v), HitsOf(vs), Score())
  {
    if vs == [] || vs[0].score <= v.score {
      assert ([v] + vs)[1..] == vs;
    } else {
      InsertThenConvert(v, vs[1..]);
      assert ([vs[0]] + Insert(v, vs[1..], VectorScore()))[1..] == Insert(v, vs[1..], VectorScore());
      assert HitsOf(vs)[1..] == HitsOf(vs[1..]);
    }
  }

  /** So the vector half of the hybrid search is the plain top of its hits. */
  lemma VectorTop(vs: seq<VectorHit>, limit: int)
    requires OneUsable(vs)
    ensures HitsOf(Slice(SortDesc(vs, VectorScore()), limit)) == Top(HitsOf(vs), limit)
    ensures OnePerChunk(HitsOf(vs))
  {
    var sorted := SortDesc(vs, VectorScore());
    SortThenConvert(vs);
    HitsOfUsable(vs);
    HitsOfUsable(sorted);
    HitsOfUsable(Slice(sorted, limit));
    assert |HitsOf(sorted)| == |sorted|;
  }

  /** `chunk.vector_id or self._vector_id(chunk.id)`. */
  function VectorIdOf(row: ChunkRow, digest: string -> string): string {
    if row.vectorId.Some? && row.vectorId.value != "" then row.vectorId.value else digest(row.chunk)
  }

  function RecordOf(row: ChunkRow, embed: string -> seq<real>, digest: string -> string): VectorRecord {
    VectorRecord(VectorIdOf(row, digest), embed(row.content),
                 map[WORKSPACE_ID := Text(row.workspace), CHUNK_ID := Text(row.chunk), DOCUMENT_ID :=
                       Text(row.document),
                     CONTENT := Text(row.content)])
  }

  function RecordsOf(rows: seq<ChunkRow>, embed: string -> seq<real>, digest: string -> string): seq<VectorRecord> {
    if rows == [] then []
    else RecordsOf(rows[..|rows| - 1], embed, digest) + [RecordOf(rows[|rows| - 1], embed, digest)]
  }

  /** The row after indexing: it keeps the vector id it was indexed under. */
  function Stamped(row: ChunkRow, digest: string -> string): ChunkRow {
    row.(vectorId := Some(VectorIdOf(row, digest)))
  }

  function StampedRows(rows: seq<ChunkRow>, digest: string -> string): (stamped: seq<ChunkRow>)
    ensures |stamped| == |rows| && forall i :: 0 <= i < |rows| ==> stamped[i] == Stamped(rows[i], digest)
  {
    seq(|rows|, i requires 0 <= i < |rows| => Stamped(rows[i], digest))
  }

  lemma {:induction false} StampedRecords(rows: seq<ChunkRow>, embed: string -> seq<real>, digest: string -> string)
    ensures RecordsOf(StampedRows(rows, digest), embed, digest) == RecordsOf(rows, embed, digest)
  {
    if rows != [] {
      var front := rows[..|rows| - 1];
      StampedRecords(front, embed, digest);
      assert StampedRows(rows, digest)[..|rows| - 1] == StampedRows(front, digest);
    }
  }

  /** Every vector search indexes all chunks again. That replaces the records by equal ones, in place. */
  lemma ReindexingChangesNothing(d: Dict<VectorRecord>, rows: seq<ChunkRow>, embed: string -> seq<real>,
                                 digest: string -> string)
    requires d.Valid()
    ensures var indexed := PutAll(d, RecordsOf(rows, embed, digest), RecordKey());
            PutAll(indexed, RecordsOf(StampedRows(rows, digest), embed, digest), RecordKey()) == indexed
  {
    StampedRecords(rows, embed, digest);
    PutAllTwice(d, RecordsOf(rows, embed, digest), RecordKey());
  }

  /** A chunk's vector id does not change: `key` names it. */
  ghost predicate RowsKeyed(rows: seq<ChunkRow>, digest: string -> string, key: string -> string) {
    forall i :: 0 <= i < |rows| ==> VectorIdOf(rows[i], digest) == key(rows[i].chunk)
  }

  lemma {:induction false} RowsKeyedRecords(rows: seq<ChunkRow>, embed: string -> seq<real>, digest: string -> string,
                                            key: string -> string)
    requires RowsKeyed(rows, digest, key)
    ensures RecordsKeyed(RecordsOf(rows, embed, digest), key)
  {
    if rows != [] {
      RowsKeyedRecords(rows[..|rows| - 1], embed, digest, key);
    }
  }

  /** Rows that score above zero. */
  function KeywordHits(rows: seq<ChunkRow>, keywordScore: ChunkRow -> real): seq<SearchHit> {
    Picked(rows, PositiveTest(keywordScore), KeywordHit(keywordScore))
  }

  function PositiveTest(keywordScore: ChunkRow -> real): ChunkRow -> bool { (r: ChunkRow) => keywordScore(r) > 0.0 }

  function KeywordHit(keywordScore: ChunkRow -> real): ChunkRow -> SearchHit {
    (r: ChunkRow) => SearchHit(r.chunk, r.document, r.content, keywordScore(r), Row)
  }

  ghost predicate DistinctRows(rows: seq<ChunkRow>) {
    forall i, j :: 0 <= i < j < |rows| ==> rows[i].chunk != rows[j].chunk
  }

  lemma KeywordHitsOf(rows: seq<ChunkRow>, keywordScore: ChunkRow -> real)
    requires DistinctRows(rows)
    ensures OnePerChunk(KeywordHits(rows, keywordScore))
  {
    var at := PickedFrom(rows, PositiveTest(keywordScore), KeywordHit(keywordScore));
    var hs := KeywordHits(rows, keywordScore);
    assert forall i :: 0 <= i < |hs| ==> hs[i].chunk == rows[at[i]].chunk;
  }
}
