/** What the searches return, in terms of the chunk rows and the stored records. */
module PlainRetrieval {
  import opened OrderedDict
  import opened RagRecords
  import opened Ranking
  import opened Retrieval
  import opened Sequences
  import opened Similarity
  import opened VectorStore

  // ----- indexing -----

  /** The record of a chunk: its embedded text, and what a search needs to know about it. */
  ghost predicate IndexedAs(d: Dict<VectorRecord>, row: ChunkRow, id: string, embed: string -> seq<real>) {
    && id in d.at && d.at[id].id == id && d.at[id].vector == embed(row.content)
    && d.at[id].payload == map["workspace_id" := Text(row.workspace), "chunk_id" := Text(row.chunk),
                               "document_id" := Text(row.document), "content" := Text(row.content)]
  }

  /** A row keeps its vector id, and gets the digest of its chunk's id if it has none. */
  ghost predicate KeepsVectorId(before: ChunkRow, after: ChunkRow, digest: string -> string) {
    && after.chunk == before.chunk && after.document == before.document && after.workspace == before.workspace
    && after.content == before.content && after.vectorId.Some?
    && after.vectorId.value == match before.vectorId
                               case None => digest(before.chunk)
                               case Some(id) => if id == "" then digest(before.chunk) else id
  }

  /** Every row is stamped with its vector id; where those differ, every row is stored under it. */
  ghost predicate PlainIndex(d: Dict<VectorRecord>, rows: seq<ChunkRow>, stamped: seq<ChunkRow>,
                             embed: string -> seq<real>, digest: string -> string) {
    && |stamped| == |rows| && (forall i :: 0 <= i < |rows| ==> KeepsVectorId(rows[i], stamped[i], digest))
    && ((forall i, j :: 0 <= i < j < |rows| ==> stamped[i].vectorId != stamped[j].vectorId) ==>
          forall i :: 0 <= i < |rows| ==> IndexedAs(d, rows[i], stamped[i].vectorId.value, embed))
  }

  lemma {:induction false} RecordsAre(rows: seq<ChunkRow>, embed: string -> seq<real>, digest: string -> string)
    ensures var rs := RecordsOf(rows, embed, digest);
            |rs| == |rows| && forall i :: 0 <= i < |rows| ==> rs[i] == RecordOf(rows[i], embed, digest)
  {
    if rows != [] { RecordsAre(rows[..|rows| - 1], embed, digest); }
  }

  lemma RowIsIndexed(before: Dict<VectorRecord>, rows: seq<ChunkRow>, embed: string -> seq<real>,
                     digest: string -> string, i: nat)
    requires before.Valid() && i < |rows|
    requires forall i, j :: 0 <= i < j < |rows| ==> VectorIdOf(rows[i], digest) != VectorIdOf(rows[j], digest)
    ensures IndexedAs(PutAll(before, RecordsOf(rows, embed, digest), RecordKey()), rows[i], VectorIdOf(rows[i], digest),
                      embed)
  {
    var rs := RecordsOf(rows, embed, digest);
    RecordsAre(rows, embed, digest);
    forall i, j | 0 <= i < j < |rs| ensures RecordKey()(rs[i]) != RecordKey()(rs[j]) {
      assert VectorIdOf(rows[i], digest) != VectorIdOf(rows[j], digest);
    }
    assert rs[i] in rs;
    PutAllHolds(before, rs, RecordKey(), rs[i]);
  }

  lemma IndexInPlainTerms(before: Dict<VectorRecord>, rows: seq<ChunkRow>, embed: string -> seq<real>,
                          digest: string -> string)
    requires before.Valid()
    ensures PlainIndex(PutAll(before, RecordsOf(rows, embed, digest), RecordKey()), rows, StampedRows(rows, digest),
                       embed, digest)
  {
    var stamped := StampedRows(rows, digest);
    var d := PutAll(before, RecordsOf(rows, embed, digest), RecordKey());
    assert forall i :: 0 <= i < |rows| ==> stamped[i].vectorId == Some(VectorIdOf(rows[i], digest));
    if forall i, j :: 0 <= i < j < |rows| ==> stamped[i].vectorId != stamped[j].vectorId {
      forall i, j | 0 <= i < j < |rows| ensures VectorIdOf(rows[i], digest) != VectorIdOf(rows[j], digest) {
        assert stamped[i].vectorId != stamped[j].vectorId;
      }
      forall i | 0 <= i < |rows| ensures IndexedAs(d, rows[i], stamped[i].vectorId.value, embed) {
        RowIsIndexed(before, rows, embed, digest, i);
      }
    }
  }

  // ----- the keyword search -----

  /** The hit shows a row, with its score, which is above zero. */
  ghost predicate IsKeywordHit(rows: seq<ChunkRow>, keywordScore: ChunkRow -> real, h: SearchHit) {
    exists r :: r in rows && keywordScore(r) > 0.0 && h.score == keywordScore(r)
        && h.chunk == r.chunk && h.document == r.document && h.content == r.content
  }

  ghost predicate ShownBy(hits: seq<SearchHit>, r: ChunkRow) {
    exists h :: h in hits && h.chunk == r.chunk && h.document == r.document && h.content == r.content
  }

  /** At most `limit` rows that score above zero, best first; a row left out scores no better than any returned, and
      only if `limit` came back. */
  ghost predicate PlainKeywords(rows: seq<ChunkRow>, keywordScore: ChunkRow -> real, limit: nat, hits: seq<SearchHit>) {
    && |hits| <= limit && Ranked(hits) && (forall h :: h in hits ==> IsKeywordHit(rows, keywordScore, h))
    && (forall r :: r in rows && keywordScore(r) > 0.0 && !ShownBy(hits, r)
          ==> |hits| == limit && forall h :: h in hits ==> h.score >= keywordScore(r))
  }

  lemma KeywordHitsAre(rows: seq<ChunkRow>, keywordScore: ChunkRow -> real, h: SearchHit)
    ensures h in KeywordHits(rows, keywordScore)
            <==> exists r :: r in rows && keywordScore(r) > 0.0 && h == KeywordHit(keywordScore)(r)
  {
    PickedAre(rows, PositiveTest(keywordScore), KeywordHit(keywordScore));
  }

  lemma KeywordIsReturned(rows: seq<ChunkRow>, keywordScore: ChunkRow -> real, limit: nat, r: ChunkRow)
    requires r in rows && keywordScore(r) > 0.0 && !ShownBy(Top(KeywordHits(rows, keywordScore), limit), r)
    ensures var hits := Top(KeywordHits(rows, keywordScore), limit);
            |hits| == limit && forall h :: h in hits ==> h.score >= keywordScore(r)
  {
    var all, x := KeywordHits(rows, keywordScore), KeywordHit(keywordScore)(r);
    KeywordHitsAre(rows, keywordScore, x);
    assert x !in Top(all, limit);
    TopIsFull(all, limit, x);
    forall h | h in Top(all, limit) ensures h.score >= keywordScore(r) { TopIsBest(all, limit, h, x); }
  }

  lemma KeywordsInPlainTerms(rows: seq<ChunkRow>, keywordScore: ChunkRow -> real, limit: nat)
    ensures PlainKeywords(rows, keywordScore, limit, Top(KeywordHits(rows, keywordScore), limit))
  {
    var all := KeywordHits(rows, keywordScore);
    var hits := Top(all, limit);
    SortedIsRanked(all);
    TopMembers(all, limit);
    forall h | h in hits ensures IsKeywordHit(rows, keywordScore, h) { KeywordHitsAre(rows, keywordScore, h); }
    forall r | r in rows && keywordScore(r) > 0.0 && !ShownBy(hits, r)
      ensures |hits| == limit && forall h :: h in hits ==> h.score >= keywordScore(r)
    {
      KeywordIsReturned(rows, keywordScore, limit, r);
    }
  }

  // ----- the hybrid search -----

  /** A row scores above zero for the chunk and, with the bonus of 0.05, reaches `t`. */
  ghost predicate KeywordReaches(rows: seq<ChunkRow>, keywordScore: ChunkRow -> real, c: string, t: real) {
    exists r :: r in rows && r.chunk == c && keywordScore(r) > 0.0 && keywordScore(r) + 0.05 >= t
  }

  /** The record is one of the workspace's, for this chunk. */
  ghost predicate Carries(p: Payload, workspace: string, c: string) {
    && "workspace_id" in p && p["workspace_id"] == Text(workspace) && "chunk_id" in p && p["chunk_id"] == Text(c)
  }

  /** The vector of a record for the chunk scores `t` or better against the query. */
  ghost predicate VectorReaches(d: Dict<VectorRecord>, query: seq<real>, workspace: string, c: string, t: real) {
    exists id :: id in d.at && Carries(d.at[id].payload, workspace, c) && PlainScore(query, d.at[id].vector) >= t
  }

  /** What a search is about. */
  datatype Search = Search(rows: seq<ChunkRow>, keywordScore: ChunkRow -> real, records: Dict<VectorRecord>,
                           query: seq<real>, workspace: string)
  {
    ghost predicate ByKeyword(c: string, t: real) { KeywordReaches(rows, keywordScore, c, t) }

    ghost predicate ByVector(c: string, t: real) { VectorReaches(records, query, workspace, c, t) }

    ghost predicate Reaches(c: string, t: real) { ByKeyword(c, t) || ByVector(c, t) }

    /** The hit shows the row or the record that it comes from. */
    ghost predicate Shows(h: SearchHit) {
      match h.origin
      case Row => false
      case Keyword => exists r :: r in rows && r.chunk == h.chunk && r.document == h.document && r.content == h.content
      case Vector =>
        exists id :: id in records.at && Carries(records.at[id].payload, workspace, h.chunk)
            && ShowsRecord(records.at[id].payload, h)
    }
  }

  ghost predicate ShowsRecord(p: Payload, h: SearchHit) {
    && "document_id" in p && p["document_id"] == Text(h.document)
    && h.content == if "content" in p && p["content"].Text? then p["content"].text else ""
  }

  /** A hit has exactly the best score of its chunk, and stems from a keyword match unless its vector is better. */
  ghost predicate BestOfChunk(s: Search, h: SearchHit) {
    && s.Reaches(h.chunk, h.score) && (forall t :: t > h.score ==> !s.Reaches(h.chunk, t))
    && (h.origin == Keyword <==> s.ByKeyword(h.chunk, h.score)) && s.Shows(h)
  }

  /** At most `limit` chunks, best first, none twice, each with its best score; and a chunk that is left out scores no
      better than any returned, and only if `limit` came back. */
  ghost predicate PlainHybrid(s: Search, limit: nat, hits: seq<SearchHit>) {
    && |hits| <= limit
    && (forall i, j :: 0 <= i < j < |hits| ==> hits[i].chunk != hits[j].chunk && hits[i].score >= hits[j].score)
    && (forall h :: h in hits ==> BestOfChunk(s, h))
    && (forall c, t :: s.Reaches(c, t) && (forall h :: h in hits ==> h.chunk != c)
          ==> |hits| == limit && forall h :: h in hits ==> h.score >= t)
  }

  ghost function KeywordList(s: Search): seq<SearchHit> { KeywordHits(s.rows, s.keywordScore) }

  ghost function VectorList(s: Search): seq<SearchHit>
    requires s.records.Valid()
  {
    StoreHits(s.records, s.query, s.workspace)
  }

  lemma KeywordReachesIff(s: Search, c: string, t: real)
    ensures c in Above(KeywordList(s), t - 0.05) <==> s.ByKeyword(c, t)
  {
    PickedAre(s.rows, PositiveTest(s.keywordScore), KeywordHit(s.keywordScore));
    if s.ByKeyword(c, t) {
      var r :| r in s.rows && r.chunk == c && s.keywordScore(r) > 0.0 && s.keywordScore(r) + 0.05 >= t;
      assert PositiveTest(s.keywordScore)(r);
      assert KeywordHit(s.keywordScore)(r) in KeywordList(s);
    }
  }

  lemma {:induction false} HitsOfAre(vs: seq<VectorHit>)
    requires AllUsable(vs)
    ensures forall h :: h in HitsOf(vs) <==> exists v :: v in vs && IsUsable(v.payload) && h == HitOf(v)
  {
    if vs != [] {
      assert vs == [vs[0]] + vs[1..];
      HitsOfAre(vs[1..]);
    }
  }

  lemma VectorListIs(s: Search, key: string -> string, h: SearchHit)
    requires WellKeyed(s.records, key)
    ensures h in VectorList(s) <==> exists id :: VectorHitFor(s, id, h)
  {
    var filters := OfWorkspace(s.workspace);
    var scored := ScoredAmong(s.records.Values(), s.query, filters);
    WellKeyedScores(s.records, key, s.query, filters);
    ScoredAre(s.records, s.query, filters);
    assert forall v :: v in scored ==> IsUsable(v.payload);
    HitsOfAre(scored);
    if v :| v in scored && IsUsable(v.payload) && h == HitOf(v) {
      assert IsHit(s.records, s.query, filters, v);
      assert WORKSPACE_ID in filters;
      assert VectorHitFor(s, v.id, h);
    }
    if id :| VectorHitFor(s, id, h) {
      var v := VectorHit(id, h.score, s.records.at[id].payload);
      assert IsHit(s.records, s.query, filters, v);
      assert h == HitOf(v);
    }
  }

  /** The hit that the record `id` gives rise to. */
  ghost predicate VectorHitFor(s: Search, id: string, h: SearchHit) {
    && id in s.records.at && Carries(s.records.at[id].payload, s.workspace, h.chunk)
    && ShowsRecord(s.records.at[id].payload, h) && h.origin == Vector
    && h.score == PlainScore(s.query, s.records.at[id].vector)
  }

  lemma VectorReachesIff(s: Search, key: string -> string, c: string, t: real)
    requires WellKeyed(s.records, key)
    ensures c in Above(VectorList(s), t) <==> s.ByVector(c, t)
  {
    if c in Above(VectorList(s), t) {
      var h :| h in VectorList(s) && h.score >= t && h.chunk == c;
      VectorListIs(s, key, h);
    }
    if s.ByVector(c, t) {
      var id :| id in s.records.at && Carries(s.records.at[id].payload, s.workspace, c)
          && PlainScore(s.query, s.records.at[id].vector) >= t;
      var p := s.records.at[id].payload;
      assert IsUsable(p);
      var content := if "content" in p && p["content"].Text? then p["content"].text else "";
      var h := SearchHit(c, p["document_id"].text, content, PlainScore(s.query, s.records.at[id].vector), Vector);
      assert VectorHitFor(s, id, h);
      VectorListIs(s, key, h);
    }
  }

  lemma ReachesIff(s: Search, key: string -> string, c: string, t: real)
    requires WellKeyed(s.records, key) && DistinctRows(s.rows)
    ensures c in Above(Fuse(KeywordList(s), VectorList(s)).Values(), t) <==> s.Reaches(c, t)
  {
    KeywordHitsOf(s.rows, s.keywordScore);
    FuseAbove(KeywordList(s), VectorList(s), t);
    KeywordReachesIff(s, c, t);
    VectorReachesIff(s, key, c, t);
  }

  // ----- where a merged hit comes from -----

  ghost predicate SameText(a: SearchHit, b: SearchHit) {
    a.chunk == b.chunk && a.document == b.document && a.content == b.content
  }

  /** A keyword hit with the bonus; or a vector hit that scores better than every keyword hit of its chunk. */
  ghost predicate FromLists(ks: seq<SearchHit>, vs: seq<SearchHit>, h: SearchHit) {
    match h.origin
    case Row => false
    case Keyword => exists k :: k in ks && SameText(k, h) && h.score == k.score + 0.05
    case Vector =>
      && (exists v :: v in vs && SameText(v, h) && h.score == v.score)
      && (forall k :: k in ks && k.chunk == h.chunk ==> k.score + 0.05 < h.score)
  }

  lemma {:induction false} KeywordsFromList(ks: seq<SearchHit>)
    requires OnePerChunk(ks)
    ensures forall c :: c in PutKeyword(ks).at ==> FromLists(ks, [], PutKeyword(ks).at[c])
    ensures forall c :: c in PutKeyword(ks).at ==> PutKeyword(ks).at[c].origin == Keyword
  {
    if ks != [] {
      var front, k := ks[..|ks| - 1], ks[|ks| - 1];
      KeywordsFromList(front);
      SplitLast(ks);
      var d, d1 := PutKeyword(front), PutKeyword(ks);
      forall c | c in d1.at ensures FromLists(ks, [], d1.at[c]) && d1.at[c].origin == Keyword {
        if c == k.chunk {
          assert k in ks && SameText(k, d1.at[c]) && d1.at[c].score == k.score + 0.05;
        } else {
          assert FromLists(front, [], d.at[c]);
        }
      }
    }
  }

  lemma NoHitYet(ks: seq<SearchHit>, d: Dict<SearchHit>, v: SearchHit)
    requires Chunks(ks) <= d.at.Keys && v.chunk !in d.at
    ensures forall k :: k in ks ==> k.chunk != v.chunk
  {
    forall k | k in ks ensures k.chunk in Chunks(ks) {
    }
  }

  lemma {:induction false} FusedFromLists(ks: seq<SearchHit>, vs: seq<SearchHit>)
    requires OnePerChunk(ks)
    ensures forall c :: c in Fuse(ks, vs).at ==> FromLists(ks, vs, Fuse(ks, vs).at[c])
    ensures Chunks(ks) <= Fuse(ks, vs).at.Keys && PutKeyword(ks).order <= Fuse(ks, vs).order
  {
    if vs == [] {
      KeywordsFromList(ks);
      KeywordKeys(ks);
    } else {
      var front, v := vs[..|vs| - 1], vs[|vs| - 1];
      FusedFromLists(ks, front);
      SplitLast(vs);
      var d, d1 := Fuse(ks, front), Fuse(ks, vs);
      assert d1 == Raise(d, v);
      assert forall c :: c in d.at ==> FromLists(ks, front, d.at[c]);
      if v.chunk !in d.at || v.score > d.at[v.chunk].score { RaisedFromLists(ks, vs, d, v); }
      forall c | c in d1.at ensures FromLists(ks, vs, d1.at[c]) {
        if c in d.at { assert FromLists(ks, front, d.at[c]); }
      }
    }
  }

  lemma RaisedFromLists(ks: seq<SearchHit>, vs: seq<SearchHit>, d: Dict<SearchHit>, v: SearchHit)
    requires OnePerChunk(ks) && v in vs && Chunks(ks) <= d.at.Keys
    requires v.chunk in d.at ==>
               v.score > d.at[v.chunk].score && d.at[v.chunk].chunk == v.chunk && FromLists(ks, vs, d.at[v.chunk])
    ensures FromLists(ks, vs, v.(origin := Vector))
  {
    assert SameText(v, v.(origin := Vector));
    if v.chunk !in d.at {
      NoHitYet(ks, d, v);
    }
  }

  lemma {:induction false} ChunksCount(hs: seq<SearchHit>)
    ensures |Chunks(hs)| <= |hs| && (OnePerChunk(hs) ==> |Chunks(hs)| == |hs|)
  {
    if hs != [] {
      var front, h := hs[..|hs| - 1], hs[|hs| - 1];
      ChunksCount(front);
      LastChunk(hs);
      if OnePerChunk(hs) { assert forall x :: x in front ==> x.chunk != h.chunk; }
    }
  }

  /** In the merged dictionary the chunks of the keyword hits come first. */
  lemma KeywordChunksFirst(ks: seq<SearchHit>, vs: seq<SearchHit>, c: string, a: string)
    requires OnePerChunk(ks) && c in Fuse(ks, vs).at && c !in Chunks(ks) && a in Chunks(ks)
    ensures a in Fuse(ks, vs).at && !Before(Fuse(ks, vs).Values(), Fuse(ks, vs).at[c], Fuse(ks, vs).at[a])
  {
    var d, k := Fuse(ks, vs), PutKeyword(ks);
    FusedFromLists(ks, vs);
    KeywordKeys(ks);
    assert a in k.order;
    var i :| 0 <= i < |k.order| && k.order[i] == a;
    assert d.order[i] == a;
    var values := d.Values();
    assert forall m :: 0 <= m < |values| ==> d.order[m] in d.at && values[m].chunk == d.order[m];
    assert forall n :: 0 <= n < |values| && values[n].chunk == a ==> n == i;
    forall m | 0 <= m < i ensures values[m].chunk != c { assert d.order[m] == k.order[m] && k.order[m] in k.at; }
    assert d.at[a].chunk == a && d.at[c].chunk == c;
  }

  lemma DistinctValues(d: Dict<SearchHit>)
    requires d.Valid() && forall c :: c in d.at ==> d.at[c].chunk == c
    ensures Distinct(d.Values())
  {
    forall i, j | 0 <= i < j < |d.Values()| ensures d.Values()[i] != d.Values()[j] {
      assert d.order[i] in d.at && d.order[j] in d.at;
    }
  }

  /** A merged hit that scores no less than a vector's and belongs to a keyword hit is ranked before it. */
  lemma RankedBefore(ks: seq<SearchHit>, vs: seq<SearchHit>, i: nat, a: string)
    requires OnePerChunk(ks) && a in Chunks(ks) && a in Fuse(ks, vs).at
    requires i < |SortDesc(Fuse(ks, vs).Values(), Score())|
    requires SortDesc(Fuse(ks, vs).Values(), Score())[i].chunk !in Chunks(ks)
    requires Fuse(ks, vs).at[a].score >= SortDesc(Fuse(ks, vs).Values(), Score())[i].score
    ensures a in Chunks(SortDesc(Fuse(ks, vs).Values(), Score())[..i])
  {
    var d := Fuse(ks, vs);
    var values, sorted := d.Values(), SortDesc(d.Values(), Score());
    var h, e := sorted[i], d.at[a];
    SortedIsRanked(values);
    DistinctValues(d);
    ValuesOf(d, e);
    assert h in multiset(sorted) && h in values && e in multiset(values) && e in multiset(sorted) && e in sorted;
    ValuesOf(d, h);
    var p :| 0 <= p < |sorted| && sorted[p] == e;
    if p > i {
      assert Before(sorted, h, e) && Score()(h) == Score()(e);
      SortKeepsTies(values, Score(), h, e);
      KeywordChunksFirst(ks, vs, h.chunk, a);
    }
    assert p != i;
    assert sorted[..i][p] == e;
  }

  /** Where the keyword hit of a chunk is cut off, `limit` others that score no less have not been. */
  lemma CutKeywordsScore(ks: seq<SearchHit>, vs: seq<SearchHit>, limit: nat, k: SearchHit, a: string)
    requires OnePerChunk(ks) && k in ks && k !in Top(ks, limit) && a in Chunks(Top(ks, limit))
    ensures OnePerChunk(Top(ks, limit)) && |Top(ks, limit)| == limit
    ensures a in Fuse(Top(ks, limit), vs).at && Fuse(Top(ks, limit), vs).at[a].score >= k.score + 0.05
  {
    var cut := Top(ks, limit);
    var x :| x in cut && x.chunk == a;
    TopAbove(ks, limit, 0.0);
    TopIsBest(ks, limit, x, k);
    FuseAbove(cut, vs, x.score + 0.05);
    ValuesAbove(Fuse(cut, vs), x.score + 0.05);
    assert a in Above(cut, x.score + 0.05 - KEYWORD_BONUS);
  }

  /** A returned hit that shows a record scores better than any keyword hit of its chunk, returned or not. */
  lemma TieKeepsKeyword(ks: seq<SearchHit>, vs: seq<SearchHit>, limit: nat, i: nat, k: SearchHit)
    requires OnePerChunk(ks) && OnePerChunk(vs) && i < |Hybrid(ks, vs, limit)| && k in ks
    requires Hybrid(ks, vs, limit)[i].origin == Vector && k.chunk == Hybrid(ks, vs, limit)[i].chunk
    ensures k.score + 0.05 < Hybrid(ks, vs, limit)[i].score
  {
    var kcut, vcut := Top(ks, limit), Top(vs, limit);
    var d := Fuse(kcut, vcut);
    var sorted := SortDesc(d.Values(), Score());
    var h := sorted[i];
    TopAbove(ks, limit, 0.0);
    FusedFromLists(kcut, vcut);
    SortedIsRanked(d.Values());
    assert h in multiset(sorted) && h in d.Values();
    ValuesOf(d, h);
    assert FromLists(kcut, vcut, h);
    if k !in kcut && k.score + 0.05 >= h.score {
      assert forall x :: x in kcut ==> x.chunk != h.chunk by { OtherChunks(ks, limit, k); }
      forall a | a in Chunks(kcut) ensures a in Chunks(sorted[..i]) {
        CutKeywordsScore(ks, vcut, limit, k, a);
        RankedBefore(kcut, vcut, i, a);
      }
      ChunksCount(kcut);
      ChunksCount(sorted[..i]);
      SubsetCount(Chunks(kcut), Chunks(sorted[..i]));
      TopIsFull(ks, limit, k);
    }
  }

  lemma OtherChunks(ks: seq<SearchHit>, limit: nat, k: SearchHit)
    requires OnePerChunk(ks) && k in ks && k !in Top(ks, limit)
    ensures forall x :: x in Top(ks, limit) ==> x.chunk != k.chunk
  {
    SortedIsRanked(ks);
    var sorted := SortDesc(ks, Score());
    forall x | x in Top(ks, limit) ensures x in ks {
      assert x in sorted && x in multiset(sorted);
    }
  }

  lemma TopIsFull(ks: seq<SearchHit>, limit: nat, k: SearchHit)
    requires k in ks && k !in Top(ks, limit)
    ensures |Top(ks, limit)| == limit
  {
    var sorted := SortDesc(ks, Score());
    SortedIsRanked(ks);
    assert k in multiset(sorted) && k in sorted;
  }

  // ----- the promise -----

  ghost predicate OneRecordAChunk(s: Search, key: string -> string) {
    WellKeyed(s.records, key) && DistinctRows(s.rows)
  }

  lemma ListsAreOnePerChunk(s: Search, key: string -> string, limit: nat)
    requires OneRecordAChunk(s, key)
    ensures OnePerChunk(KeywordList(s)) && OnePerChunk(VectorList(s))
    ensures OnePerChunk(Top(KeywordList(s), limit))
  {
    KeywordHitsOf(s.rows, s.keywordScore);
    WellKeyedScores(s.records, key, s.query, OfWorkspace(s.workspace));
    VectorTop(ScoredAmong(s.records.Values(), s.query, OfWorkspace(s.workspace)), limit);
    TopAbove(KeywordList(s), limit, 0.0);
  }

  lemma TopMembers(hs: seq<SearchHit>, limit: nat)
    ensures forall h :: h in Top(hs, limit) ==> h in hs
  {
    SortedIsRanked(hs);
    forall h | h in Top(hs, limit) ensures h in hs {
      assert h in SortDesc(hs, Score()) && h in multiset(SortDesc(hs, Score()));
    }
  }

  lemma HitIsFromLists(s: Search, key: string -> string, limit: nat, i: nat)
    requires OneRecordAChunk(s, key) && i < |Hybrid(KeywordList(s), VectorList(s), limit)|
    ensures FromLists(Top(KeywordList(s), limit), Top(VectorList(s), limit),
                      Hybrid(KeywordList(s), VectorList(s), limit)[i])
  {
    var ks, vs := Top(KeywordList(s), limit), Top(VectorList(s), limit);
    var h := Hybrid(KeywordList(s), VectorList(s), limit)[i];
    ListsAreOnePerChunk(s, key, limit);
    FusedFromLists(ks, vs);
    SortedIsRanked(Fuse(ks, vs).Values());
    assert h == SortDesc(Fuse(ks, vs).Values(), Score())[i] && h in multiset(Fuse(ks, vs).Values());
    ValuesOf(Fuse(ks, vs), h);
  }

  lemma HitShows(s: Search, key: string -> string, limit: nat, i: nat)
    requires OneRecordAChunk(s, key) && i < |Hybrid(KeywordList(s), VectorList(s), limit)|
    ensures s.Shows(Hybrid(KeywordList(s), VectorList(s), limit)[i])
  {
    var h := Hybrid(KeywordList(s), VectorList(s), limit)[i];
    HitIsFromLists(s, key, limit, i);
    TopMembers(KeywordList(s), limit);
    TopMembers(VectorList(s), limit);
    if h.origin == Keyword {
      var k :| k in Top(KeywordList(s), limit) && SameText(k, h);
      PickedAre(s.rows, PositiveTest(s.keywordScore), KeywordHit(s.keywordScore));
    } else {
      var v :| v in Top(VectorList(s), limit) && SameText(v, h) && h.score == v.score;
      VectorListIs(s, key, v);
    }
  }

  lemma HitOriginIff(s: Search, key: string -> string, limit: nat, i: nat)
    requires OneRecordAChunk(s, key) && i < |Hybrid(KeywordList(s), VectorList(s), limit)|
    ensures var h := Hybrid(KeywordList(s), VectorList(s), limit)[i];
            h.origin == Keyword <==> s.ByKeyword(h.chunk, h.score)
  {
    var ks, h := KeywordList(s), Hybrid(KeywordList(s), VectorList(s), limit)[i];
    HitIsFromLists(s, key, limit, i);
    ListsAreOnePerChunk(s, key, limit);
    TopMembers(ks, limit);
    KeywordReachesIff(s, h.chunk, h.score);
    if h.origin == Keyword {
      var k :| k in Top(ks, limit) && SameText(k, h) && h.score == k.score + 0.05;
      assert k in ks && k.score >= h.score - 0.05;
    } else {
      forall k | k in ks && k.chunk == h.chunk ensures k.score < h.score - 0.05 {
        TieKeepsKeyword(ks, VectorList(s), limit, i, k);
      }
    }
  }

  lemma HitIsBest(s: Search, key: string -> string, limit: nat, i: nat)
    requires OneRecordAChunk(s, key) && i < |Hybrid(KeywordList(s), VectorList(s), limit)|
    ensures BestOfChunk(s, Hybrid(KeywordList(s), VectorList(s), limit)[i])
  {
    var ks, vs := KeywordList(s), VectorList(s);
    var h, full := Hybrid(ks, vs, limit)[i], Fuse(ks, vs);
    ListsAreOnePerChunk(s, key, limit);
    ReturnedScoreIsFull(ks, vs, limit, i);
    forall t ensures s.Reaches(h.chunk, t) <==> t <= h.score {
      ReachesIff(s, key, h.chunk, t);
      ValuesAbove(full, t);
      assert h.chunk in AboveIn(full, t) <==> t <= h.score;
    }
    HitOriginIff(s, key, limit, i);
    HitShows(s, key, limit, i);
  }

  lemma HitsAreRanked(ks: seq<SearchHit>, vs: seq<SearchHit>, limit: nat)
    requires OnePerChunk(ks) && OnePerChunk(vs)
    ensures Ranked(Hybrid(ks, vs, limit)) && OnePerChunk(Hybrid(ks, vs, limit)) && |Hybrid(ks, vs, limit)| <= limit
  {
    TopAbove(ks, limit, 0.0);
    var cut := Fuse(Top(ks, limit), Top(vs, limit)).Values();
    FuseAbove(Top(ks, limit), Top(vs, limit), 0.0);
    SortedIsRanked(cut);
    TopAbove(cut, limit, 0.0);
  }

  lemma MemberIsAbove(hits: seq<SearchHit>, c: string, t: real)
    requires forall h :: h in hits ==> h.chunk != c
    ensures c !in Above(hits, t)
  {
  }

  lemma FewerIfOneIsMissing(some: set<string>, all: set<string>, c: string)
    requires some <= all && c in all && c !in some
    ensures |some| < |all|
  {
    SubsetCount(some, all - {c});
  }

  lemma AboveAllIfFull(hits: seq<SearchHit>, limit: nat, t: real)
    requires Ranked(hits) && OnePerChunk(hits) && |hits| <= limit <= |Above(hits, t)|
    ensures |hits| == limit && forall h :: h in hits ==> h.score >= t
  {
    RankByCount(hits, t);
  }

  /** A chunk that reaches `t` in the full merge is returned, or `limit` hits that reach it are. */
  lemma LeftOutIsCrowded(ks: seq<SearchHit>, vs: seq<SearchHit>, limit: nat, c: string, t: real)
    requires OnePerChunk(ks) && OnePerChunk(vs) && c in Above(Fuse(ks, vs).Values(), t)
    requires forall h :: h in Hybrid(ks, vs, limit) ==> h.chunk != c
    ensures |Hybrid(ks, vs, limit)| == limit && forall h :: h in Hybrid(ks, vs, limit) ==> h.score >= t
  {
    var hits, full := Hybrid(ks, vs, limit), Above(Fuse(ks, vs).Values(), t);
    var cut := Fuse(Top(ks, limit), Top(vs, limit)).Values();
    HitsAreRanked(ks, vs, limit);
    CutIsOnePerChunk(ks, vs, limit);
    TopAbove(cut, limit, t);
    CutBelowFull(ks, vs, limit, t);
    SameCounts(ks, vs, limit, t);
    MemberIsAbove(hits, c, t);
    FewerIfOneIsMissing(Above(hits, t), full, c);
    AboveAllIfFull(hits, limit, t);
  }

  lemma CutIsOnePerChunk(ks: seq<SearchHit>, vs: seq<SearchHit>, limit: nat)
    requires OnePerChunk(ks)
    ensures OnePerChunk(Fuse(Top(ks, limit), Top(vs, limit)).Values())
  {
    TopAbove(ks, limit, 0.0);
    FuseAbove(Top(ks, limit), Top(vs, limit), 0.0);
  }

  /** What the hybrid search returns, in plain terms. */
  lemma HybridInPlainTerms(s: Search, key: string -> string, limit: nat, hits: seq<SearchHit>)
    requires OneRecordAChunk(s, key) && hits == Hybrid(KeywordList(s), VectorList(s), limit)
    ensures PlainHybrid(s, limit, hits)
  {
    var ks, vs := KeywordList(s), VectorList(s);
    ListsAreOnePerChunk(s, key, limit);
    HitsAreRanked(ks, vs, limit);
    forall h | h in hits ensures BestOfChunk(s, h) {
      var i :| 0 <= i < |hits| && hits[i] == h;
      HitIsBest(s, key, limit, i);
    }
    forall c, t | s.Reaches(c, t) && forall h :: h in hits ==> h.chunk != c
      ensures |hits| == limit && forall h :: h in hits ==> h.score >= t
    {
      ReachesIff(s, key, c, t);
      LeftOutIsCrowded(ks, vs, limit, c, t);
    }
  }
}
