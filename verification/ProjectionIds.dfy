/** Under which ids rows become nodes and edges, and why no two of them clash. */
module ProjectionIds {
  import opened GraphModel
  import opened GraphSync
  import opened KnowledgeBase
  import opened OrderedDict
  import opened Sequences

  const SEPARATOR := ':'

  predicate Plain(id: string) { SEPARATOR !in id }

  function DocumentId(): DocumentRow -> string { (d: DocumentRow) => d.id }

  function ChunkId(): ChunkRow -> string { (c: ChunkRow) => c.id }

  function TypeId(): TypeRow -> string { (t: TypeRow) => t.id }

  function EntityId(): Entity -> string { (e: Entity) => e.id }

  function MentionId(): Mention -> string { (m: Mention) => m.id }

  function RelationId(): Relation -> string { (r: Relation) => r.id }

  /** Primary keys are unique, and the ids of documents, chunks, types and entities differ from each other. */
  ghost predicate UniqueRows(db: Database) {
    && DistinctBy(db.documents, DocumentId()) && DistinctBy(db.chunks, ChunkId())
    && DistinctBy(db.types, TypeId()) && DistinctBy(db.kb.entities, EntityId())
    && DistinctBy(db.kb.mentions, MentionId()) && DistinctBy(db.kb.relations, RelationId())
    && (forall d, c :: d in db.documents && c in db.chunks ==> d.id != c.id)
    && (forall d, t :: d in db.documents && t in db.types ==> d.id != t.id)
    && (forall d, e :: d in db.documents && e in db.kb.entities ==> d.id != e.id)
    && (forall c, t :: c in db.chunks && t in db.types ==> c.id != t.id)
    && (forall c, e :: c in db.chunks && e in db.kb.entities ==> c.id != e.id)
    && (forall t, e :: t in db.types && e in db.kb.entities ==> t.id != e.id)
  }

  /** No id that an edge id ends with, or that is one, contains the separator. */
  ghost predicate PlainRows(db: Database) {
    && (forall c :: c in db.chunks ==> Plain(c.id)) && (forall e :: e in db.kb.entities ==> Plain(e.id))
    && (forall r :: r in db.kb.relations ==> Plain(r.id))
  }

  // ----- nodes -----

  lemma DocumentNodesDistinct(db: Database, workspace: string)
    requires DistinctBy(db.documents, DocumentId())
    ensures DistinctBy(DocumentNodes(db, workspace), NodeKey())
  {
    var f := (d: DocumentRow) => DocumentNode(d);
    forall i, j | 0 <= i < j < |db.documents| ensures NodeKey()(f(db.documents[i])) != NodeKey()(f(db.documents[j])) {
      assert DocumentId()(db.documents[i]) != DocumentId()(db.documents[j]);
    }
    PickedDistinct(db.documents, (d: DocumentRow) => Shown(d, workspace), f, NodeKey());
  }

  lemma ChunkNodesDistinct(db: Database, workspace: string)
    requires DistinctBy(db.chunks, ChunkId())
    ensures DistinctBy(ChunkNodes(db, workspace), NodeKey())
  {
    var f := (c: ChunkRow) => ChunkNode(c, workspace);
    forall i, j | 0 <= i < j < |db.chunks| ensures NodeKey()(f(db.chunks[i])) != NodeKey()(f(db.chunks[j])) {
      assert ChunkId()(db.chunks[i]) != ChunkId()(db.chunks[j]);
    }
    PickedDistinct(db.chunks, (c: ChunkRow) => ChunkShown(db, c, workspace), f, NodeKey());
  }

  lemma TypeNodesDistinct(db: Database, workspace: string)
    requires DistinctBy(db.types, TypeId())
    ensures DistinctBy(TypeNodes(db, workspace), NodeKey())
  {
    var f := (t: TypeRow) => TypeNode(t);
    forall i, j | 0 <= i < j < |db.types| ensures NodeKey()(f(db.types[i])) != NodeKey()(f(db.types[j])) {
      assert TypeId()(db.types[i]) != TypeId()(db.types[j]);
    }
    PickedDistinct(db.types, (t: TypeRow) => t.workspace == workspace, f, NodeKey());
  }

  lemma EntityNodesDistinct(db: Database, workspace: string)
    requires DistinctBy(db.kb.entities, EntityId())
    ensures DistinctBy(EntityNodes(db, workspace), NodeKey())
  {
    var f := (e: Entity) => EntityNode(e);
    forall i, j | 0 <= i < j < |db.kb.entities|
      ensures NodeKey()(f(db.kb.entities[i])) != NodeKey()(f(db.kb.entities[j]))
    {
      assert EntityId()(db.kb.entities[i]) != EntityId()(db.kb.entities[j]);
    }
    PickedDistinct(db.kb.entities, (e: Entity) => e.workspace == workspace, f, NodeKey());
  }

  lemma NodesAreDistinct(db: Database, workspace: string)
    requires UniqueRows(db)
    ensures DistinctBy(ProjectedNodes(db, workspace), NodeKey())
  {
    var ds, cs := DocumentNodes(db, workspace), ChunkNodes(db, workspace);
    var ts, es := TypeNodes(db, workspace), EntityNodes(db, workspace);
    DocumentNodesDistinct(db, workspace);
    ChunkNodesDistinct(db, workspace);
    TypeNodesDistinct(db, workspace);
    EntityNodesDistinct(db, workspace);
    forall x ensures x in ds ==> exists d :: d in db.documents && d.id == x.id { DocumentNodesAre(db, workspace, x); }
    forall x ensures x in cs ==> exists c :: c in db.chunks && c.id == x.id { ChunkNodesAre(db, workspace, x); }
    forall x ensures x in ts ==> exists t :: t in db.types && t.id == x.id { TypeNodesAre(db, workspace, x); }
    forall x ensures x in es ==> exists e :: e in db.kb.entities && e.id == x.id { EntityNodesAre(db, workspace, x); }
    ConcatDistinct(ds, cs, NodeKey());
    ConcatDistinct(ds + cs, ts, NodeKey());
    ConcatDistinct(ds + cs + ts, es, NodeKey());
  }

  // ----- edges -----

  /** The part behind the last separator can be read off. */
  lemma LastPart(a: string, b: string, c: string, d: string)
    requires Plain(b) && Plain(d) && a + [SEPARATOR] + b == c + [SEPARATOR] + d
    ensures b == d
  {
    LastSeparator(a, b);
    LastSeparator(c, d);
    assert |a| == |c|;
    assert b == (a + [SEPARATOR] + b)[|a| + 1..] && d == (c + [SEPARATOR] + d)[|c| + 1..];
  }

  lemma LastSeparator(a: string, b: string)
    requires Plain(b)
    ensures var s := a + [SEPARATOR] + b; s[|a|] == SEPARATOR && forall i :: |a| < i < |s| ==> s[i] != SEPARATOR
  {
    var s := a + [SEPARATOR] + b;
    assert forall i :: |a| < i < |s| ==> s[i] == b[i - |a| - 1];
  }

  lemma ChunkEdgesDistinct(db: Database, workspace: string)
    requires DistinctBy(db.chunks, ChunkId()) && forall c :: c in db.chunks ==> Plain(c.id)
    ensures DistinctBy(ChunkEdges(db, workspace), EdgeKey())
  {
    var f := (c: ChunkRow) => ChunkEdge(c);
    forall i, j | 0 <= i < j < |db.chunks| ensures EdgeKey()(f(db.chunks[i])) != EdgeKey()(f(db.chunks[j])) {
      assert ChunkId()(db.chunks[i]) != ChunkId()(db.chunks[j]);
      var b, c := db.chunks[i], db.chunks[j];
      if ChunkEdge(b).id == ChunkEdge(c).id { LastPart("doc_chunk:" + b.docId, b.id, "doc_chunk:" + c.docId, c.id); }
    }
    PickedDistinct(db.chunks, (c: ChunkRow) => ChunkShown(db, c, workspace), f, EdgeKey());
  }

  lemma TypeEdgesDistinct(db: Database, workspace: string)
    requires DistinctBy(db.kb.entities, EntityId()) && forall e :: e in db.kb.entities ==> Plain(e.id)
    ensures DistinctBy(TypeEdges(db, workspace), EdgeKey())
  {
    var f, es := (e: Entity) => TypeEdge(e), db.kb.entities;
    forall i, j | 0 <= i < j < |es| ensures EdgeKey()(f(es[i])) != EdgeKey()(f(es[j])) {
      assert EntityId()(es[i]) != EntityId()(es[j]);
      if TypeEdge(es[i]).id == TypeEdge(es[j]).id {
        LastPart("entity_type:" + es[i].typeId, es[i].id, "entity_type:" + es[j].typeId, es[j].id);
      }
    }
    PickedDistinct(es, (e: Entity) => e.workspace == workspace, f, EdgeKey());
  }

  lemma RelationEdgesDistinct(db: Database, workspace: string)
    requires DistinctBy(db.kb.relations, RelationId())
    ensures DistinctBy(RelationEdges(db, workspace), EdgeKey())
  {
    var f, rs := (r: Relation) => RelationEdge(r, db.relationTypes), db.kb.relations;
    forall i, j | 0 <= i < j < |rs| ensures EdgeKey()(f(rs[i])) != EdgeKey()(f(rs[j])) {
      assert RelationId()(rs[i]) != RelationId()(rs[j]);
    }
    PickedDistinct(rs, (r: Relation) => RelationShown(db, r, workspace), f, EdgeKey());
  }

  /** The ids of a mention's edges. */
  lemma MentionEdgeIds(m: Mention, x: Edge)
    requires x in MentionEdgesOf(m)
    ensures x.id == "mention_doc:" + m.id || x.id == "mention_chunk:" + m.id
  {
  }

  lemma MentionIdsDiffer(a: string, b: string)
    ensures "mention_doc:" + a != "mention_chunk:" + b
    ensures ("mention_doc:" + a == "mention_doc:" + b || "mention_chunk:" + a == "mention_chunk:" + b) ==> a == b
  {
    assert ("mention_doc:" + a)[8] == 'd' && ("mention_chunk:" + b)[8] == 'c';
    assert ("mention_doc:" + a)[12..] == a && ("mention_doc:" + b)[12..] == b;
    assert ("mention_chunk:" + a)[14..] == a && ("mention_chunk:" + b)[14..] == b;
  }

  lemma {:induction false} MentionEdgesDistinct(rows: seq<Mention>, workspace: string)
    requires DistinctBy(rows, MentionId())
    ensures DistinctBy(MentionEdges(rows, workspace), EdgeKey())
  {
    if rows != [] {
      var front, m := rows[..|rows| - 1], rows[|rows| - 1];
      MentionEdgesDistinct(front, workspace);
      var xs, ys := MentionEdges(front, workspace), MentionEdgesOf(m);
      MentionIdsDiffer(m.id, m.id);
      assert DistinctBy(ys, EdgeKey());
      forall x, y | x in xs && y in ys ensures EdgeKey()(x) != EdgeKey()(y) {
        MentionEdgesAre(front, workspace, x);
        var o :| o in front && o.workspace == workspace && x in MentionEdgesOf(o);
        var i :| 0 <= i < |front| && front[i] == o;
        assert MentionId()(rows[i]) != MentionId()(rows[|rows| - 1]);
        MentionEdgeIds(o, x);
        MentionEdgeIds(m, y);
        MentionIdsDiffer(o.id, m.id);
        MentionIdsDiffer(m.id, o.id);
      }
      ConcatDistinct(xs, ys, EdgeKey());
    }
  }

  /** Which of the four kinds an edge is shows in its id. */
  lemma KindShows(db: Database, workspace: string, x: Edge)
    requires PlainRows(db)
    ensures x in ChunkEdges(db, workspace) ==> x.id != "" && x.id[0] == 'd' && !Plain(x.id)
    ensures x in TypeEdges(db, workspace) ==> x.id != "" && x.id[0] == 'e' && !Plain(x.id)
    ensures x in MentionEdges(db.kb.mentions, workspace) ==> x.id != "" && x.id[0] == 'm' && !Plain(x.id)
    ensures x in RelationEdges(db, workspace) ==> Plain(x.id)
  {
    ChunkEdgesAre(db, workspace, x);
    TypeEdgesAre(db, workspace, x);
    MentionEdgesAre(db.kb.mentions, workspace, x);
    RelationEdgesAre(db, workspace, x);
    if x in ChunkEdges(db, workspace) { assert x.id[9] == SEPARATOR; }
    if x in TypeEdges(db, workspace) { assert x.id[11] == SEPARATOR; }
    if x in MentionEdges(db.kb.mentions, workspace) {
      var m :| m in db.kb.mentions && m.workspace == workspace && x in MentionEdgesOf(m);
      MentionEdgeIds(m, x);
      assert x.id[11] == SEPARATOR || x.id[13] == SEPARATOR;
    }
  }

  lemma EdgesAreDistinct(db: Database, workspace: string)
    requires UniqueRows(db) && PlainRows(db)
    ensures DistinctBy(ProjectedEdges(db, workspace), EdgeKey())
  {
    var cs, ts := ChunkEdges(db, workspace), TypeEdges(db, workspace);
    var ms, rs := MentionEdges(db.kb.mentions, workspace), RelationEdges(db, workspace);
    ChunkEdgesDistinct(db, workspace);
    TypeEdgesDistinct(db, workspace);
    MentionEdgesDistinct(db.kb.mentions, workspace);
    RelationEdgesDistinct(db, workspace);
    forall x ensures Kinds(cs, ts, ms, rs, x) { KindShows(db, workspace, x); }
    forall x, y | x in cs && y in ts ensures EdgeKey()(x) != EdgeKey()(y) {
      assert Kinds(cs, ts, ms, rs, x) && Kinds(cs, ts, ms, rs, y);
    }
    ConcatDistinct(cs, ts, EdgeKey());
    forall x, y | x in cs + ts && y in ms ensures EdgeKey()(x) != EdgeKey()(y) {
      assert Kinds(cs, ts, ms, rs, x) && Kinds(cs, ts, ms, rs, y);
    }
    ConcatDistinct(cs + ts, ms, EdgeKey());
    forall x, y | x in cs + ts + ms && y in rs ensures EdgeKey()(x) != EdgeKey()(y) {
      assert Kinds(cs, ts, ms, rs, x) && Kinds(cs, ts, ms, rs, y);
    }
    ConcatDistinct(cs + ts + ms, rs, EdgeKey());
  }

  ghost predicate Kinds(cs: seq<Edge>, ts: seq<Edge>, ms: seq<Edge>, rs: seq<Edge>, x: Edge) {
    && (x in cs ==> x.id != "" && x.id[0] == 'd' && !Plain(x.id))
    && (x in ts ==> x.id != "" && x.id[0] == 'e' && !Plain(x.id))
    && (x in ms ==> x.id != "" && x.id[0] == 'm' && !Plain(x.id))
    && (x in rs ==> Plain(x.id))
  }

  /** So with unique keys and plain ids a sync stores every projected record under its id. */
  lemma SyncStoresAll(g: Graph, db: Database, workspace: string)
    requires g.Valid() && UniqueRows(db) && PlainRows(db)
    ensures var g1 := Synced(g, db, workspace);
            && (forall n :: n in ProjectedNodes(db, workspace) ==> n.id in g1.nodes.at && g1.nodes.at[n.id] == n)
            && (forall e :: e in ProjectedEdges(db, workspace) ==> e.id in g1.edges.at && g1.edges.at[e.id] == e)
  {
    var ns, es := ProjectedNodes(db, workspace), ProjectedEdges(db, workspace);
    NodesAreDistinct(db, workspace);
    EdgesAreDistinct(db, workspace);
    forall i, j | 0 <= i < j < |ns| ensures ns[i].id != ns[j].id { assert NodeKey()(ns[i]) != NodeKey()(ns[j]); }
    forall i, j | 0 <= i < j < |es| ensures es[i].id != es[j].id { assert EdgeKey()(es[i]) != EdgeKey()(es[j]); }
    SyncAgreesWithProjection(g, db, workspace);
  }
}
