/** What the graph store holds after a sync, in terms of the fields of the database rows. */
module SyncRows {
  import opened GraphModel
  import opened GraphSync
  import opened KnowledgeBase
  import opened OrderedDict
  import opened ProjectionIds

  // ----- the rows that count -----

  /** A document of the workspace that is not a video summary staged outside the knowledge base. */
  ghost predicate IsVisible(d: DocumentRow, workspace: string) {
    d.workspace == workspace && !(d.sourceType == "youtube" && d.imported == Some(false))
  }

  ghost predicate HasVisibleDocument(db: Database, c: ChunkRow, workspace: string) {
    exists d :: d in db.documents && d.id == c.docId && IsVisible(d, workspace)
  }

  // ----- nodes -----

  ghost predicate IsNode(g: Graph, id: string, labelText: string, nodeType: string) {
    && id in g.nodes.at && g.nodes.at[id].id == id
    && g.nodes.at[id].labelText == labelText && g.nodes.at[id].nodeType == nodeType
  }

  ghost predicate HasProperty(g: Graph, id: string, key: string, value: string) {
    id in g.nodes.at && key in g.nodes.at[id].properties && g.nodes.at[id].properties[key] == value
  }

  /** The heading, or without one the first 80 characters. */
  ghost predicate IsChunkLabel(c: ChunkRow, labelText: string) {
    if c.heading.Some? && c.heading.value != "" then labelText == c.heading.value
    else labelText <= c.content && |labelText| <= 80 && (|labelText| < 80 ==> labelText == c.content)
  }

  ghost predicate DocumentStored(g: Graph, d: DocumentRow) {
    && IsNode(g, d.id, d.title, "document")
    && HasProperty(g, d.id, "workspace_id", d.workspace) && HasProperty(g, d.id, "source_type", d.sourceType)
  }

  ghost predicate ChunkStored(g: Graph, c: ChunkRow, workspace: string) {
    && (exists labelText :: IsChunkLabel(c, labelText) && IsNode(g, c.id, labelText, "chunk"))
    && HasProperty(g, c.id, "workspace_id", workspace) && HasProperty(g, c.id, "doc_id", c.docId)
  }

  ghost predicate TypeStored(g: Graph, t: TypeRow) {
    IsNode(g, t.id, t.name, "entity_type") && HasProperty(g, t.id, "workspace_id", t.workspace)
  }

  /** Its own properties are there, and the standard ones where it has none of that name. */
  ghost predicate EntityStored(g: Graph, e: Entity) {
    && IsNode(g, e.id, e.name, "entity")
    && (forall key :: key in e.properties ==> HasProperty(g, e.id, key, e.properties[key]))
    && ("workspace_id" !in e.properties ==> HasProperty(g, e.id, "workspace_id", e.workspace))
    && ("entity_type_id" !in e.properties ==> HasProperty(g, e.id, "entity_type_id", e.typeId))
    && ("normalized_name" !in e.properties ==> HasProperty(g, e.id, "normalized_name", e.normalized))
  }

  ghost predicate NodesStored(g: Graph, db: Database, workspace: string) {
    && (forall d :: d in db.documents && IsVisible(d, workspace) ==> DocumentStored(g, d))
    && (forall c :: c in db.chunks && HasVisibleDocument(db, c, workspace) ==> ChunkStored(g, c, workspace))
    && (forall t :: t in db.types && t.workspace == workspace ==> TypeStored(g, t))
    && (forall e :: e in db.kb.entities && e.workspace == workspace ==> EntityStored(g, e))
  }

  /** The ids under which a sync stores nodes. */
  ghost predicate IsNodeId(db: Database, workspace: string, id: string) {
    || (exists d :: d in db.documents && d.id == id && IsVisible(d, workspace))
    || (exists c :: c in db.chunks && c.id == id && HasVisibleDocument(db, c, workspace))
    || (exists t :: t in db.types && t.id == id && t.workspace == workspace)
    || (exists e :: e in db.kb.entities && e.id == id && e.workspace == workspace)
  }

  // ----- edges -----

  ghost predicate IsEdge(g: Graph, id: string, source: string, target: string, relationType: string, confidence: real) {
    && id in g.edges.at && g.edges.at[id].id == id && g.edges.at[id].source == source && g.edges.at[id].target == target
    && g.edges.at[id].relationType == relationType && g.edges.at[id].confidence == Some(confidence)
  }

  /** A relation of the workspace whose type is known. */
  ghost predicate IsTyped(db: Database, r: Relation, workspace: string) {
    r.workspace == workspace && r.relationType in db.relationTypes
  }

  ghost predicate HasChunk(m: Mention) { m.chunkId.Some? && m.chunkId.value != "" }

  /** Documents point at their chunks, types at their entities, entities at where they are mentioned, and relations from
      their source to their target. */
  ghost predicate EdgesStored(g: Graph, db: Database, workspace: string) {
    && (forall c :: c in db.chunks && HasVisibleDocument(db, c, workspace) ==>
          IsEdge(g, "doc_chunk:" + c.docId + ":" + c.id, c.docId, c.id, "contains_chunk", 1.0))
    && (forall e :: e in db.kb.entities && e.workspace == workspace ==>
          IsEdge(g, "entity_type:" + e.typeId + ":" + e.id, e.typeId, e.id, "has_entity", 1.0))
    && (forall m :: m in db.kb.mentions && m.workspace == workspace ==>
          IsEdge(g, "mention_doc:" + m.id, m.entityId, m.docId, "mentioned_in_document", m.confidence))
    && (forall m :: m in db.kb.mentions && m.workspace == workspace && HasChunk(m) ==>
          IsEdge(g, "mention_chunk:" + m.id, m.entityId, m.chunkId.value, "mentioned_in_chunk", m.confidence))
    && (forall r :: r in db.kb.relations && IsTyped(db, r, workspace) ==>
          IsEdge(g, r.id, r.source, r.target, db.relationTypes[r.relationType], r.confidence))
  }

  /** The ids under which a sync stores edges. */
  ghost predicate IsEdgeId(db: Database, workspace: string, id: string) {
    || (exists c :: c in db.chunks && HasVisibleDocument(db, c, workspace) && id == "doc_chunk:" + c.docId + ":" + c.id)
    || (exists e :: e in db.kb.entities && e.workspace == workspace && id == "entity_type:" + e.typeId + ":" + e.id)
    || (exists m :: m in db.kb.mentions && m.workspace == workspace
                    && (id == "mention_doc:" + m.id || (HasChunk(m) && id == "mention_chunk:" + m.id)))
    || (exists r :: r in db.kb.relations && r.id == id && IsTyped(db, r, workspace))
  }

  /** With unique, separator-free row ids every row is stored as above; and in any case ids of other rows keep what they
      had, and no other id is new. */
  ghost predicate PlainlySynced(g: Graph, g1: Graph, db: Database, workspace: string) {
    && (UniqueRows(db) && PlainRows(db) ==> NodesStored(g1, db, workspace) && EdgesStored(g1, db, workspace))
    && (forall id :: id in g1.nodes.at <==> id in g.nodes.at || IsNodeId(db, workspace, id))
    && (forall id :: id in g1.edges.at <==> id in g.edges.at || IsEdgeId(db, workspace, id))
    && (forall id :: id in g.nodes.at && !IsNodeId(db, workspace, id) ==> g1.nodes.at[id] == g.nodes.at[id])
    && (forall id :: id in g.edges.at && !IsEdgeId(db, workspace, id) ==> g1.edges.at[id] == g.edges.at[id])
  }

  // ----- the proofs -----

  lemma ChunkShownIff(db: Database, c: ChunkRow, workspace: string)
    ensures ChunkShown(db, c, workspace) <==> HasVisibleDocument(db, c, workspace)
  {
  }

  lemma StoredNode(g: Graph, db: Database, workspace: string, n: Node)
    requires g.Valid() && UniqueRows(db) && PlainRows(db) && IsProjectedNode(db, workspace, n)
    ensures n.id in Synced(g, db, workspace).nodes.at && Synced(g, db, workspace).nodes.at[n.id] == n
  {
    SyncStoresAll(g, db, workspace);
    NodesAreRows(db, workspace, n);
  }

  lemma StoredEdge(g: Graph, db: Database, workspace: string, x: Edge)
    requires g.Valid() && UniqueRows(db) && PlainRows(db) && IsProjectedEdge(db, workspace, x)
    ensures x.id in Synced(g, db, workspace).edges.at && Synced(g, db, workspace).edges.at[x.id] == x
  {
    SyncStoresAll(g, db, workspace);
    EdgesAreRows(db, workspace, x);
  }

  lemma SyncedDocument(g: Graph, db: Database, workspace: string, d: DocumentRow)
    requires g.Valid() && UniqueRows(db) && PlainRows(db) && d in db.documents && IsVisible(d, workspace)
    ensures DocumentStored(Synced(g, db, workspace), d)
  {
    StoredNode(g, db, workspace, DocumentNode(d));
  }

  lemma SyncedChunk(g: Graph, db: Database, workspace: string, c: ChunkRow)
    requires g.Valid() && UniqueRows(db) && PlainRows(db) && c in db.chunks && HasVisibleDocument(db, c, workspace)
    ensures ChunkStored(Synced(g, db, workspace), c, workspace)
  {
    ChunkShownIff(db, c, workspace);
    StoredNode(g, db, workspace, ChunkNode(c, workspace));
    assert IsChunkLabel(c, ChunkNode(c, workspace).labelText);
  }

  lemma SyncedEntity(g: Graph, db: Database, workspace: string, e: Entity)
    requires g.Valid() && UniqueRows(db) && PlainRows(db) && e in db.kb.entities && e.workspace == workspace
    ensures EntityStored(Synced(g, db, workspace), e)
  {
    StoredNode(g, db, workspace, EntityNode(e));
  }

  lemma SyncedNodes(g: Graph, db: Database, workspace: string)
    requires g.Valid() && UniqueRows(db) && PlainRows(db)
    ensures NodesStored(Synced(g, db, workspace), db, workspace)
  {
    var g1 := Synced(g, db, workspace);
    forall d | d in db.documents && IsVisible(d, workspace) ensures DocumentStored(g1, d) {
      SyncedDocument(g, db, workspace, d);
    }
    forall c | c in db.chunks && HasVisibleDocument(db, c, workspace) ensures ChunkStored(g1, c, workspace) {
      SyncedChunk(g, db, workspace, c);
    }
    forall t | t in db.types && t.workspace == workspace ensures TypeStored(g1, t) {
      StoredNode(g, db, workspace, TypeNode(t));
    }
    forall e | e in db.kb.entities && e.workspace == workspace ensures EntityStored(g1, e) {
      SyncedEntity(g, db, workspace, e);
    }
  }

  lemma SyncedMentions(g: Graph, db: Database, workspace: string, m: Mention)
    requires g.Valid() && UniqueRows(db) && PlainRows(db) && m in db.kb.mentions && m.workspace == workspace
    ensures IsEdge(Synced(g, db, workspace), "mention_doc:" + m.id, m.entityId, m.docId, "mentioned_in_document",
                   m.confidence)
    ensures HasChunk(m) ==> IsEdge(Synced(g, db, workspace), "mention_chunk:" + m.id, m.entityId, m.chunkId.value,
                                   "mentioned_in_chunk", m.confidence)
  {
    var es := MentionEdgesOf(m);
    assert es[0] in es;
    StoredEdge(g, db, workspace, es[0]);
    if HasChunk(m) {
      assert es[1] in es;
      StoredEdge(g, db, workspace, es[1]);
    }
  }

  lemma SyncedEdges(g: Graph, db: Database, workspace: string)
    requires g.Valid() && UniqueRows(db) && PlainRows(db)
    ensures EdgesStored(Synced(g, db, workspace), db, workspace)
  {
    forall c | c in db.chunks && HasVisibleDocument(db, c, workspace)
      ensures IsEdge(Synced(g, db, workspace), "doc_chunk:" + c.docId + ":"
                     + c.id, c.docId, c.id, "contains_chunk", 1.0)
    {
      ChunkShownIff(db, c, workspace);
      StoredEdge(g, db, workspace, ChunkEdge(c));
    }
    forall e | e in db.kb.entities && e.workspace == workspace
      ensures IsEdge(Synced(g, db, workspace), "entity_type:" + e.typeId + ":"
                     + e.id, e.typeId, e.id, "has_entity", 1.0)
    {
      StoredEdge(g, db, workspace, TypeEdge(e));
    }
    forall m | m in db.kb.mentions && m.workspace == workspace
      ensures IsEdge(Synced(g, db, workspace), "mention_doc:" + m.id, m.entityId, m.docId, "mentioned_in_document",
                     m.confidence)
      ensures HasChunk(m) ==> IsEdge(Synced(g, db, workspace), "mention_chunk:" + m.id, m.entityId, m.chunkId.value,
                                     "mentioned_in_chunk", m.confidence)
    {
      SyncedMentions(g, db, workspace, m);
    }
    forall r | r in db.kb.relations && IsTyped(db, r, workspace)
      ensures IsEdge(Synced(g, db, workspace), r.id, r.source, r.target, db.relationTypes[r.relationType], r.confidence)
    {
      StoredEdge(g, db, workspace, RelationEdge(r, db.relationTypes));
    }
  }

  lemma NodeIdIff(db: Database, workspace: string, id: string)
    ensures id in NodeIds(ProjectedNodes(db, workspace)) <==> IsNodeId(db, workspace, id)
  {
    IdsAreRows(db, workspace, id);
    forall c ensures ChunkShown(db, c, workspace) <==> HasVisibleDocument(db, c, workspace) {
      ChunkShownIff(db, c, workspace);
    }
  }

  lemma EdgeOfId(db: Database, workspace: string, id: string)
    requires IsEdgeId(db, workspace, id)
    ensures exists x :: IsProjectedEdge(db, workspace, x) && x.id == id
  {
    if c :| c in db.chunks && HasVisibleDocument(db, c, workspace) && id == "doc_chunk:" + c.docId + ":" + c.id {
      ChunkShownIff(db, c, workspace);
      assert IsProjectedEdge(db, workspace, ChunkEdge(c));
    } else if e :| e in db.kb.entities && e.workspace == workspace && id == "entity_type:" + e.typeId + ":" + e.id {
      assert IsProjectedEdge(db, workspace, TypeEdge(e));
    } else if m :| m in db.kb.mentions && m.workspace == workspace && id == "mention_doc:" + m.id {
      assert MentionEdgesOf(m)[0] in MentionEdgesOf(m);
      assert IsProjectedEdge(db, workspace, DocumentMentionEdge(m));
    } else if m :| m in db.kb.mentions && m.workspace == workspace && HasChunk(m) && id == "mention_chunk:" + m.id {
      assert MentionEdgesOf(m)[1] in MentionEdgesOf(m);
      assert IsProjectedEdge(db, workspace, ChunkMentionEdge(m, m.chunkId.value));
    } else {
      var r :| r in db.kb.relations && r.id == id && IsTyped(db, r, workspace);
      assert IsProjectedEdge(db, workspace, RelationEdge(r, db.relationTypes));
    }
  }

  lemma IdOfEdge(db: Database, workspace: string, x: Edge)
    requires IsProjectedEdge(db, workspace, x)
    ensures IsEdgeId(db, workspace, x.id)
  {
    if c :| c in db.chunks && ChunkShown(db, c, workspace) && ChunkEdge(c) == x {
      ChunkShownIff(db, c, workspace);
    } else if m :| m in db.kb.mentions && m.workspace == workspace && x in MentionEdgesOf(m) {
      assert x.id == "mention_doc:" + m.id || (HasChunk(m) && x.id == "mention_chunk:" + m.id);
    }
  }

  lemma EdgeIdIff(db: Database, workspace: string, id: string)
    ensures id in EdgeIds(ProjectedEdges(db, workspace)) <==> IsEdgeId(db, workspace, id)
  {
    if id in EdgeIds(ProjectedEdges(db, workspace)) {
      var x :| x in ProjectedEdges(db, workspace) && x.id == id;
      EdgesAreRows(db, workspace, x);
      IdOfEdge(db, workspace, x);
    }
    if IsEdgeId(db, workspace, id) {
      EdgeOfId(db, workspace, id);
      var x :| IsProjectedEdge(db, workspace, x) && x.id == id;
      EdgesAreRows(db, workspace, x);
    }
  }

  /** What a sync promises, in plain terms. */
  lemma SyncInPlainTerms(g: Graph, db: Database, workspace: string)
    requires g.Valid()
    ensures PlainlySynced(g, Synced(g, db, workspace), db, workspace)
  {
    if UniqueRows(db) && PlainRows(db) {
      SyncedNodes(g, db, workspace);
      SyncedEdges(g, db, workspace);
    }
    NodesAfterSync(g.nodes, ProjectedNodes(db, workspace));
    EdgesAfterSync(g.edges, ProjectedEdges(db, workspace));
    forall id ensures id in NodeIds(ProjectedNodes(db, workspace)) <==> IsNodeId(db, workspace, id) {
      NodeIdIff(db, workspace, id);
    }
    forall id ensures id in EdgeIds(ProjectedEdges(db, workspace)) <==> IsEdgeId(db, workspace, id) {
      EdgeIdIff(db, workspace, id);
    }
  }
}
