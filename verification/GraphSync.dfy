/** Projecting the database into the graph store, and what the store then holds. */
module GraphSync {
  import opened GraphModel
  import opened KnowledgeBase
  import opened OrderedDict
  import opened Sequences
  import opened ShortestPath

  const YOUTUBE := "youtube"

  datatype DocumentRow = DocumentRow(id: string, workspace: string, title: string, sourceType: string,
                                     imported: Option<bool>)

  datatype ChunkRow = ChunkRow(id: string, docId: string, heading: Option<string>, content: string)

  datatype TypeRow = TypeRow(id: string, workspace: string, name: string)

  datatype Database = Database(documents: seq<DocumentRow>, chunks: seq<ChunkRow>, types: seq<TypeRow>,
                               relationTypes: map<string, string>, kb: KB)

  /** `knowledge_base_document_filter`: only an explicit False hides a video summary. */
  predicate Visible(d: DocumentRow) { d.sourceType != YOUTUBE || d.imported != Some(false) }

  predicate Shown(d: DocumentRow, workspace: string) { d.workspace == workspace && Visible(d) }

  predicate ChunkShown(db: Database, c: ChunkRow, workspace: string) {
    exists d :: d in db.documents && d.id == c.docId && Shown(d, workspace)
  }

  /** The join with the relation type finds one. */
  predicate RelationShown(db: Database, r: Relation, workspace: string) {
    r.workspace == workspace && r.relationType in db.relationTypes
  }

  // ----- nodes -----

  function DocumentNode(d: DocumentRow): Node {
    Node(d.id, d.title, "document", map["workspace_id" := d.workspace, "source_type" := d.sourceType])
  }

  /** Labelled by its heading, or the start of its text. */
  function ChunkNode(c: ChunkRow, workspace: string): Node {
    var text := if c.heading.Some? && c.heading.value != "" then c.heading.value
                else if |c.content| <= 80 then c.content else c.content[..80];
    Node(c.id, text, "chunk", map["workspace_id" := workspace, "doc_id" := c.docId])
  }

  function TypeNode(t: TypeRow): Node { Node(t.id, t.name, "entity_type", map["workspace_id" := t.workspace]) }

  /** An entity's own properties override the standard ones. */
  function EntityNode(e: Entity): Node {
    Node(e.id, e.name, "entity",
         map["workspace_id" := e.workspace, "entity_type_id" := e.typeId, "normalized_name" := e.normalized]
             + e.properties)
  }

  function DocumentNodes(db: Database, workspace: string): seq<Node> {
    Picked(db.documents, (d: DocumentRow) => Shown(d, workspace), (d: DocumentRow) => DocumentNode(d))
  }

  function ChunkNodes(db: Database, workspace: string): seq<Node> {
    Picked(db.chunks, (c: ChunkRow) => ChunkShown(db, c, workspace), (c: ChunkRow) => ChunkNode(c, workspace))
  }

  function TypeNodes(db: Database, workspace: string): seq<Node> {
    Picked(db.types, (t: TypeRow) => t.workspace == workspace, (t: TypeRow) => TypeNode(t))
  }

  function EntityNodes(db: Database, workspace: string): seq<Node> {
    Picked(db.kb.entities, (e: Entity) => e.workspace == workspace, (e: Entity) => EntityNode(e))
  }

  function ProjectedNodes(db: Database, workspace: string): seq<Node> {
    DocumentNodes(db, workspace) + ChunkNodes(db, workspace) + TypeNodes(db, workspace) + EntityNodes(db, workspace)
  }

  // ----- edges -----

  function ChunkEdge(c: ChunkRow): Edge {
    Edge("doc_chunk:" + c.docId + ":" + c.id, c.docId, c.id, "contains_chunk", Some(1.0))
  }

  function TypeEdge(e: Entity): Edge {
    Edge("entity_type:" + e.typeId + ":" + e.id, e.typeId, e.id, "has_entity", Some(1.0))
  }

  /** Joined with the relation type, whose name becomes the edge's type. */
  function RelationEdge(r: Relation, types: map<string, string>): Edge {
    Edge(r.id, r.source, r.target, if r.relationType in types then types[r.relationType] else "", Some(r.confidence))
  }

  function ChunkEdges(db: Database, workspace: string): seq<Edge> {
    Picked(db.chunks, (c: ChunkRow) => ChunkShown(db, c, workspace), (c: ChunkRow) => ChunkEdge(c))
  }

  function TypeEdges(db: Database, workspace: string): seq<Edge> {
    Picked(db.kb.entities, (e: Entity) => e.workspace == workspace, (e: Entity) => TypeEdge(e))
  }

  /** Mentions are projected whether or not their document is visible. */
  function MentionEdgesOf(m: Mention): seq<Edge> {
    if m.chunkId.Some? && m.chunkId.value != "" then [DocumentMentionEdge(m), ChunkMentionEdge(m, m.chunkId.value)]
    else [DocumentMentionEdge(m)]
  }

  function DocumentMentionEdge(m: Mention): Edge {
    Edge("mention_doc:" + m.id, m.entityId, m.docId, "mentioned_in_document", Some(m.confidence))
  }

  function ChunkMentionEdge(m: Mention, chunk: string): Edge {
    Edge("mention_chunk:" + m.id, m.entityId, chunk, "mentioned_in_chunk", Some(m.confidence))
  }

  function MentionEdges(rows: seq<Mention>, workspace: string): seq<Edge> {
    if rows == [] then []
    else
      var m := rows[|rows| - 1];
      MentionEdges(rows[..|rows| - 1], workspace) + if m.workspace == workspace then MentionEdgesOf(m) else []
  }

  function RelationEdges(db: Database, workspace: string): seq<Edge> {
    Picked(db.kb.relations, (r: Relation) => RelationShown(db, r, workspace),
           (r: Relation) => RelationEdge(r, db.relationTypes))
  }

  function ProjectedEdges(db: Database, workspace: string): seq<Edge> {
    ChunkEdges(db, workspace) + TypeEdges(db, workspace) + MentionEdges(db.kb.mentions, workspace)
        + RelationEdges(db, workspace)
  }

  // ----- which records are projected -----

  ghost predicate IsProjectedNode(db: Database, workspace: string, n: Node) {
    || (exists d :: d in db.documents && Shown(d, workspace) && DocumentNode(d) == n)
    || (exists c :: c in db.chunks && ChunkShown(db, c, workspace) && ChunkNode(c, workspace) == n)
    || (exists t :: t in db.types && t.workspace == workspace && TypeNode(t) == n)
    || (exists e :: e in db.kb.entities && e.workspace == workspace && EntityNode(e) == n)
  }

  ghost predicate IsProjectedEdge(db: Database, workspace: string, x: Edge) {
    || (exists c :: c in db.chunks && ChunkShown(db, c, workspace) && ChunkEdge(c) == x)
    || (exists e :: e in db.kb.entities && e.workspace == workspace && TypeEdge(e) == x)
    || (exists m :: m in db.kb.mentions && m.workspace == workspace && x in MentionEdgesOf(m))
    || (exists r :: r in db.kb.relations && RelationShown(db, r, workspace) && RelationEdge(r, db.relationTypes) == x)
  }

  /** Exactly the visible documents, their chunks, and the types and entities of the workspace become nodes. */
  lemma NodesAreRows(db: Database, workspace: string, n: Node)
    ensures n in ProjectedNodes(db, workspace) <==> IsProjectedNode(db, workspace, n)
  {
    DocumentNodesAre(db, workspace, n);
    ChunkNodesAre(db, workspace, n);
    TypeNodesAre(db, workspace, n);
    EntityNodesAre(db, workspace, n);
  }

  lemma DocumentNodesAre(db: Database, workspace: string, n: Node)
    ensures n in DocumentNodes(db, workspace)
            <==> exists d :: d in db.documents && Shown(d, workspace) && DocumentNode(d) == n
  {
    PickedAre(db.documents, (d: DocumentRow) => Shown(d, workspace), (d: DocumentRow) => DocumentNode(d));
  }

  lemma ChunkNodesAre(db: Database, workspace: string, n: Node)
    ensures n in ChunkNodes(db, workspace)
            <==> exists c :: c in db.chunks && ChunkShown(db, c, workspace) && ChunkNode(c, workspace) == n
  {
    PickedAre(db.chunks, (c: ChunkRow) => ChunkShown(db, c, workspace), (c: ChunkRow) => ChunkNode(c, workspace));
  }

  lemma TypeNodesAre(db: Database, workspace: string, n: Node)
    ensures n in TypeNodes(db, workspace) <==> exists t :: t in db.types && t.workspace == workspace && TypeNode(t) == n
  {
    PickedAre(db.types, (t: TypeRow) => t.workspace == workspace, (t: TypeRow) => TypeNode(t));
  }

  lemma EntityNodesAre(db: Database, workspace: string, n: Node)
    ensures n in EntityNodes(db, workspace)
            <==> exists e :: e in db.kb.entities && e.workspace == workspace && EntityNode(e) == n
  {
    PickedAre(db.kb.entities, (e: Entity) => e.workspace == workspace, (e: Entity) => EntityNode(e));
  }

  /** Exactly the visible chunks, the entities, the mentions, visible or not, and the typed relations become edges. */
  lemma EdgesAreRows(db: Database, workspace: string, x: Edge)
    ensures x in ProjectedEdges(db, workspace) <==> IsProjectedEdge(db, workspace, x)
  {
    ChunkEdgesAre(db, workspace, x);
    TypeEdgesAre(db, workspace, x);
    MentionEdgesAre(db.kb.mentions, workspace, x);
    RelationEdgesAre(db, workspace, x);
  }

  lemma ChunkEdgesAre(db: Database, workspace: string, x: Edge)
    ensures x in ChunkEdges(db, workspace)
            <==> exists c :: c in db.chunks && ChunkShown(db, c, workspace) && ChunkEdge(c) == x
  {
    PickedAre(db.chunks, (c: ChunkRow) => ChunkShown(db, c, workspace), (c: ChunkRow) => ChunkEdge(c));
  }

  lemma TypeEdgesAre(db: Database, workspace: string, x: Edge)
    ensures x in TypeEdges(db, workspace)
            <==> exists e :: e in db.kb.entities && e.workspace == workspace && TypeEdge(e) == x
  {
    PickedAre(db.kb.entities, (e: Entity) => e.workspace == workspace, (e: Entity) => TypeEdge(e));
  }

  lemma RelationEdgesAre(db: Database, workspace: string, x: Edge)
    ensures x in RelationEdges(db, workspace) <==>
            exists r :: r in db.kb.relations && RelationShown(db, r, workspace)
                && RelationEdge(r, db.relationTypes) == x
  {
    PickedAre(db.kb.relations, (r: Relation) => RelationShown(db, r, workspace),
              (r: Relation) => RelationEdge(r, db.relationTypes));
  }

  lemma {:induction false} MentionEdgesAre(rows: seq<Mention>, workspace: string, x: Edge)
    ensures x in MentionEdges(rows, workspace)
            <==> exists m :: m in rows && m.workspace == workspace && x in MentionEdgesOf(m)
  {
    if rows != [] {
      MentionEdgesAre(rows[..|rows| - 1], workspace, x);
      SplitLast(rows);
    }
  }

  function Synced(g: Graph, db: Database, workspace: string): Graph
    requires g.nodes.Valid() && g.edges.Valid()
  {
    Graph(PutAll(g.nodes, ProjectedNodes(db, workspace), NodeKey()),
          PutAll(g.edges, ProjectedEdges(db, workspace), EdgeKey()))
  }

  function NodeIds(ns: seq<Node>): set<string> { set n | n in ns :: n.id }

  function EdgeIds(es: seq<Edge>): set<string> { set e | e in es :: e.id }

  ghost predicate DistinctNodes(ns: seq<Node>) { forall i, j :: 0 <= i < j < |ns| ==> ns[i].id != ns[j].id }

  ghost predicate DistinctEdges(es: seq<Edge>) { forall i, j :: 0 <= i < j < |es| ==> es[i].id != es[j].id }

  // ----- what a sync does -----

  lemma NodesAfterSync(d: Dict<Node>, ns: seq<Node>)
    requires d.Valid() && forall k :: k in d.at ==> d.at[k].id == k
    ensures var r := PutAll(d, ns, NodeKey());
            && r.at.Keys == d.at.Keys + NodeIds(ns)
            && (forall k :: k in r.at ==>
                  r.at[k].id == k && if k in NodeIds(ns) then r.at[k] in ns else r.at[k] == d.at[k])
            && (DistinctNodes(ns) ==> forall n :: n in ns ==> r.at[n.id] == n)
  {
    var r := PutAll(d, ns, NodeKey());
    PutAllKeys(d, ns, NodeKey());
    assert KeysOf(ns, NodeKey()) == NodeIds(ns);
    forall k | k in r.at ensures r.at[k].id == k && if k in NodeIds(ns) then r.at[k] in ns else r.at[k] == d.at[k] {
      PutAllRecords(d, ns, NodeKey(), k);
    }
    forall n | n in ns && DistinctNodes(ns) ensures r.at[n.id] == n {
      PutAllHolds(d, ns, NodeKey(), n);
    }
  }

  lemma EdgesAfterSync(d: Dict<Edge>, es: seq<Edge>)
    requires d.Valid() && forall k :: k in d.at ==> d.at[k].id == k
    ensures var r := PutAll(d, es, EdgeKey());
            && r.at.Keys == d.at.Keys + EdgeIds(es)
            && (forall k :: k in r.at ==>
                  r.at[k].id == k && if k in EdgeIds(es) then r.at[k] in es else r.at[k] == d.at[k])
            && (DistinctEdges(es) ==> forall e :: e in es ==> r.at[e.id] == e)
  {
    var r := PutAll(d, es, EdgeKey());
    PutAllKeys(d, es, EdgeKey());
    assert KeysOf(es, EdgeKey()) == EdgeIds(es);
    forall k | k in r.at ensures r.at[k].id == k && if k in EdgeIds(es) then r.at[k] in es else r.at[k] == d.at[k] {
      PutAllRecords(d, es, EdgeKey(), k);
    }
    forall e | e in es && DistinctEdges(es) ensures r.at[e.id] == e {
      PutAllHolds(d, es, EdgeKey(), e);
    }
  }

  /** The store agrees with the projection on every projected record and is unchanged under every other id, so what
      was projected earlier and has since left the database stays. */
  lemma SyncAgreesWithProjection(g: Graph, db: Database, workspace: string)
    requires g.Valid()
    ensures var g1 := Synced(g, db, workspace);
            var ns, es := ProjectedNodes(db, workspace), ProjectedEdges(db, workspace);
            && g1.Valid()
            && (DistinctNodes(ns) ==> forall n :: n in ns ==> n.id in g1.nodes.at && g1.nodes.at[n.id] == n)
            && (DistinctEdges(es) ==> forall e :: e in es ==> e.id in g1.edges.at && g1.edges.at[e.id] == e)
            && (forall k :: k !in NodeIds(ns) ==>
                  (k in g1.nodes.at <==> k in g.nodes.at) && (k in g.nodes.at ==> g1.nodes.at[k] == g.nodes.at[k]))
            && (forall k :: k !in EdgeIds(es) ==>
                  (k in g1.edges.at <==> k in g.edges.at) && (k in g.edges.at ==> g1.edges.at[k] == g.edges.at[k]))
  {
    NodesAfterSync(g.nodes, ProjectedNodes(db, workspace));
    EdgesAfterSync(g.edges, ProjectedEdges(db, workspace));
  }

  /** A second sync of an unchanged database changes nothing, not even the order of the records. */
  lemma SyncIsIdempotent(g: Graph, db: Database, workspace: string)
    requires g.Valid()
    ensures Synced(Synced(g, db, workspace), db, workspace) == Synced(g, db, workspace)
  {
    PutAllTwice(g.nodes, ProjectedNodes(db, workspace), NodeKey());
    PutAllTwice(g.edges, ProjectedEdges(db, workspace), EdgeKey());
  }

  // ----- edge endpoints -----

  predicate EndsIn(e: Edge, ids: set<string>) { e.source in ids && e.target in ids }

  ghost predicate AllEndIn(es: seq<Edge>, ids: set<string>) { forall e :: e in es ==> EndsIn(e, ids) }

  lemma ClosedAfterUpsert(nodes: Dict<Node>, edges: Dict<Edge>, ns: seq<Node>, es: seq<Edge>)
    requires Graph(nodes, edges).Valid() && Graph(nodes, edges).EdgeClosed()
    requires AllEndIn(es, NodeIds(ns) + nodes.at.Keys)
    ensures Graph(PutAll(nodes, ns, NodeKey()), PutAll(edges, es, EdgeKey())).EdgeClosed()
  {
    var nodes1, edges1 := PutAll(nodes, ns, NodeKey()), PutAll(edges, es, EdgeKey());
    NodesAfterSync(nodes, ns);
    EdgesAfterSync(edges, es);
    forall k | k in edges1.at ensures edges1.at[k].source in nodes1.at && edges1.at[k].target in nodes1.at {
      if k in EdgeIds(es) { assert EndsIn(edges1.at[k], NodeIds(ns) + nodes.at.Keys); } else { assert k in edges.at; }
    }
  }

  lemma EndsAfterUpsert(nodes: Dict<Node>, edges: Dict<Edge>, ns: seq<Node>, es: seq<Edge>)
    requires Graph(nodes, edges).Valid() && DistinctEdges(es)
    requires Graph(PutAll(nodes, ns, NodeKey()), PutAll(edges, es, EdgeKey())).EdgeClosed()
    ensures AllEndIn(es, NodeIds(ns) + nodes.at.Keys)
  {
    NodesAfterSync(nodes, ns);
    EdgesAfterSync(edges, es);
    forall e | e in es ensures EndsIn(e, NodeIds(ns) + nodes.at.Keys) {
      assert e.id in EdgeIds(es) && PutAll(edges, es, EdgeKey()).at[e.id] == e;
    }
  }

  /** Everything that rows of the workspace refer to is in the workspace, and every mentioned document is visible. */
  ghost predicate SelfContained(db: Database, workspace: string) {
    && (forall e :: e in db.kb.entities && e.workspace == workspace ==>
          exists t :: t in db.types && t.id == e.typeId && t.workspace == workspace)
    && (forall m :: m in db.kb.mentions && m.workspace == workspace ==>
          && LocalEntity(db, workspace, m.entityId)
          && (exists d :: d in db.documents && d.id == m.docId && Shown(d, workspace))
          && (m.chunkId.Some? && m.chunkId.value != "" ==>
                exists c :: c in db.chunks && c.id == m.chunkId.value && ChunkShown(db, c, workspace)))
    && (forall r :: r in db.kb.relations && r.workspace == workspace ==>
          LocalEntity(db, workspace, r.source) && LocalEntity(db, workspace, r.target))
  }

  ghost predicate LocalEntity(db: Database, workspace: string, id: string) {
    exists e :: e in db.kb.entities && e.id == id && e.workspace == workspace
  }

  /** A row with this id is projected to a node. */
  ghost predicate IsProjectedRow(db: Database, workspace: string, id: string) {
    || (exists d :: d in db.documents && d.id == id && Shown(d, workspace))
    || (exists c :: c in db.chunks && c.id == id && ChunkShown(db, c, workspace))
    || (exists t :: t in db.types && t.id == id && t.workspace == workspace)
    || LocalEntity(db, workspace, id)
  }

  ghost predicate Known(db: Database, workspace: string, stored: set<string>, id: string) {
    id in stored || IsProjectedRow(db, workspace, id)
  }

  ghost predicate MentionKnown(db: Database, workspace: string, stored: set<string>, m: Mention) {
    && Known(db, workspace, stored, m.entityId) && Known(db, workspace, stored, m.docId)
    && (m.chunkId.Some? && m.chunkId.value != "" ==> Known(db, workspace, stored, m.chunkId.value))
  }

  /** Every row that the entities, mentions and typed relations of the workspace refer to is projected, or its id is
      among the stored ones. */
  ghost predicate RefersToKnown(db: Database, workspace: string, stored: set<string>) {
    && (forall e :: e in db.kb.entities && e.workspace == workspace ==> Known(db, workspace, stored, e.typeId))
    && (forall m :: m in db.kb.mentions && m.workspace == workspace ==> MentionKnown(db, workspace, stored, m))
    && (forall r :: r in db.kb.relations && RelationShown(db, r, workspace) ==>
          Known(db, workspace, stored, r.source) && Known(db, workspace, stored, r.target))
  }

  lemma IdsAreRows(db: Database, workspace: string, id: string)
    ensures id in NodeIds(ProjectedNodes(db, workspace)) <==> IsProjectedRow(db, workspace, id)
  {
    if id in NodeIds(ProjectedNodes(db, workspace)) {
      var n :| n in ProjectedNodes(db, workspace) && n.id == id;
      NodesAreRows(db, workspace, n);
    }
    if d :| d in db.documents && d.id == id && Shown(d, workspace) { NodesAreRows(db, workspace, DocumentNode(d)); }
    if c :| c in db.chunks && c.id == id && ChunkShown(db, c, workspace) {
      NodesAreRows(db, workspace, ChunkNode(c, workspace));
    }
    if t :| t in db.types && t.id == id && t.workspace == workspace { NodesAreRows(db, workspace, TypeNode(t)); }
    if e :| e in db.kb.entities && e.id == id && e.workspace == workspace {
      NodesAreRows(db, workspace, EntityNode(e));
    }
  }

  ghost predicate EndsKnown(db: Database, workspace: string, stored: set<string>, x: Edge) {
    Known(db, workspace, stored, x.source) && Known(db, workspace, stored, x.target)
  }

  lemma ProjectedEdgeEnds(db: Database, workspace: string, stored: set<string>, x: Edge)
    requires RefersToKnown(db, workspace, stored) && IsProjectedEdge(db, workspace, x)
    ensures EndsKnown(db, workspace, stored, x)
  {
    if c :| c in db.chunks && ChunkShown(db, c, workspace) && ChunkEdge(c) == x {
      var d :| d in db.documents && d.id == c.docId && Shown(d, workspace);
    } else if e :| e in db.kb.entities && e.workspace == workspace && TypeEdge(e) == x {
      assert LocalEntity(db, workspace, e.id);
    } else if m :| m in db.kb.mentions && m.workspace == workspace && x in MentionEdgesOf(m) {
      assert MentionKnown(db, workspace, stored, m);
    } else {
      var r :| r in db.kb.relations && RelationShown(db, r, workspace)
          && RelationEdge(r, db.relationTypes) == x;
    }
  }

  lemma MentionEndsKnown(db: Database, workspace: string, stored: set<string>, m: Mention)
    requires forall x :: x in MentionEdgesOf(m) ==> EndsKnown(db, workspace, stored, x)
    ensures MentionKnown(db, workspace, stored, m)
  {
    assert DocumentMentionEdge(m) in MentionEdgesOf(m);
    if m.chunkId.Some? && m.chunkId.value != "" {
      assert ChunkMentionEdge(m, m.chunkId.value) in MentionEdgesOf(m);
    }
  }

  /** The ends of the projected edges, in terms of the rows. */
  lemma EdgesEndIff(db: Database, workspace: string, stored: set<string>)
    ensures AllEndIn(ProjectedEdges(db, workspace), NodeIds(ProjectedNodes(db, workspace)) + stored)
            <==> RefersToKnown(db, workspace, stored)
  {
    var es, ids := ProjectedEdges(db, workspace), NodeIds(ProjectedNodes(db, workspace)) + stored;
    forall x ensures EndsIn(x, ids) <==> EndsKnown(db, workspace, stored, x) {
      IdsAreRows(db, workspace, x.source);
      IdsAreRows(db, workspace, x.target);
    }
    forall x ensures x in es <==> IsProjectedEdge(db, workspace, x) { EdgesAreRows(db, workspace, x); }
    if RefersToKnown(db, workspace, stored) {
      forall x | x in es ensures EndsIn(x, ids) { ProjectedEdgeEnds(db, workspace, stored, x); }
    }
    if AllEndIn(es, ids) { RowsRefer(db, workspace, stored, es); }
  }

  lemma RowsRefer(db: Database, workspace: string, stored: set<string>, es: seq<Edge>)
    requires forall x :: x in es <==> IsProjectedEdge(db, workspace, x)
    requires forall x :: x in es ==> EndsKnown(db, workspace, stored, x)
    ensures RefersToKnown(db, workspace, stored)
  {
    forall e | e in db.kb.entities && e.workspace == workspace ensures Known(db, workspace, stored, e.typeId) {
      assert TypeEdge(e) in es;
    }
    forall m | m in db.kb.mentions && m.workspace == workspace ensures MentionKnown(db, workspace, stored, m) {
      assert forall x :: x in MentionEdgesOf(m) ==> x in es;
      MentionEndsKnown(db, workspace, stored, m);
    }
    forall r | r in db.kb.relations && RelationShown(db, r, workspace)
      ensures Known(db, workspace, stored, r.source) && Known(db, workspace, stored, r.target)
    {
      assert RelationEdge(r, db.relationTypes) in es;
    }
  }

  /** So for a self-contained workspace every sync keeps the store closed, which is what `path` relies on. */
  lemma SelfContainedSyncKeepsClosed(g: Graph, db: Database, workspace: string)
    requires g.Valid() && g.EdgeClosed() && SelfContained(db, workspace)
    ensures Synced(g, db, workspace).EdgeClosed()
  {
    assert g == Graph(g.nodes, g.edges);
    EdgesEndIff(db, workspace, g.nodes.at.Keys);
    ClosedAfterUpsert(g.nodes, g.edges, ProjectedNodes(db, workspace), ProjectedEdges(db, workspace));
  }

  /** One sync: the database as it then was, and the workspace. */
  datatype SyncRun = SyncRun(db: Database, workspace: string)

  function SyncAll(g: Graph, runs: seq<SyncRun>): (r: Graph)
    requires g.Valid()
    ensures r.nodes.Valid() && r.edges.Valid()
    decreases |runs|
  {
    if runs == [] then g
    else
      SyncAgreesWithProjection(g, runs[0].db, runs[0].workspace);
      SyncAll(Synced(g, runs[0].db, runs[0].workspace), runs[1..])
  }

  /** Over any run of syncs of any workspaces and database states, each self-contained at its time, the store stays
      closed, although records that have left the database remain in it. */
  lemma {:induction false} SyncRunsKeepClosed(g: Graph, runs: seq<SyncRun>)
    requires g.Valid() && g.EdgeClosed() && forall i :: 0 <= i < |runs| ==> SelfContained(runs[i].db, runs[i].workspace)
    ensures SyncAll(g, runs).Valid() && SyncAll(g, runs).EdgeClosed()
    decreases |runs|
  {
    if runs != [] {
      SyncAgreesWithProjection(g, runs[0].db, runs[0].workspace);
      SelfContainedSyncKeepsClosed(g, runs[0].db, runs[0].workspace);
      SyncRunsKeepClosed(Synced(g, runs[0].db, runs[0].workspace), runs[1..]);
    }
  }
}
