/** The service that syncs the graph store before every query. */
module SyncService {
  import opened GraphModel
  import GraphStore
  import opened GraphSync
  import opened KnowledgeBase
  import opened Neighbourhood
  import opened OrderedDict
  import opened PlainGraph
  import opened Sequences
  import opened ShortestPath
  import opened SyncRows

  class GraphSyncService {
    const store: GraphStore.InMemoryGraphStore

    constructor (store: GraphStore.InMemoryGraphStore)
      ensures this.store == store
    {
      this.store := store;
    }

    static method ListMentionEdges(rows: seq<Mention>, workspace: string) returns (edges: seq<Edge>)
      ensures edges == MentionEdges(rows, workspace)
    {
      edges := [];
      for i := 0 to |rows|
        invariant edges == MentionEdges(rows[..i], workspace)
      {
        assert rows[..i + 1][..i] == rows[..i];
        var m := rows[i];
        if m.workspace == workspace {
          ghost var before := edges;
          edges := edges + [DocumentMentionEdge(m)];
          if m.chunkId.Some? && m.chunkId.value != "" {
            edges := edges + [ChunkMentionEdge(m, m.chunkId.value)];
          }
          assert edges == before + MentionEdgesOf(m);
        }
      }
      assert rows[..|rows|] == rows;
    }

    static method ListRelationEdges(db: Database, workspace: string) returns (edges: seq<Edge>)
      ensures edges == RelationEdges(db, workspace)
    {
      edges := [];
      var rows := db.kb.relations;
      ghost var p := (r: Relation) => RelationShown(db, r, workspace);
      ghost var f := (r: Relation) => RelationEdge(r, db.relationTypes);
      for i := 0 to |rows|
        invariant edges == Picked(rows[..i], p, f)
      {
        PickedNext(rows, i, p, f);
        var r := rows[i];
        if r.workspace == workspace && r.relationType in db.relationTypes {
          edges := edges + [Edge(r.id, r.source, r.target, db.relationTypes[r.relationType], Some(r.confidence))];
        }
      }
      assert rows[..|rows|] == rows;
    }

    static method ListEntityNodes(db: Database, workspace: string) returns (nodes: seq<Node>)
      ensures nodes == EntityNodes(db, workspace)
    {
      nodes := [];
      var rows := db.kb.entities;
      ghost var p, f := (e: Entity) => e.workspace == workspace, (e: Entity) => EntityNode(e);
      for i := 0 to |rows|
        invariant nodes == Picked(rows[..i], p, f)
      {
        PickedNext(rows, i, p, f);
        var e := rows[i];
        if e.workspace == workspace {
          var props := map["workspace_id" := e.workspace, "entity_type_id" := e.typeId,
                           "normalized_name" := e.normalized];
          nodes := nodes + [Node(e.id, e.name, "entity", props + e.properties)];
        }
      }
      assert rows[..|rows|] == rows;
    }

    method SyncWorkspace(db: Database, workspace: string) returns (nodeCount: nat, edgeCount: nat)
      requires store.Contents().Valid()
      modifies store
      ensures store.Contents() == Synced(old(store.Contents()), db, workspace) && store.Contents().Valid()
      ensures PlainlySynced(old(store.Contents()), store.Contents(), db, workspace)
      ensures nodeCount == |ProjectedNodes(db, workspace)| && edgeCount == |ProjectedEdges(db, workspace)|
    {
      var entityNodes := ListEntityNodes(db, workspace);
      var nodes := DocumentNodes(db, workspace) + ChunkNodes(db, workspace) + TypeNodes(db, workspace) + entityNodes;
      var mentionEdges := ListMentionEdges(db.kb.mentions, workspace);
      var relationEdges := ListRelationEdges(db, workspace);
      var edges := ChunkEdges(db, workspace) + TypeEdges(db, workspace) + mentionEdges + relationEdges;
      ghost var before := store.Contents();
      store.UpsertNodes(nodes);
      store.UpsertEdges(edges);
      SyncInPlainTerms(before, db, workspace);
      return |nodes|, |edges|;
    }

    /** Sync the entity's workspace, then select around it; nothing for an unknown entity. */
    method Neighbors(db: Database, entityId: string, depth: int, limit: int, nodeTypes: seq<string>,
                     relationTypes: seq<string>, minConfidence: Option<real>)
      returns (r: Subgraph)
      requires store.Contents().Valid()
      modifies store
      ensures entityId !in Ids(db.kb.entities) ==> r == EMPTY_SUBGRAPH && store.Contents() == old(store.Contents())
      ensures entityId in Ids(db.kb.entities) ==>
                && store.Contents() == Synced(old(store.Contents()), db, Find(db.kb.entities, entityId).value.workspace)
                && entityId in store.nodes.at
                && NeighboursPromised(store.Contents(), Filtered(nodeTypes, relationTypes, minConfidence), entityId,
                                      depth, limit, r)
                && FiltersKept(Filtered(nodeTypes, relationTypes, minConfidence), entityId, r)
    {
      var entity := Find(db.kb.entities, entityId);
      if entity.None? {
        return EMPTY_SUBGRAPH;
      }
      ghost var before := store.Contents();
      var _, _ := SyncWorkspace(db, entity.value.workspace);
      EntityIsStored(before, db, entity.value);
      r := store.Neighbors(entityId, depth, limit, nodeTypes, relationTypes, minConfidence);
    }

    static lemma EntityIsStored(g: Graph, db: Database, e: Entity)
      requires g.Valid() && e in db.kb.entities
      ensures e.id in Synced(g, db, e.workspace).nodes.at
    {
      assert LocalEntity(db, e.workspace, e.id);
      IdsAreRows(db, e.workspace, e.id);
      NodesAfterSync(g.nodes, ProjectedNodes(db, e.workspace));
    }

    /** Sync, then search the store. */
    method Search(db: Database, wildcard: bool, matches: Node -> bool, workspace: string, limit: int,
                  nodeTypes: seq<string>)
      returns (r: Subgraph)
      requires store.Contents().Valid()
      modifies store
      ensures store.Contents() == Synced(old(store.Contents()), db, workspace) && store.Contents().Valid()
      ensures limit >= 0 ==>
                PlainSearch(store.nodes.Values(), store.edges.Values(), wildcard, matches, workspace, limit, nodeTypes,
                            r)
    {
      var _, _ := SyncWorkspace(db, workspace);
      r := store.Search(wildcard, matches, workspace, limit, nodeTypes);
    }

    /** Sync, then search for a path: in a self-contained workspace it never fails on a missing node. */
    method Path(db: Database, source: string, target: string, workspace: string, maxDepth: int) returns (r: PathResult)
      requires store.Contents().Valid()
      modifies store
      ensures store.Contents() == Synced(old(store.Contents()), db, workspace) && store.Contents().Valid()
      ensures PathAnswer(store.Contents(), source, target, maxDepth, r)
      ensures PlainPath(store.Contents(), source, target, maxDepth, r)
      ensures old(store.Contents()).EdgeClosed() && SelfContained(db, workspace) ==> r.Found?
    {
      ghost var before := store.Contents();
      var _, _ := SyncWorkspace(db, workspace);
      r := store.Path(source, target, maxDepth);
      if before.EdgeClosed() && SelfContained(db, workspace) {
        SelfContainedSyncKeepsClosed(before, db, workspace);
        ClosedNeverMisses(store.Contents(), source, target, maxDepth);
        PathFailsIff(store.Contents(), source, target, maxDepth, r);
      }
    }
  }
}
