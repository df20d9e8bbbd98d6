/** When a sync leaves an edge whose end is not stored. */
module SyncClosure {
  import opened GraphModel
  import opened GraphSync
  import opened KnowledgeBase
  import opened OrderedDict
  import opened ProjectionIds

  /** Syncing a closed store leaves it closed exactly when every row that the rows of the workspace refer to is
      projected or already stored. */
  lemma SyncKeepsClosedIff(g: Graph, db: Database, workspace: string)
    requires g.Valid() && g.EdgeClosed() && UniqueRows(db) && PlainRows(db)
    ensures Synced(g, db, workspace).EdgeClosed() <==> RefersToKnown(db, workspace, g.nodes.at.Keys)
  {
    var ns, es := ProjectedNodes(db, workspace), ProjectedEdges(db, workspace);
    EdgesAreDistinct(db, workspace);
    forall i, j | 0 <= i < j < |es| ensures es[i].id != es[j].id { assert EdgeKey()(es[i]) != EdgeKey()(es[j]); }
    EdgesEndIff(db, workspace, g.nodes.at.Keys);
    assert g == Graph(g.nodes, g.edges);
    if RefersToKnown(db, workspace, g.nodes.at.Keys) { ClosedAfterUpsert(g.nodes, g.edges, ns, es); }
    if Synced(g, db, workspace).EdgeClosed() { EndsAfterUpsert(g.nodes, g.edges, ns, es); }
  }

  /** One mention of a document that is neither projected nor stored leaves a dangling edge. */
  lemma UnknownDocumentDangles(g: Graph, db: Database, workspace: string, m: Mention)
    requires g.Valid() && g.EdgeClosed() && UniqueRows(db) && PlainRows(db)
    requires m in db.kb.mentions && m.workspace == workspace && !Known(db, workspace, g.nodes.at.Keys, m.docId)
    ensures !Synced(g, db, workspace).EdgeClosed()
  {
    SyncKeepsClosedIff(g, db, workspace);
    assert !MentionKnown(db, workspace, g.nodes.at.Keys, m);
  }

  /** Mentions are not filtered by visibility, so one mention of a hidden document that is not stored does. */
  lemma HiddenMentionDangles(g: Graph, db: Database, workspace: string, m: Mention, d: DocumentRow)
    requires g.Valid() && g.EdgeClosed() && UniqueRows(db) && PlainRows(db)
    requires m in db.kb.mentions && m.workspace == workspace && d in db.documents && m.docId == d.id
    requires !Shown(d, workspace) && d.id !in g.nodes.at
    ensures !Synced(g, db, workspace).EdgeClosed()
  {
    OnlyItsRow(db, workspace, d);
    UnknownDocumentDangles(g, db, workspace, m);
  }

  /** With unique ids a document is projected only if it is visible in the workspace. */
  lemma OnlyItsRow(db: Database, workspace: string, d: DocumentRow)
    requires UniqueRows(db) && d in db.documents && !Shown(d, workspace)
    ensures !IsProjectedRow(db, workspace, d.id)
  {
    forall x | x in db.documents && x.id == d.id ensures x == d {
      var i, j :| 0 <= i < |db.documents| && 0 <= j < |db.documents| && db.documents[i] == x && db.documents[j] == d;
      if i < j { assert DocumentId()(db.documents[i]) != DocumentId()(db.documents[j]); }
      if j < i { assert DocumentId()(db.documents[j]) != DocumentId()(db.documents[i]); }
    }
  }
}
