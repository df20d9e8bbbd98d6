/** A workspace on which `path` raises a KeyError: two entities of different types, mentioned only in one document
    that the visibility filter hides. */
module HiddenDocument {
  import opened GraphModel
  import opened GraphSync
  import opened KnowledgeBase
  import opened OrderedDict
  import opened ShortestPath

  const WS := "ws"
  const DOC := "d"
  const HIDDEN := DocumentRow(DOC, WS, "summary", YOUTUBE, Some(false))
  const T1 := TypeRow("t1", WS, "company")
  const T2 := TypeRow("t2", WS, "product")
  const E1 := Entity("e1", WS, "t1", "Acme", "acme", [], 1.0, map[])
  const E2 := Entity("e2", WS, "t2", "Anvil", "anvil", [], 1.0, map[])
  const M1 := Mention("m1", WS, "e1", DOC, None, "Acme", 1.0)
  const M2 := Mention("m2", WS, "e2", DOC, None, "Anvil", 1.0)
  const DB := Database([HIDDEN], [], [T1, T2], map[], KB([E1, E2], [M1, M2], []))

  const MD1 := Edge("mention_doc:" + M1.id, "e1", DOC, "mentioned_in_document", Some(1.0))
  const MD2 := Edge("mention_doc:" + M2.id, "e2", DOC, "mentioned_in_document", Some(1.0))

  function AfterSync(): Graph { Synced(Graph(Empty(), Empty()), DB, WS) }

  lemma ProjectedEdgesAre(x: Edge)
    ensures x in ProjectedEdges(DB, WS) <==> x == TypeEdge(E1) || x == TypeEdge(E2) || x == MD1 || x == MD2
  {
    EdgesAreRows(DB, WS, x);
    assert MentionEdgesOf(M1) == [MD1] && MentionEdgesOf(M2) == [MD2];
    assert E1 in DB.kb.entities && E2 in DB.kb.entities && M1 in DB.kb.mentions && M2 in DB.kb.mentions;
    assert MD1 in MentionEdgesOf(M1) && MD2 in MentionEdgesOf(M2);
  }

  /** The edges of the store, by their ends. */
  lemma StoredEdgesAre(k: string)
    requires k in AfterSync().edges.at
    ensures AfterSync().edges.at[k] in {TypeEdge(E1), TypeEdge(E2), MD1, MD2}
  {
    var es := ProjectedEdges(DB, WS);
    EdgesAfterSync(Empty(), es);
    ProjectedEdgesAre(AfterSync().edges.at[k]);
  }

  lemma MentionsAreStored()
    ensures var es := AfterSync().edges.at; MD1.id in es && es[MD1.id] == MD1 && MD2.id in es && es[MD2.id] == MD2
  {
    var es := ProjectedEdges(DB, WS);
    EdgesAfterSync(Empty(), es);
    ProjectedEdgesAre(MD1);
    ProjectedEdgesAre(MD2);
    assert MD1.id in EdgeIds(es) && MD2.id in EdgeIds(es);
    StoredEdgesAre(MD1.id);
    StoredEdgesAre(MD2.id);
    IdsDiffer();
  }

  lemma IdsDiffer()
    ensures TypeEdge(E1).id == "entity_type:t1:e1" && TypeEdge(E2).id == "entity_type:t2:e2"
    ensures MD1.id != MD2.id && MD1.id[0] != TypeEdge(E1).id[0] && MD1.id[0] != TypeEdge(E2).id[0]
    ensures MD2.id[0] == MD1.id[0]
  {
    assert MD1.id[13] != MD2.id[13];
  }

  lemma StoredNodesAre()
    ensures var g := AfterSync(); "e1" in g.nodes.at && "e2" in g.nodes.at && DOC !in g.nodes.at
  {
    var ns := ProjectedNodes(DB, WS);
    NodesAfterSync(Empty(), ns);
    assert E1 in DB.kb.entities && E2 in DB.kb.entities;
    NodesAreRows(DB, WS, EntityNode(E1));
    NodesAreRows(DB, WS, EntityNode(E2));
    assert EntityNode(E1) in ns && EntityNode(E2) in ns;
    forall n | n in ns ensures n.id != DOC {
      NodesAreRows(DB, WS, n);
      ProjectedIsNotHidden(n);
    }
  }

  lemma ProjectedIsNotHidden(n: Node)
    requires IsProjectedNode(DB, WS, n)
    ensures n.id != DOC
  {
    assert !Shown(HIDDEN, WS);
    assert DB.documents == [HIDDEN] && DB.chunks == [] && DB.types == [T1, T2] && DB.kb.entities == [E1, E2];
  }

  /** From one entity to the other there is no walk of one edge, and the only one of two goes over the document. */
  lemma ShortWalks(ns: seq<string>, es: seq<string>)
    requires WalkBetween(AfterSync(), Unfiltered, "e1", "e2", ns, es) && |es| <= 2
    ensures |es| == 2 && ns[1] == DOC
  {
    var g := AfterSync();
    if |es| >= 1 {
      assert Link(g, Unfiltered, ns[0], es[0], ns[1]);
      StoredEdgesAre(es[0]);
      if |es| == 2 {
        assert Link(g, Unfiltered, ns[1], es[1], ns[2]);
        StoredEdgesAre(es[1]);
      }
    }
  }

  lemma WalkExists()
    ensures Connected(AfterSync(), "e1", "e2", 2)
  {
    var g := AfterSync();
    MentionsAreStored();
    assert Link(g, Unfiltered, "e1", MD1.id, DOC) && Link(g, Unfiltered, DOC, MD2.id, "e2");
    var ns, es := ["e1", DOC, "e2"], [MD1.id, MD2.id];
    assert WalkBetween(g, Unfiltered, "e1", "e2", ns, es);
  }

  /** The path between the two entities fails on the hidden document. */
  lemma HiddenDocumentBreaksPath(r: PathResult)
    requires PathAnswer(AfterSync(), "e1", "e2", 2, r)
    ensures r == KeyError(DOC)
  {
    var g := AfterSync();
    StoredNodesAre();
    WalkExists();
    var ns, es :| FirstTrip(g, "e1", "e2", ns, es) && |es| <= 2 && Reports(g, ns, es, r);
    ShortWalks(ns, es);
    assert r.KeyError?;
    var i :| FirstMissing(g, ns, r.id, i);
    assert i == 1;
  }
}
