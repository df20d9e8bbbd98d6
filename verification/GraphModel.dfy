/** Nodes, edges and walks of the in-memory property graph. */
module GraphModel {
  import opened OrderedDict

  datatype Node = Node(id: string, labelText: string, nodeType: string, properties: map<string, string>)

  datatype Edge = Edge(id: string, source: string, target: string, relationType: string, confidence: Option<real>)
  {
    predicate Touches(u: string) { source == u || target == u }

    function OtherEnd(u: string): string { if source == u then target else source }
  }

  function NodeKey(): Node -> string { (n: Node) => n.id }

  function EdgeKey(): Edge -> string { (e: Edge) => e.id }

  /** One state of the store: both dictionaries are keyed by the record's own id. */
  datatype Graph = Graph(nodes: Dict<Node>, edges: Dict<Edge>) {
    ghost predicate Valid() {
      && nodes.Valid() && edges.Valid()
      && (forall k :: k in nodes.at ==> nodes.at[k].id == k)
      && (forall k :: k in edges.at ==> edges.at[k].id == k)
    }

    /** Every edge endpoint is a stored node. */
    ghost predicate EdgeClosed() {
      forall k :: k in edges.at ==> edges.at[k].source in nodes.at && edges.at[k].target in nodes.at
    }
  }

  datatype Subgraph = Subgraph(nodes: seq<Node>, edges: seq<Edge>)

  const EMPTY_SUBGRAPH := Subgraph([], [])

  /** Which steps a traversal may take. `path` takes all of them, `neighbors` filters;
      an empty list is the absent filter, as in the source's truthiness tests. */
  datatype View =
    | Unfiltered
    | Filtered(nodeTypes: seq<string>, relationTypes: seq<string>, minConfidence: Option<real>)
  {
    predicate AdmitsEdge(e: Edge) {
      Filtered? ==> EdgeAllowed(e, relationTypes, minConfidence)
    }

    predicate AdmitsNode(g: Graph, v: string) {
      Filtered? ==> v in g.nodes.at && NodeTypeAllowed(g.nodes.at[v], nodeTypes)
    }
  }

  predicate NodeTypeAllowed(n: Node, nodeTypes: seq<string>) {
    nodeTypes == [] || n.nodeType in nodeTypes
  }

  predicate EdgeAllowed(e: Edge, relationTypes: seq<string>, minConfidence: Option<real>) {
    && (relationTypes == [] || e.relationType in relationTypes)
    && (minConfidence.Some? ==> (if e.confidence.Some? then e.confidence.value else 0.0) >= minConfidence.value)
  }

  /** What `_incident_edges` lists. */
  ghost predicate IsIncident(g: Graph, u: string, relationTypes: seq<string>, minConfidence: Option<real>, e: Edge) {
    e.id in g.edges.at && g.edges.at[e.id] == e && e.Touches(u) && EdgeAllowed(e, relationTypes, minConfidence)
  }

  /** One step from `u` to `v` along the stored edge `eid`, in either direction of the edge. */
  ghost predicate Link(g: Graph, view: View, u: string, eid: string, v: string) {
    && eid in g.edges.at
    && g.edges.at[eid].Touches(u)
    && v == g.edges.at[eid].OtherEnd(u)
    && view.AdmitsEdge(g.edges.at[eid])
    && view.AdmitsNode(g, v)
  }

  /** `ns` are the nodes and `es` the edge ids of a walk. */
  ghost predicate Walk(g: Graph, view: View, ns: seq<string>, es: seq<string>) {
    && |ns| == |es| + 1
    && forall i :: 0 <= i < |es| ==> Link(g, view, ns[i], es[i], ns[i + 1])
  }

  ghost predicate WalkBetween(g: Graph, view: View, a: string, b: string, ns: seq<string>, es: seq<string>) {
    Walk(g, view, ns, es) && ns[0] == a && ns[|es|] == b
  }

  /** `b` is at most `d` steps from `a`. */
  ghost predicate Within(g: Graph, view: View, a: string, d: int, b: string) {
    exists ns, es :: WalkBetween(g, view, a, b, ns, es) && |es| <= d
  }

  lemma ExtendWalk(g: Graph, view: View, ns: seq<string>, es: seq<string>, eid: string, v: string)
    requires Walk(g, view, ns, es) && Link(g, view, ns[|es|], eid, v)
    ensures Walk(g, view, ns + [v], es + [eid])
  {
  }

  lemma WalkPrefix(g: Graph, view: View, ns: seq<string>, es: seq<string>, n: nat)
    requires Walk(g, view, ns, es) && n <= |es|
    ensures Walk(g, view, ns[..n + 1], es[..n])
  {
  }

  function Reverse<T>(s: seq<T>): (r: seq<T>)
    ensures |r| == |s| && forall i :: 0 <= i < |s| ==> r[i] == s[|s| - 1 - i]
  {
    seq(|s|, i requires 0 <= i < |s| => s[|s| - 1 - i])
  }

  /** The graph is undirected to `path`: a walk read backwards is a walk. */
  lemma WalkReversed(g: Graph, a: string, b: string, ns: seq<string>, es: seq<string>)
    requires WalkBetween(g, Unfiltered, a, b, ns, es)
    ensures WalkBetween(g, Unfiltered, b, a, Reverse(ns), Reverse(es))
  {
    forall i | 0 <= i < |es|
      ensures Link(g, Unfiltered, Reverse(ns)[i], Reverse(es)[i], Reverse(ns)[i + 1])
    {
      var j := |es| - 1 - i;
      assert Link(g, Unfiltered, ns[j], es[j], ns[j + 1]);
    }
  }
}
