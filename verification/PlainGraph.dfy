/** What `path`, `neighbors` and `search` answer, in terms of the fields of the stored records alone. */
module PlainGraph {
  import opened BreadthFirst
  import opened GraphModel
  import opened Neighbourhood
  import opened OrderedDict
  import opened Overview
  import opened Sequences
  import opened ShortestPath

  ghost predicate Joins(e: Edge, u: string, v: string) {
    (e.source == u && e.target == v) || (e.source == v && e.target == u)
  }

  ghost function ConfidenceOf(e: Edge): real {
    match e.confidence
    case None => 0.0
    case Some(c) => c
  }

  /** Its type is among the asked ones, if any are, and its confidence high enough, if a bound is given. */
  ghost predicate EdgeMeets(e: Edge, f: View)
    requires f.Filtered?
  {
    && (f.relationTypes != [] ==> e.relationType in f.relationTypes)
    && (f.minConfidence.Some? ==> ConfidenceOf(e) >= f.minConfidence.value)
  }

  ghost predicate NodeMeets(n: Node, f: View)
    requires f.Filtered?
  {
    f.nodeTypes != [] ==> n.nodeType in f.nodeTypes
  }

  /** The stored edge `k` joins `u` to `v`; where there are filters, it meets them, and so does the stored node `v`. */
  ghost predicate StepMeets(g: Graph, f: View, u: string, k: string, v: string) {
    && k in g.edges.at && Joins(g.edges.at[k], u, v)
    && (f.Filtered? ==> EdgeMeets(g.edges.at[k], f) && v in g.nodes.at && NodeMeets(g.nodes.at[v], f))
  }

  lemma LinkIff(g: Graph, f: View, u: string, k: string, v: string)
    ensures Link(g, f, u, k, v) <==> StepMeets(g, f, u, k, v)
  {
  }

  /** A way from `a` to `b` over the edges `es`, visiting the nodes `ns`. */
  ghost predicate Trail(g: Graph, f: View, a: string, b: string, ns: seq<string>, es: seq<string>) {
    && |ns| == |es| + 1 && ns[0] == a && ns[|es|] == b
    && forall i :: 0 <= i < |es| ==> StepMeets(g, f, ns[i], es[i], ns[i + 1])
  }

  lemma TrailIff(g: Graph, f: View, a: string, b: string, ns: seq<string>, es: seq<string>)
    ensures WalkBetween(g, f, a, b, ns, es) <==> Trail(g, f, a, b, ns, es)
  {
    forall u, k, v ensures Link(g, f, u, k, v) <==> StepMeets(g, f, u, k, v) { LinkIff(g, f, u, k, v); }
  }

  // ----- path -----

  /** The answer is a way from `source` to `target` of 1 to `maxDepth` stored edges, and none with fewer exists. */
  ghost predicate IsShortestTrail(g: Graph, source: string, target: string, maxDepth: int, r: Subgraph) {
    && 1 <= |r.edges| <= maxDepth && |r.nodes| == |r.edges| + 1
    && r.nodes[0].id == source && r.nodes[|r.edges|].id == target
    && (forall i :: 0 <= i < |r.nodes| ==> r.nodes[i].id in g.nodes.at && r.nodes[i] == g.nodes.at[r.nodes[i].id])
    && (forall i :: 0 <= i < |r.edges| ==> r.edges[i].id in g.edges.at && r.edges[i] == g.edges.at[r.edges[i].id])
    && (forall i :: 0 <= i < |r.edges| ==> Joins(r.edges[i], r.nodes[i].id, r.nodes[i + 1].id))
    && (forall ns, es :: Trail(g, Unfiltered, source, target, ns, es) && es != [] ==> |r.edges| <= |es|)
  }

  ghost predicate NoTrail(g: Graph, source: string, target: string, maxDepth: int) {
    forall ns, es :: Trail(g, Unfiltered, source, target, ns, es) && es != [] ==> |es| > maxDepth
  }

  /** A shortest way visits a node that is not stored. */
  ghost predicate TrailMisses(g: Graph, source: string, target: string, maxDepth: int, id: string) {
    exists ns, es :: Trail(g, Unfiltered, source, target, ns, es) && 1 <= |es| <= maxDepth && id in ns
        && forall ms, fs :: Trail(g, Unfiltered, source, target, ms, fs) && fs != [] ==> |es| <= |fs|
  }

  ghost predicate PlainPath(g: Graph, source: string, target: string, maxDepth: int, r: PathResult) {
    if r == Found(EMPTY_SUBGRAPH) then
      source !in g.nodes.at || target !in g.nodes.at || NoTrail(g, source, target, maxDepth)
    else
      && source in g.nodes.at && target in g.nodes.at
      && (r.Found? ==> IsShortestTrail(g, source, target, maxDepth, r.subgraph))
      && (r.KeyError? ==> r.id !in g.nodes.at && TrailMisses(g, source, target, maxDepth, r.id))
  }

  lemma TripIsShortestTrail(g: Graph, source: string, target: string, ns: seq<string>, es: seq<string>)
    requires FirstTrip(g, source, target, ns, es)
    ensures Trail(g, Unfiltered, source, target, ns, es)
    ensures forall ms, fs :: Trail(g, Unfiltered, source, target, ms, fs) && fs != [] ==> |es| <= |fs|
  {
    FirstTripIsShortest(g, source, target, ns, es);
    TrailIff(g, Unfiltered, source, target, ns, es);
    forall ms, fs | Trail(g, Unfiltered, source, target, ms, fs) && fs != [] ensures |es| <= |fs| {
      TrailIff(g, Unfiltered, source, target, ms, fs);
    }
  }

  lemma ReportedTrail(g: Graph, source: string, target: string, maxDepth: int, ns: seq<string>, es: seq<string>,
                      r: PathResult)
    requires g.Valid() && FirstTrip(g, source, target, ns, es) && |es| <= maxDepth && Reports(g, ns, es, r)
    ensures r.Found? ==> IsShortestTrail(g, source, target, maxDepth, r.subgraph)
    ensures r.KeyError? ==> r.id !in g.nodes.at && TrailMisses(g, source, target, maxDepth, r.id)
  {
    TripIsShortestTrail(g, source, target, ns, es);
    if r.Found? {
      forall i | 0 <= i < |es| ensures Joins(r.subgraph.edges[i], r.subgraph.nodes[i].id, r.subgraph.nodes[i + 1].id) {
        assert StepMeets(g, Unfiltered, ns[i], es[i], ns[i + 1]);
      }
    } else {
      var i :| FirstMissing(g, ns, r.id, i);
      assert r.id in ns;
    }
  }

  /** What `path` promises, in plain terms. */
  lemma PathInPlainTerms(g: Graph, source: string, target: string, maxDepth: int, r: PathResult)
    requires g.Valid() && PathAnswer(g, source, target, maxDepth, r)
    ensures PlainPath(g, source, target, maxDepth, r)
  {
    if source in g.nodes.at && target in g.nodes.at {
      if Connected(g, source, target, maxDepth) {
        var ns, es :| FirstTrip(g, source, target, ns, es) && |es| <= maxDepth && Reports(g, ns, es, r);
        ReportedTrail(g, source, target, maxDepth, ns, es, r);
        assert r != Found(EMPTY_SUBGRAPH);
      } else {
        forall ns, es | Trail(g, Unfiltered, source, target, ns, es) && es != [] ensures |es| > maxDepth {
          TrailIff(g, Unfiltered, source, target, ns, es);
        }
      }
    }
  }

  // ----- neighbors -----

  /** Whatever is returned meets the filters, apart from the seed. */
  ghost predicate FiltersKept(f: View, seed: string, r: Subgraph)
    requires f.Filtered?
  {
    && (forall e :: e in r.edges ==> EdgeMeets(e, f))
    && (forall n :: n in r.nodes && n.id != seed ==> NodeMeets(n, f))
  }

  /** The nodes are those that some way of at most `depth` edges leads to, and the edges those that meet the filters at
      a node on fewer. */
  ghost predicate WholeBall(g: Graph, f: View, seed: string, depth: int, r: Subgraph) {
    && (forall v :: HasNode(r, v) <==> v == seed || exists ns, es :: Trail(g, f, seed, v, ns, es) && |es| <= depth)
    && (forall k :: HasEdge(r, k) <==>
          exists ns, es, u, v :: Trail(g, f, seed, u, ns, es) && |es| < depth && StepMeets(g, f, u, k, v))
  }

  lemma NodesMeet(g: Graph, f: View, seed: string, depth: int, r: Subgraph, n: Node)
    requires f.Filtered? && Sound(g, f, seed, depth, r) && n in r.nodes && n.id != seed
    ensures NodeMeets(n, f)
  {
    var i :| 0 <= i < |r.nodes| && r.nodes[i] == n;
    assert ReachedInside(g, f, r, seed, r.nodes[i].id, Bound(depth));
    var es :| Leads(g, f, seed, es, n.id) && |es| <= Bound(depth) && forall j :: 0 <= j < |es| ==> HasEdge(r, es[j]);
    var ns :| WalkBetween(g, f, seed, n.id, ns, es);
    var m := |es| - 1;
    assert es != [];
    assert Link(g, f, ns[m], es[m], ns[m + 1]);
    LinkIff(g, f, ns[m], es[m], ns[m + 1]);
  }

  lemma AnswerMeets(g: Graph, f: View, seed: string, depth: int, r: Subgraph)
    requires f.Filtered? && Sound(g, f, seed, depth, r)
    ensures FiltersKept(f, seed, r)
  {
    forall n | n in r.nodes && n.id != seed ensures NodeMeets(n, f) { NodesMeet(g, f, seed, depth, r, n); }
    forall e | e in r.edges ensures EdgeMeets(e, f) {
      var i :| 0 <= i < |r.edges| && r.edges[i] == e;
      assert f.AdmitsEdge(r.edges[i]);
    }
  }

  lemma WithinIff(g: Graph, f: View, seed: string, d: int, v: string)
    ensures Within(g, f, seed, d, v) <==> exists ns, es :: Trail(g, f, seed, v, ns, es) && |es| <= d
  {
    if ns, es :| WalkBetween(g, f, seed, v, ns, es) && |es| <= d { TrailIff(g, f, seed, v, ns, es); }
    if ns, es :| Trail(g, f, seed, v, ns, es) && |es| <= d { TrailIff(g, f, seed, v, ns, es); }
  }

  lemma LeadsOnIff(g: Graph, f: View, seed: string, depth: int, k: string)
    ensures LeadsOn(g, f, seed, depth - 1, k)
            <==> exists ns, es, u, v :: Trail(g, f, seed, u, ns, es) && |es| < depth && StepMeets(g, f, u, k, v)
  {
    if u, v :| Within(g, f, seed, depth - 1, u) && Link(g, f, u, k, v) {
      WithinIff(g, f, seed, depth - 1, u);
      LinkIff(g, f, u, k, v);
      var ns, es :| Trail(g, f, seed, u, ns, es) && |es| <= depth - 1;
    }
    if ns, es, u, v :| Trail(g, f, seed, u, ns, es) && |es| < depth && StepMeets(g, f, u, k, v) {
      WithinIff(g, f, seed, depth - 1, u);
      LinkIff(g, f, u, k, v);
    }
  }

  lemma SeedIsInside(g: Graph, f: View, seed: string, depth: int, v: string)
    ensures Within(g, f, seed, Bound(depth), v)
            <==> v == seed || exists ns, es :: Trail(g, f, seed, v, ns, es) && |es| <= depth
  {
    WithinIff(g, f, seed, Bound(depth), v);
    assert Trail(g, f, seed, seed, [seed], []);
    if ns, es :| Trail(g, f, seed, v, ns, es) && |es| <= Bound(depth) { assert |es| == 0 || |es| <= depth; }
  }

  lemma ExactIsWholeBall(g: Graph, f: View, seed: string, depth: int, r: Subgraph)
    requires Exact(g, f, seed, depth, r)
    ensures WholeBall(g, f, seed, depth, r)
  {
    forall v
      ensures HasNode(r, v) <==> v == seed || exists ns, es :: Trail(g, f, seed, v, ns, es) && |es| <= depth
    {
      SeedIsInside(g, f, seed, depth, v);
    }
    forall k
      ensures HasEdge(r, k) <==>
              exists ns, es, u, v :: Trail(g, f, seed, u, ns, es) && |es| < depth && StepMeets(g, f, u, k, v)
    {
      LeadsOnIff(g, f, seed, depth, k);
    }
  }

  /** What `neighbors` promises about its filters, in plain terms. */
  lemma NeighboursInPlainTerms(g: Graph, f: View, seed: string, depth: int, limit: int, r: Subgraph)
    requires f.Filtered? && NeighboursPromised(g, f, seed, depth, limit, r)
    ensures FiltersKept(f, seed, r) && (|r.nodes| < limit ==> WholeBall(g, f, seed, depth, r))
  {
    AnswerMeets(g, f, seed, depth, r);
    NeverMoreThanOneOver(g, f, seed, depth, limit, r);
    if |r.nodes| < limit { ExactIsWholeBall(g, f, seed, depth, r); }
  }

  // ----- search -----

  /** The stored nodes that a search is about. */
  ghost predicate Asked(n: Node, wildcard: bool, matches: Node -> bool, workspace: string, nodeTypes: seq<string>) {
    && "workspace_id" in n.properties && n.properties["workspace_id"] == workspace
    && (nodeTypes != [] ==> n.nodeType in nodeTypes)
    && (!wildcard ==> matches(n))
  }

  ghost function AskedIds(ns: seq<Node>, wildcard: bool, matches: Node -> bool, workspace: string,
                          nodeTypes: seq<string>): set<string> {
    set n | n in ns && Asked(n, wildcard, matches, workspace, nodeTypes) :: n.id
  }

  ghost predicate Inside(e: Edge, ids: set<string>) { e.source in ids && e.target in ids }

  ghost function Leaving(es: seq<Edge>, ids: set<string>, v: string): set<int> {
    set i | 0 <= i < |es| && Inside(es[i], ids) && es[i].source == v
  }

  ghost function Entering(es: seq<Edge>, ids: set<string>, v: string): set<int> {
    set i | 0 <= i < |es| && Inside(es[i], ids) && es[i].target == v
  }

  /** How many ends at `v` the edges inside `ids` have. */
  ghost function EndsAt(es: seq<Edge>, ids: set<string>, v: string): nat {
    |Leaving(es, ids, v)| + |Entering(es, ids, v)|
  }

  lemma LeavingLast(es: seq<Edge>, e: Edge, ids: set<string>, v: string)
    ensures Leaving(es + [e], ids, v) == Leaving(es, ids, v) + if Inside(e, ids) && e.source == v then {|es|} else {}
  {
  }

  lemma EnteringLast(es: seq<Edge>, e: Edge, ids: set<string>, v: string)
    ensures Entering(es + [e], ids, v) == Entering(es, ids, v) + if Inside(e, ids) && e.target == v then {|es|} else {}
  {
  }

  lemma {:induction false} DegreeCountsEnds(es: seq<Edge>, ids: set<string>, v: string)
    ensures Degree(es, ids, v) == EndsAt(es, ids, v)
  {
    if es != [] {
      var front, e := es[..|es| - 1], es[|es| - 1];
      DegreeCountsEnds(front, ids, v);
      LeavingLast(front, e, ids, v);
      EnteringLast(front, e, ids, v);
      SplitLast(es);
    }
  }

  ghost predicate LeftOut(ns: seq<Node>, r: Subgraph, wildcard: bool, matches: Node -> bool, workspace: string,
                          nodeTypes: seq<string>, n: Node) {
    n in ns && Asked(n, wildcard, matches, workspace, nodeTypes) && n !in r.nodes
  }

  ghost predicate InAnswer(r: Subgraph, id: string) { exists n :: n in r.nodes && n.id == id }

  /** At most `limit` nodes that were asked for, all of them if fewer came back, and all edges between them; a wildcard
      answer is sorted by the number of edge ends, and what it leaves out has no more of them. */
  ghost predicate PlainSearch(ns: seq<Node>, es: seq<Edge>, wildcard: bool, matches: Node -> bool, workspace: string,
                              limit: nat, nodeTypes: seq<string>, r: Subgraph) {
    && |r.nodes| <= limit
    && (forall n :: n in r.nodes ==> n in ns && Asked(n, wildcard, matches, workspace, nodeTypes))
    && (|r.nodes| < limit ==>
          forall n :: n in ns && Asked(n, wildcard, matches, workspace, nodeTypes) ==> n in r.nodes)
    && (forall e :: e in r.edges <==> e in es && InAnswer(r, e.source) && InAnswer(r, e.target))
    && (wildcard ==> RankedByEnds(ns, es, matches, workspace, nodeTypes, r))
  }

  lemma CandidatesAsked(ns: seq<Node>, wildcard: bool, matches: Node -> bool, workspace: string,
                        nodeTypes: seq<string>)
    ensures forall n :: n in Candidates(ns, wildcard, matches, workspace, nodeTypes)
                   <==> n in ns && Asked(n, wildcard, matches, workspace, nodeTypes)
    ensures Ids(Candidates(ns, wildcard, matches, workspace, nodeTypes))
            == AskedIds(ns, wildcard, matches, workspace, nodeTypes)
  {
    CandidatesOf(ns, wildcard, matches, workspace, nodeTypes);
  }

  ghost predicate RankedByEnds(ns: seq<Node>, es: seq<Edge>, matches: Node -> bool, workspace: string,
                               nodeTypes: seq<string>, r: Subgraph) {
    var ids := AskedIds(ns, true, matches, workspace, nodeTypes);
    && (forall i, j :: 0 <= i < j < |r.nodes| ==> EndsAt(es, ids, r.nodes[i].id) >= EndsAt(es, ids, r.nodes[j].id))
    && (forall a, b :: a in r.nodes && LeftOut(ns, r, true, matches, workspace, nodeTypes, b) ==>
          EndsAt(es, ids, a.id) >= EndsAt(es, ids, b.id))
  }

  lemma TopIsRankedByEnds(ns: seq<Node>, es: seq<Edge>, matches: Node -> bool, workspace: string, limit: nat,
                          nodeTypes: seq<string>, r: Subgraph)
    requires TopByDegree(es, Candidates(ns, true, matches, workspace, nodeTypes), limit, r.nodes)
    ensures RankedByEnds(ns, es, matches, workspace, nodeTypes, r)
  {
    var candidates := Candidates(ns, true, matches, workspace, nodeTypes);
    var ids := AskedIds(ns, true, matches, workspace, nodeTypes);
    CandidatesAsked(ns, true, matches, workspace, nodeTypes);
    forall v ensures Degree(es, ids, v) == EndsAt(es, ids, v) { DegreeCountsEnds(es, ids, v); }
    forall i, j | 0 <= i < j < |r.nodes| ensures EndsAt(es, ids, r.nodes[i].id) >= EndsAt(es, ids, r.nodes[j].id) {
      assert Outranks(es, candidates, r.nodes[i], r.nodes[j]);
    }
    forall a, b | a in r.nodes && LeftOut(ns, r, true, matches, workspace, nodeTypes, b)
      ensures EndsAt(es, ids, a.id) >= EndsAt(es, ids, b.id)
    {
      assert Outranks(es, candidates, a, b);
    }
  }

  /** What `search` promises, in plain terms. */
  lemma SearchInPlainTerms(ns: seq<Node>, es: seq<Edge>, wildcard: bool, matches: Node -> bool, workspace: string,
                           limit: nat, nodeTypes: seq<string>, r: Subgraph)
    requires SearchPromised(ns, es, wildcard, matches, workspace, limit, nodeTypes, r)
    ensures PlainSearch(ns, es, wildcard, matches, workspace, limit, nodeTypes, r)
  {
    CandidatesAsked(ns, wildcard, matches, workspace, nodeTypes);
    forall e ensures e in r.edges <==> e in es && InAnswer(r, e.source) && InAnswer(r, e.target) {
      assert Induced(e, Ids(r.nodes)) <==> InAnswer(r, e.source) && InAnswer(r, e.target);
    }
    if wildcard { TopIsRankedByEnds(ns, es, matches, workspace, limit, nodeTypes, r); }
  }
}
