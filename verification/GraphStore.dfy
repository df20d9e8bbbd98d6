/** The in-memory graph store: upserts, `path`, `neighbors` and `search` over its two dictionaries. */
module GraphStore {
  import opened BreadthFirst
  import opened GraphModel
  import opened Neighbourhood
  import opened OrderedDict
  import opened Overview
  import opened PlainGraph
  import opened Ranking
  import opened Selection
  import opened Sequences
  import opened ShortestPath

  function IncidentTest(u: string, relationTypes: seq<string>, minConfidence: Option<real>): Edge -> bool {
    (e: Edge) => e.Touches(u) && EdgeAllowed(e, relationTypes, minConfidence)
  }

  /** Edges listed in store order have increasing places in the store. */
  lemma PickedInStoreOrder(g: Graph, p: Edge -> bool)
    requires g.Valid()
    ensures var picked := Where(g.edges.Values(), p);
            forall i, j :: 0 <= i < j < |picked| ==>
              Rank(g.edges.order, picked[i].id) < Rank(g.edges.order, picked[j].id)
  {
    var all, order := g.edges.Values(), g.edges.order;
    var at := WhereFrom(all, p);
    forall i | 0 <= i < |at| ensures Rank(order, Where(all, p)[i].id) == at[i] {
      assert order[at[i]] in g.edges.at && all[at[i]].id == order[at[i]];
    }
  }

  /** The incident edges that pass the filters list the steps from the node. */
  lemma IncidentListsSteps(g: Graph, view: View, u: string, relationTypes: seq<string>, minConfidence: Option<real>,
                           incident: seq<Edge>)
    requires g.Valid() && incident == Where(g.edges.Values(), IncidentTest(u, relationTypes, minConfidence))
    requires if view.Unfiltered? then relationTypes == [] && minConfidence.None?
             else view.relationTypes == relationTypes && view.minConfidence == minConfidence
    ensures forall e :: e in incident <==> IsIncident(g, u, relationTypes, minConfidence, e)
    ensures ListsSteps(g, view, u, incident)
  {
    var p := IncidentTest(u, relationTypes, minConfidence);
    PickedInStoreOrder(g, p);
    WhereAre(g.edges.Values(), p);
    forall e ensures e in g.edges.Values() <==> e.id in g.edges.at && g.edges.at[e.id] == e { ValuesOf(g.edges, e); }
    forall k, v | Link(g, view, u, k, v) ensures k in FirstIds(incident, |incident|) {
      assert g.edges.at[k] in incident;
      var i :| 0 <= i < |incident| && incident[i] == g.edges.at[k];
    }
  }

  class InMemoryGraphStore {
    var nodes: Dict<Node>
    var edges: Dict<Edge>

    ghost function Contents(): Graph
      reads this
    {
      Graph(nodes, edges)
    }

    constructor ()
      ensures Contents() == Graph(Empty(), Empty()) && Contents().Valid()
    {
      nodes, edges := Empty(), Empty();
    }

    method UpsertNodes(ns: seq<Node>)
      requires Contents().Valid()
      modifies this`nodes
      ensures nodes == PutAll(old(nodes), ns, NodeKey()) && Contents().Valid()
    {
      for i := 0 to |ns|
        invariant nodes == PutAll(old(nodes), ns[..i], NodeKey()) && Contents().Valid()
      {
        PutAllNext(old(nodes), ns, NodeKey(), i);
        nodes := nodes.Put(ns[i].id, ns[i]);
      }
      assert ns[..|ns|] == ns;
    }

    method UpsertEdges(es: seq<Edge>)
      requires Contents().Valid()
      modifies this`edges
      ensures edges == PutAll(old(edges), es, EdgeKey()) && Contents().Valid()
    {
      for i := 0 to |es|
        invariant edges == PutAll(old(edges), es[..i], EdgeKey()) && Contents().Valid()
      {
        PutAllNext(old(edges), es, EdgeKey(), i);
        edges := edges.Put(es[i].id, es[i]);
      }
      assert es[..|es|] == es;
    }

    method IncidentEdges(nodeId: string, relationTypes: seq<string>, minConfidence: Option<real>, ghost view: View)
      returns (results: seq<Edge>)
      requires Contents().Valid()
      requires if view.Unfiltered? then relationTypes == [] && minConfidence.None?
               else view.relationTypes == relationTypes && view.minConfidence == minConfidence
      ensures results == Where(edges.Values(), IncidentTest(nodeId, relationTypes, minConfidence))
      ensures forall e :: e in results <==> IsIncident(Contents(), nodeId, relationTypes, minConfidence, e)
      ensures ListsSteps(Contents(), view, nodeId, results)
    {
      results := [];
      var all := edges.Values();
      ghost var p := IncidentTest(nodeId, relationTypes, minConfidence);
      for i := 0 to |all|
        invariant results == Where(all[..i], p)
      {
        WhereNext(all, i, p);
        var edge := all[i];
        if edge.Touches(nodeId) && EdgeAllowed(edge, relationTypes, minConfidence) {
          results := results + [edge];
        }
      }
      assert all[..|all|] == all;
      IncidentListsSteps(Contents(), view, nodeId, relationTypes, minConfidence, results);
    }

    method Report(ns: seq<string>, es: seq<string>) returns (r: PathResult)
      requires Contents().Valid() && Walk(Contents(), Unfiltered, ns, es)
      ensures Reports(Contents(), ns, es, r)
      ensures Contents().EdgeClosed() && ns[0] in nodes.at ==> r.Found?
    {
      if Contents().EdgeClosed() && ns[0] in nodes.at { WalkNodesStored(Contents(), ns, es); }
      var found: seq<Node> := [];
      for i := 0 to |ns|
        invariant |found| == i && forall j :: 0 <= j < i ==> ns[j] in nodes.at && found[j] == nodes.at[ns[j]]
      {
        if ns[i] !in nodes.at {
          assert FirstMissing(Contents(), ns, ns[i], i);
          return KeyError(ns[i]);
        }
        found := found + [nodes.at[ns[i]]];
      }
      forall i | 0 <= i < |es| ensures es[i] in edges.at {
        assert Link(Contents(), Unfiltered, ns[i], es[i], ns[i + 1]);
      }
      r := Found(Subgraph(found,
                          seq(|es|, i requires 0 <= i < |es| && es[i] in edges.at reads this => edges.at[es[i]])));
    }

    /** The inner loop of `path`: queue every unvisited end of an edge at `current`, or stop at `target`. */
    method FollowEdges(ghost t: Trip, target: string, current: PathEntry, queue0: seq<PathEntry>,
                       visited0: set<string>, ghost f0: Front, ghost c: nat, ghost universe: set<string>)
      returns (hit: Option<PathEntry>, queue: seq<PathEntry>, visited: set<string>, ghost f: Front)
      requires t.g == Contents() && t.g.Valid() && EndsIn(t.g, universe) && t.target == target
      requires f0.queue == queue0 && f0.visited == visited0
      requires Popped(t, f0, c, current, universe) && |current.edgePath| < t.maxDepth
      ensures hit.Some? ==>
                && FirstTrip(t.g, t.source, target, hit.value.nodePath, hit.value.edgePath)
                && |hit.value.edgePath| <= t.maxDepth
      ensures hit.None? ==>
                && f.queue == queue && f.visited == visited && Searching(t, f, c + 1, universe)
                && Advances(visited0, |queue0|, visited, |queue|)
    {
      queue, visited, f := queue0, visited0, f0;
      var incident := IncidentEdges(current.id, [], None, Unfiltered);
      FollowBegins(t, f, c, current, universe, incident);
      for k := 0 to |incident|
        invariant f.queue == queue && f.visited == visited && Following(t, current, f, c, incident, k, universe)
        invariant Advances(visited0, |queue0|, visited, |queue|)
      {
        var nextId := incident[k].OtherEnd(current.id);
        var next := PathEntry(nextId, current.nodePath + [nextId], current.edgePath + [incident[k].id]);
        if nextId == target {
          FollowsToTarget(t, current, f, c, incident, k, universe, next);
          hit := Some(next);
          return;
        }
        if nextId !in visited {
          FollowsToNew(t, current, f, c, incident, k, universe, next);
          AdvancesOn(visited0, |queue0|, visited, |queue|, nextId);
          visited := visited + {nextId};
          queue := queue + [next];
          f := f.Add(next);
        } else {
          FollowsToKnown(t, current, f, c, incident, k, universe);
        }
      }
      hit := None;
      FollowEnds(t, f, c, current, universe, incident);
    }

    /** Breadth-first search for the first one of the shortest walks of at least one edge. */
    method Path(source: string, target: string, maxDepth: int) returns (r: PathResult)
      requires Contents().Valid()
      ensures PathAnswer(Contents(), source, target, maxDepth, r)
      ensures PlainPath(Contents(), source, target, maxDepth, r)
    {
      if source !in nodes.at || target !in nodes.at {
        return Found(EMPTY_SUBGRAPH);
      }
      ghost var t, universe := Trip(Contents(), source, target, maxDepth), {source} + Endpoints(edges);
      var queue := [PathEntry(source, [source], [])];
      var visited := {source};
      ghost var f, h: nat := Front(queue, visited, [source], [[]]), 0;
      SearchStarts(t, universe);
      while queue != []
        invariant f.queue == queue && f.visited == visited && Searching(t, f, h, universe)
        decreases universe - visited, |queue|
      {
        var current := queue[0];
        SearchPops(t, f, h, universe);
        queue := queue[1..];
        f := Front(queue, visited, f.found, f.walks);
        if |current.edgePath| < maxDepth {
          var hit;
          ghost var before := f;
          hit, queue, visited, f := FollowEdges(t, target, current, queue, visited, f, h, universe);
          if hit.Some? {
            TripConnects(t.g, source, target, maxDepth, hit.value.nodePath, hit.value.edgePath);
            r := Report(hit.value.nodePath, hit.value.edgePath);
            PathInPlainTerms(t.g, source, target, maxDepth, r);
            return;
          }
          UnvisitedShrinks(universe, before.visited, |before.queue|, visited, |queue|);
        } else {
          SearchSkips(t, f, h, current, universe);
        }
        h := h + 1;
      }
      SearchEnds(t, f, h, universe);
      r := Found(EMPTY_SUBGRAPH);
      PathInPlainTerms(t.g, source, target, maxDepth, r);
    }

    /** One round of the inner loop of `neighbors`: keep an edge at `current` and its other end. */
    method SelectEdge(nodeTypes: seq<string>, depth: int, current: Mark, s0: State, edge: Edge)
      returns (s: State, taken: bool)
      requires Contents().Valid() && edge.id in edges.at && edges.at[edge.id] == edge
      requires s0.dep.Keys == s0.nodes.at.Keys
      requires forall v :: v in s0.nodes.at ==> v in nodes.at && s0.nodes.at[v] == nodes.at[v]
      requires current.depth < depth && forall v :: v in s0.dep ==> s0.dep[v] <= current.depth + 1
      ensures var v := edge.OtherEnd(current.id);
              && taken == (v in nodes.at && NodeTypeAllowed(nodes.at[v], nodeTypes))
              && s == if taken then Taken(Contents(), s0, current.depth, edge.id, v) else s0
    {
      var nextId := edge.OtherEnd(current.id);
      if nextId !in nodes.at || !NodeTypeAllowed(nodes.at[nextId], nodeTypes) {
        return s0, false;
      }
      var nextDepth := current.depth + 1;
      s := State(s0.nodes.Put(nextId, nodes.at[nextId]), s0.edges.Put(edge.id, edge), s0.queue, s0.dep);
      if nextId in s0.nodes.at { PutAgain(s0.nodes, nextId, nodes.at[nextId]); }
      if (if nextId in s.dep then s.dep[nextId] else depth + 1) > nextDepth {
        s := State(s.nodes, s.edges, s.queue + [Mark(nextId, nextDepth)], s.dep[nextId := nextDepth]);
      }
      taken := true;
    }

    /** The inner loop of `neighbors`: take the admitted steps from `current`, up to the one that meets the limit. */
    method SelectAround(ghost q: Query, view: View, depth: int, limit: int, current: Mark, s0: State,
                        ghost walks0: seq<seq<string>>, ghost c: nat)
      returns (s: State, ghost walks: seq<seq<string>>)
      requires q == Query(Contents(), view, q.seed, depth, limit) && q.g.Valid() && view.Filtered? && limit >= 1
      requires Phase(q, s0, walks0, c) && Kept(q, s0, walks0, c + 1)
      requires |s0.nodes.order| <= limit && c < |walks0| && |walks0[c]| < depth
      requires current == Mark(s0.nodes.order[c], |walks0[c]|)
      ensures Phase(q, s, walks, c + 1) && Kept(q, s, walks, c + 1)
      ensures Progressed(s0, s)
    {
      s, walks := s0, walks0;
      var incident := IncidentEdges(current.id, view.relationTypes, view.minConfidence, view);
      AroundBegins(q, s, walks, c, incident);
      for k := 0 to |incident|
        invariant Selecting(q, s, walks, c, incident, k, current) && Progressed(s0, s)
      {
        ReadyToSelect(q, s, walks, c, incident, k, current);
        assert incident[k] in incident;
        ghost var before := s;
        var taken;
        s, taken := SelectEdge(view.nodeTypes, depth, current, s, incident[k]);
        if taken {
          walks := SelectingTakes(q, before, walks, c, incident, k, current, s);
          TakenProgresses(q.g, before, current.depth, incident[k].id, incident[k].OtherEnd(current.id));
          ProgressedTransitive(s0, before, s);
          if |s.nodes.order| >= limit {
            return;
          }
        } else {
          SelectingSkips(q, s, walks, c, incident, k, current);
        }
      }
      AroundEnds(q, s, walks, c, incident);
    }

    /** One turn of the loop of `neighbors`: take the head of the queue and, above the depth, expand it. */
    method ExpandHead(ghost q: Query, view: View, depth: int, limit: int, s0: State, ghost walks0: seq<seq<string>>,
                      ghost h: nat)
      returns (s: State, ghost walks: seq<seq<string>>)
      requires q == Query(Contents(), view, q.seed, depth, limit) && q.g.Valid() && view.Filtered?
      requires Looping(q, s0, walks0, h) && s0.queue != [] && |s0.nodes.order| <= limit
      ensures Looping(q, s, walks, h + 1)
      ensures var universe := q.g.nodes.at.Keys;
              universe - s.dep.Keys < universe - s0.dep.Keys
              || (universe - s.dep.Keys == universe - s0.dep.Keys && |s.queue| < |s0.queue|)
    {
      var current := s0.queue[0];
      s, walks := State(s0.nodes, s0.edges, s0.queue[1..], s0.dep), walks0;
      LoopTakes(q, s0, walks, h, s);
      if current.depth < depth {
        ghost var before := s;
        s, walks := SelectAround(q, view, depth, limit, current, s, walks, h);
        LoopProgress(q, s, walks, h + 1, before);
      }
    }

    /** Breadth-first expansion around a node, bounded by depth and (roughly) by the number of nodes. */
    method Neighbors(nodeId: string, depth: int, limit: int, nodeTypes: seq<string>, relationTypes: seq<string>,
                     minConfidence: Option<real>)
      returns (r: Subgraph)
      requires Contents().Valid()
      ensures nodeId !in nodes.at ==> r == EMPTY_SUBGRAPH
      ensures nodeId in nodes.at ==>
                NeighboursPromised(Contents(), Filtered(nodeTypes, relationTypes, minConfidence), nodeId, depth, limit,
                                   r)
      ensures nodeId in nodes.at ==> FiltersKept(Filtered(nodeTypes, relationTypes, minConfidence), nodeId, r)
      ensures nodeId in nodes.at && |r.nodes| < limit ==>
                WholeBall(Contents(), Filtered(nodeTypes, relationTypes, minConfidence), nodeId, depth, r)
    {
      if nodeId !in nodes.at {
        return EMPTY_SUBGRAPH;
      }
      var view := Filtered(nodeTypes, relationTypes, minConfidence);
      ghost var q := Query(Contents(), view, nodeId, depth, limit);
      var s := State(Empty<Node>().Put(nodeId, nodes.at[nodeId]), Empty<Edge>(), [Mark(nodeId, 0)], map[nodeId := 0]);
      ghost var walks, h: nat := [[]], 0;
      LoopStarts(q, s);
      while s.queue != [] && |s.nodes.order| <= limit
        invariant Looping(q, s, walks, h)
        decreases q.g.nodes.at.Keys - s.dep.Keys, |s.queue|
      {
        s, walks := ExpandHead(q, view, depth, limit, s, walks, h);
        h := h + 1;
      }
      LoopAnswers(q, s, walks, h);
      r := Subgraph(s.nodes.Values(), s.edges.Values());
      NeighboursInPlainTerms(q.g, view, nodeId, depth, limit, r);
    }

    /** The degree table that the wildcard overview is ranked by. */
    method Degrees(candidates: seq<Node>) returns (degree: map<string, nat>)
      requires Contents().Valid()
      ensures degree.Keys == Ids(candidates)
      ensures forall v :: v in degree ==> degree[v] == Degree(edges.Values(), Ids(candidates), v)
    {
      var candidateIds := Ids(candidates);
      degree := map v | v in candidateIds :: 0;
      var all := edges.Values();
      for i := 0 to |all|
        invariant degree.Keys == candidateIds
        invariant forall v :: v in degree ==> degree[v] == Degree(all[..i], candidateIds, v)
      {
        var edge := all[i];
        ghost var before := degree;
        if Induced(edge, candidateIds) {
          degree := degree[edge.source := degree[edge.source] + 1];
          degree := degree[edge.target := degree[edge.target] + 1];
        }
        DegreesNext(all, i, candidateIds, before, degree);
      }
      assert all[..|all|] == all;
    }

    method CandidateNodes(wildcard: bool, matches: Node -> bool, workspace: string, nodeTypes: seq<string>)
      returns (candidates: seq<Node>)
      requires Contents().Valid()
      ensures candidates == Candidates(nodes.Values(), wildcard, matches, workspace, nodeTypes)
    {
      candidates := [];
      var all := nodes.Values();
      ghost var p := CandidateTest(wildcard, matches, workspace, nodeTypes);
      for i := 0 to |all|
        invariant candidates == Where(all[..i], p)
      {
        WhereNext(all, i, p);
        if IsCandidate(all[i], wildcard, matches, workspace, nodeTypes) {
          candidates := candidates + [all[i]];
        }
      }
      assert all[..|all|] == all;
    }

    method EdgesWithin(nodeIds: set<string>) returns (induced: seq<Edge>)
      requires Contents().Valid()
      ensures induced == InducedAmong(edges.Values(), nodeIds)
    {
      induced := [];
      var all := edges.Values();
      for i := 0 to |all|
        invariant induced == Where(all[..i], InducedTest(nodeIds))
      {
        WhereNext(all, i, InducedTest(nodeIds));
        if Induced(all[i], nodeIds) {
          induced := induced + [all[i]];
        }
      }
      assert all[..|all|] == all;
    }

    /** `wildcard` stands for a blank or "*" query; `matches` for the text match of any other query. */
    method Search(wildcard: bool, matches: Node -> bool, workspace: string, limit: int, nodeTypes: seq<string>)
      returns (r: Subgraph)
      requires Contents().Valid()
      ensures r == SearchResult(nodes.Values(), edges.Values(), wildcard, matches, workspace, limit, nodeTypes)
      ensures limit >= 0 ==>
                SearchPromised(nodes.Values(), edges.Values(), wildcard, matches, workspace, limit, nodeTypes, r)
      ensures limit >= 0 ==>
                PlainSearch(nodes.Values(), edges.Values(), wildcard, matches, workspace, limit, nodeTypes, r)
    {
      var candidates := CandidateNodes(wildcard, matches, workspace, nodeTypes);
      if wildcard {
        var degree := Degrees(candidates);
        var byDegree := (n: Node) => if n.id in degree then degree[n.id] as real else 0.0;
        SortSameKeys(candidates, byDegree, DegreeKey(edges.Values(), Ids(candidates)));
        candidates := SortDesc(candidates, byDegree);
      }
      var results := Slice(candidates, limit);
      var induced := EdgesWithin(Ids(results));
      r := Subgraph(results, induced);
      StoredAreDistinct(Contents());
      if limit >= 0 {
        SearchPromise(nodes.Values(), edges.Values(), wildcard, matches, workspace, limit, nodeTypes);
        SearchInPlainTerms(nodes.Values(), edges.Values(), wildcard, matches, workspace, limit, nodeTypes, r);
      }
    }
  }
}
