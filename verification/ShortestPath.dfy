/** What `path` computes: of the shortest walks between two nodes, the first one in the order of the stored edges. */
module ShortestPath {
  import opened BreadthFirst
  import opened GraphModel
  import opened OrderedDict

  /** What `path` hands back: a subgraph, or Python's KeyError for a node that is not stored. */
  datatype PathResult = Found(subgraph: Subgraph) | KeyError(id: string)

  datatype PathEntry = PathEntry(id: string, nodePath: seq<string>, edgePath: seq<string>)

  ghost predicate ShortestWalk(g: Graph, a: string, b: string, ns: seq<string>, es: seq<string>) {
    && WalkBetween(g, Unfiltered, a, b, ns, es)
    && |es| >= 1
    && forall ms, fs :: WalkBetween(g, Unfiltered, a, b, ms, fs) && |fs| >= 1 ==> |es| <= |fs|
  }

  /** A walk of at least one edge that comes before all others. */
  ghost predicate FirstTrip(g: Graph, a: string, b: string, ns: seq<string>, es: seq<string>) {
    && WalkBetween(g, Unfiltered, a, b, ns, es)
    && es != []
    && forall fs :: fs != [] && Leads(g, Unfiltered, a, fs, b) ==> NoLater(g.edges.order, es, fs)
  }

  ghost predicate Connected(g: Graph, a: string, b: string, maxDepth: int) {
    exists ns, es :: WalkBetween(g, Unfiltered, a, b, ns, es) && 1 <= |es| <= maxDepth
  }

  /** The list comprehensions at the end of `path`: records for the ids, or the first missing node. */
  ghost predicate Reports(g: Graph, ns: seq<string>, es: seq<string>, r: PathResult) {
    match r
    case Found(s) =>
      && |s.nodes| == |ns| && (forall i :: 0 <= i < |ns| ==> ns[i] in g.nodes.at && s.nodes[i] == g.nodes.at[ns[i]])
      && |s.edges| == |es| && (forall i :: 0 <= i < |es| ==> es[i] in g.edges.at && s.edges[i] == g.edges.at[es[i]])
    case KeyError(id) => exists i :: FirstMissing(g, ns, id, i)
  }

  ghost predicate FirstMissing(g: Graph, ns: seq<string>, id: string, i: int) {
    0 <= i < |ns| && ns[i] == id && id !in g.nodes.at && forall j :: 0 <= j < i ==> ns[j] in g.nodes.at
  }

  /** What `path` promises: nothing when an endpoint is not stored or no walk of 1 to `maxDepth` edges joins
      them, and otherwise the first one of the walks that do, or the first of its nodes that is not stored. */
  ghost predicate PathAnswer(g: Graph, source: string, target: string, maxDepth: int, r: PathResult) {
    if source in g.nodes.at && target in g.nodes.at && Connected(g, source, target, maxDepth) then
      exists ns, es :: FirstTrip(g, source, target, ns, es) && |es| <= maxDepth && Reports(g, ns, es, r)
    else
      r == Found(EMPTY_SUBGRAPH)
  }

  /** No walk that joins the two is shorter. */
  lemma FirstTripIsShortest(g: Graph, a: string, b: string, ns: seq<string>, es: seq<string>)
    requires FirstTrip(g, a, b, ns, es)
    ensures ShortestWalk(g, a, b, ns, es)
  {
    forall ms, fs | WalkBetween(g, Unfiltered, a, b, ms, fs) && |fs| >= 1 ensures |es| <= |fs| {
      assert Leads(g, Unfiltered, a, fs, b);
    }
  }

  lemma {:induction false} SameNodes(g: Graph, view: View, ns: seq<string>, ms: seq<string>, es: seq<string>, i: nat)
    requires Walk(g, view, ns, es) && Walk(g, view, ms, es) && ns[0] == ms[0] && i < |ns|
    ensures ns[i] == ms[i]
  {
    if i > 0 {
      SameNodes(g, view, ns, ms, es, i - 1);
      assert Link(g, view, ns[i - 1], es[i - 1], ns[i]) && Link(g, view, ms[i - 1], es[i - 1], ms[i]);
    }
  }

  /** There is only one first walk between two nodes. */
  lemma FirstTripUnique(g: Graph, a: string, b: string, ns: seq<string>, es: seq<string>, ms: seq<string>,
                        fs: seq<string>)
    requires FirstTrip(g, a, b, ns, es) && FirstTrip(g, a, b, ms, fs)
    ensures ns == ms && es == fs
  {
    assert Leads(g, Unfiltered, a, es, b) && Leads(g, Unfiltered, a, fs, b);
    NoLaterAntisymmetric(g.edges.order, es, fs);
    forall i | 0 <= i < |ns| ensures ns[i] == ms[i] { SameNodes(g, Unfiltered, ns, ms, es, i); }
  }

  lemma ReportsOne(g: Graph, ns: seq<string>, es: seq<string>, r: PathResult, q: PathResult)
    requires Reports(g, ns, es, r) && Reports(g, ns, es, q)
    ensures r == q
  {
    if r.KeyError? && q.KeyError? {
      var i :| FirstMissing(g, ns, r.id, i);
      var j :| FirstMissing(g, ns, q.id, j);
      assert i == j;
    }
  }

  /** The promise leaves nothing open: it determines the answer. */
  lemma PathIsDetermined(g: Graph, source: string, target: string, maxDepth: int, r: PathResult, q: PathResult)
    requires PathAnswer(g, source, target, maxDepth, r) && PathAnswer(g, source, target, maxDepth, q)
    ensures r == q
  {
    if source in g.nodes.at && target in g.nodes.at && Connected(g, source, target, maxDepth) {
      var ns, es :| FirstTrip(g, source, target, ns, es) && |es| <= maxDepth && Reports(g, ns, es, r);
      var ms, fs :| FirstTrip(g, source, target, ms, fs) && |fs| <= maxDepth && Reports(g, ms, fs, q);
      FirstTripUnique(g, source, target, ns, es, ms, fs);
      ReportsOne(g, ns, es, r, q);
    }
  }

  /** The first walk joins the stored source and target within the depth and visits a node that is not stored. */
  ghost predicate FirstTripMisses(g: Graph, source: string, target: string, maxDepth: int) {
    && source in g.nodes.at && target in g.nodes.at
    && exists ns, es :: FirstTrip(g, source, target, ns, es) && |es| <= maxDepth && Misses(g, ns)
  }

  ghost predicate Misses(g: Graph, ns: seq<string>) { exists i :: 0 <= i < |ns| && ns[i] !in g.nodes.at }

  /** The KeyError is raised exactly when the first walk visits a node that is not stored. */
  lemma PathFailsIff(g: Graph, source: string, target: string, maxDepth: int, r: PathResult)
    requires PathAnswer(g, source, target, maxDepth, r)
    ensures r.KeyError? <==> FirstTripMisses(g, source, target, maxDepth)
  {
    if r.KeyError? {
      var ns, es :| FirstTrip(g, source, target, ns, es) && |es| <= maxDepth && Reports(g, ns, es, r);
      var i :| FirstMissing(g, ns, r.id, i);
      assert ns[i] !in g.nodes.at;
    } else if FirstTripMisses(g, source, target, maxDepth) {
      var ns, es :| FirstTrip(g, source, target, ns, es) && |es| <= maxDepth && Misses(g, ns);
      assert Connected(g, source, target, maxDepth);
      var ms, fs :| FirstTrip(g, source, target, ms, fs) && |fs| <= maxDepth && Reports(g, ms, fs, r);
      FirstTripUnique(g, source, target, ns, es, ms, fs);
    }
  }

  lemma WalkNodesStored(g: Graph, ns: seq<string>, es: seq<string>)
    requires Walk(g, Unfiltered, ns, es) && g.EdgeClosed() && ns[0] in g.nodes.at
    ensures forall i :: 0 <= i < |ns| ==> ns[i] in g.nodes.at
  {
    forall i | 0 < i < |ns| ensures ns[i] in g.nodes.at {
      assert Link(g, Unfiltered, ns[i - 1], es[i - 1], ns[i]);
    }
  }

  /** On a closed store no walk from a stored node misses. */
  lemma ClosedNeverMisses(g: Graph, source: string, target: string, maxDepth: int)
    requires g.EdgeClosed()
    ensures !FirstTripMisses(g, source, target, maxDepth)
  {
    forall ns, es | FirstTrip(g, source, target, ns, es) && source in g.nodes.at
      ensures forall i :: 0 <= i < |ns| ==> ns[i] in g.nodes.at
    {
      WalkNodesStored(g, ns, es);
    }
  }

  /** `path` from a to b and from b to a find walks of the same length. */
  lemma ShortestReversed(g: Graph, a: string, b: string, ns: seq<string>, es: seq<string>)
    requires ShortestWalk(g, a, b, ns, es)
    ensures ShortestWalk(g, b, a, Reverse(ns), Reverse(es))
  {
    WalkReversed(g, a, b, ns, es);
    forall ms, fs | WalkBetween(g, Unfiltered, b, a, ms, fs) && |fs| >= 1 ensures |es| <= |fs| {
      WalkReversed(g, b, a, ms, fs);
    }
  }

  // ----- the search loop -----

  /** A search for a path. */
  datatype Trip = Trip(g: Graph, source: string, target: string, maxDepth: int) {
    function Scan(): Scan { BreadthFirst.Scan(g, Unfiltered, source, maxDepth, {target}) }
  }

  /** The locals of `path`, and the nodes found so far with their first walks. */
  datatype Front = Front(queue: seq<PathEntry>, visited: set<string>, found: seq<string>, walks: seq<seq<string>>) {
    function Add(q: PathEntry): Front {
      Front(queue + [q], visited + {q.id}, found + [q.id], walks + [q.edgePath])
    }
  }

  ghost function Endpoints(edges: Dict<Edge>): (ends: set<string>)
    ensures forall k :: k in edges.at ==> edges.at[k].source in ends && edges.at[k].target in ends
  {
    (set k | k in edges.at :: edges.at[k].source) + (set k | k in edges.at :: edges.at[k].target)
  }

  ghost predicate EndsIn(g: Graph, universe: set<string>) {
    forall k :: k in g.edges.at ==> g.edges.at[k].source in universe && g.edges.at[k].target in universe
  }

  /** The queue holds the nodes found from place `h` on, each with its walk. */
  ghost predicate Carries(g: Graph, source: string, queue: seq<PathEntry>, found: seq<string>, walks: seq<seq<string>>,
                          h: nat) {
    && |found| == |walks| == h + |queue|
    && forall i :: 0 <= i < |queue| ==> EntryOf(g, source, queue[i], found[h + i], walks[h + i])
  }

  ghost predicate EntryOf(g: Graph, source: string, q: PathEntry, v: string, walk: seq<string>) {
    q.id == v && q.edgePath == walk && WalkBetween(g, Unfiltered, source, v, q.nodePath, walk)
  }

  ghost predicate Visited(visited: set<string>, found: seq<string>) { forall v :: v in visited <==> v in found }

  /** Nodes have been visited, or else nothing has been queued. */
  ghost predicate Advances(visited0: set<string>, n0: nat, visited: set<string>, n: nat) {
    visited0 < visited || (visited == visited0 && n == n0)
  }

  lemma AdvancesOn(visited0: set<string>, n0: nat, visited: set<string>, n: nat, v: string)
    requires Advances(visited0, n0, visited, n) && v !in visited
    ensures Advances(visited0, n0, visited + {v}, n + 1)
  {
  }

  lemma UnvisitedShrinks(universe: set<string>, visited0: set<string>, n0: nat, visited: set<string>, n: nat)
    requires Advances(visited0, n0, visited, n) && visited <= universe
    ensures universe - visited < universe - visited0 || (universe - visited == universe - visited0 && n == n0)
  {
  }

  /** The entry that the next edge would queue. */
  lemma EntryWalks(g: Graph, source: string, current: PathEntry, edge: Edge, next: PathEntry, universe: set<string>)
    requires g.Valid() && EndsIn(g, universe) && IsIncident(g, current.id, [], None, edge)
    requires WalkBetween(g, Unfiltered, source, current.id, current.nodePath, current.edgePath)
    requires Prolongs(current, edge, next)
    ensures Link(g, Unfiltered, current.id, edge.id, next.id) && EntryOf(g, source, next, next.id, next.edgePath)
    ensures next.id in universe
  {
    ExtendWalk(g, Unfiltered, current.nodePath, current.edgePath, edge.id, next.id);
  }

  lemma CarriesOneMore(g: Graph, source: string, queue: seq<PathEntry>, found: seq<string>, walks: seq<seq<string>>,
                       h: nat, q: PathEntry)
    requires Carries(g, source, queue, found, walks, h) && EntryOf(g, source, q, q.id, q.edgePath)
    ensures Carries(g, source, queue + [q], found + [q.id], walks + [q.edgePath], h)
  {
  }

  lemma CarriesOneLess(g: Graph, source: string, queue: seq<PathEntry>, found: seq<string>, walks: seq<seq<string>>,
                       h: nat)
    requires Carries(g, source, queue, found, walks, h) && queue != []
    ensures Carries(g, source, queue[1..], found, walks, h + 1)
    ensures h < |found| && EntryOf(g, source, queue[0], found[h], walks[h])
  {
    var rest := queue[1..];
    forall i | 0 <= i < |rest| ensures EntryOf(g, source, rest[i], found[h + 1 + i], walks[h + 1 + i]) {
      assert EntryOf(g, source, queue[i + 1], found[h + (i + 1)], walks[h + (i + 1)]);
    }
  }

  /** The inner loop: the ends of the first `n` edges at `current` have been queued, unless visited before. */
  ghost predicate Following(t: Trip, current: PathEntry, f: Front, c: nat, incident: seq<Edge>, n: nat,
                            universe: set<string>) {
    && Amid(t.Scan(), f.found, f.walks, c, incident, n)
    && EntryOf(t.g, t.source, current, f.found[c], f.walks[c])
    && Carries(t.g, t.source, f.queue, f.found, f.walks, c + 1)
    && Visited(f.visited, f.found) && f.visited <= universe
  }

  /** `next` prolongs the walk of `current` by the edge. */
  ghost predicate Prolongs(current: PathEntry, edge: Edge, next: PathEntry) {
    && next.id == edge.OtherEnd(current.id)
    && next.nodePath == current.nodePath + [next.id] && next.edgePath == current.edgePath + [edge.id]
  }

  ghost predicate ListsIncident(g: Graph, current: PathEntry, incident: seq<Edge>, universe: set<string>) {
    g.Valid() && EndsIn(g, universe) && forall e :: e in incident ==> IsIncident(g, current.id, [], None, e)
  }

  lemma FollowsToNew(t: Trip, current: PathEntry, f: Front, c: nat, incident: seq<Edge>, n: nat,
                     universe: set<string>, next: PathEntry)
    requires Following(t, current, f, c, incident, n, universe) && n < |incident|
    requires ListsIncident(t.g, current, incident, universe) && Prolongs(current, incident[n], next)
    requires next.id != t.target && next.id !in f.visited
    ensures Following(t, current, f.Add(next), c, incident, n + 1, universe)
  {
    EntryWalks(t.g, t.source, current, incident[n], next, universe);
    FindsNew(t.Scan(), f.found, f.walks, c, incident, n, next.id);
    CarriesOneMore(t.g, t.source, f.queue, f.found, f.walks, c + 1, next);
  }

  lemma FollowsToKnown(t: Trip, current: PathEntry, f: Front, c: nat, incident: seq<Edge>, n: nat,
                       universe: set<string>)
    requires Following(t, current, f, c, incident, n, universe) && n < |incident|
    requires incident[n].OtherEnd(current.id) in f.visited && incident[n].OtherEnd(current.id) != t.target
    ensures Following(t, current, f, c, incident, n + 1, universe)
  {
    FindsNothing(t.Scan(), f.found, f.walks, c, incident, n);
  }

  lemma FollowsToTarget(t: Trip, current: PathEntry, f: Front, c: nat, incident: seq<Edge>, n: nat,
                        universe: set<string>, next: PathEntry)
    requires Following(t, current, f, c, incident, n, universe) && n < |incident|
    requires ListsIncident(t.g, current, incident, universe) && Prolongs(current, incident[n], next)
    requires next.id == t.target
    ensures FirstTrip(t.g, t.source, t.target, next.nodePath, next.edgePath) && |next.edgePath| <= t.maxDepth
  {
    EntryWalks(t.g, t.source, current, incident[n], next, universe);
    HitIsFirst(t, f.found, f.walks, c, incident, n, next);
  }

  // ----- the outer loop -----

  /** Between two turns: the first `h` nodes found are done. */
  ghost predicate Searching(t: Trip, f: Front, h: nat, universe: set<string>) {
    && Between(t.Scan(), f.found, f.walks, h) && Carries(t.g, t.source, f.queue, f.found, f.walks, h)
    && Visited(f.visited, f.found) && f.visited <= universe
  }

  /** The head of the queue has been taken. */
  ghost predicate Popped(t: Trip, f: Front, h: nat, current: PathEntry, universe: set<string>) {
    && Between(t.Scan(), f.found, f.walks, h) && Carries(t.g, t.source, f.queue, f.found, f.walks, h + 1)
    && Visited(f.visited, f.found) && f.visited <= universe
    && h < |f.found| && EntryOf(t.g, t.source, current, f.found[h], f.walks[h])
  }

  lemma SearchStarts(t: Trip, universe: set<string>)
    requires t.source in universe
    ensures Searching(t, Front([PathEntry(t.source, [t.source], [])], {t.source}, [t.source], [[]]), 0, universe)
  {
    NearestStarts(t.g, Unfiltered, t.source);
  }

  lemma SearchPops(t: Trip, f: Front, h: nat, universe: set<string>)
    requires Searching(t, f, h, universe) && f.queue != []
    ensures Popped(t, Front(f.queue[1..], f.visited, f.found, f.walks), h, f.queue[0], universe)
  {
    CarriesOneLess(t.g, t.source, f.queue, f.found, f.walks, h);
  }

  lemma SearchSkips(t: Trip, f: Front, h: nat, current: PathEntry, universe: set<string>)
    requires Popped(t, f, h, current, universe) && |current.edgePath| >= t.maxDepth
    ensures Searching(t, f, h + 1, universe)
  {
    SkipsNode(t.Scan(), f.found, f.walks, h);
  }

  lemma FollowBegins(t: Trip, f: Front, h: nat, current: PathEntry, universe: set<string>, incident: seq<Edge>)
    requires Popped(t, f, h, current, universe) && |current.edgePath| < t.maxDepth
    requires ListsSteps(t.g, Unfiltered, current.id, incident)
    ensures Following(t, current, f, h, incident, 0, universe)
  {
    BeginsNode(t.Scan(), f.found, f.walks, h, incident);
  }

  lemma FollowEnds(t: Trip, f: Front, h: nat, current: PathEntry, universe: set<string>, incident: seq<Edge>)
    requires Following(t, current, f, h, incident, |incident|, universe)
    ensures Searching(t, f, h + 1, universe)
  {
    EndsNode(t.Scan(), f.found, f.walks, h, incident);
  }

  lemma TripConnects(g: Graph, a: string, b: string, maxDepth: int, ns: seq<string>, es: seq<string>)
    requires FirstTrip(g, a, b, ns, es) && |es| <= maxDepth
    ensures Connected(g, a, b, maxDepth)
  {
  }

  /** Meeting the target over the next edge: no walk to it comes before this one. */
  lemma HitIsFirst(t: Trip, found: seq<string>, walks: seq<seq<string>>, c: nat, incident: seq<Edge>, n: nat,
                   hit: PathEntry)
    requires Amid(t.Scan(), found, walks, c, incident, n) && n < |incident|
    requires Link(t.g, Unfiltered, found[c], incident[n].id, t.target)
    requires hit.edgePath == walks[c] + [incident[n].id] && EntryOf(t.g, t.source, hit, t.target, hit.edgePath)
    ensures FirstTrip(t.g, t.source, t.target, hit.nodePath, hit.edgePath) && |hit.edgePath| <= t.maxDepth
  {
    FirstToUnmet(t.Scan(), found, walks, c, incident, n, t.target);
  }

  /** When every node found is done, no walk joins the two within the depth. */
  lemma SearchEnds(t: Trip, f: Front, h: nat, universe: set<string>)
    requires Searching(t, f, h, universe) && f.queue == []
    ensures !Connected(t.g, t.source, t.target, t.maxDepth)
  {
    forall ns, es | WalkBetween(t.g, Unfiltered, t.source, t.target, ns, es) ensures !(1 <= |es| <= t.maxDepth) {
      if 1 <= |es| <= t.maxDepth {
        assert Leads(t.g, Unfiltered, t.source, es, t.target);
        var i := AllFound(t.Scan(), f.found, f.walks, t.target, es);
      }
    }
  }
}
