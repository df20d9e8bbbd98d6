/** The breadth-first selection of `neighbors`, and why it keeps its promise. */
module Selection {
  import opened BreadthFirst
  import opened GraphModel
  import opened Neighbourhood
  import opened OrderedDict
  import opened Sequences

  datatype Mark = Mark(id: string, depth: nat)

  /** The locals of `neighbors`: `selected_nodes`, `selected_edges`, `queue`, `visited_depth`. */
  datatype State = State(nodes: Dict<Node>, edges: Dict<Edge>, queue: seq<Mark>, dep: map<string, nat>)

  /** What `neighbors` is asked for. */
  datatype Query = Query(g: Graph, view: View, seed: string, depth: int, limit: int) {
    function Scan(): Scan { BreadthFirst.Scan(g, view, seed, depth, {}) }
  }

  // ----- what has been collected -----

  ghost predicate NodesCollected(g: Graph, seed: string, nodes: Dict<Node>) {
    && nodes.Valid() && nodes.order != [] && nodes.order[0] == seed
    && forall v :: v in nodes.at ==> v in g.nodes.at && nodes.at[v] == g.nodes.at[v]
  }

  /** A step within the depth from a found node to a found node. */
  ghost predicate Justified(g: Graph, view: View, found: seq<string>, walks: seq<seq<string>>, depth: int, k: string) {
    exists i, v :: Steps(g, view, found, walks, depth, i, k, v) && v in found
  }

  ghost predicate EdgesCollected(g: Graph, view: View, edges: Dict<Edge>, found: seq<string>, walks: seq<seq<string>>,
                                 depth: int) {
    && edges.Valid()
    && (forall k :: k in edges.at ==> k in g.edges.at && edges.at[k] == g.edges.at[k])
    && (forall k {:trigger Justified(g, view, found, walks, depth, k)} :: k in edges.at ==>
          Justified(g, view, found, walks, depth, k))
  }

  ghost predicate UsesOnly(es: seq<string>, chosen: set<string>) { forall i :: 0 <= i < |es| ==> es[i] in chosen }

  /** Every found node is reached by its walk over chosen edges. */
  ghost predicate WalksCollected(g: Graph, view: View, seed: string, found: seq<string>, walks: seq<seq<string>>,
                                 chosen: set<string>, depth: int) {
    && |found| == |walks| && WithinDepth(walks, depth)
    && forall i :: 0 <= i < |found| ==> Leads(g, view, seed, walks[i], found[i]) && UsesOnly(walks[i], chosen)
  }

  ghost predicate Collected(q: Query, s: State, walks: seq<seq<string>>) {
    && NodesCollected(q.g, q.seed, s.nodes)
    && EdgesCollected(q.g, q.view, s.edges, s.nodes.order, walks, q.depth)
    && WalksCollected(q.g, q.view, q.seed, s.nodes.order, walks, s.edges.at.Keys, q.depth)
  }

  /** The queue holds the nodes found from place `h` on, at the depths of their walks. */
  ghost predicate Tracks(s: State, walks: seq<seq<string>>, h: nat) {
    && s.dep.Keys == s.nodes.at.Keys && |s.nodes.order| == |walks| == h + |s.queue|
    && (forall i :: 0 <= i < |walks| ==> s.nodes.order[i] in s.dep && s.dep[s.nodes.order[i]] == |walks[i]|)
    && (forall i :: 0 <= i < |s.queue| ==> s.queue[i] == Mark(s.nodes.order[h + i], |walks[h + i]|))
  }

  /** Taking the edge `k` from a node at depth `d` and its other end `v`. */
  function Taken(g: Graph, s: State, d: nat, k: string, v: string): State
    requires k in g.edges.at && v in g.nodes.at
  {
    if v in s.dep then State(s.nodes, s.edges.Put(k, g.edges.at[k]), s.queue, s.dep)
    else
      State(s.nodes.Put(v, g.nodes.at[v]), s.edges.Put(k, g.edges.at[k]), s.queue + [Mark(v, d + 1)], s.dep[v := d + 1])
  }

  lemma PutAgain<V>(d: Dict<V>, k: string, v: V)
    requires k in d.at && d.at[k] == v
    ensures d.Put(k, v) == d
  {
    assert d.at[k := v] == d.at;
  }

  lemma JustifiedStill(g: Graph, view: View, edges: Dict<Edge>, found: seq<string>, walks: seq<seq<string>>, depth: int,
                       found1: seq<string>, walks1: seq<seq<string>>, k: string)
    requires EdgesCollected(g, view, edges, found, walks, depth) && |found| == |walks| && found <= found1
    requires walks <= walks1
    requires k in g.edges.at && Justified(g, view, found1, walks1, depth, k)
    ensures EdgesCollected(g, view, edges.Put(k, g.edges.at[k]), found1, walks1, depth)
  {
    forall l | l in edges.at ensures Justified(g, view, found1, walks1, depth, l) {
      assert Justified(g, view, found, walks, depth, l);
      var i, v :| Steps(g, view, found, walks, depth, i, l, v) && v in found;
      assert Steps(g, view, found1, walks1, depth, i, l, v) && v in found1;
    }
  }

  lemma ChosenStill(es: seq<string>, chosen: set<string>, k: string)
    requires UsesOnly(es, chosen)
    ensures UsesOnly(es, chosen + {k})
  {
  }

  /** Taking a step to a node found before. */
  lemma CollectsKnown(q: Query, s: State, walks: seq<seq<string>>, c: nat, k: string, v: string)
    requires Collected(q, s, walks) && Steps(q.g, q.view, s.nodes.order, walks, q.depth, c, k, v)
    requires v in s.nodes.order
    ensures Collected(q, State(s.nodes, s.edges.Put(k, q.g.edges.at[k]), s.queue, s.dep), walks)
  {
    var found := s.nodes.order;
    assert Justified(q.g, q.view, found, walks, q.depth, k);
    JustifiedStill(q.g, q.view, s.edges, found, walks, q.depth, found, walks, k);
    forall i | 0 <= i < |found| ensures UsesOnly(walks[i], s.edges.Put(k, q.g.edges.at[k]).at.Keys) {
      ChosenStill(walks[i], s.edges.at.Keys, k);
    }
  }

  /** Taking a step to a new node. */
  lemma CollectsNew(q: Query, s: State, walks: seq<seq<string>>, c: nat, k: string, v: string, s1: State)
    requires Collected(q, s, walks) && Steps(q.g, q.view, s.nodes.order, walks, q.depth, c, k, v)
    requires v in q.g.nodes.at && v !in s.nodes.at
    requires s1.nodes == s.nodes.Put(v, q.g.nodes.at[v]) && s1.edges == s.edges.Put(k, q.g.edges.at[k])
    ensures Collected(q, s1, walks + [walks[c] + [k]]) && s1.nodes.order == s.nodes.order + [v]
  {
    var found, found1, walks1 := s.nodes.order, s1.nodes.order, walks + [walks[c] + [k]];
    assert found1 == found + [v];
    assert Steps(q.g, q.view, found1, walks1, q.depth, c, k, v) && found1[|found|] == v;
    assert Justified(q.g, q.view, found1, walks1, q.depth, k);
    JustifiedStill(q.g, q.view, s.edges, found, walks, q.depth, found1, walks1, k);
    LeadsOneMore(q.g, q.view, q.seed, walks[c], found[c], k, v);
    forall i | 0 <= i < |found1|
      ensures Leads(q.g, q.view, q.seed, walks1[i], found1[i]) && UsesOnly(walks1[i], s1.edges.at.Keys)
    {
      if i < |found| { ChosenStill(walks[i], s.edges.at.Keys, k); } else { ChosenStill(walks[c], s.edges.at.Keys, k); }
    }
  }

  lemma TracksOneLess(s: State, walks: seq<seq<string>>, h: nat)
    requires Tracks(s, walks, h) && s.queue != []
    ensures Tracks(State(s.nodes, s.edges, s.queue[1..], s.dep), walks, h + 1)
    ensures h < |walks| && s.queue[0] == Mark(s.nodes.order[h], |walks[h]|)
  {
    var rest := s.queue[1..];
    forall i | 0 <= i < |rest| ensures rest[i] == Mark(s.nodes.order[h + 1 + i], |walks[h + 1 + i]|) {
      assert s.queue[i + 1] == Mark(s.nodes.order[h + (i + 1)], |walks[h + (i + 1)]|);
    }
  }

  lemma TracksOneMore(s: State, walks: seq<seq<string>>, h: nat, v: string, walk: seq<string>, s1: State)
    requires Tracks(s, walks, h) && s.nodes.Valid() && v !in s.dep && |walk| > 0
    requires s1.nodes.order == s.nodes.order + [v] && s1.nodes.at.Keys == s.nodes.at.Keys + {v}
    requires s1.queue == s.queue + [Mark(v, |walk|)] && s1.dep == s.dep[v := |walk|]
    ensures Tracks(s1, walks + [walk], h)
  {
  }

  // ----- the phases of the loop -----

  /** The edges taken while fewer than `limit` nodes were found: all steps from the first `h` nodes, and from node `h`
      the steps `es`. */
  ghost predicate TakenSteps(g: Graph, view: View, edges: Dict<Edge>, found: seq<string>, walks: seq<seq<string>>,
                             depth: int, h: nat, es: set<string>) {
    forall k {:trigger k in edges.at} :: k in edges.at <==> TakenStep(g, view, found, walks, depth, h, es, k)
  }

  ghost predicate TakenStep(g: Graph, view: View, found: seq<string>, walks: seq<seq<string>>, depth: int, h: nat,
                            es: set<string>, k: string) {
    exists i, v :: Steps(g, view, found, walks, depth, i, k, v) && (i < h || (i == h && k in es))
  }

  /** The edge is taken, and goes last if it is new. */
  ghost predicate Adds(d: Dict<Edge>, k: string, d1: Dict<Edge>) {
    d1.at.Keys == d.at.Keys + {k} && d1.order == if k in d.at then d.order else d.order + [k]
  }

  ghost predicate AllStored(d: Dict<Edge>) { forall a :: 0 <= a < |d.order| ==> d.order[a] in d.at }

  /** A taken step over `k` comes before all steps over `l`. */
  ghost predicate TakenFirst(q: Query, found: seq<string>, walks: seq<seq<string>>, h: nat, es: set<string>, k: string,
                             l: string) {
    exists i, v :: Steps(q.g, q.view, found, walks, q.depth, i, k, v) && (i < h || (i == h && k in es))
        && StepsAfter(q.g, q.view, found, walks, q.depth, i, k, l)
  }

  /** The edges stand in the order in which they were taken. */
  ghost predicate TakenInTurn(q: Query, d: Dict<Edge>, found: seq<string>, walks: seq<seq<string>>, h: nat,
                              es: set<string>) {
    && AllStored(d)
    && forall a, b :: 0 <= a < b < |d.order| ==> TakenFirst(q, found, walks, h, es, d.order[a], d.order[b])
  }

  ghost predicate KeptFirst(q: Query, found: seq<string>, walks: seq<seq<string>>, h: nat, k: string, l: string)
    requires walks != []
  {
    exists i :: i < h && KeptStep(q.g, q.view, found, walks, q.depth, i, k)
                && KeptAfter(q.g, q.view, found, walks, q.depth, i, k, l)
  }

  ghost predicate KeptInTurn(q: Query, d: Dict<Edge>, found: seq<string>, walks: seq<seq<string>>, h: nat)
    requires walks != []
  {
    && AllStored(d)
    && forall a, b :: 0 <= a < b < |d.order| ==> KeptFirst(q, found, walks, h, d.order[a], d.order[b])
  }

  /** Fewer than `limit` nodes so far; the first `h` are done. */
  ghost predicate Open(q: Query, s: State, walks: seq<seq<string>>, h: nat) {
    && |s.nodes.order| < q.limit && Between(q.Scan(), s.nodes.order, walks, h)
    && TakenSteps(q.g, q.view, s.edges, s.nodes.order, walks, q.depth, h, {})
    && TakenInTurn(q, s.edges, s.nodes.order, walks, h, {})
  }

  /** Fewer than `limit` nodes so far; the first `n` edges at node `c` have been looked at. */
  ghost predicate OpenAmid(q: Query, s: State, walks: seq<seq<string>>, c: nat, incident: seq<Edge>, n: nat) {
    && |s.nodes.order| < q.limit && Amid(q.Scan(), s.nodes.order, walks, c, incident, n)
    && TakenSteps(q.g, q.view, s.edges, s.nodes.order, walks, q.depth, c, FirstIds(incident, n))
    && TakenInTurn(q, s.edges, s.nodes.order, walks, c, FirstIds(incident, n))
  }

  /** `limit` nodes so far; the first step from each of the first `h` nodes leads to one of them. */
  ghost predicate Full(q: Query, s: State, walks: seq<seq<string>>, h: nat) {
    && |s.nodes.order| == q.limit && Nearest(q.g, q.view, q.seed, s.nodes.order, walks) && h <= |walks|
    && NoEscapeBefore(q.g, q.view, s.nodes.order, walks, q.depth, h)
    && (forall i :: h <= i < |walks| ==> Beyond(q.g, walks[|walks| - 1], walks[i]))
    && KeptSteps(q.g, q.view, s.edges, s.nodes.order, walks, q.depth, h)
    && KeptInTurn(q, s.edges, s.nodes.order, walks, h)
  }

  /** All prolongations of `w` come after `last`. */
  ghost predicate Beyond(g: Graph, last: seq<string>, w: seq<string>) {
    forall k :: Earlier(g.edges.order, last, w + [k])
  }

  ghost predicate KeptSteps(g: Graph, view: View, edges: Dict<Edge>, found: seq<string>, walks: seq<seq<string>>,
                            depth: int, h: nat)
    requires walks != []
  {
    forall k {:trigger k in edges.at} :: k in edges.at
        <==> exists i :: i < h && KeptStep(g, view, found, walks, depth, i, k)
  }

  /** One node more than `limit`: the first step from node `h` led to it. */
  ghost predicate Over(q: Query, s: State, walks: seq<seq<string>>, h: nat) {
    && |s.nodes.order| == |walks| == q.limit + 1 && q.limit >= 1
    && Nearest(q.g, q.view, q.seed, s.nodes.order[..q.limit], walks[..q.limit])
    && NoEscapeBefore(q.g, q.view, s.nodes.order[..q.limit], walks[..q.limit], q.depth, h)
    && (exists k :: Escape(q.g, q.view, s.nodes.order[..q.limit], walks[..q.limit], q.depth, h, k,
                           s.nodes.order[q.limit]))
    && KeptSteps(q.g, q.view, s.edges, s.nodes.order[..q.limit], walks[..q.limit], q.depth, h + 1)
    && KeptInTurn(q, s.edges, s.nodes.order[..q.limit], walks[..q.limit], h + 1)
  }

  /** Between two turns of the loop. */
  ghost predicate Phase(q: Query, s: State, walks: seq<seq<string>>, h: nat) {
    if |s.nodes.order| < q.limit then Open(q, s, walks, h)
    else if |s.nodes.order| == q.limit then Full(q, s, walks, h)
    else h > 0 && Over(q, s, walks, h - 1)
  }

  // ----- while fewer than the limit are found -----

  /** For a limit below 1 the seed alone is the answer. */
  lemma SeedAnswers(q: Query, s: State)
    requires q.g.Valid() && q.seed in q.g.nodes.at && q.limit <= 0
    requires s == State(Empty<Node>().Put(q.seed, q.g.nodes.at[q.seed]), Empty<Edge>(), [Mark(q.seed, 0)],
                        map[q.seed := 0])
    ensures |s.nodes.order| > q.limit
    ensures NeighboursPromised(q.g, q.view, q.seed, q.depth, q.limit, Subgraph(s.nodes.Values(), s.edges.Values()))
  {
    PhaseStarts(Query(q.g, q.view, q.seed, q.depth, 1), s);
    CollectedIsSound(q, s, [[]], Subgraph(s.nodes.Values(), s.edges.Values()));
    assert s.nodes.order == [q.seed];
    assert s.nodes.Values() == [q.g.nodes.at[q.seed]] && s.edges.Values() == [];
  }

  lemma StartCollects(q: Query, s: State)
    requires q.g.Valid() && q.seed in q.g.nodes.at && s.nodes.Valid() && s.edges == Empty()
    requires s.nodes.order == [q.seed] && s.nodes.at == map[q.seed := q.g.nodes.at[q.seed]]
    ensures Collected(q, s, [[]])
  {
    LeadsNowhere(q.g, q.view, q.seed);
  }

  lemma PhaseStarts(q: Query, s: State)
    requires q.g.Valid() && q.seed in q.g.nodes.at && q.limit >= 1
    requires s == State(Empty<Node>().Put(q.seed, q.g.nodes.at[q.seed]), Empty<Edge>(), [Mark(q.seed, 0)],
                        map[q.seed := 0])
    ensures Phase(q, s, [[]], 0)
    ensures Collected(q, s, [[]]) && Tracks(s, [[]], 0)
  {
    NearestStarts(q.g, q.view, q.seed);
    assert s.nodes.order == [q.seed];
    StartCollects(q, s);
  }

  /** Looking at one more edge takes it if it is a step. */
  lemma TakesOneMore(q: Query, s: State, walks: seq<seq<string>>, c: nat, incident: seq<Edge>, n: nat, s1: State,
                     walks1: seq<seq<string>>)
    requires c < |s.nodes.order| == |walks| && |walks[c]| < q.depth && n < |incident|
    requires s.nodes.order <= s1.nodes.order && walks <= walks1
    requires TakenSteps(q.g, q.view, s.edges, s.nodes.order, walks, q.depth, c, FirstIds(incident, n))
    requires if exists v :: Link(q.g, q.view, s.nodes.order[c], incident[n].id, v)
             then Adds(s.edges, incident[n].id, s1.edges)
             else s1.edges == s.edges
    ensures TakenSteps(q.g, q.view, s1.edges, s1.nodes.order, walks1, q.depth, c, FirstIds(incident, n + 1))
  {
    var g, view, depth, found, found1 := q.g, q.view, q.depth, s.nodes.order, s1.nodes.order;
    var es, es1 := FirstIds(incident, n), FirstIds(incident, n + 1);
    assert es1 == es + {incident[n].id};
    forall k ensures k in s1.edges.at <==> TakenStep(g, view, found1, walks1, depth, c, es1, k) {
      assert k in s.edges.at <==> TakenStep(g, view, found, walks, depth, c, es, k);
      if TakenStep(g, view, found, walks, depth, c, es, k) {
        var i, v :| Steps(g, view, found, walks, depth, i, k, v) && (i < c || (i == c && k in es));
        assert Steps(g, view, found1, walks1, depth, i, k, v);
      }
      if TakenStep(g, view, found1, walks1, depth, c, es1, k) {
        var i, v :| Steps(g, view, found1, walks1, depth, i, k, v) && (i < c || (i == c && k in es1));
        assert Steps(g, view, found, walks, depth, i, k, v);
      }
      if k == incident[n].id {
        if v :| Link(g, view, found[c], k, v) { assert Steps(g, view, found1, walks1, depth, c, k, v); }
      }
    }
  }

  lemma TakenFirstStill(q: Query, found: seq<string>, walks: seq<seq<string>>, h: nat, es: set<string>,
                        found1: seq<string>, walks1: seq<seq<string>>, k: string, l: string)
    requires TakenFirst(q, found, walks, h, es, k, l) && |found| == |walks| && found <= found1 && walks <= walks1
    ensures TakenFirst(q, found1, walks1, h, es, k, l)
  {
    var i, v :| Steps(q.g, q.view, found, walks, q.depth, i, k, v) && (i < h || (i == h && k in es))
        && StepsAfter(q.g, q.view, found, walks, q.depth, i, k, l);
    assert Steps(q.g, q.view, found1, walks1, q.depth, i, k, v);
    forall j, x | Steps(q.g, q.view, found1, walks1, q.depth, j, l, x) ensures InTurn(q.g.edges.order, i, k, j, l) {
      if j < |found| { assert Steps(q.g, q.view, found, walks, q.depth, j, l, x); }
    }
  }

  /** A new edge comes after all taken ones. */
  lemma NewComesLast(q: Query, s: State, walks: seq<seq<string>>, c: nat, incident: seq<Edge>, n: nat,
                     found1: seq<string>, walks1: seq<seq<string>>, k: string)
    requires c < |s.nodes.order| == |walks| && n < |incident| && s.nodes.order <= found1 && walks <= walks1
    requires ListsSteps(q.g, q.view, s.nodes.order[c], incident)
    requires TakenSteps(q.g, q.view, s.edges, s.nodes.order, walks, q.depth, c, FirstIds(incident, n))
    requires k in s.edges.at && incident[n].id !in s.edges.at
    ensures TakenFirst(q, found1, walks1, c, FirstIds(incident, n), k, incident[n].id)
  {
    var found, es, l, order := s.nodes.order, FirstIds(incident, n), incident[n].id, q.g.edges.order;
    assert TakenStep(q.g, q.view, found, walks, q.depth, c, es, k);
    assert !TakenStep(q.g, q.view, found, walks, q.depth, c, es, l);
    var i, v :| Steps(q.g, q.view, found, walks, q.depth, i, k, v) && (i < c || (i == c && k in es));
    assert Steps(q.g, q.view, found1, walks1, q.depth, i, k, v);
    forall j, x | Steps(q.g, q.view, found1, walks1, q.depth, j, l, x) ensures InTurn(order, i, k, j, l) {
      if j < c { assert Steps(q.g, q.view, found, walks, q.depth, j, l, x); }
      if i == c {
        var m :| 0 <= m < n && m < |incident| && incident[m].id == k;
        assert Rank(order, incident[m].id) < Rank(order, incident[n].id);
      }
    }
  }

  lemma TakenFirstGrows(q: Query, found: seq<string>, walks: seq<seq<string>>, c: nat, es: set<string>, c1: nat,
                        es1: set<string>, k: string, l: string)
    requires TakenFirst(q, found, walks, c, es, k, l) && (c < c1 || (c == c1 && es <= es1))
    ensures TakenFirst(q, found, walks, c1, es1, k, l)
  {
    var i, v :| Steps(q.g, q.view, found, walks, q.depth, i, k, v) && (i < c || (i == c && k in es))
        && StepsAfter(q.g, q.view, found, walks, q.depth, i, k, l);
    assert i < c1 || (i == c1 && k in es1);
  }

  lemma TakesInTurn(q: Query, s: State, walks: seq<seq<string>>, c: nat, incident: seq<Edge>, n: nat, s1: State,
                    walks1: seq<seq<string>>)
    requires c < |s.nodes.order| == |walks| && n < |incident| && s.nodes.order <= s1.nodes.order && walks <= walks1
    requires ListsSteps(q.g, q.view, s.nodes.order[c], incident)
    requires TakenSteps(q.g, q.view, s.edges, s.nodes.order, walks, q.depth, c, FirstIds(incident, n))
    requires TakenInTurn(q, s.edges, s.nodes.order, walks, c, FirstIds(incident, n))
    requires Adds(s.edges, incident[n].id, s1.edges) || s1.edges == s.edges
    ensures TakenInTurn(q, s1.edges, s1.nodes.order, walks1, c, FirstIds(incident, n + 1))
  {
    var d, d1, es := s.edges, s1.edges, FirstIds(incident, n);
    forall a, b | 0 <= a < b < |d1.order|
      ensures TakenFirst(q, s1.nodes.order, walks1, c, FirstIds(incident, n + 1), d1.order[a], d1.order[b])
    {
      if b < |d.order| {
        TakenFirstStill(q, s.nodes.order, walks, c, es, s1.nodes.order, walks1, d.order[a], d.order[b]);
      } else {
        NewComesLast(q, s, walks, c, incident, n, s1.nodes.order, walks1, d.order[a]);
      }
      TakenFirstGrows(q, s1.nodes.order, walks1, c, es, c, FirstIds(incident, n + 1), d1.order[a], d1.order[b]);
    }
  }

  lemma OpenBegins(q: Query, s: State, walks: seq<seq<string>>, c: nat, incident: seq<Edge>)
    requires Open(q, s, walks, c) && c < |walks| && |walks[c]| < q.depth
    requires ListsSteps(q.g, q.view, s.nodes.order[c], incident)
    ensures OpenAmid(q, s, walks, c, incident, 0)
  {
    BeginsNode(q.Scan(), s.nodes.order, walks, c, incident);
    assert FirstIds(incident, 0) == {};
  }

  /** The next edge is no admitted step. */
  lemma OpenNoStep(q: Query, s: State, walks: seq<seq<string>>, c: nat, incident: seq<Edge>, n: nat)
    requires OpenAmid(q, s, walks, c, incident, n) && n < |incident|
    requires forall v :: !Link(q.g, q.view, s.nodes.order[c], incident[n].id, v)
    ensures OpenAmid(q, s, walks, c, incident, n + 1)
  {
    FindsNothing(q.Scan(), s.nodes.order, walks, c, incident, n);
    TakesOneMore(q, s, walks, c, incident, n, s, walks);
    TakesInTurn(q, s, walks, c, incident, n, s, walks);
  }

  /** The next edge leads to a node found before. */
  lemma OpenKnown(q: Query, s: State, walks: seq<seq<string>>, c: nat, incident: seq<Edge>, n: nat, v: string,
                  s1: State)
    requires OpenAmid(q, s, walks, c, incident, n) && n < |incident|
    requires Link(q.g, q.view, s.nodes.order[c], incident[n].id, v) && v in s.nodes.order
    requires s1.nodes == s.nodes && Adds(s.edges, incident[n].id, s1.edges)
    ensures OpenAmid(q, s1, walks, c, incident, n + 1)
  {
    FindsNothing(q.Scan(), s.nodes.order, walks, c, incident, n);
    TakesOneMore(q, s, walks, c, incident, n, s1, walks);
    TakesInTurn(q, s, walks, c, incident, n, s1, walks);
  }

  /** The next edge leads to a new node, and there is still room. */
  lemma OpenNew(q: Query, s: State, walks: seq<seq<string>>, c: nat, incident: seq<Edge>, n: nat, v: string, s1: State)
    requires OpenAmid(q, s, walks, c, incident, n) && n < |incident|
    requires |s.nodes.order| + 1 < q.limit
    requires Link(q.g, q.view, s.nodes.order[c], incident[n].id, v) && v !in s.nodes.order
    requires s1.nodes.order == s.nodes.order + [v] && Adds(s.edges, incident[n].id, s1.edges)
    ensures OpenAmid(q, s1, walks + [walks[c] + [incident[n].id]], c, incident, n + 1)
  {
    FindsNew(q.Scan(), s.nodes.order, walks, c, incident, n, v);
    TakesOneMore(q, s, walks, c, incident, n, s1, walks + [walks[c] + [incident[n].id]]);
    TakesInTurn(q, s, walks, c, incident, n, s1, walks + [walks[c] + [incident[n].id]]);
  }

  lemma OpenDone(q: Query, s: State, walks: seq<seq<string>>, c: nat, incident: seq<Edge>)
    requires OpenAmid(q, s, walks, c, incident, |incident|)
    ensures Open(q, s, walks, c + 1)
  {
    var found, es := s.nodes.order, FirstIds(incident, |incident|);
    EndsNode(q.Scan(), found, walks, c, incident);
    TakenStepsRecede(q.g, q.view, s.edges, found, walks, q.depth, c, es);
    TakenInTurnRecedes(q, s.edges, found, walks, c, es);
  }

  lemma TakenInTurnRecedes(q: Query, d: Dict<Edge>, found: seq<string>, walks: seq<seq<string>>, c: nat,
                           es: set<string>)
    requires TakenInTurn(q, d, found, walks, c, es)
    ensures TakenInTurn(q, d, found, walks, c + 1, {})
  {
    var c1 := c + 1;
    forall a, b | 0 <= a < b < |d.order| ensures TakenFirst(q, found, walks, c1, {}, d.order[a], d.order[b]) {
      TakenFirstGrows(q, found, walks, c, es, c1, {}, d.order[a], d.order[b]);
    }
  }

  lemma TakenStepsRecede(g: Graph, view: View, edges: Dict<Edge>, found: seq<string>, walks: seq<seq<string>>,
                         depth: int, c: nat, es: set<string>)
    requires TakenSteps(g, view, edges, found, walks, depth, c, es)
    requires forall k, v :: Steps(g, view, found, walks, depth, c, k, v) ==> k in es
    ensures TakenSteps(g, view, edges, found, walks, depth, c + 1, {})
  {
    var c1 := c + 1;
    forall k ensures k in edges.at <==> TakenStep(g, view, found, walks, depth, c1, {}, k) {
      assert k in edges.at <==> TakenStep(g, view, found, walks, depth, c, es, k);
      if TakenStep(g, view, found, walks, depth, c, es, k) {
        var i, v :| Steps(g, view, found, walks, depth, i, k, v) && (i < c || (i == c && k in es));
        assert i < c1;
      }
      if TakenStep(g, view, found, walks, depth, c1, {}, k) {
        var i, v :| Steps(g, view, found, walks, depth, i, k, v) && i < c1;
        assert i == c ==> k in es;
      }
    }
  }

  lemma OpenSkips(q: Query, s: State, walks: seq<seq<string>>, h: nat)
    requires Open(q, s, walks, h) && h < |walks| && |walks[h]| >= q.depth
    ensures Open(q, s, walks, h + 1)
  {
    SkipsNode(q.Scan(), s.nodes.order, walks, h);
    TakenStepsRecede(q.g, q.view, s.edges, s.nodes.order, walks, q.depth, h, {});
    TakenInTurnRecedes(q, s.edges, s.nodes.order, walks, h, {});
  }

  // ----- meeting the limit -----

  /** An edge that no later edge of the list precedes is among the first so many. */
  lemma AmongFirst(g: Graph, view: View, u: string, incident: seq<Edge>, n: nat, k: string, v: string)
    requires ListsSteps(g, view, u, incident) && n < |incident| && Link(g, view, u, k, v)
    ensures k in FirstIds(incident, n + 1) <==> Rank(g.edges.order, k) <= Rank(g.edges.order, incident[n].id)
  {
    var order := g.edges.order;
    assert k in FirstIds(incident, |incident|);
    var i :| 0 <= i < |incident| && incident[i].id == k;
    if k in FirstIds(incident, n + 1) {
      var j :| 0 <= j < n + 1 && j < |incident| && incident[j].id == k;
      assert j < n ==> Rank(order, incident[j].id) < Rank(order, incident[n].id);
    } else if i > n {
      assert Rank(order, incident[n].id) < Rank(order, incident[i].id);
    }
  }

  lemma NoLaterSibling(order: seq<string>, a: seq<string>, e: string, f: string)
    ensures NoLater(order, a + [e], a + [f]) ==> Rank(order, e) <= Rank(order, f)
  {
    if Rank(order, f) < Rank(order, e) && NoLater(order, a + [e], a + [f]) {
      EarlierSibling(order, a, f, e);
      EarlierTransitive(order, a + [e], a + [f], a + [e]);
      EarlierIrreflexive(order, a + [e]);
    }
  }

  /** Among the steps of the node being expanded, those no later than the last one taken are the ones taken. */
  lemma TakenIsNoLater(g: Graph, view: View, u: string, walk: seq<string>, incident: seq<Edge>, n: nat, k: string,
                       v: string)
    requires ListsSteps(g, view, u, incident) && n < |incident| && Link(g, view, u, k, v)
    requires Link(g, view, u, incident[n].id, incident[n].OtherEnd(u))
    ensures k in FirstIds(incident, n + 1)
            <==> NoLater(g.edges.order, walk + [k], walk + [incident[n].id]) || FirstStep(g, view, u, k, v)
  {
    var order, e := g.edges.order, incident[n].id;
    AmongFirst(g, view, u, incident, n, k, v);
    NoLaterSibling(order, walk, k, e);
    if k in FirstIds(incident, n + 1) && k != e {
      assert e in FirstIds(incident, |incident|);
      var i :| 0 <= i < n + 1 && i < |incident| && incident[i].id == k;
      EarlierSibling(order, walk, k, e);
    }
  }

  /** With `limit` nodes found, the first step from each node done leads to one of them. */
  lemma NoEscapeYet(q: Query, found: seq<string>, walks: seq<seq<string>>, c: nat, incident: seq<Edge>, n: nat)
    requires Amid(q.Scan(), found, walks, c, incident, n + 1) && n < |incident|
    requires Link(q.g, q.view, found[c], incident[n].id, incident[n].OtherEnd(found[c]))
    ensures NoEscapeBefore(q.g, q.view, found, walks, q.depth, c + 1)
  {
    forall j, k, v | 0 <= j < c + 1 ensures !Escape(q.g, q.view, found, walks, q.depth, j, k, v) {
      if Steps(q.g, q.view, found, walks, q.depth, j, k, v) && FirstStep(q.g, q.view, found[j], k, v) {
        if j == c { AmongFirst(q.g, q.view, found[c], incident, n, k, v); }
        assert Met(found, {}, v);
      }
    }
  }

  lemma BeyondLater(g: Graph, w: seq<string>, e: string, x: seq<string>)
    requires Earlier(g.edges.order, w, x) || x == w + [e]
    ensures Beyond(g, w + [e], x)
  {
    forall k ensures Earlier(g.edges.order, w + [e], x + [k]) {
      if Earlier(g.edges.order, w, x) { EarlierExtends(g.edges.order, w, x, e, k); }
    }
  }

  /** The edges taken so far are the kept ones, when the last walk prolongs that of the node being expanded. */
  lemma TakenAreKept(q: Query, edges: Dict<Edge>, found: seq<string>, walks: seq<seq<string>>, c: nat,
                     incident: seq<Edge>, n: nat)
    requires Amid(q.Scan(), found, walks, c, incident, n + 1) && n < |incident|
    requires Link(q.g, q.view, found[c], incident[n].id, incident[n].OtherEnd(found[c]))
    requires walks[|walks| - 1] == walks[c] + [incident[n].id]
    requires TakenSteps(q.g, q.view, edges, found, walks, q.depth, c, FirstIds(incident, n + 1))
    ensures KeptSteps(q.g, q.view, edges, found, walks, q.depth, c + 1)
  {
    var es := FirstIds(incident, n + 1);
    NoEscapeYet(q, found, walks, c, incident, n);
    forall k ensures k in edges.at <==> exists i :: i < c + 1 && KeptStep(q.g, q.view, found, walks, q.depth, i, k) {
      assert k in edges.at <==> TakenStep(q.g, q.view, found, walks, q.depth, c, es, k);
      if TakenStep(q.g, q.view, found, walks, q.depth, c, es, k) {
        var i, v :| Steps(q.g, q.view, found, walks, q.depth, i, k, v) && (i < c || (i == c && k in es));
        TakenIsKept(q, found, walks, c, incident, n, i, k, v);
      }
      if i :| i < c + 1 && KeptStep(q.g, q.view, found, walks, q.depth, i, k) {
        var v :| Steps(q.g, q.view, found, walks, q.depth, i, k, v)
                 && (NoLater(q.g.edges.order, walks[i] + [k], walks[|walks| - 1])
                     || FirstStep(q.g, q.view, found[i], k, v));
        if i == c { TakenIsNoLater(q.g, q.view, found[c], walks[c], incident, n, k, v); }
      }
    }
  }

  lemma TakenInTurnIsKept(q: Query, d: Dict<Edge>, found: seq<string>, walks: seq<seq<string>>, c: nat,
                          incident: seq<Edge>, n: nat)
    requires Amid(q.Scan(), found, walks, c, incident, n + 1) && n < |incident|
    requires Link(q.g, q.view, found[c], incident[n].id, incident[n].OtherEnd(found[c]))
    requires walks[|walks| - 1] == walks[c] + [incident[n].id]
    requires TakenInTurn(q, d, found, walks, c, FirstIds(incident, n + 1))
    ensures KeptInTurn(q, d, found, walks, c + 1)
  {
    var es, c1 := FirstIds(incident, n + 1), c + 1;
    NoEscapeYet(q, found, walks, c, incident, n);
    forall a, b | 0 <= a < b < |d.order| ensures KeptFirst(q, found, walks, c1, d.order[a], d.order[b]) {
      var k, l := d.order[a], d.order[b];
      assert TakenFirst(q, found, walks, c, es, k, l);
      var i, v :| Steps(q.g, q.view, found, walks, q.depth, i, k, v) && (i < c || (i == c && k in es))
          && StepsAfter(q.g, q.view, found, walks, q.depth, i, k, l);
      TakenIsKept(q, found, walks, c, incident, n, i, k, v);
      assert KeptAfter(q.g, q.view, found, walks, q.depth, i, k, l);
    }
  }

  lemma TakenIsKept(q: Query, found: seq<string>, walks: seq<seq<string>>, c: nat, incident: seq<Edge>, n: nat, i: int,
                    k: string, v: string)
    requires Amid(q.Scan(), found, walks, c, incident, n + 1) && n < |incident|
    requires Link(q.g, q.view, found[c], incident[n].id, incident[n].OtherEnd(found[c]))
    requires walks[|walks| - 1] == walks[c] + [incident[n].id]
    requires NoEscapeBefore(q.g, q.view, found, walks, q.depth, c + 1)
    requires Steps(q.g, q.view, found, walks, q.depth, i, k, v) && (i < c || (i == c && k in FirstIds(incident, n + 1)))
    ensures KeptStep(q.g, q.view, found, walks, q.depth, i, k)
  {
    if i < c {
      EarlierExtends(q.g.edges.order, walks[i], walks[c], k, incident[n].id);
    } else {
      TakenIsNoLater(q.g, q.view, found[c], walks[c], incident, n, k, v);
    }
  }

  /** What has been taken when the limit is met. */
  lemma AmidToFull(q: Query, s: State, walks: seq<seq<string>>, c: nat, incident: seq<Edge>, n: nat)
    requires Amid(q.Scan(), s.nodes.order, walks, c, incident, n + 1) && n < |incident| && |s.nodes.order| == q.limit
    requires Link(q.g, q.view, s.nodes.order[c], incident[n].id, incident[n].OtherEnd(s.nodes.order[c]))
    requires walks[|walks| - 1] == walks[c] + [incident[n].id]
    requires TakenSteps(q.g, q.view, s.edges, s.nodes.order, walks, q.depth, c, FirstIds(incident, n + 1))
    requires TakenInTurn(q, s.edges, s.nodes.order, walks, c, FirstIds(incident, n + 1))
    ensures Full(q, s, walks, c + 1)
  {
    NoEscapeYet(q, s.nodes.order, walks, c, incident, n);
    TakenAreKept(q, s.edges, s.nodes.order, walks, c, incident, n);
    TakenInTurnIsKept(q, s.edges, s.nodes.order, walks, c, incident, n);
    forall i | c + 1 <= i < |walks| ensures Beyond(q.g, walks[|walks| - 1], walks[i]) {
      BeyondLater(q.g, walks[c], incident[n].id, walks[i]);
    }
  }

  /** The next edge leads to a new node, which is the last one within the limit. */
  lemma OpenToFull(q: Query, s: State, walks: seq<seq<string>>, c: nat, incident: seq<Edge>, n: nat, v: string,
                   s1: State)
    requires OpenAmid(q, s, walks, c, incident, n) && n < |incident|
    requires |s.nodes.order| + 1 == q.limit
    requires Link(q.g, q.view, s.nodes.order[c], incident[n].id, v) && v !in s.nodes.order
    requires v == incident[n].OtherEnd(s.nodes.order[c])
    requires s1.nodes.order == s.nodes.order + [v] && Adds(s.edges, incident[n].id, s1.edges)
    ensures Full(q, s1, walks + [walks[c] + [incident[n].id]], c + 1)
  {
    var walks1 := walks + [walks[c] + [incident[n].id]];
    FindsNew(q.Scan(), s.nodes.order, walks, c, incident, n, v);
    TakesOneMore(q, s, walks, c, incident, n, s1, walks1);
    TakesInTurn(q, s, walks, c, incident, n, s1, walks1);
    AmidToFull(q, s1, walks1, c, incident, n);
  }

  // ----- once the limit is met -----

  /** A node that takes no step, because of its depth or because it has none. */
  lemma FullSkips(q: Query, s: State, walks: seq<seq<string>>, h: nat)
    requires Full(q, s, walks, h) && h < |walks|
    requires forall k, v :: !Steps(q.g, q.view, s.nodes.order, walks, q.depth, h, k, v)
    ensures Full(q, s, walks, h + 1)
  {
    KeptOneMore(q.g, q.view, s.edges, s.edges, s.nodes.order, walks, q.depth, h);
    KeptInTurnGrows(q, s.edges, s.nodes.order, walks, h);
  }

  lemma KeptOneMore(g: Graph, view: View, edges: Dict<Edge>, edges1: Dict<Edge>, found: seq<string>,
                    walks: seq<seq<string>>, depth: int, h: nat)
    requires walks != [] && KeptSteps(g, view, edges, found, walks, depth, h)
    requires forall k :: k in edges1.at <==> k in edges.at || KeptStep(g, view, found, walks, depth, h, k)
    ensures KeptSteps(g, view, edges1, found, walks, depth, h + 1)
  {
    forall k ensures k in edges1.at <==> exists i :: i < h + 1 && KeptStep(g, view, found, walks, depth, i, k) {
      if i :| i < h + 1 && KeptStep(g, view, found, walks, depth, i, k) { assert i == h || i < h; }
    }
  }

  lemma KeptInTurnGrows(q: Query, d: Dict<Edge>, found: seq<string>, walks: seq<seq<string>>, h: nat)
    requires walks != [] && KeptInTurn(q, d, found, walks, h)
    ensures KeptInTurn(q, d, found, walks, h + 1)
  {
    var h1 := h + 1;
    forall a, b | 0 <= a < b < |d.order| ensures KeptFirst(q, found, walks, h1, d.order[a], d.order[b]) {
      assert KeptFirst(q, found, walks, h, d.order[a], d.order[b]);
    }
  }

  lemma KeptInTurnOneMore(q: Query, d: Dict<Edge>, found: seq<string>, walks: seq<seq<string>>, h: nat, k: string,
                          d1: Dict<Edge>)
    requires walks != [] && KeptInTurn(q, d, found, walks, h) && Adds(d, k, d1)
    requires KeptSteps(q.g, q.view, d, found, walks, q.depth, h)
    ensures KeptInTurn(q, d1, found, walks, h + 1)
  {
    var h1 := h + 1;
    forall a, b | 0 <= a < b < |d1.order| ensures KeptFirst(q, found, walks, h1, d1.order[a], d1.order[b]) {
      if b < |d.order| {
        assert KeptFirst(q, found, walks, h, d.order[a], d.order[b]);
      } else {
        assert d.order[a] in d.at && k !in d.at;
        var i :| i < h && KeptStep(q.g, q.view, found, walks, q.depth, i, d.order[a]);
        assert KeptAfter(q.g, q.view, found, walks, q.depth, i, d.order[a], k);
      }
    }
  }

  /** The first edge of the list that is an admitted step is the first step. */
  lemma FirstInList(g: Graph, view: View, u: string, incident: seq<Edge>, n: nat, v: string)
    requires ListsSteps(g, view, u, incident) && n < |incident| && Link(g, view, u, incident[n].id, v)
    requires forall i, x :: 0 <= i < n ==> !Link(g, view, u, incident[i].id, x)
    ensures FirstStep(g, view, u, incident[n].id, v)
  {
    forall l, x | Link(g, view, u, l, x) ensures Rank(g.edges.order, incident[n].id) <= Rank(g.edges.order, l) {
      assert l in FirstIds(incident, |incident|);
      var i :| 0 <= i < |incident| && incident[i].id == l;
    }
  }

  /** Beyond the last walk only first steps are kept. */
  lemma KeptBeyond(g: Graph, view: View, found: seq<string>, walks: seq<seq<string>>, depth: int, h: nat, k: string,
                   v: string, l: string)
    requires g.edges.Valid() && h < |walks| == |found| && Beyond(g, walks[|walks| - 1], walks[h])
    requires NoEscapeBefore(g, view, found, walks, depth, h)
    requires Steps(g, view, found, walks, depth, h, k, v) && FirstStep(g, view, found[h], k, v)
    ensures KeptStep(g, view, found, walks, depth, h, l) <==> l == k
  {
    if KeptStep(g, view, found, walks, depth, h, l) {
      var order, last := g.edges.order, walks[|walks| - 1];
      var x :| Steps(g, view, found, walks, depth, h, l, x)
          && (NoLater(order, walks[h] + [l], last) || FirstStep(g, view, found[h], l, x));
      assert Earlier(order, last, walks[h] + [l]);
      if NoLater(order, walks[h] + [l], last) {
        EarlierTransitive(order, last, walks[h] + [l], last);
        EarlierIrreflexive(order, last);
      }
      FirstStepUnique(g, view, found[h], k, v, l, x);
    }
  }

  /** The first step leads to a node found before. */
  lemma FullInside(q: Query, s: State, walks: seq<seq<string>>, h: nat, k: string, v: string, s1: State)
    requires q.g.edges.Valid() && Full(q, s, walks, h) && h < |walks|
    requires Steps(q.g, q.view, s.nodes.order, walks, q.depth, h, k, v)
    requires FirstStep(q.g, q.view, s.nodes.order[h], k, v)
    requires v in s.nodes.order
    requires s1.nodes == s.nodes && Adds(s.edges, k, s1.edges)
    ensures Full(q, s1, walks, h + 1)
  {
    var found := s.nodes.order;
    forall l ensures KeptStep(q.g, q.view, found, walks, q.depth, h, l) <==> l == k {
      KeptBeyond(q.g, q.view, found, walks, q.depth, h, k, v, l);
    }
    KeptOneMore(q.g, q.view, s.edges, s1.edges, found, walks, q.depth, h);
    KeptInTurnOneMore(q, s.edges, found, walks, h, k, s1.edges);
    StaysInside(q.g, q.view, found, walks, q.depth, h, k, v);
  }

  lemma StaysInside(g: Graph, view: View, found: seq<string>, walks: seq<seq<string>>, depth: int, h: nat, k: string,
                    v: string)
    requires g.edges.Valid() && h < |found| && FirstStep(g, view, found[h], k, v) && v in found
    requires NoEscapeBefore(g, view, found, walks, depth, h)
    ensures NoEscapeBefore(g, view, found, walks, depth, h + 1)
  {
    forall l, x ensures !Escape(g, view, found, walks, depth, h, l, x) {
      if FirstStep(g, view, found[h], l, x) { FirstStepUnique(g, view, found[h], k, v, l, x); }
    }
  }

  /** The first step leads to a new node: one more than the limit. */
  lemma FullToOver(q: Query, s: State, walks: seq<seq<string>>, h: nat, k: string, v: string, s1: State)
    requires q.g.edges.Valid() && Full(q, s, walks, h) && h < |walks| && q.limit >= 1
    requires Steps(q.g, q.view, s.nodes.order, walks, q.depth, h, k, v)
    requires FirstStep(q.g, q.view, s.nodes.order[h], k, v)
    requires v !in s.nodes.order
    requires s1.nodes.order == s.nodes.order + [v] && Adds(s.edges, k, s1.edges)
    ensures Over(q, s1, walks + [walks[h] + [k]], h)
  {
    var found, walks1 := s.nodes.order, walks + [walks[h] + [k]];
    assert s1.nodes.order[..q.limit] == found && walks1[..q.limit] == walks;
    forall l ensures KeptStep(q.g, q.view, found, walks, q.depth, h, l) <==> l == k {
      KeptBeyond(q.g, q.view, found, walks, q.depth, h, k, v, l);
    }
    KeptOneMore(q.g, q.view, s.edges, s1.edges, found, walks, q.depth, h);
    KeptInTurnOneMore(q, s.edges, found, walks, h, k, s1.edges);
    assert Escape(q.g, q.view, found, walks, q.depth, h, k, v) && s1.nodes.order[q.limit] == v;
  }

  // ----- one expansion -----

  /** Within the expansion of node `c`; once the limit is met it ends with the first admitted step. */
  ghost predicate Around(q: Query, s: State, walks: seq<seq<string>>, c: nat, incident: seq<Edge>, n: nat) {
    && n <= |incident| && c < |walks| == |s.nodes.order| && |walks[c]| < q.depth
    && ListsSteps(q.g, q.view, s.nodes.order[c], incident)
    && if |s.nodes.order| < q.limit then OpenAmid(q, s, walks, c, incident, n)
       else Full(q, s, walks, c) && NoneAmong(q.g, q.view, s.nodes.order[c], incident, n)
  }

  ghost predicate NoneAmong(g: Graph, view: View, u: string, incident: seq<Edge>, n: nat) {
    forall i, x :: 0 <= i < n && i < |incident| ==> !Link(g, view, u, incident[i].id, x)
  }

  ghost predicate Kept(q: Query, s: State, walks: seq<seq<string>>, h: nat) {
    Collected(q, s, walks) && Tracks(s, walks, h)
  }

  lemma AroundBegins(q: Query, s: State, walks: seq<seq<string>>, c: nat, incident: seq<Edge>)
    requires Phase(q, s, walks, c) && |s.nodes.order| == |walks| <= q.limit
    requires c < |walks| && |walks[c]| < q.depth && ListsSteps(q.g, q.view, s.nodes.order[c], incident)
    ensures Around(q, s, walks, c, incident, 0)
  {
    if |s.nodes.order| < q.limit { OpenBegins(q, s, walks, c, incident); }
  }

  lemma AroundSkips(q: Query, s: State, walks: seq<seq<string>>, c: nat, incident: seq<Edge>, n: nat)
    requires Around(q, s, walks, c, incident, n) && n < |incident|
    requires forall v :: !Link(q.g, q.view, s.nodes.order[c], incident[n].id, v)
    ensures Around(q, s, walks, c, incident, n + 1)
  {
    if |s.nodes.order| < q.limit { OpenNoStep(q, s, walks, c, incident, n); }
  }

  lemma AroundEnds(q: Query, s: State, walks: seq<seq<string>>, c: nat, incident: seq<Edge>)
    requires Around(q, s, walks, c, incident, |incident|) && |s.nodes.order| <= q.limit
    ensures Phase(q, s, walks, c + 1)
  {
    if |s.nodes.order| < q.limit {
      OpenDone(q, s, walks, c, incident);
    } else {
      forall k, v ensures !Steps(q.g, q.view, s.nodes.order, walks, q.depth, c, k, v) {
        assert !Link(q.g, q.view, s.nodes.order[c], k, v) || k in FirstIds(incident, |incident|);
      }
      FullSkips(q, s, walks, c);
    }
  }

  ghost predicate Progressed(s0: State, s: State) {
    s0.dep.Keys < s.dep.Keys || (s0.dep.Keys == s.dep.Keys && |s.queue| == |s0.queue|)
  }

  lemma Progress(universe: set<string>, s0: State, s: State)
    requires Progressed(s0, s) && s.dep.Keys <= universe
    ensures universe - s.dep.Keys < universe - s0.dep.Keys
            || (universe - s.dep.Keys == universe - s0.dep.Keys && |s.queue| == |s0.queue|)
  {
  }

  lemma ProgressedTransitive(s0: State, s1: State, s2: State)
    requires Progressed(s0, s1) && Progressed(s1, s2)
    ensures Progressed(s0, s2)
  {
  }

  lemma TakenProgresses(g: Graph, s: State, d: nat, k: string, v: string)
    requires k in g.edges.at && v in g.nodes.at
    ensures Progressed(s, Taken(g, s, d, k, v))
  {
    if v !in s.dep { assert Taken(g, s, d, k, v).dep.Keys == s.dep.Keys + {v}; }
  }

  /** What one taken step leaves behind. */
  ghost predicate AfterStep(q: Query, s: State, walks: seq<seq<string>>, c: nat, incident: seq<Edge>, n: nat) {
    if |s.nodes.order| < q.limit then Around(q, s, walks, c, incident, n)
    else Phase(q, s, walks, c + 1)
  }

  /** The next edge is a step to a node found before. */
  lemma AroundKnown(q: Query, s: State, walks: seq<seq<string>>, c: nat, incident: seq<Edge>, n: nat, v: string,
                    s1: State)
    requires q.g.Valid() && Around(q, s, walks, c, incident, n) && n < |incident|
    requires |s.nodes.order| <= q.limit
    requires Link(q.g, q.view, s.nodes.order[c], incident[n].id, v) && v in s.nodes.order
    requires s1.nodes == s.nodes && Adds(s.edges, incident[n].id, s1.edges)
    ensures AfterStep(q, s1, walks, c, incident, n + 1)
  {
    if |s.nodes.order| < q.limit {
      OpenKnown(q, s, walks, c, incident, n, v, s1);
    } else {
      FirstInList(q.g, q.view, s.nodes.order[c], incident, n, v);
      FullInside(q, s, walks, c, incident[n].id, v, s1);
    }
  }

  /** The next edge is a step to a new node. */
  lemma AroundNew(q: Query, s: State, walks: seq<seq<string>>, c: nat, incident: seq<Edge>, n: nat, v: string,
                  s1: State)
    requires q.g.Valid() && Around(q, s, walks, c, incident, n) && n < |incident|
    requires |s.nodes.order| <= q.limit
    requires Link(q.g, q.view, s.nodes.order[c], incident[n].id, v) && v !in s.nodes.order
    requires v == incident[n].OtherEnd(s.nodes.order[c])
    requires s1.nodes.order == s.nodes.order + [v] && Adds(s.edges, incident[n].id, s1.edges)
    requires q.limit >= 1
    ensures AfterStep(q, s1, walks + [walks[c] + [incident[n].id]], c, incident, n + 1)
  {
    if |s.nodes.order| + 1 < q.limit {
      OpenNew(q, s, walks, c, incident, n, v, s1);
    } else if |s.nodes.order| < q.limit {
      OpenToFull(q, s, walks, c, incident, n, v, s1);
    } else {
      FirstInList(q.g, q.view, s.nodes.order[c], incident, n, v);
      FullToOver(q, s, walks, c, incident[n].id, v, s1);
    }
  }

  lemma StillSteps(g: Graph, view: View, s: State, walks: seq<seq<string>>, depth: int, c: nat, k: string, v: string)
    requires c < |walks| == |s.nodes.order| && |walks[c]| < depth && Link(g, view, s.nodes.order[c], k, v)
    ensures Steps(g, view, s.nodes.order, walks, depth, c, k, v)
  {
  }

  /** Taking the next edge as a step to `v`. */
  lemma AroundTakes(q: Query, s: State, walks: seq<seq<string>>, c: nat, incident: seq<Edge>, n: nat, v: string,
                    s1: State)
    returns (walks1: seq<seq<string>>)
    requires q.g.Valid() && q.limit >= 1 && Around(q, s, walks, c, incident, n) && n < |incident|
    requires |s.nodes.order| <= q.limit && Kept(q, s, walks, c + 1) && v in q.g.nodes.at
    requires Link(q.g, q.view, s.nodes.order[c], incident[n].id, v) && v == incident[n].OtherEnd(s.nodes.order[c])
    requires s1 == Taken(q.g, s, |walks[c]|, incident[n].id, v)
    ensures AfterStep(q, s1, walks1, c, incident, n + 1)
    ensures Kept(q, s1, walks1, c + 1)
    ensures c < |walks1| && walks1[c] == walks[c] && c < |s1.nodes.order| && s1.nodes.order[c] == s.nodes.order[c]
  {
    var k := incident[n].id;
    StillSteps(q.g, q.view, s, walks, q.depth, c, k, v);
    if v in s.dep {
      walks1 := walks;
      assert v in s.nodes.order;
      AroundKnown(q, s, walks, c, incident, n, v, s1);
      CollectsKnown(q, s, walks, c, k, v);
    } else {
      walks1 := walks + [walks[c] + [k]];
      assert v !in s.nodes.order;
      CollectsNew(q, s, walks, c, k, v, s1);
      AroundNew(q, s, walks, c, incident, n, v, s1);
      TracksOneMore(s, walks, c + 1, v, walks[c] + [k], s1);
    }
  }

  /** The state of the inner loop at the mark `current`. */
  ghost predicate Selecting(q: Query, s: State, walks: seq<seq<string>>, c: nat, incident: seq<Edge>, n: nat,
                            current: Mark) {
    && Around(q, s, walks, c, incident, n) && |s.nodes.order| <= q.limit
    && Kept(q, s, walks, c + 1) && current == Mark(s.nodes.order[c], |walks[c]|)
  }

  /** What choosing among the next edges relies on. */
  lemma ReadyToSelect(q: Query, s: State, walks: seq<seq<string>>, c: nat, incident: seq<Edge>, n: nat, current: Mark)
    requires Selecting(q, s, walks, c, incident, n, current)
    ensures s.dep.Keys == s.nodes.at.Keys
    ensures forall v :: v in s.nodes.at ==> v in q.g.nodes.at && s.nodes.at[v] == q.g.nodes.at[v]
    ensures forall v :: v in s.dep ==> s.dep[v] <= current.depth + 1
    ensures current.depth < q.depth
  {
    PhaseDepths(q, s, walks, c, incident, n);
    forall v | v in s.dep ensures s.dep[v] <= |walks[c]| + 1 {
      assert v in s.nodes.order;
      var i :| 0 <= i < |s.nodes.order| && s.nodes.order[i] == v;
    }
  }

  lemma SelectingSkips(q: Query, s: State, walks: seq<seq<string>>, c: nat, incident: seq<Edge>, n: nat, current: Mark)
    requires Selecting(q, s, walks, c, incident, n, current) && n < |incident|
    requires forall v :: !Link(q.g, q.view, current.id, incident[n].id, v)
    ensures Selecting(q, s, walks, c, incident, n + 1, current)
  {
    AroundSkips(q, s, walks, c, incident, n);
  }

  lemma SelectingTakes(q: Query, s: State, walks: seq<seq<string>>, c: nat, incident: seq<Edge>, n: nat, current: Mark,
                       s1: State)
    returns (walks1: seq<seq<string>>)
    requires q.g.Valid() && q.limit >= 1 && Selecting(q, s, walks, c, incident, n, current)
    requires n < |incident|
    requires var v := incident[n].OtherEnd(current.id);
             v in q.g.nodes.at && Link(q.g, q.view, current.id, incident[n].id, v)
                 && s1 == Taken(q.g, s, current.depth, incident[n].id, v)
    ensures if |s1.nodes.order| < q.limit
            then Selecting(q, s1, walks1, c, incident, n + 1, current)
            else Phase(q, s1, walks1, c + 1) && Kept(q, s1, walks1, c + 1)
  {
    var v := incident[n].OtherEnd(current.id);
    walks1 := AroundTakes(q, s, walks, c, incident, n, v, s1);
  }

  /** A node at the full depth takes no step. */
  lemma PhaseSkips(q: Query, s: State, walks: seq<seq<string>>, h: nat)
    requires Phase(q, s, walks, h) && |s.nodes.order| == |walks| <= q.limit
    requires h < |walks| && |walks[h]| >= q.depth
    ensures Phase(q, s, walks, h + 1)
  {
    if |s.nodes.order| < q.limit {
      OpenSkips(q, s, walks, h);
    } else {
      FullSkips(q, s, walks, h);
    }
  }

  lemma FullDepths(q: Query, s: State, walks: seq<seq<string>>, c: nat)
    requires Full(q, s, walks, c) && c < |walks|
    ensures forall j :: 0 <= j < |walks| ==> |walks[j]| <= |walks[c]| + 1
  {
    var last := walks[|walks| - 1];
    assert Beyond(q.g, last, walks[c]);
    assert Earlier(q.g.edges.order, last, walks[c] + [""]);
    forall j | 0 <= j < |walks| ensures |walks[j]| <= |last| {
      assert j < |walks| - 1 ==> Earlier(q.g.edges.order, walks[j], last);
    }
  }

  /** No node lies deeper than one below the node being expanded. */
  lemma PhaseDepths(q: Query, s: State, walks: seq<seq<string>>, c: nat, incident: seq<Edge>, n: nat)
    requires Around(q, s, walks, c, incident, n) && |s.nodes.order| <= q.limit
    ensures forall j :: 0 <= j < |walks| ==> |walks[j]| <= |walks[c]| + 1
  {
    if |s.nodes.order| < q.limit {
      forall j | 0 <= j < |walks| ensures |walks[j]| <= |walks[c]| + 1 {
        DepthsOfFound(q.g, q.view, q.seed, s.nodes.order, walks, c, FirstIds(incident, n), j);
      }
    } else {
      FullDepths(q, s, walks, c);
    }
  }

  // ----- from the invariants to the promise -----

  lemma CollectedMembers(nodes: Dict<Node>, edges: Dict<Edge>)
    requires nodes.Valid() && forall v :: v in nodes.at ==> nodes.at[v].id == v
    requires edges.Valid() && forall k :: k in edges.at ==> edges.at[k].id == k
    ensures forall v :: HasNode(Subgraph(nodes.Values(), edges.Values()), v) <==> v in nodes.at
    ensures forall k :: HasEdge(Subgraph(nodes.Values(), edges.Values()), k) <==> k in edges.at
  {
    var r := Subgraph(nodes.Values(), edges.Values());
    forall v | v in nodes.at ensures HasNode(r, v) {
      assert v in nodes.order;
      var i :| 0 <= i < |nodes.order| && nodes.order[i] == v;
      assert r.nodes[i].id == v;
    }
    forall k | k in edges.at ensures HasEdge(r, k) {
      assert k in edges.order;
      var i :| 0 <= i < |edges.order| && edges.order[i] == k;
      assert r.edges[i].id == k;
    }
  }

  lemma CollectedNodesAreStored(g: Graph, seed: string, r: Subgraph, nodes: Dict<Node>)
    requires g.Valid() && NodesCollected(g, seed, nodes) && r.nodes == nodes.Values()
    ensures StoredNodes(g, seed, r) && forall i :: 0 <= i < |r.nodes| ==> r.nodes[i].id == nodes.order[i]
  {
    assert forall i :: 0 <= i < |r.nodes| ==> nodes.order[i] in nodes.at && r.nodes[i].id == nodes.order[i];
  }

  lemma CollectedEdgeIsStored(g: Graph, view: View, depth: int, r: Subgraph, edges: Dict<Edge>, found: seq<string>,
                              walks: seq<seq<string>>, i: nat)
    requires g.Valid() && EdgesCollected(g, view, edges, found, walks, depth) && i < |r.edges|
    requires r.edges == edges.Values()
    requires forall v :: v in found ==> HasNode(r, v)
    ensures r.edges[i].id in g.edges.at && r.edges[i] == g.edges.at[r.edges[i].id]
    ensures view.AdmitsEdge(r.edges[i]) && HasNode(r, r.edges[i].source) && HasNode(r, r.edges[i].target)
  {
    var k := edges.order[i];
    assert k in edges.at && Justified(g, view, found, walks, depth, k);
    var j, v :| Steps(g, view, found, walks, depth, j, k, v) && v in found;
    assert found[j] in found;
  }

  lemma CollectedEdgesAreStored(g: Graph, view: View, depth: int, r: Subgraph, edges: Dict<Edge>, found: seq<string>,
                                walks: seq<seq<string>>)
    requires g.Valid() && EdgesCollected(g, view, edges, found, walks, depth) && r.edges == edges.Values()
    requires forall v :: v in found ==> HasNode(r, v)
    ensures StoredEdges(g, view, r)
  {
    forall i | 0 <= i < |r.edges|
      ensures r.edges[i].id in g.edges.at && r.edges[i] == g.edges.at[r.edges[i].id]
      ensures view.AdmitsEdge(r.edges[i]) && HasNode(r, r.edges[i].source) && HasNode(r, r.edges[i].target)
    {
      CollectedEdgeIsStored(g, view, depth, r, edges, found, walks, i);
    }
  }

  lemma CollectedIsSound(q: Query, s: State, walks: seq<seq<string>>, r: Subgraph)
    requires q.g.Valid() && Collected(q, s, walks) && r == Subgraph(s.nodes.Values(), s.edges.Values())
    ensures Sound(q.g, q.view, q.seed, q.depth, r)
    ensures forall v :: HasNode(r, v) <==> v in s.nodes.order
    ensures forall k :: HasEdge(r, k) <==> k in s.edges.at
  {
    CollectedMembers(s.nodes, s.edges);
    forall v ensures v in s.nodes.order <==> v in s.nodes.at {}
    CollectedNodesAreStored(q.g, q.seed, r, s.nodes);
    CollectedEdgesAreStored(q.g, q.view, q.depth, r, s.edges, s.nodes.order, walks);
    forall i | 0 <= i < |r.nodes| ensures ReachedInside(q.g, q.view, r, q.seed, r.nodes[i].id, Bound(q.depth)) {
      assert Leads(q.g, q.view, q.seed, walks[i], s.nodes.order[i]) && UsesOnly(walks[i], s.edges.at.Keys);
      assert forall j :: 0 <= j < |walks[i]| ==> HasEdge(r, walks[i][j]);
    }
  }

  lemma EdgeIdsAreOrder(g: Graph, edges: Dict<Edge>, es: seq<Edge>)
    requires g.Valid() && edges.Valid() && es == edges.Values()
    requires forall k :: k in edges.at ==> k in g.edges.at && edges.at[k] == g.edges.at[k]
    ensures EdgeIdsOf(es) == edges.order
  {
    forall i | 0 <= i < |es| ensures es[i].id == edges.order[i] { assert edges.order[i] in edges.at; }
  }

  lemma IdsAreOrder(g: Graph, seed: string, nodes: Dict<Node>, ns: seq<Node>)
    requires g.Valid() && NodesCollected(g, seed, nodes) && ns == nodes.Values()
    ensures IdsOf(ns) == nodes.order
  {
    CollectedNodesAreStored(g, seed, Subgraph(ns, []), nodes);
  }

  /** When every node found is done with fewer than `limit` nodes, they are the whole ball. */
  lemma OpenIsExact(q: Query, s: State, walks: seq<seq<string>>, r: Subgraph)
    requires Open(q, s, walks, |walks|) && WithinDepth(walks, q.depth)
    requires forall v :: HasNode(r, v) <==> v in s.nodes.order
    requires forall k :: HasEdge(r, k) <==> k in s.edges.at
    ensures Exact(q.g, q.view, q.seed, q.depth, r)
  {
    var found := s.nodes.order;
    forall v ensures v in found <==> Within(q.g, q.view, q.seed, Bound(q.depth), v) {
      if v in found {
        var i :| 0 <= i < |found| && found[i] == v;
        NearestWithin(q.g, q.view, q.seed, q.depth, found, walks, i);
      }
      if Within(q.g, q.view, q.seed, Bound(q.depth), v) {
        var i := FoundWithin(q.g, q.view, q.seed, q.depth, found, walks, Bound(q.depth), v);
      }
    }
    forall k ensures k in s.edges.at <==> LeadsOn(q.g, q.view, q.seed, q.depth - 1, k) {
      OpenEdge(q.g, q.view, q.seed, q.depth, s.edges, found, walks, k);
    }
  }

  lemma FoundWithin(g: Graph, view: View, seed: string, depth: int, found: seq<string>, walks: seq<seq<string>>, d: int,
                    v: string)
    returns (i: nat)
    requires Between(Scan(g, view, seed, depth, {}), found, walks, |found|) && d <= Bound(depth)
    requires Within(g, view, seed, d, v)
    ensures i < |found| && found[i] == v && |walks[i]| <= d
  {
    var ns, es :| WalkBetween(g, view, seed, v, ns, es) && |es| <= d;
    assert Leads(g, view, seed, es, v);
    i := AllFound(Scan(g, view, seed, depth, {}), found, walks, v, es);
  }

  lemma OpenEdge(g: Graph, view: View, seed: string, depth: int, edges: Dict<Edge>, found: seq<string>,
                 walks: seq<seq<string>>, k: string)
    requires Between(Scan(g, view, seed, depth, {}), found, walks, |found|)
    requires TakenSteps(g, view, edges, found, walks, depth, |found|, {})
    ensures k in edges.at <==> LeadsOn(g, view, seed, depth - 1, k)
  {
    assert k in edges.at <==> TakenStep(g, view, found, walks, depth, |found|, {}, k);
    if TakenStep(g, view, found, walks, depth, |found|, {}, k) {
      var i, v :| Steps(g, view, found, walks, depth, i, k, v);
      assert FirstWalk(g, view, seed, found[i], walks[i]);
      var ns :| WalkBetween(g, view, seed, found[i], ns, walks[i]);
      assert Within(g, view, seed, depth - 1, found[i]);
    }
    if u, v :| Within(g, view, seed, depth - 1, u) && Link(g, view, u, k, v) {
      var i := FoundWithin(g, view, seed, depth, found, walks, depth - 1, u);
      assert Steps(g, view, found, walks, depth, i, k, v);
    }
  }

  lemma FullIsCut(q: Query, s: State, walks: seq<seq<string>>, r: Subgraph)
    requires Full(q, s, walks, |walks|) && WithinDepth(walks, q.depth)
    requires IdsOf(r.nodes) == s.nodes.order && forall k :: HasEdge(r, k) <==> k in s.edges.at
    requires EdgeIdsOf(r.edges) == s.edges.order
    ensures CutAt(q.g, q.view, q.seed, q.depth, r, s.nodes.order, walks)
  {
    forall i ensures !Escapes(q.g, q.view, s.nodes.order, walks, q.depth, i) {
      if k, v :| Escape(q.g, q.view, s.nodes.order, walks, q.depth, i, k, v) {
        assert 0 <= i < |walks|;
      }
    }
    forall k ensures HasEdge(r, k) <==> exists i :: KeptStep(q.g, q.view, s.nodes.order, walks, q.depth, i, k) {
      assert k in s.edges.at <==> exists i :: i < |walks| && KeptStep(q.g, q.view, s.nodes.order, walks, q.depth, i, k);
      if i :| KeptStep(q.g, q.view, s.nodes.order, walks, q.depth, i, k) { assert i < |walks|; }
    }
  }

  lemma OverIsCut(q: Query, s: State, walks: seq<seq<string>>, h: nat, r: Subgraph)
    requires Over(q, s, walks, h) && WithinDepth(walks, q.depth)
    requires IdsOf(r.nodes) == s.nodes.order && forall k :: HasEdge(r, k) <==> k in s.edges.at
    requires EdgeIdsOf(r.edges) == s.edges.order
    ensures CutAt(q.g, q.view, q.seed, q.depth, r, s.nodes.order[..q.limit], walks[..q.limit])
  {
    var found, front := s.nodes.order[..q.limit], walks[..q.limit];
    assert WithinDepth(front, q.depth);
    assert Escapes(q.g, q.view, found, front, q.depth, h);
    forall k ensures HasEdge(r, k) <==> exists i :: KeptStep(q.g, q.view, found, front, q.depth, i, k) {
      assert k in s.edges.at <==> exists i :: i < h + 1 && KeptStep(q.g, q.view, found, front, q.depth, i, k);
      if i :| KeptStep(q.g, q.view, found, front, q.depth, i, k) { assert i < h + 1; }
    }
  }

  lemma OpenAnswers(q: Query, s: State, walks: seq<seq<string>>, r: Subgraph)
    requires Open(q, s, walks, |walks|) && WithinDepth(walks, q.depth)
    requires IdsOf(r.nodes) == s.nodes.order && forall v :: HasNode(r, v) <==> v in s.nodes.order
    requires forall k :: HasEdge(r, k) <==> k in s.edges.at
    requires EdgeIdsOf(r.edges) == s.edges.order
    ensures Answers(q.g, q.view, q.seed, q.depth, q.limit, r, s.nodes.order, walks)
  {
    OpenIsExact(q, s, walks, r);
  }

  lemma FullAnswers(q: Query, s: State, walks: seq<seq<string>>, r: Subgraph)
    requires Full(q, s, walks, |walks|) && WithinDepth(walks, q.depth) && q.limit >= 1
    requires IdsOf(r.nodes) == s.nodes.order && forall k :: HasEdge(r, k) <==> k in s.edges.at
    requires EdgeIdsOf(r.edges) == s.edges.order
    ensures Answers(q.g, q.view, q.seed, q.depth, q.limit, r, s.nodes.order, walks)
  {
    FullIsCut(q, s, walks, r);
  }

  lemma OverAnswers(q: Query, s: State, walks: seq<seq<string>>, h: nat, r: Subgraph)
    requires Over(q, s, walks, h) && WithinDepth(walks, q.depth)
    requires IdsOf(r.nodes) == s.nodes.order && forall k :: HasEdge(r, k) <==> k in s.edges.at
    requires EdgeIdsOf(r.edges) == s.edges.order
    ensures Answers(q.g, q.view, q.seed, q.depth, q.limit, r, s.nodes.order[..q.limit], walks[..q.limit])
  {
    OverIsCut(q, s, walks, h, r);
  }

  /** The selection at the end of the loop answers. */
  lemma PhaseEnds(q: Query, s: State, walks: seq<seq<string>>, h: nat, r: Subgraph)
    returns (found: seq<string>, front: seq<seq<string>>)
    requires q.limit >= 1 && Phase(q, s, walks, h) && WithinDepth(walks, q.depth)
    requires |s.nodes.order| == |walks| && (|s.nodes.order| > q.limit || h == |walks|)
    requires IdsOf(r.nodes) == s.nodes.order && forall v :: HasNode(r, v) <==> v in s.nodes.order
    requires forall k :: HasEdge(r, k) <==> k in s.edges.at
    requires EdgeIdsOf(r.edges) == s.edges.order
    ensures Answers(q.g, q.view, q.seed, q.depth, q.limit, r, found, front)
  {
    if |s.nodes.order| < q.limit {
      OpenAnswers(q, s, walks, r);
      found, front := s.nodes.order, walks;
    } else if |s.nodes.order| == q.limit {
      FullAnswers(q, s, walks, r);
      found, front := s.nodes.order, walks;
    } else {
      OverAnswers(q, s, walks, h - 1, r);
      found, front := s.nodes.order[..q.limit], walks[..q.limit];
    }
  }

  /** When the loop has ended, its selection is the promised answer. */
  lemma PhaseAnswers(q: Query, s: State, walks: seq<seq<string>>, h: nat, r: Subgraph)
    requires q.g.Valid() && q.limit >= 1 && Phase(q, s, walks, h)
    requires Collected(q, s, walks) && Tracks(s, walks, h)
    requires (s.queue == [] || |s.nodes.order| > q.limit)
    requires r == Subgraph(s.nodes.Values(), s.edges.Values())
    ensures NeighboursPromised(q.g, q.view, q.seed, q.depth, q.limit, r)
  {
    CollectedIsSound(q, s, walks, r);
    IdsAreOrder(q.g, q.seed, s.nodes, r.nodes);
    EdgeIdsAreOrder(q.g, s.edges, r.edges);
    var found, front := PhaseEnds(q, s, walks, h, r);
  }

  // ----- the loop -----

  /** The loop's invariant. With a limit below 1 it makes no turn. */
  ghost predicate Looping(q: Query, s: State, walks: seq<seq<string>>, h: nat) {
    && s.nodes.Valid() && s.edges.Valid()
    && if q.limit >= 1 then Phase(q, s, walks, h) && Kept(q, s, walks, h)
       else |s.nodes.order| > q.limit
            && NeighboursPromised(q.g, q.view, q.seed, q.depth, q.limit, Subgraph(s.nodes.Values(), s.edges.Values()))
  }

  lemma LoopStarts(q: Query, s: State)
    requires q.g.Valid() && q.seed in q.g.nodes.at
    requires s == State(Empty<Node>().Put(q.seed, q.g.nodes.at[q.seed]), Empty<Edge>(), [Mark(q.seed, 0)],
                        map[q.seed := 0])
    ensures Looping(q, s, [[]], 0)
  {
    if q.limit >= 1 {
      PhaseStarts(q, s);
    } else {
      SeedAnswers(q, s);
    }
  }

  /** Taking the head of the queue. */
  lemma LoopTakes(q: Query, s: State, walks: seq<seq<string>>, h: nat, s1: State)
    requires Looping(q, s, walks, h) && s.queue != [] && |s.nodes.order| <= q.limit
    requires s1 == State(s.nodes, s.edges, s.queue[1..], s.dep)
    ensures q.limit >= 1 && Phase(q, s1, walks, h)
    ensures Kept(q, s1, walks, h + 1)
    ensures h < |walks| && h < |s.nodes.order| && s.queue[0] == Mark(s.nodes.order[h], |walks[h]|)
    ensures |walks[h]| >= q.depth ==> Phase(q, s1, walks, h + 1)
  {
    TracksOneLess(s, walks, h);
    if |walks[h]| >= q.depth { PhaseSkips(q, s1, walks, h); }
  }

  lemma LoopProgress(q: Query, s: State, walks: seq<seq<string>>, h: nat, s0: State)
    requires Kept(q, s, walks, h) && Progressed(s0, s)
    ensures var universe := q.g.nodes.at.Keys;
            universe - s.dep.Keys < universe - s0.dep.Keys
            || (universe - s.dep.Keys == universe - s0.dep.Keys && |s.queue| == |s0.queue|)
  {
    Progress(q.g.nodes.at.Keys, s0, s);
  }

  lemma LoopAnswers(q: Query, s: State, walks: seq<seq<string>>, h: nat)
    requires q.g.Valid() && Looping(q, s, walks, h)
    requires (s.queue == [] || |s.nodes.order| > q.limit)
    ensures NeighboursPromised(q.g, q.view, q.seed, q.depth, q.limit, Subgraph(s.nodes.Values(), s.edges.Values()))
  {
    if q.limit >= 1 {
      PhaseAnswers(q, s, walks, h, Subgraph(s.nodes.Values(), s.edges.Values()));
    }
  }
}
