/** What `search` promises: the candidates, their degrees, and the induced subgraph. */
module Overview {
  import opened GraphModel
  import opened Ranking
  import opened Sequences

  const WORKSPACE_KEY := "workspace_id"

  predicate IsCandidate(n: Node, wildcard: bool, matches: Node -> bool, workspace: string, nodeTypes: seq<string>) {
    && WORKSPACE_KEY in n.properties && n.properties[WORKSPACE_KEY] == workspace
    && NodeTypeAllowed(n, nodeTypes)
    && (wildcard || matches(n))
  }

  function CandidateTest(wildcard: bool, matches: Node -> bool, workspace: string,
                         nodeTypes: seq<string>): Node -> bool {
    (n: Node) => IsCandidate(n, wildcard, matches, workspace, nodeTypes)
  }

  function Candidates(ns: seq<Node>, wildcard: bool, matches: Node -> bool, workspace: string,
                      nodeTypes: seq<string>): seq<Node> {
    Where(ns, CandidateTest(wildcard, matches, workspace, nodeTypes))
  }

  lemma CandidatesOf(ns: seq<Node>, wildcard: bool, matches: Node -> bool, workspace: string, nodeTypes: seq<string>)
    ensures forall n :: n in Candidates(ns, wildcard, matches, workspace, nodeTypes)
                   <==> n in ns && IsCandidate(n, wildcard, matches, workspace, nodeTypes)
    ensures Distinct(ns) ==> Distinct(Candidates(ns, wildcard, matches, workspace, nodeTypes))
  {
    var p := CandidateTest(wildcard, matches, workspace, nodeTypes);
    WhereAre(ns, p);
    var at := WhereFrom(ns, p);
  }

  function Ids(ns: seq<Node>): set<string> { set n | n in ns :: n.id }

  predicate Induced(e: Edge, ids: set<string>) { e.source in ids && e.target in ids }

  function InducedTest(ids: set<string>): Edge -> bool { (e: Edge) => Induced(e, ids) }

  function InducedAmong(es: seq<Edge>, ids: set<string>): seq<Edge> { Where(es, InducedTest(ids)) }

  function Hit(a: string, b: string): nat { if a == b then 1 else 0 }

  /** How many ends of edges inside `ids` are at `v`: a self-loop counts twice. */
  function Degree(es: seq<Edge>, ids: set<string>, v: string): nat {
    if es == [] then 0
    else
      var e := es[|es| - 1];
      Degree(es[..|es| - 1], ids, v) + if Induced(e, ids) then Hit(e.source, v) + Hit(e.target, v) else 0
  }

  /** The degree table after one more edge. */
  lemma DegreesNext(es: seq<Edge>, i: nat, ids: set<string>, degree: map<string, nat>, next: map<string, nat>)
    requires i < |es| && degree.Keys == ids && forall v :: v in ids ==> degree[v] == Degree(es[..i], ids, v)
    requires next.Keys == ids && forall v :: v in ids ==>
               next[v] == degree[v] + if Induced(es[i], ids) then Hit(es[i].source, v) + Hit(es[i].target, v) else 0
    ensures forall v :: v in ids ==> next[v] == Degree(es[..i + 1], ids, v)
  {
    assert es[..i + 1][..i] == es[..i];
  }

  function Total(es: seq<Edge>, ids: set<string>, vs: seq<string>): nat {
    if vs == [] then 0 else Degree(es, ids, vs[0]) + Total(es, ids, vs[1..])
  }

  /** Handshake: the degrees inside a candidate set add up to twice the edges inside it. */
  lemma {:induction false} Handshake(es: seq<Edge>, vs: seq<string>)
    requires Distinct(vs)
    ensures Total(es, (set v | v in vs), vs) == 2 * |InducedAmong(es, (set v | v in vs))|
  {
    var ids := (set v | v in vs);
    if es == [] {
      NoEdgesNoDegree(ids, vs);
    } else {
      Handshake(es[..|es| - 1], vs);
      WhereLast(es, InducedTest(ids));
      LastEdgeTotal(es, ids, vs);
      if Induced(es[|es| - 1], ids) {
        HitsOnce(vs, es[|es| - 1].source);
        HitsOnce(vs, es[|es| - 1].target);
      }
    }
  }

  lemma {:induction false} NoEdgesNoDegree(ids: set<string>, vs: seq<string>)
    ensures Total([], ids, vs) == 0
  {
    if vs != [] { NoEdgesNoDegree(ids, vs[1..]); }
  }

  function Hits(a: string, vs: seq<string>): nat {
    if vs == [] then 0 else Hit(a, vs[0]) + Hits(a, vs[1..])
  }

  lemma {:induction false} HitsOnce(vs: seq<string>, a: string)
    requires Distinct(vs)
    ensures Hits(a, vs) == if a in vs then 1 else 0
  {
    if vs != [] {
      HitsOnce(vs[1..], a);
      assert vs == [vs[0]] + vs[1..];
      if a == vs[0] { assert a !in vs[1..]; }
    }
  }

  lemma {:induction false} LastEdgeTotal(es: seq<Edge>, ids: set<string>, vs: seq<string>)
    requires es != []
    ensures var e := es[|es| - 1];
            Total(es, ids, vs)
            == Total(es[..|es| - 1], ids, vs) + if Induced(e, ids) then Hits(e.source, vs) + Hits(e.target, vs) else 0
  {
    if vs != [] { LastEdgeTotal(es, ids, vs[1..]); }
  }

  ghost function DegreeKey(es: seq<Edge>, ids: set<string>): Node -> real {
    (n: Node) => Degree(es, ids, n.id) as real
  }

  /** The wildcard answer: no candidate left out has a higher degree than one returned, and among equal
      degrees the earlier-inserted ones are returned first. */
  ghost predicate TopByDegree(es: seq<Edge>, candidates: seq<Node>, limit: nat, result: seq<Node>) {
    && |result| == (if limit <= |candidates| then limit else |candidates|)
    && (forall n :: n in result ==> n in candidates)
    && (forall i, j :: 0 <= i < j < |result| ==> Outranks(es, candidates, result[i], result[j]))
    && (forall a, b :: a in result && b in candidates && b !in result ==> Outranks(es, candidates, a, b))
  }

  ghost predicate Outranks(es: seq<Edge>, candidates: seq<Node>, a: Node, b: Node) {
    var ids := Ids(candidates);
    Degree(es, ids, a.id) > Degree(es, ids, b.id)
        || (Degree(es, ids, a.id) == Degree(es, ids, b.id) && Before(candidates, a, b))
  }

  lemma SortedOutranks(es: seq<Edge>, candidates: seq<Node>, i: nat, j: nat)
    requires Distinct(candidates) && i < j < |candidates|
    ensures var sorted := SortDesc(candidates, DegreeKey(es, Ids(candidates)));
            Outranks(es, candidates, sorted[i], sorted[j])
  {
    var key := DegreeKey(es, Ids(candidates));
    var sorted := SortDesc(candidates, key);
    SortDescSorts(candidates, key);
    assert key(sorted[i]) >= key(sorted[j]);
    if key(sorted[i]) == key(sorted[j]) {
      assert Before(sorted, sorted[i], sorted[j]);
      SortKeepsTies(candidates, key, sorted[i], sorted[j]);
    }
  }

  lemma SortedIsTop(es: seq<Edge>, candidates: seq<Node>, limit: nat)
    requires Distinct(candidates)
    ensures TopByDegree(es, candidates, limit, Slice(SortDesc(candidates, DegreeKey(es, Ids(candidates))), limit))
  {
    var key := DegreeKey(es, Ids(candidates));
    var sorted := SortDesc(candidates, key);
    var result := Slice(sorted, limit);
    assert multiset(sorted) == multiset(candidates) by { SortDescSorts(candidates, key); }
    assert forall k :: 0 <= k < |result| ==> result[k] == sorted[k];
    forall n | n in candidates ensures n in sorted { assert n in multiset(sorted); }
    forall n | n in result ensures n in candidates { assert n in multiset(candidates); }
    forall i, j | 0 <= i < j < |sorted| ensures Outranks(es, candidates, sorted[i], sorted[j]) {
      SortedOutranks(es, candidates, i, j);
    }
    forall a, b | a in result && b in candidates && b !in result ensures Outranks(es, candidates, a, b) {
      var i :| 0 <= i < |result| && result[i] == a;
      var j :| 0 <= j < |sorted| && sorted[j] == b;
      assert j >= |result|;
      assert Outranks(es, candidates, sorted[i], sorted[j]);
    }
  }

  lemma StoredAreDistinct(g: Graph)
    requires g.Valid()
    ensures Distinct(g.nodes.Values())
  {
    var ns := g.nodes.Values();
    forall i, j | 0 <= i < j < |ns| ensures ns[i] != ns[j] {
      assert ns[i].id == g.nodes.order[i] && ns[j].id == g.nodes.order[j];
    }
  }

  /** The answer of `search` to a wildcard or a text query. */
  ghost function SearchResult(ns: seq<Node>, es: seq<Edge>, wildcard: bool, matches: Node -> bool, workspace: string,
                              limit: int, nodeTypes: seq<string>): Subgraph
  {
    var candidates := Candidates(ns, wildcard, matches, workspace, nodeTypes);
    var ranked := if wildcard then SortDesc(candidates, DegreeKey(es, Ids(candidates))) else candidates;
    Subgraph(Slice(ranked, limit), InducedAmong(es, Ids(Slice(ranked, limit))))
  }

  /** What that means for the caller: only candidates, all of them if they fit, the best connected ones first,
      and exactly the stored edges that join two returned nodes. */
  ghost predicate SearchPromised(ns: seq<Node>, es: seq<Edge>, wildcard: bool, matches: Node -> bool, workspace: string,
                                 limit: nat, nodeTypes: seq<string>, r: Subgraph) {
    var candidates := Candidates(ns, wildcard, matches, workspace, nodeTypes);
    && (forall n :: n in r.nodes ==> n in ns && IsCandidate(n, wildcard, matches, workspace, nodeTypes))
    && (|candidates| <= limit ==>
          forall n :: n in ns && IsCandidate(n, wildcard, matches, workspace, nodeTypes) ==> n in r.nodes)
    && (wildcard ==> TopByDegree(es, candidates, limit, r.nodes))
    && (!wildcard ==> r.nodes == Slice(candidates, limit))
    && (forall e :: e in r.edges <==> e in es && Induced(e, Ids(r.nodes)))
  }

  lemma SearchPromise(ns: seq<Node>, es: seq<Edge>, wildcard: bool, matches: Node -> bool, workspace: string,
                      limit: nat, nodeTypes: seq<string>)
    requires Distinct(ns)
    ensures SearchPromised(ns, es, wildcard, matches, workspace, limit, nodeTypes,
                           SearchResult(ns, es, wildcard, matches, workspace, limit, nodeTypes))
  {
    var r := SearchResult(ns, es, wildcard, matches, workspace, limit, nodeTypes);
    var candidates := Candidates(ns, wildcard, matches, workspace, nodeTypes);
    CandidatesOf(ns, wildcard, matches, workspace, nodeTypes);
    WhereAre(es, InducedTest(Ids(r.nodes)));
    if wildcard {
      SortedIsTop(es, candidates, limit);
      SortDescSorts(candidates, DegreeKey(es, Ids(candidates)));
      forall n | n in candidates && |candidates| <= limit ensures n in r.nodes {
        assert n in multiset(r.nodes);
      }
    }
  }
}
