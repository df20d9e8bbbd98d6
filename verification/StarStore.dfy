/** A family of stores on which `neighbors` returns one node more than its limit. */
module StarStore {
  import opened BreadthFirst
  import opened GraphModel
  import opened Neighbourhood
  import opened OrderedDict
  import opened Sequences

  const HUB := ""
  const FAR := "w"
  const FAR_EDGE := "x"
  const ALL := Filtered([], [], None)

  function Name(i: nat): (s: string)
    ensures |s| == i && forall k :: 0 <= k < i ==> s[k] == 'a'
  {
    seq(i, _ => 'a')
  }

  lemma NamesDiffer(i: nat, j: nat)
    ensures Name(i) == Name(j) <==> i == j
    ensures Name(i) != FAR && Name(i) != FAR_EDGE
  {
    assert |Name(i)| == i && |Name(j)| == j;
    assert |Name(i)| == 1 ==> Name(i)[0] == 'a';
  }

  function Names(m: nat): (ns: seq<string>)
    ensures |ns| == m && forall i :: 0 <= i < m ==> ns[i] == Name(i + 1)
  {
    seq(m, i requires 0 <= i < m => Name(i + 1))
  }

  /** A spoke has its leaf's name; the far node hangs on the first leaf, by the edge that is stored first. */
  function StarEdge(k: string): Edge {
    if k == FAR_EDGE then Edge(k, Name(1), FAR, "spoke", Some(1.0)) else Edge(k, HUB, k, "spoke", Some(1.0))
  }

  /** A hub with `m` leaves and the far node. */
  function Star(m: nat): Graph {
    var nodes, edges := [HUB] + Names(m) + [FAR], [FAR_EDGE] + Names(m);
    Graph(Dict(nodes, map v | v in nodes :: v := Node(v, v, "entity", map[])),
          Dict(edges, map k | k in edges :: k := StarEdge(k)))
  }

  lemma StarIsValid(m: nat)
    ensures Star(m).Valid() && HUB in Star(m).nodes.at && (m >= 1 ==> Star(m).EdgeClosed())
  {
    var nodes, edges := [HUB] + Names(m) + [FAR], [FAR_EDGE] + Names(m);
    forall i, j | 0 <= i < j < |nodes| ensures nodes[i] != nodes[j] {
      NamesDiffer(i, j);
      assert nodes[i] == Name(i) && (j <= m ==> nodes[j] == Name(j));
    }
    forall i, j | 0 <= i < j < |edges| ensures edges[i] != edges[j] {
      NamesDiffer(i, j);
      assert edges[j] == Name(j) && (i > 0 ==> edges[i] == Name(i));
      NamesDiffer(j, j);
    }
    assert nodes[0] == HUB && nodes[m + 1] == FAR && (m >= 1 ==> nodes[1] == Name(1));
    forall k | k in edges && m >= 1 ensures StarEdge(k).source in nodes && StarEdge(k).target in nodes {
      var i :| 0 <= i < |edges| && edges[i] == k;
      assert i > 0 ==> nodes[i] == k;
    }
  }

  /** A leaf, its place among the nodes and that of its spoke among the edges. */
  lemma Leaf(m: nat, i: nat)
    requires 1 <= i <= m
    ensures var g := Star(m); Rank(g.edges.order, Name(i)) == i && Rank(g.edges.order, FAR_EDGE) == 0
    ensures Name(i) in Star(m).edges.at
    ensures Star(m).edges.at[Name(i)] == Edge(Name(i), HUB, Name(i), "spoke", Some(1.0))
    ensures FAR_EDGE in Star(m).edges.at
    ensures Star(m).edges.at[FAR_EDGE] == Edge(FAR_EDGE, Name(1), FAR, "spoke", Some(1.0))
    ensures Name(i) in Star(m).nodes.at && FAR in Star(m).nodes.at
  {
    StarIsValid(m);
    var order, nodes := Star(m).edges.order, Star(m).nodes.order;
    NamesDiffer(i, i);
    assert order[i] == Name(i) && order[0] == FAR_EDGE && nodes[i] == Name(i) && nodes[m + 1] == FAR;
  }

  /** Every stored edge is the far one or a spoke. */
  lemma EdgeIs(m: nat, k: string) returns (i: nat)
    requires k in Star(m).edges.at
    ensures i <= m && (i == 0 ==> k == FAR_EDGE) && (i > 0 ==> k == Name(i))
  {
    i :| 0 <= i < |Star(m).edges.order| && Star(m).edges.order[i] == k;
  }

  /** The nearest nodes: the hub and its leaves, each over its own spoke. */
  function Around(m: nat): (found: seq<string>)
    ensures |found| == m + 1 && forall i :: 0 <= i <= m ==> found[i] == Name(i)
  {
    seq(m + 1, i requires 0 <= i <= m => Name(i))
  }

  function Spokes(m: nat): (walks: seq<seq<string>>)
    ensures |walks| == m + 1 && walks[0] == [] && forall i :: 1 <= i <= m ==> walks[i] == [Name(i)]
  {
    seq(m + 1, i requires 0 <= i <= m => if i == 0 then [] else [Name(i)])
  }

  /** A walk of one edge from the hub is a spoke. */
  lemma ShortWalk(m: nat, es: seq<string>, v: string) returns (i: nat)
    requires m >= 1 && Leads(Star(m), ALL, HUB, es, v) && |es| <= 1
    ensures i <= m && v == Name(i) && es == Spokes(m)[i] && v in Around(m)
  {
    assert forall j :: 0 <= j <= m ==> Around(m)[j] in Around(m);
    if es == [] {
      LeadsNowhere(Star(m), ALL, HUB);
      i := 0;
    } else {
      var es0, u, k := LeadsOneLess(Star(m), ALL, HUB, es, v);
      LeadsNowhere(Star(m), ALL, HUB);
      i := EdgeIs(m, k);
      Leaf(m, if i == 0 then 1 else i);
      NamesDiffer(1, 0);
      assert Name(0) == HUB;
    }
  }

  lemma SpokeLeads(m: nat, i: nat)
    requires m >= 1 && i <= m
    ensures Leads(Star(m), ALL, HUB, Spokes(m)[i], Name(i))
  {
    LeadsNowhere(Star(m), ALL, HUB);
    assert Name(0) == HUB;
    if i > 0 {
      Leaf(m, i);
      assert Link(Star(m), ALL, HUB, Name(i), Name(i));
      LeadsOneMore(Star(m), ALL, HUB, [], HUB, Name(i), Name(i));
      assert [] + [Name(i)] == [Name(i)];
    }
  }

  lemma SpokeIsFirst(m: nat, i: nat)
    requires m >= 1 && i <= m
    ensures FirstWalk(Star(m), ALL, HUB, Name(i), Spokes(m)[i])
  {
    SpokeLeads(m, i);
    forall fs | Leads(Star(m), ALL, HUB, fs, Name(i)) ensures NoLater(Star(m).edges.order, Spokes(m)[i], fs) {
      if |fs| <= 1 {
        var j := ShortWalk(m, fs, Name(i));
        NamesDiffer(i, j);
      }
    }
  }

  lemma StarIsNearest(m: nat)
    requires m >= 1
    ensures Nearest(Star(m), ALL, HUB, Around(m), Spokes(m))
  {
    var g, found, walks := Star(m), Around(m), Spokes(m);
    assert found[0] == Name(0) == HUB;
    forall i | 0 <= i < |found| ensures FirstWalk(g, ALL, HUB, found[i], walks[i]) { SpokeIsFirst(m, i); }
    forall i, j | 0 <= i < j < |walks| ensures Earlier(g.edges.order, walks[i], walks[j]) {
      if i > 0 {
        Leaf(m, i);
        Leaf(m, j);
        EarlierSibling(g.edges.order, [], Name(i), Name(j));
        assert [] + [Name(i)] == walks[i] && [] + [Name(j)] == walks[j];
      }
    }
    forall v, fs | v !in found && Leads(g, ALL, HUB, fs, v) ensures Earlier(g.edges.order, walks[m], fs) {
      if |fs| <= 1 {
        var i := ShortWalk(m, fs, v);
      }
    }
  }

  /** The first step from the first leaf leads to the far node. */
  lemma FirstLeafEscapes(m: nat, depth: int)
    requires m >= 1 && depth >= 2
    ensures Escapes(Star(m), ALL, Around(m), Spokes(m), depth, 1)
  {
    var g := Star(m);
    Leaf(m, 1);
    NamesDiffer(1, 1);
    assert Link(g, ALL, Name(1), FAR_EDGE, FAR);
    forall i | 0 <= i <= m ensures Around(m)[i] != FAR { NamesDiffer(i, i); }
    assert Escape(g, ALL, Around(m), Spokes(m), depth, 1, FAR_EDGE, FAR);
  }

  /** For every limit the source's interface allows there is a store with more than `limit` nodes in the answer. */
  lemma StarExceedsLimit(limit: nat, depth: int, r: Subgraph)
    requires limit >= 1 && depth >= 2
    requires NeighboursPromised(Star(if limit == 1 then 1 else limit - 1), ALL, HUB, depth, limit, r)
    ensures |r.nodes| == limit + 1
  {
    var m := if limit == 1 then 1 else limit - 1;
    var g := Star(m);
    if limit == 1 {
      HubStepsAway();
      LimitOneExceedsIff(g, ALL, HUB, depth, r);
    } else {
      StarIsNearest(m);
      FirstLeafEscapes(m, depth);
      assert OverflowsFrom(g, ALL, HUB, depth, limit, Around(m), Spokes(m));
      ExceedsLimitIff(g, ALL, HUB, depth, limit, r);
    }
    NeverMoreThanOneOver(g, ALL, HUB, depth, limit, r);
  }

  lemma HubStepsAway()
    ensures FirstStep(Star(1), ALL, HUB, Name(1), Name(1)) && Name(1) != HUB
  {
    var g := Star(1);
    Leaf(1, 1);
    NamesDiffer(1, 0);
    assert Link(g, ALL, HUB, Name(1), Name(1));
    forall l, x | Link(g, ALL, HUB, l, x) ensures Rank(g.edges.order, Name(1)) <= Rank(g.edges.order, l) {
      var i := EdgeIs(1, l);
    }
  }
}
