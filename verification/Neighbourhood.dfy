/** What `neighbors` promises, and when its answer has more nodes than its limit. */
module Neighbourhood {
  import opened BreadthFirst
  import opened GraphModel
  import opened OrderedDict
  import opened Sequences

  function Bound(depth: int): nat { if depth < 0 then 0 else depth }

  ghost predicate HasNode(r: Subgraph, v: string) { exists i :: 0 <= i < |r.nodes| && r.nodes[i].id == v }

  ghost predicate HasEdge(r: Subgraph, k: string) { exists i :: 0 <= i < |r.edges| && r.edges[i].id == k }

  /** Stored nodes, none twice, the seed first. */
  ghost predicate StoredNodes(g: Graph, seed: string, r: Subgraph) {
    && seed in g.nodes.at && |r.nodes| > 0 && r.nodes[0] == g.nodes.at[seed]
    && (forall i :: 0 <= i < |r.nodes| ==> r.nodes[i].id in g.nodes.at && r.nodes[i] == g.nodes.at[r.nodes[i].id])
    && (forall i, j :: 0 <= i < j < |r.nodes| ==> r.nodes[i].id != r.nodes[j].id)
  }

  /** Stored edges, none twice, that pass the filters and join two returned nodes. */
  ghost predicate StoredEdges(g: Graph, view: View, r: Subgraph) {
    && (forall i :: 0 <= i < |r.edges| ==>
          && r.edges[i].id in g.edges.at && r.edges[i] == g.edges.at[r.edges[i].id] && view.AdmitsEdge(r.edges[i])
          && HasNode(r, r.edges[i].source) && HasNode(r, r.edges[i].target))
    && (forall i, j :: 0 <= i < j < |r.edges| ==> r.edges[i].id != r.edges[j].id)
  }

  /** True of every answer, cut short or not: every returned node is joined to the seed by at most `depth`
      of the returned edges. */
  ghost predicate Sound(g: Graph, view: View, seed: string, depth: int, r: Subgraph) {
    && StoredNodes(g, seed, r)
    && StoredEdges(g, view, r)
    && (forall i :: 0 <= i < |r.nodes| ==> ReachedInside(g, view, r, seed, r.nodes[i].id, Bound(depth)))
  }

  ghost predicate ReachedInside(g: Graph, view: View, r: Subgraph, seed: string, v: string, d: nat) {
    exists es :: Leads(g, view, seed, es, v) && |es| <= d && forall i :: 0 <= i < |es| ==> HasEdge(r, es[i])
  }

  /** The whole ball: all nodes within `depth` steps, and all edges leading on from the nodes inside it. */
  ghost predicate Exact(g: Graph, view: View, seed: string, depth: int, r: Subgraph) {
    && (forall v :: HasNode(r, v) <==> Within(g, view, seed, Bound(depth), v))
    && (forall k :: HasEdge(r, k) <==> LeadsOn(g, view, seed, depth - 1, k))
  }

  /** The edge `k` leads on from a node within `d` steps. */
  ghost predicate LeadsOn(g: Graph, view: View, seed: string, d: int, k: string) {
    exists u, v :: Within(g, view, seed, d, u) && Link(g, view, u, k, v)
  }

  function IdsOf(ns: seq<Node>): (ids: seq<string>)
    ensures |ids| == |ns| && forall i :: 0 <= i < |ns| ==> ids[i] == ns[i].id
  {
    seq(|ns|, i requires 0 <= i < |ns| => ns[i].id)
  }

  function EdgeIdsOf(es: seq<Edge>): (ids: seq<string>)
    ensures |ids| == |es| && forall i :: 0 <= i < |es| ==> ids[i] == es[i].id
  {
    seq(|es|, i requires 0 <= i < |es| => es[i].id)
  }

  /** An edge taken from the i-th node comes before one taken from the j-th: nodes in turn, and the edges of one node in
      store order. */
  ghost predicate InTurn(order: seq<string>, i: int, k: string, j: int, l: string) {
    i < j || (i == j && Rank(order, k) < Rank(order, l))
  }

  // ----- answers that met the limit -----

  /** A step that an expansion within `depth` may take from the i-th node found. */
  ghost predicate Steps(g: Graph, view: View, found: seq<string>, walks: seq<seq<string>>, depth: int, i: int,
                        k: string, v: string) {
    0 <= i < |found| && i < |walks| && |walks[i]| < depth && Link(g, view, found[i], k, v)
  }

  /** The step from `u` whose edge is stored first. */
  ghost predicate FirstStep(g: Graph, view: View, u: string, k: string, v: string) {
    Link(g, view, u, k, v) && forall l, x :: Link(g, view, u, l, x) ==> Rank(g.edges.order, k) <= Rank(g.edges.order, l)
  }

  /** The first step from the i-th node leads to a node that is not among those found. */
  ghost predicate Escape(g: Graph, view: View, found: seq<string>, walks: seq<seq<string>>, depth: int, i: int,
                         k: string, v: string) {
    Steps(g, view, found, walks, depth, i, k, v) && FirstStep(g, view, found[i], k, v) && v !in found
  }

  ghost predicate Escapes(g: Graph, view: View, found: seq<string>, walks: seq<seq<string>>, depth: int, i: int) {
    exists k, v :: Escape(g, view, found, walks, depth, i, k, v)
  }

  ghost predicate NoEscapeBefore(g: Graph, view: View, found: seq<string>, walks: seq<seq<string>>, depth: int,
                                 i: int) {
    forall j :: 0 <= j < i ==> !Escapes(g, view, found, walks, depth, j)
  }

  /** An edge that is returned when the limit has been met: its walk is no later than that of the last node within
      the limit, or it is the first step of its node; and no earlier node has escaped. */
  ghost predicate KeptStep(g: Graph, view: View, found: seq<string>, walks: seq<seq<string>>, depth: int, i: int,
                           k: string)
    requires walks != []
  {
    && (exists v :: Steps(g, view, found, walks, depth, i, k, v)
                    && (NoLater(g.edges.order, walks[i] + [k], walks[|walks| - 1])
                        || FirstStep(g, view, found[i], k, v)))
    && NoEscapeBefore(g, view, found, walks, depth, i)
  }

  /** Every step over `l` comes after the one over `k` from the i-th node. */
  ghost predicate StepsAfter(g: Graph, view: View, found: seq<string>, walks: seq<seq<string>>, depth: int, i: int,
                             k: string, l: string) {
    forall j, x :: Steps(g, view, found, walks, depth, j, l, x) ==> InTurn(g.edges.order, i, k, j, l)
  }

  ghost predicate KeptAfter(g: Graph, view: View, found: seq<string>, walks: seq<seq<string>>, depth: int, i: int,
                            k: string, l: string)
    requires walks != []
  {
    forall j :: KeptStep(g, view, found, walks, depth, j, l) ==> InTurn(g.edges.order, i, k, j, l)
  }

  /** The first step over `k` comes before all steps over `l`. */
  ghost predicate StepBefore(g: Graph, view: View, found: seq<string>, walks: seq<seq<string>>, depth: int, k: string,
                             l: string) {
    exists i, v :: Steps(g, view, found, walks, depth, i, k, v) && StepsAfter(g, view, found, walks, depth, i, k, l)
  }

  ghost predicate KeptBefore(g: Graph, view: View, found: seq<string>, walks: seq<seq<string>>, depth: int, k: string,
                             l: string)
    requires walks != []
  {
    exists i :: KeptStep(g, view, found, walks, depth, i, k) && KeptAfter(g, view, found, walks, depth, i, k, l)
  }

  /** The edges stand in the order in which they are first taken. */
  ghost predicate StepOrder(g: Graph, view: View, depth: int, ids: seq<string>, found: seq<string>,
                            walks: seq<seq<string>>) {
    forall a, b :: 0 <= a < b < |ids| ==> StepBefore(g, view, found, walks, depth, ids[a], ids[b])
  }

  ghost predicate KeptOrder(g: Graph, view: View, depth: int, ids: seq<string>, found: seq<string>,
                            walks: seq<seq<string>>)
    requires walks != []
  {
    forall a, b :: 0 <= a < b < |ids| ==> KeptBefore(g, view, found, walks, depth, ids[a], ids[b])
  }

  /** The `found` nodes are the nearest ones, within the depth, and come first in the answer. */
  ghost predicate StartsWith(g: Graph, view: View, seed: string, depth: int, r: Subgraph, found: seq<string>,
                             walks: seq<seq<string>>) {
    && Nearest(g, view, seed, found, walks) && |found| <= |r.nodes|
    && (forall i :: 0 <= i < |found| ==> r.nodes[i].id == found[i])
    && WithinDepth(walks, depth)
  }

  ghost predicate WithinDepth(walks: seq<seq<string>>, depth: int) {
    forall i :: 0 <= i < |walks| ==> |walks[i]| <= Bound(depth)
  }

  /** The answer is the nearest nodes; and, when the first step of one of them leads elsewhere, the end of the
      first such step. */
  ghost predicate CutAt(g: Graph, view: View, seed: string, depth: int, r: Subgraph, found: seq<string>,
                        walks: seq<seq<string>>) {
    && StartsWith(g, view, seed, depth, r, found, walks)
    && CutNodes(g, view, depth, IdsOf(r.nodes), found, walks)
    && (forall k :: HasEdge(r, k) <==> exists i :: KeptStep(g, view, found, walks, depth, i, k))
    && KeptOrder(g, view, depth, EdgeIdsOf(r.edges), found, walks)
  }

  ghost predicate CutNodes(g: Graph, view: View, depth: int, ids: seq<string>, found: seq<string>,
                           walks: seq<seq<string>>) {
    && found <= ids
    && if exists i :: Escapes(g, view, found, walks, depth, i)
       then |ids| == |found| + 1 && EndsWithEscape(g, view, found, walks, depth, ids[|found|])
       else ids == found
  }

  ghost predicate EndsWithEscape(g: Graph, view: View, found: seq<string>, walks: seq<seq<string>>, depth: int,
                                 v: string) {
    exists i, k :: Escape(g, view, found, walks, depth, i, k, v) && NoEscapeBefore(g, view, found, walks, depth, i)
  }

  /** The answer is the whole ball, nearest nodes first. */
  ghost predicate Complete(g: Graph, view: View, seed: string, depth: int, r: Subgraph, found: seq<string>,
                           walks: seq<seq<string>>) {
    && StartsWith(g, view, seed, depth, r, found, walks) && |r.nodes| == |found| && Exact(g, view, seed, depth, r)
    && StepOrder(g, view, depth, EdgeIdsOf(r.edges), found, walks)
  }

  /** What `neighbors` promises for a stored seed. Every answer is sound. It is the whole ball if that has fewer than
      `limit` nodes, and else determined by the `limit` nearest nodes. */
  ghost predicate NeighboursPromised(g: Graph, view: View, seed: string, depth: int, limit: int, r: Subgraph) {
    && Sound(g, view, seed, depth, r)
    && (limit <= 0 ==> r == Subgraph([g.nodes.at[seed]], []))
    && (limit >= 1 ==> exists found, walks :: Answers(g, view, seed, depth, limit, r, found, walks))
  }

  ghost predicate Answers(g: Graph, view: View, seed: string, depth: int, limit: int, r: Subgraph, found: seq<string>,
                          walks: seq<seq<string>>) {
    if |found| < limit then Complete(g, view, seed, depth, r, found, walks)
    else |found| == limit && CutAt(g, view, seed, depth, r, found, walks)
  }

  lemma NeverMoreThanOneOver(g: Graph, view: View, seed: string, depth: int, limit: int, r: Subgraph)
    requires NeighboursPromised(g, view, seed, depth, limit, r)
    ensures |r.nodes| <= (if limit < 0 then 0 else limit) + 1
    ensures |r.nodes| < limit ==> Exact(g, view, seed, depth, r)
  {
  }

  lemma {:induction false} DistinctIdsFit(ids: seq<string>, universe: set<string>)
    requires forall i, j :: 0 <= i < j < |ids| ==> ids[i] != ids[j]
    requires forall i :: 0 <= i < |ids| ==> ids[i] in universe
    ensures |ids| <= |universe|
  {
    if ids != [] {
      var n := |ids| - 1;
      DistinctIdsFit(ids[..n], universe - {ids[n]});
    }
  }

  lemma AnswerInBall(g: Graph, view: View, seed: string, depth: int, r: Subgraph, ball: set<string>)
    requires Sound(g, view, seed, depth, r) && forall v :: Within(g, view, seed, Bound(depth), v) ==> v in ball
    ensures |r.nodes| <= |ball|
  {
    forall i | 0 <= i < |r.nodes| ensures r.nodes[i].id in ball {
      assert ReachedInside(g, view, r, seed, r.nodes[i].id, Bound(depth));
      var es :| Leads(g, view, seed, es, r.nodes[i].id) && |es| <= Bound(depth);
      assert Within(g, view, seed, Bound(depth), r.nodes[i].id);
    }
    DistinctIdsFit(IdsOf(r.nodes), ball);
  }

  /** A ball of fewer than `limit` nodes is returned whole, and one of `limit` nodes is never exceeded. */
  lemma SmallBallIsReturnedWhole(g: Graph, view: View, seed: string, depth: int, limit: int, r: Subgraph,
                                 ball: set<string>)
    requires NeighboursPromised(g, view, seed, depth, limit, r)
    requires forall v :: Within(g, view, seed, Bound(depth), v) ==> v in ball
    ensures |ball| < limit ==> Exact(g, view, seed, depth, r)
    ensures |ball| <= limit ==> |r.nodes| <= limit
  {
    AnswerInBall(g, view, seed, depth, r, ball);
  }

  // ----- more than the limit -----

  /** The `limit` nearest nodes lie within the depth, and the first step of one of them leads to another node. */
  ghost predicate Overflows(g: Graph, view: View, seed: string, depth: int, limit: int) {
    exists found, walks :: OverflowsFrom(g, view, seed, depth, limit, found, walks)
  }

  ghost predicate OverflowsFrom(g: Graph, view: View, seed: string, depth: int, limit: int, found: seq<string>,
                                walks: seq<seq<string>>) {
    && |found| == limit && Nearest(g, view, seed, found, walks) && WithinDepth(walks, depth)
    && exists i :: Escapes(g, view, found, walks, depth, i)
  }

  lemma NearestWithin(g: Graph, view: View, seed: string, depth: int, found: seq<string>, walks: seq<seq<string>>,
                      i: nat)
    requires Nearest(g, view, seed, found, walks) && WithinDepth(walks, depth) && i < |found|
    ensures Within(g, view, seed, Bound(depth), found[i])
  {
    assert FirstWalk(g, view, seed, found[i], walks[i]);
    var ns :| WalkBetween(g, view, seed, found[i], ns, walks[i]);
  }

  lemma NearestSame(g: Graph, view: View, seed: string, a: seq<string>, wa: seq<seq<string>>, b: seq<string>,
                    wb: seq<seq<string>>)
    requires Nearest(g, view, seed, a, wa) && Nearest(g, view, seed, b, wb) && |a| == |b|
    ensures a == b && wa == wb
  {
    NearestUnique(g, view, seed, a, wa, b, wb, |a|);
    forall i | 0 <= i < |a| ensures wa[i] == wb[i] { FirstWalkUnique(g, view, seed, a[i], wa[i], wb[i]); }
  }

  /** A whole ball cannot have more nodes than its answer. */
  lemma WholeHoldsNearest(g: Graph, view: View, seed: string, depth: int, r: Subgraph, found: seq<string>,
                          walks: seq<seq<string>>)
    requires Exact(g, view, seed, depth, r) && Nearest(g, view, seed, found, walks) && WithinDepth(walks, depth)
    ensures |found| <= |r.nodes|
  {
    var ids := set i | 0 <= i < |r.nodes| :: r.nodes[i].id;
    forall i | 0 <= i < |found| ensures found[i] in ids {
      NearestWithin(g, view, seed, depth, found, walks, i);
      assert HasNode(r, found[i]);
    }
    forall i, j | 0 <= i < j < |found|
      ensures found[i] != found[j]
    {
      InOrderDistinct(g, view, seed, found, walks, i, j);
    }
    DistinctIdsFit(found, ids);
    IdsAtMost(r.nodes);
  }

  lemma {:induction false} IdsAtMost(ns: seq<Node>)
    ensures |set i | 0 <= i < |ns| :: ns[i].id| <= |ns|
  {
    var ids := set i | 0 <= i < |ns| :: ns[i].id;
    if ns == [] {
      assert ids == {};
    } else {
      var n := |ns| - 1;
      IdsAtMost(ns[..n]);
      var front := set i | 0 <= i < n :: ns[..n][i].id;
      assert ids == front + {ns[n].id} by {
        forall i | 0 <= i < n ensures ns[i].id in front { assert ns[..n][i].id in front; }
      }
    }
  }

  /** The answer has more nodes than its limit exactly when the nearest ones overflow. */
  lemma ExceedsLimitIff(g: Graph, view: View, seed: string, depth: int, limit: nat, r: Subgraph)
    requires limit >= 1 && NeighboursPromised(g, view, seed, depth, limit, r)
    ensures |r.nodes| > limit <==> Overflows(g, view, seed, depth, limit)
  {
    var found, walks :| Answers(g, view, seed, depth, limit, r, found, walks);
    if |r.nodes| > limit {
      assert OverflowsFrom(g, view, seed, depth, limit, found, walks);
    }
    if Overflows(g, view, seed, depth, limit) {
      var f, w :| OverflowsFrom(g, view, seed, depth, limit, f, w);
      if |found| < limit {
        WholeHoldsNearest(g, view, seed, depth, r, f, w);
      } else {
        NearestSame(g, view, seed, found, walks, f, w);
      }
    }
  }

  /** At limit 1 two nodes come back exactly when the depth is positive and the first step from the seed leads away. */
  lemma LimitOneExceedsIff(g: Graph, view: View, seed: string, depth: int, r: Subgraph)
    requires NeighboursPromised(g, view, seed, depth, 1, r)
    ensures |r.nodes| == 2 <==> depth >= 1 && exists k, v :: FirstStep(g, view, seed, k, v) && v != seed
  {
    var found, walks :| Answers(g, view, seed, depth, 1, r, found, walks);
    assert found == [seed] && walks == [[]];
    if depth >= 1 {
      if k, v :| FirstStep(g, view, seed, k, v) && v != seed {
        assert Escape(g, view, found, walks, depth, 0, k, v);
        assert Escapes(g, view, found, walks, depth, 0);
      }
    }
    if i :| Escapes(g, view, found, walks, depth, i) {
      var k, v :| Escape(g, view, found, walks, depth, i, k, v);
      assert i == 0 && v != seed;
    }
  }

  // ----- nothing is left open -----

  lemma EscapeUnique(g: Graph, view: View, found: seq<string>, walks: seq<seq<string>>, depth: int, v: string,
                     x: string)
    requires g.edges.Valid()
    requires EndsWithEscape(g, view, found, walks, depth, v) && EndsWithEscape(g, view, found, walks, depth, x)
    ensures v == x
  {
    var i, k :| Escape(g, view, found, walks, depth, i, k, v) && NoEscapeBefore(g, view, found, walks, depth, i);
    var j, l :| Escape(g, view, found, walks, depth, j, l, x) && NoEscapeBefore(g, view, found, walks, depth, j);
    assert Escapes(g, view, found, walks, depth, i) && Escapes(g, view, found, walks, depth, j);
    assert i == j;
    FirstStepUnique(g, view, found[i], k, v, l, x);
  }

  lemma FirstStepUnique(g: Graph, view: View, u: string, k: string, v: string, l: string, x: string)
    requires g.edges.Valid() && FirstStep(g, view, u, k, v) && FirstStep(g, view, u, l, x)
    ensures k == l && v == x
  {
    assert k in g.edges.order && l in g.edges.order;
  }

  lemma CutsAgree(g: Graph, view: View, depth: int, rs: seq<string>, qs: seq<string>, f: seq<string>,
                  w: seq<seq<string>>)
    requires g.edges.Valid() && CutNodes(g, view, depth, rs, f, w) && CutNodes(g, view, depth, qs, f, w)
    ensures rs == qs
  {
    if |f| < |rs| {
      EscapeUnique(g, view, f, w, depth, rs[|f|], qs[|f|]);
      assert rs == f + [rs[|f|]] && qs == f + [qs[|f|]];
    }
  }

  lemma CutEdgesAgree(g: Graph, view: View, depth: int, rs: seq<string>, qs: seq<string>, f: seq<string>,
                      w: seq<seq<string>>)
    requires w != [] && (forall k :: k in rs <==> k in qs)
    requires KeptOrder(g, view, depth, rs, f, w) && KeptOrder(g, view, depth, qs, f, w)
    ensures rs == qs
  {
    SameOrder(rs, qs, (k, l) => KeptBefore(g, view, f, w, depth, k, l));
  }

  lemma WholeEdgesAgree(g: Graph, view: View, depth: int, rs: seq<string>, qs: seq<string>, f: seq<string>,
                        w: seq<seq<string>>)
    requires forall k :: k in rs <==> k in qs
    requires StepOrder(g, view, depth, rs, f, w) && StepOrder(g, view, depth, qs, f, w)
    ensures rs == qs
  {
    SameOrder(rs, qs, (k, l) => StepBefore(g, view, f, w, depth, k, l));
  }

  lemma AnswersAgree(g: Graph, view: View, seed: string, depth: int, limit: int, r: Subgraph, q: Subgraph,
                     f: seq<string>, w: seq<seq<string>>)
    requires g.edges.Valid() && Answers(g, view, seed, depth, limit, r, f, w)
    requires Answers(g, view, seed, depth, limit, q, f, w)
    ensures IdsOf(r.nodes) == IdsOf(q.nodes) && EdgeIdsOf(r.edges) == EdgeIdsOf(q.edges)
  {
    var rs, qs := EdgeIdsOf(r.edges), EdgeIdsOf(q.edges);
    forall k ensures k in rs <==> k in qs {
      EdgeListed(r, k);
      EdgeListed(q, k);
    }
    if |f| == limit {
      CutsAgree(g, view, depth, IdsOf(r.nodes), IdsOf(q.nodes), f, w);
      CutEdgesAgree(g, view, depth, rs, qs, f, w);
    } else {
      assert IdsOf(r.nodes) == f && IdsOf(q.nodes) == f;
      WholeEdgesAgree(g, view, depth, rs, qs, f, w);
    }
  }

  lemma EdgeListed(r: Subgraph, k: string)
    ensures HasEdge(r, k) <==> k in EdgeIdsOf(r.edges)
  {
    var ids := EdgeIdsOf(r.edges);
    if HasEdge(r, k) {
      var i :| 0 <= i < |r.edges| && r.edges[i].id == k;
      assert ids[i] == k;
    }
  }

  lemma HeadIsMember(xs: seq<string>)
    requires xs != []
    ensures xs[0] in xs
  {
  }

  lemma FirstIsFirst(xs: seq<string>, ys: seq<string>, before: (string, string) -> bool)
    requires xs != [] && ys != [] && forall k, l :: before(k, l) ==> !before(l, k)
    requires forall k :: k in xs ==> k == xs[0] || before(xs[0], k)
    requires forall k :: k in ys ==> k == ys[0] || before(ys[0], k)
    requires ys[0] in xs && xs[0] in ys
    ensures xs[0] == ys[0]
  {
  }

  lemma HeadBeforeAll(xs: seq<string>, before: (string, string) -> bool)
    requires xs != [] && forall i, j :: 0 <= i < j < |xs| ==> before(xs[i], xs[j])
    ensures forall k :: k in xs ==> k == xs[0] || before(xs[0], k)
  {
  }

  /** An order that never goes both ways leaves only one way to list a set. */
  lemma {:induction false} SameOrder(xs: seq<string>, ys: seq<string>, before: (string, string) -> bool)
    requires forall k, l :: before(k, l) ==> !before(l, k)
    requires forall i, j :: 0 <= i < j < |xs| ==> before(xs[i], xs[j])
    requires forall i, j :: 0 <= i < j < |ys| ==> before(ys[i], ys[j])
    requires forall k :: k in xs <==> k in ys
    ensures xs == ys
    decreases |xs|
  {
    if xs == [] {
      if ys != [] { HeadIsMember(ys); }
    } else {
      assert xs[0] in ys;
      HeadBeforeAll(xs, before);
      HeadBeforeAll(ys, before);
      FirstIsFirst(xs, ys, before);
      forall k ensures k in xs[1..] <==> k in ys[1..] {
        TailMembers(xs, before, k);
        TailMembers(ys, before, k);
      }
      SameOrder(xs[1..], ys[1..], before);
      assert xs == [xs[0]] + xs[1..] && ys == [ys[0]] + ys[1..];
    }
  }

  lemma TailMembers(xs: seq<string>, before: (string, string) -> bool, k: string)
    requires forall k, l :: before(k, l) ==> !before(l, k)
    requires xs != [] && forall i, j :: 0 <= i < j < |xs| ==> before(xs[i], xs[j])
    ensures k in xs[1..] <==> k in xs && k != xs[0]
  {
    if k in xs[1..] {
      var i :| 0 <= i < |xs| - 1 && xs[1..][i] == k;
      assert before(xs[0], xs[i + 1]);
    }
  }

  lemma SameRecords(g: Graph, view: View, seed: string, r: Subgraph, q: Subgraph)
    requires StoredNodes(g, seed, r) && StoredNodes(g, seed, q) && IdsOf(r.nodes) == IdsOf(q.nodes)
    requires StoredEdges(g, view, r) && StoredEdges(g, view, q) && EdgeIdsOf(r.edges) == EdgeIdsOf(q.edges)
    ensures r == q
  {
    forall i | 0 <= i < |r.nodes| ensures r.nodes[i] == q.nodes[i] { assert IdsOf(r.nodes)[i] == IdsOf(q.nodes)[i]; }
    forall i | 0 <= i < |r.edges| ensures r.edges[i] == q.edges[i] {
      assert EdgeIdsOf(r.edges)[i] == EdgeIdsOf(q.edges)[i];
    }
  }

  /** The promise leaves nothing open: it determines the answer, order included. */
  lemma NeighboursAreDetermined(g: Graph, view: View, seed: string, depth: int, limit: int, r: Subgraph, q: Subgraph)
    requires g.edges.Valid()
    requires NeighboursPromised(g, view, seed, depth, limit, r) && NeighboursPromised(g, view, seed, depth, limit, q)
    ensures r == q
  {
    if limit >= 1 {
      var f, w :| Answers(g, view, seed, depth, limit, r, f, w);
      var h, x :| Answers(g, view, seed, depth, limit, q, h, x);
      if |f| < limit { WholeHoldsNearest(g, view, seed, depth, r, h, x); }
      if |h| < limit { WholeHoldsNearest(g, view, seed, depth, q, f, w); }
      NearestSame(g, view, seed, f, w, h, x);
      AnswersAgree(g, view, seed, depth, limit, r, q, f, w);
      SameRecords(g, view, seed, r, q);
    }
  }
}
