/** The order in which a breadth-first search finds nodes: by the length of their first walk from the root, and
    for equal lengths by the places of its edges in the store. */
module BreadthFirst {
  import opened GraphModel
  import opened Sequences

  // ----- the order of walks -----

  ghost predicate DiffersAt(order: seq<string>, a: seq<string>, b: seq<string>, i: int) {
    0 <= i < |a| && i < |b| && a[..i] == b[..i] && Rank(order, a[i]) < Rank(order, b[i])
  }

  /** Where the two first differ, `a` has the edge that is stored earlier. */
  ghost predicate LexBefore(order: seq<string>, a: seq<string>, b: seq<string>) {
    exists i :: DiffersAt(order, a, b, i)
  }

  /** Shorter walks come first; walks of one length are compared edge by edge. */
  ghost predicate Earlier(order: seq<string>, a: seq<string>, b: seq<string>) {
    |a| < |b| || (|a| == |b| && LexBefore(order, a, b))
  }

  ghost predicate NoLater(order: seq<string>, a: seq<string>, b: seq<string>) { a == b || Earlier(order, a, b) }

  lemma LexTransitive(order: seq<string>, a: seq<string>, b: seq<string>, c: seq<string>)
    requires LexBefore(order, a, b) && LexBefore(order, b, c)
    ensures LexBefore(order, a, c)
  {
    var i :| DiffersAt(order, a, b, i);
    var j :| DiffersAt(order, b, c, j);
    var n := if i < j then i else j;
    assert a[..n] == a[..i][..n] == b[..i][..n] == b[..n] == b[..j][..n] == c[..j][..n] == c[..n];
    if i < j { assert b[..j][i] == c[..j][i]; }
    if j < i { assert a[..i][j] == b[..i][j]; }
    assert DiffersAt(order, a, c, n);
  }

  lemma EarlierTransitive(order: seq<string>, a: seq<string>, b: seq<string>, c: seq<string>)
    requires NoLater(order, a, b) && NoLater(order, b, c)
    ensures NoLater(order, a, c)
    ensures Earlier(order, a, b) || Earlier(order, b, c) ==> Earlier(order, a, c)
  {
    if |a| == |b| == |c| && a != b && b != c { LexTransitive(order, a, b, c); }
  }

  lemma EarlierIrreflexive(order: seq<string>, a: seq<string>)
    ensures !Earlier(order, a, a)
  {
  }

  lemma NoLaterAntisymmetric(order: seq<string>, a: seq<string>, b: seq<string>)
    requires NoLater(order, a, b) && NoLater(order, b, a)
    ensures a == b
  {
    if a != b {
      EarlierTransitive(order, a, b, a);
      EarlierIrreflexive(order, a);
    }
  }

  /** One more edge on each keeps walks apart. */
  lemma EarlierExtends(order: seq<string>, a: seq<string>, b: seq<string>, e: string, f: string)
    requires Earlier(order, a, b)
    ensures Earlier(order, a + [e], b + [f])
  {
    if |a| == |b| {
      var i :| DiffersAt(order, a, b, i);
      assert (a + [e])[..i] == a[..i] && (b + [f])[..i] == b[..i];
      assert DiffersAt(order, a + [e], b + [f], i);
    }
  }

  lemma EarlierSibling(order: seq<string>, a: seq<string>, e: string, f: string)
    requires Rank(order, e) < Rank(order, f)
    ensures Earlier(order, a + [e], a + [f])
  {
    assert (a + [e])[..|a|] == a == (a + [f])[..|a|];
    assert DiffersAt(order, a + [e], a + [f], |a|);
  }

  // ----- walks by their edges -----

  /** The edges `es` lead from `a` to `b`. */
  ghost predicate Leads(g: Graph, view: View, a: string, es: seq<string>, b: string) {
    exists ns :: WalkBetween(g, view, a, b, ns, es)
  }

  lemma LeadsOneMore(g: Graph, view: View, a: string, es: seq<string>, u: string, k: string, v: string)
    requires Leads(g, view, a, es, u) && Link(g, view, u, k, v)
    ensures Leads(g, view, a, es + [k], v)
  {
    var ns :| WalkBetween(g, view, a, u, ns, es);
    ExtendWalk(g, view, ns, es, k, v);
    assert WalkBetween(g, view, a, v, ns + [v], es + [k]);
  }

  /** The last step of a walk, and the walk before it. */
  lemma LeadsOneLess(g: Graph, view: View, a: string, es: seq<string>, v: string)
    returns (es0: seq<string>, u: string, k: string)
    requires Leads(g, view, a, es, v) && es != []
    ensures es == es0 + [k] && Leads(g, view, a, es0, u) && Link(g, view, u, k, v)
  {
    var ns :| WalkBetween(g, view, a, v, ns, es);
    var n := |es| - 1;
    WalkPrefix(g, view, ns, es, n);
    assert Link(g, view, ns[n], es[n], ns[n + 1]);
    es0, u, k := es[..n], ns[n], es[n];
    assert WalkBetween(g, view, a, u, ns[..n + 1], es0);
  }

  lemma LeadsNowhere(g: Graph, view: View, a: string)
    ensures Leads(g, view, a, [], a) && forall b :: Leads(g, view, a, [], b) ==> b == a
  {
    assert WalkBetween(g, view, a, a, [a], []);
  }

  /** Edges lead to one node only. */
  lemma {:induction false} LeadsToOne(g: Graph, view: View, a: string, es: seq<string>, u: string, v: string)
    requires Leads(g, view, a, es, u) && Leads(g, view, a, es, v)
    ensures u == v
    decreases |es|
  {
    if es == [] {
      LeadsNowhere(g, view, a);
    } else {
      var es0, x, k := LeadsOneLess(g, view, a, es, u);
      var es1, y, l := LeadsOneLess(g, view, a, es, v);
      assert es0 == es[..|es| - 1] == es1 && k == es[|es| - 1] == l;
      LeadsToOne(g, view, a, es0, x, y);
    }
  }

  /** The walk that comes before all others from `a` to `b`. */
  ghost predicate FirstWalk(g: Graph, view: View, a: string, b: string, es: seq<string>) {
    Leads(g, view, a, es, b) && forall fs :: Leads(g, view, a, fs, b) ==> NoLater(g.edges.order, es, fs)
  }

  lemma FirstWalkUnique(g: Graph, view: View, a: string, b: string, es: seq<string>, fs: seq<string>)
    requires FirstWalk(g, view, a, b, es) && FirstWalk(g, view, a, b, fs)
    ensures es == fs
  {
    NoLaterAntisymmetric(g.edges.order, es, fs);
  }

  // ----- the nodes found so far -----

  /** Nodes with their first walks, in the order of those walks. */
  ghost predicate InOrder(g: Graph, view: View, root: string, found: seq<string>, walks: seq<seq<string>>) {
    && |found| == |walks| > 0 && found[0] == root && walks[0] == []
    && (forall i :: 0 <= i < |found| ==> FirstWalk(g, view, root, found[i], walks[i]))
    && (forall i, j :: 0 <= i < j < |walks| ==> Earlier(g.edges.order, walks[i], walks[j]))
  }

  /** Every other node that can be reached comes later. */
  ghost predicate Ahead(g: Graph, view: View, root: string, found: seq<string>, last: seq<string>) {
    forall v, fs :: v !in found && Leads(g, view, root, fs, v) ==> Earlier(g.edges.order, last, fs)
  }

  /** `found` are the first so many nodes around the root. */
  ghost predicate Nearest(g: Graph, view: View, root: string, found: seq<string>, walks: seq<seq<string>>) {
    InOrder(g, view, root, found, walks) && Ahead(g, view, root, found, walks[|walks| - 1])
  }

  lemma InOrderDistinct(g: Graph, view: View, root: string, found: seq<string>, walks: seq<seq<string>>, i: nat, j: nat)
    requires InOrder(g, view, root, found, walks) && i < j < |found|
    ensures found[i] != found[j]
  {
    if found[i] == found[j] {
      FirstWalkUnique(g, view, root, found[i], walks[i], walks[j]);
      EarlierIrreflexive(g.edges.order, walks[i]);
    }
  }

  lemma NearestStarts(g: Graph, view: View, root: string)
    ensures Nearest(g, view, root, [root], [[]])
  {
    LeadsNowhere(g, view, root);
    forall v, fs | v !in [root] && Leads(g, view, root, fs, v) ensures Earlier(g.edges.order, [], fs) {
      assert fs == [] ==> v == root;
    }
  }

  lemma ComparedInside(g: Graph, view: View, root: string, a: seq<string>, wa: seq<seq<string>>,
                       b: seq<string>, wb: seq<seq<string>>, i: nat, j: nat)
    requires InOrder(g, view, root, a, wa) && InOrder(g, view, root, b, wb)
    requires i < |a| && i < |b| && (forall m :: 0 <= m < i ==> a[m] == b[m]) && a[i] != b[i]
    requires j < |b| && b[j] == a[i]
    ensures Earlier(g.edges.order, wb[i], wa[i])
  {
    if j < i { InOrderDistinct(g, view, root, a, wa, j, i); }
    FirstWalkUnique(g, view, root, a[i], wa[i], wb[j]);
  }

  /** At the first place where two such lists differ, the other one's walk is earlier. */
  lemma NearestCompared(g: Graph, view: View, root: string, a: seq<string>, wa: seq<seq<string>>,
                        b: seq<string>, wb: seq<seq<string>>, i: nat)
    requires Nearest(g, view, root, a, wa) && Nearest(g, view, root, b, wb)
    requires i < |a| && i < |b| && (forall m :: 0 <= m < i ==> a[m] == b[m]) && a[i] != b[i]
    ensures Earlier(g.edges.order, wb[i], wa[i])
  {
    if a[i] in b {
      var j :| 0 <= j < |b| && b[j] == a[i];
      ComparedInside(g, view, root, a, wa, b, wb, i, j);
    } else {
      assert Earlier(g.edges.order, wb[|wb| - 1], wa[i]);
      EarlierTransitive(g.edges.order, wb[i], wb[|wb| - 1], wa[i]);
    }
  }

  /** There is only one list of the nearest nodes of each length. */
  lemma {:induction false} NearestUnique(g: Graph, view: View, root: string, a: seq<string>, wa: seq<seq<string>>,
                                         b: seq<string>, wb: seq<seq<string>>, n: nat)
    requires Nearest(g, view, root, a, wa) && Nearest(g, view, root, b, wb) && n <= |a| && n <= |b|
    ensures forall m :: 0 <= m < n ==> a[m] == b[m]
  {
    if n > 0 {
      var i := n - 1;
      NearestUnique(g, view, root, a, wa, b, wb, i);
      if a[i] != b[i] {
        NearestCompared(g, view, root, a, wa, b, wb, i);
        NearestCompared(g, view, root, b, wb, a, wa, i);
        EarlierTransitive(g.edges.order, wa[i], wb[i], wa[i]);
        EarlierIrreflexive(g.edges.order, wa[i]);
      }
    }
  }

  // ----- expanding the nodes one after the other -----

  /** A search around a root; the nodes of `avoid` are not to be met. */
  datatype Scan = Scan(g: Graph, view: View, root: string, depth: int, avoid: set<string>)

  /** A node that the search has met: it is found and not one of those to stop at. */
  ghost predicate Met(found: seq<string>, avoid: set<string>, v: string) { v in found && v !in avoid }

  /** The steps from the first `c` nodes, as far as they lie above `depth`, lead to met nodes. */
  ghost predicate Explored(g: Graph, view: View, found: seq<string>, walks: seq<seq<string>>, c: nat, depth: int,
                           avoid: set<string>) {
    && c <= |found| == |walks|
    && forall i, k, v :: 0 <= i < c && |walks[i]| < depth && Link(g, view, found[i], k, v) ==> Met(found, avoid, v)
  }

  /** The j-th walk prolongs that of one of the first `c` nodes, or that of node `c` by one of the edges `es`. */
  ghost predicate HasParent(walks: seq<seq<string>>, c: nat, es: set<string>, j: nat)
    requires j < |walks|
  {
    exists p, e :: 0 <= p < |walks| && walks[j] == walks[p] + [e] && (p < c || (p == c && e in es))
  }

  lemma ParentOf(walks: seq<seq<string>>, c: nat, es: set<string>, j: nat) returns (p: nat, e: string)
    requires Parented(walks, c, es) && 0 < j < |walks|
    ensures p < |walks| && walks[j] == walks[p] + [e] && (p < c || (p == c && e in es))
  {
    assert HasParent(walks, c, es, j);
    p, e :| 0 <= p < |walks| && walks[j] == walks[p] + [e] && (p < c || (p == c && e in es));
  }

  ghost predicate Parented(walks: seq<seq<string>>, c: nat, es: set<string>) {
    forall j :: 0 < j < |walks| ==> HasParent(walks, c, es, j)
  }

  function FirstIds(es: seq<Edge>, n: nat): set<string> { set i | 0 <= i < n && i < |es| :: es[i].id }

  /** `incident` lists the steps from `u`, in the order of the store. */
  ghost predicate ListsSteps(g: Graph, view: View, u: string, incident: seq<Edge>) {
    && (forall i :: 0 <= i < |incident| ==> incident[i].id in g.edges.at && g.edges.at[incident[i].id] == incident[i])
    && (forall k, v :: Link(g, view, u, k, v) ==> k in FirstIds(incident, |incident|))
    && (forall i, j :: 0 <= i < j < |incident| ==>
          Rank(g.edges.order, incident[i].id) < Rank(g.edges.order, incident[j].id))
  }

  /** The first `n` steps from `u` lead to met nodes. */
  ghost predicate StepsMet(g: Graph, view: View, u: string, incident: seq<Edge>, n: nat, found: seq<string>,
                           avoid: set<string>) {
    forall k, v :: k in FirstIds(incident, n) && Link(g, view, u, k, v) ==> Met(found, avoid, v)
  }

  /** Between two expansions: the first `c` nodes are done. */
  ghost predicate Between(q: Scan, found: seq<string>, walks: seq<seq<string>>, c: nat) {
    && Nearest(q.g, q.view, q.root, found, walks) && Explored(q.g, q.view, found, walks, c, q.depth, q.avoid)
       && Parented(walks, c, {})
  }

  /** Within the expansion of node `c`: its first `n` steps are done. */
  ghost predicate Amid(q: Scan, found: seq<string>, walks: seq<seq<string>>, c: nat, incident: seq<Edge>, n: nat) {
    && Nearest(q.g, q.view, q.root, found, walks) && Explored(q.g, q.view, found, walks, c, q.depth, q.avoid)
    && Parented(walks, c, FirstIds(incident, n))
    && c < |found| && |walks[c]| < q.depth && n <= |incident|
    && ListsSteps(q.g, q.view, found[c], incident) && StepsMet(q.g, q.view, found[c], incident, n, found, q.avoid)
  }

  /** No step from the nodes done leads to an unmet node. */
  lemma UnmetFromElsewhere(q: Scan, found: seq<string>, walks: seq<seq<string>>, c: nat, y: string, k: string,
                           x: string)
    requires Explored(q.g, q.view, found, walks, c, q.depth, q.avoid) && forall i :: 0 <= i < c ==> |walks[i]| < q.depth
    requires Link(q.g, q.view, y, k, x) && !Met(found, q.avoid, x)
    ensures forall i :: 0 <= i < c ==> found[i] != y
  {
  }

  /** A walk that ends outside the nodes done comes no earlier than that of the node being expanded. */
  lemma {:induction false} NotBeforeCurrent(q: Scan, found: seq<string>, walks: seq<seq<string>>, c: nat, x: string,
                                            w: seq<string>)
    requires InOrder(q.g, q.view, q.root, found, walks) && Explored(q.g, q.view, found, walks, c, q.depth, q.avoid)
    requires c < |found| && |walks[c]| < q.depth && Leads(q.g, q.view, q.root, w, x)
    requires forall i :: 0 <= i < c ==> found[i] != x
    ensures NoLater(q.g.edges.order, walks[c], w)
    decreases |w|
  {
    var order := q.g.edges.order;
    if x in found {
      var j :| 0 <= j < |found| && found[j] == x;
      EarlierTransitive(order, walks[c], walks[j], w);
    } else {
      LeadsNowhere(q.g, q.view, q.root);
      assert w != [];
      var w0, y, k := LeadsOneLess(q.g, q.view, q.root, w, x);
      UnmetFromElsewhere(q, found, walks, c, y, k, x);
      NotBeforeCurrent(q, found, walks, c, y, w0);
    }
  }

  /** A walk to an unmet node comes no earlier than the one over the next edge. */
  lemma NotBeforeNext(q: Scan, found: seq<string>, walks: seq<seq<string>>, c: nat, incident: seq<Edge>, n: nat,
                      x: string, w: seq<string>)
    requires Amid(q, found, walks, c, incident, n) && n < |incident|
    requires Leads(q.g, q.view, q.root, w, x) && w != [] && !Met(found, q.avoid, x)
    ensures NoLater(q.g.edges.order, walks[c] + [incident[n].id], w)
  {
    var order := q.g.edges.order;
    var w0, y, k := LeadsOneLess(q.g, q.view, q.root, w, x);
    UnmetFromElsewhere(q, found, walks, c, y, k, x);
    NotBeforeCurrent(q, found, walks, c, y, w0);
    if walks[c] != w0 {
      EarlierExtends(order, walks[c], w0, incident[n].id, k);
    } else {
      LeadsToOne(q.g, q.view, q.root, w0, y, found[c]);
      assert k in FirstIds(incident, |incident|);
      var i :| 0 <= i < |incident| && incident[i].id == k;
      assert i < n ==> k in FirstIds(incident, n);
      if i > n { EarlierSibling(order, w0, incident[n].id, k); }
    }
  }

  // ----- one more step -----

  /** The walk over the next edge is later than all walks so far. */
  lemma LaterThanAll(q: Scan, found: seq<string>, walks: seq<seq<string>>, c: nat, incident: seq<Edge>, n: nat, j: nat)
    requires Amid(q, found, walks, c, incident, n) && n < |incident| && j < |walks|
    ensures Earlier(q.g.edges.order, walks[j], walks[c] + [incident[n].id])
  {
    var order := q.g.edges.order;
    if j > 0 {
      var p, e := ParentOf(walks, c, FirstIds(incident, n), j);
      if p < c {
        EarlierExtends(order, walks[p], walks[c], e, incident[n].id);
      } else {
        var i :| 0 <= i < n && i < |incident| && incident[i].id == e;
        EarlierSibling(order, walks[c], e, incident[n].id);
      }
    }
  }

  /** The walk over the next edge is the first one to an unmet node. */
  lemma FirstToUnmet(q: Scan, found: seq<string>, walks: seq<seq<string>>, c: nat, incident: seq<Edge>, n: nat,
                     v: string)
    requires Amid(q, found, walks, c, incident, n) && n < |incident|
    requires Link(q.g, q.view, found[c], incident[n].id, v) && !Met(found, q.avoid, v)
    ensures Leads(q.g, q.view, q.root, walks[c] + [incident[n].id], v)
    ensures forall w :: w != [] && Leads(q.g, q.view, q.root, w, v) ==>
              NoLater(q.g.edges.order, walks[c] + [incident[n].id], w)
  {
    LeadsOneMore(q.g, q.view, q.root, walks[c], found[c], incident[n].id, v);
    forall w | w != [] && Leads(q.g, q.view, q.root, w, v)
      ensures NoLater(q.g.edges.order, walks[c] + [incident[n].id], w)
    {
      NotBeforeNext(q, found, walks, c, incident, n, v, w);
    }
  }

  /** With the node at the end of the next edge, the list is again one of the nearest nodes. */
  lemma NearestOneMore(q: Scan, found: seq<string>, walks: seq<seq<string>>, c: nat, incident: seq<Edge>, n: nat,
                       v: string)
    requires Amid(q, found, walks, c, incident, n) && n < |incident|
    requires Link(q.g, q.view, found[c], incident[n].id, v) && v !in found
    ensures Nearest(q.g, q.view, q.root, found + [v], walks + [walks[c] + [incident[n].id]])
  {
    var walk := walks[c] + [incident[n].id];
    FirstToUnmet(q, found, walks, c, incident, n, v);
    LeadsNowhere(q.g, q.view, q.root);
    assert FirstWalk(q.g, q.view, q.root, v, walk);
    forall j | 0 <= j < |walks| ensures Earlier(q.g.edges.order, walks[j], walk) {
      LaterThanAll(q, found, walks, c, incident, n, j);
    }
    forall x, w | x !in found + [v] && Leads(q.g, q.view, q.root, w, x) ensures Earlier(q.g.edges.order, walk, w) {
      assert x !in found && x != v;
      NotBeforeNext(q, found, walks, c, incident, n, x, w);
      if walk == w { LeadsToOne(q.g, q.view, q.root, w, x, v); }
    }
  }

  /** The next step leads to a new node, which is found. */
  lemma FindsNew(q: Scan, found: seq<string>, walks: seq<seq<string>>, c: nat, incident: seq<Edge>, n: nat, v: string)
    requires Amid(q, found, walks, c, incident, n) && n < |incident|
    requires Link(q.g, q.view, found[c], incident[n].id, v) && v !in found && v !in q.avoid
    ensures Amid(q, found + [v], walks + [walks[c] + [incident[n].id]], c, incident, n + 1)
  {
    NearestOneMore(q, found, walks, c, incident, n, v);
    ParentedOneMore(walks, c, incident, n);
    MetOneMore(q.g, q.view, found[c], incident, n, found, found + [v], q.avoid);
  }

  lemma ParentedOneMore(walks: seq<seq<string>>, c: nat, incident: seq<Edge>, n: nat)
    requires Parented(walks, c, FirstIds(incident, n)) && c < |walks| && n < |incident|
    ensures Parented(walks, c, FirstIds(incident, n + 1))
    ensures Parented(walks + [walks[c] + [incident[n].id]], c, FirstIds(incident, n + 1))
  {
    var walks1, es1 := walks + [walks[c] + [incident[n].id]], FirstIds(incident, n + 1);
    assert incident[n].id in es1;
    forall j | 0 < j < |walks| ensures HasParent(walks, c, es1, j) && HasParent(walks1, c, es1, j) {
      var p, e := ParentOf(walks, c, FirstIds(incident, n), j);
      assert walks1[j] == walks1[p] + [e] && (p == c ==> e in es1);
    }
    assert walks1[|walks|] == walks1[c] + [incident[n].id];
  }

  lemma MetOneMore(g: Graph, view: View, u: string, incident: seq<Edge>, n: nat, found: seq<string>,
                   found1: seq<string>, avoid: set<string>)
    requires StepsMet(g, view, u, incident, n, found, avoid) && n < |incident| && found <= found1
    requires forall v :: Link(g, view, u, incident[n].id, v) ==> Met(found1, avoid, v)
    ensures StepsMet(g, view, u, incident, n + 1, found1, avoid)
  {
    forall k, v | k in FirstIds(incident, n + 1) && Link(g, view, u, k, v) ensures Met(found1, avoid, v) {
      if k != incident[n].id { assert k in FirstIds(incident, n); }
    }
  }

  /** The next edge leads to a met node, or is none of the admitted steps: nothing changes. */
  lemma FindsNothing(q: Scan, found: seq<string>, walks: seq<seq<string>>, c: nat, incident: seq<Edge>, n: nat)
    requires Amid(q, found, walks, c, incident, n) && n < |incident|
    requires forall v :: Link(q.g, q.view, found[c], incident[n].id, v) ==> Met(found, q.avoid, v)
    ensures Amid(q, found, walks, c, incident, n + 1)
  {
    ParentedOneMore(walks, c, incident, n);
    MetOneMore(q.g, q.view, found[c], incident, n, found, found, q.avoid);
  }

  // ----- from one node to the next -----

  lemma BeginsNode(q: Scan, found: seq<string>, walks: seq<seq<string>>, c: nat, incident: seq<Edge>)
    requires Between(q, found, walks, c)
    requires c < |found| && |walks[c]| < q.depth && ListsSteps(q.g, q.view, found[c], incident)
    ensures Amid(q, found, walks, c, incident, 0)
  {
    assert FirstIds(incident, 0) == {};
  }

  lemma EndsNode(q: Scan, found: seq<string>, walks: seq<seq<string>>, c: nat, incident: seq<Edge>)
    requires Amid(q, found, walks, c, incident, |incident|)
    ensures Between(q, found, walks, c + 1)
  {
    ParentsRecede(walks, c, FirstIds(incident, |incident|));
    forall i, k, v | 0 <= i < c + 1 && |walks[i]| < q.depth && Link(q.g, q.view, found[i], k, v)
      ensures Met(found, q.avoid, v)
    {
      if i == c { assert k in FirstIds(incident, |incident|); }
    }
  }

  lemma ParentsRecede(walks: seq<seq<string>>, c: nat, es: set<string>)
    requires Parented(walks, c, es)
    ensures Parented(walks, c + 1, {})
  {
    var c1 := c + 1;
    forall j | 0 < j < |walks| ensures HasParent(walks, c1, {}, j) {
      var p, e := ParentOf(walks, c, es, j);
    }
  }

  /** A node at the full depth is not expanded. */
  lemma SkipsNode(q: Scan, found: seq<string>, walks: seq<seq<string>>, c: nat)
    requires Between(q, found, walks, c) && c < |found| && |walks[c]| >= q.depth
    ensures Between(q, found, walks, c + 1)
  {
    ParentsRecede(walks, c, {});
  }

  /** Once every node found is done, every node within `depth` steps is found, at its distance. */
  lemma {:induction false} AllFound(q: Scan, found: seq<string>, walks: seq<seq<string>>, v: string, w: seq<string>)
    returns (i: nat)
    requires Between(q, found, walks, |found|)
    requires Leads(q.g, q.view, q.root, w, v) && |w| <= if q.depth < 0 then 0 else q.depth
    ensures i < |found| && found[i] == v && |walks[i]| <= |w| && (w != [] ==> v !in q.avoid)
    decreases |w|
  {
    if w == [] {
      LeadsNowhere(q.g, q.view, q.root);
      i := 0;
    } else {
      var w0, u, k := LeadsOneLess(q.g, q.view, q.root, w, v);
      var j := AllFound(q, found, walks, u, w0);
      assert Link(q.g, q.view, found[j], k, v) && Met(found, q.avoid, v);
      i :| 0 <= i < |found| && found[i] == v;
      assert NoLater(q.g.edges.order, walks[i], w);
    }
  }

  /** A step goes at most one deeper than the node it leaves. */
  lemma DepthsOfFound(g: Graph, view: View, root: string, found: seq<string>, walks: seq<seq<string>>, c: nat,
                      es: set<string>, j: nat)
    requires InOrder(g, view, root, found, walks) && Parented(walks, c, es) && j < |walks| && c < |walks|
    ensures |walks[j]| <= |walks[c]| + 1
  {
    if j > 0 {
      var p, e := ParentOf(walks, c, es, j);
    }
  }
}
