/** The workspace-wide merge: candidate pairs, why merging them in order never trips, and what it merges. */
module AutoMerge {
  import opened KnowledgeBase
  import opened MergeDuplicates
  import opened OrderedDict
  import opened Sequences

  datatype Pair = Pair(a: string, b: string)

  function WorkspaceTest(workspace: string): Entity -> bool { (e: Entity) => e.workspace == workspace }

  function InWorkspace(es: seq<Entity>, workspace: string): seq<Entity> { Where(es, WorkspaceTest(workspace)) }

  /** `by_type`: groups in order of first appearance. */
  function ByType(es: seq<Entity>): (d: Dict<seq<Entity>>)
    ensures d.Valid()
  {
    if es == [] then Empty()
    else
      var d := ByType(es[..|es| - 1]);
      var e := es[|es| - 1];
      d.Put(e.typeId, (if e.typeId in d.at then d.at[e.typeId] else []) + [e])
  }

  function PairsWith(a: Entity, rest: seq<Entity>, overlaps: (string, string) -> bool): seq<Pair> {
    if rest == [] then []
    else (if overlaps(a.name, rest[0].name) then [Pair(a.id, rest[0].id)] else []) + PairsWith(a, rest[1..], overlaps)
  }

  /** `combinations(group, 2)`, filtered by name overlap. */
  function GroupPairs(group: seq<Entity>, overlaps: (string, string) -> bool): seq<Pair> {
    if group == [] then [] else PairsWith(group[0], group[1..], overlaps) + GroupPairs(group[1..], overlaps)
  }

  function AllPairs(groups: seq<seq<Entity>>, overlaps: (string, string) -> bool): seq<Pair> {
    if groups == [] then [] else GroupPairs(groups[0], overlaps) + AllPairs(groups[1..], overlaps)
  }

  function VerdictTest(verdict: set<Pair>): Pair -> bool { (p: Pair) => p in verdict }

  function Groups(es: seq<Entity>, workspace: string): seq<seq<Entity>> { ByType(InWorkspace(es, workspace)).Values() }

  /** Without a language model every overlapping pair counts as confirmed; with one, those of its verdict. */
  function CandidatePairs(es: seq<Entity>, workspace: string, overlaps: (string, string) -> bool,
                          verdict: Option<set<Pair>>): seq<Pair> {
    var pairs := AllPairs(Groups(es, workspace), overlaps);
    if verdict.None? then pairs else Where(pairs, VerdictTest(verdict.value))
  }

  // ----- the order of the pairs -----

  /** The entities of all groups, one group after the other. */
  function IdList(group: seq<Entity>): (ids: seq<string>)
    ensures |ids| == |group| && forall i :: 0 <= i < |group| ==> ids[i] == group[i].id
  {
    seq(|group|, i requires 0 <= i < |group| => group[i].id)
  }

  function MergeOrder(groups: seq<seq<Entity>>): seq<string> {
    if groups == [] then [] else IdList(groups[0]) + MergeOrder(groups[1..])
  }

  ghost predicate PairBefore(order: seq<string>, p: Pair, q: Pair) {
    Rank(order, p.a) < Rank(order, q.a) || (p.a == q.a && Rank(order, p.b) < Rank(order, q.b))
  }

  ghost predicate Ascends(order: seq<string>, p: Pair) { Rank(order, p.a) < Rank(order, p.b) < |order| }

  /** Each pair joins an entity with a later one, and the pairs are in lexicographic order. */
  ghost predicate Sorted(pairs: seq<Pair>, order: seq<string>) {
    && (forall i :: 0 <= i < |pairs| ==> Ascends(order, pairs[i]))
    && (forall i, j :: 0 <= i < j < |pairs| ==> PairBefore(order, pairs[i], pairs[j]))
  }

  ghost predicate NoTwice(xs: seq<string>) { forall i, j :: 0 <= i < j < |xs| ==> xs[i] != xs[j] }

  lemma {:induction false} RankConcat(xs: seq<string>, ys: seq<string>, x: string)
    ensures Rank(xs + ys, x) == if x in xs then Rank(xs, x) else |xs| + Rank(ys, x)
  {
    if xs == [] {
      assert xs + ys == ys;
    } else {
      assert xs == [xs[0]] + xs[1..] && (xs + ys)[1..] == xs[1..] + ys;
      RankConcat(xs[1..], ys, x);
    }
  }

  lemma SortedConcat(ps: seq<Pair>, qs: seq<Pair>, order: seq<string>)
    requires Sorted(ps, order) && Sorted(qs, order)
    requires forall p, q :: p in ps && q in qs ==> PairBefore(order, p, q)
    ensures Sorted(ps + qs, order)
  {
    forall i, j | 0 <= i < |ps| && 0 <= j < |qs| ensures PairBefore(order, ps[i], qs[j]) {
      assert ps[i] in ps && qs[j] in qs;
    }
  }

  /** Order facts survive when ids are put before the list. */
  lemma SortedBehind(ps: seq<Pair>, xs: seq<string>, ys: seq<string>)
    requires Sorted(ps, ys) && forall x :: x in xs ==> x !in ys
    ensures Sorted(ps, xs + ys) && forall p :: p in ps ==> Rank(xs + ys, p.a) >= |xs|
  {
    forall p | p in ps ensures p.a in ys && p.b in ys && Ascends(xs + ys, p) && Rank(xs + ys, p.a) >= |xs| {
      assert Ascends(ys, p);
      assert p.a == ys[Rank(ys, p.a)] && p.b == ys[Rank(ys, p.b)];
      RankConcat(xs, ys, p.a);
      RankConcat(xs, ys, p.b);
    }
    forall i, j | 0 <= i < j < |ps| ensures PairBefore(xs + ys, ps[i], ps[j]) {
      assert ps[i] in ps && ps[j] in ps && PairBefore(ys, ps[i], ps[j]);
      RankConcat(xs, ys, ps[i].a);
      RankConcat(xs, ys, ps[j].a);
      RankConcat(xs, ys, ps[i].b);
      RankConcat(xs, ys, ps[j].b);
    }
  }

  lemma SortedBefore(ps: seq<Pair>, xs: seq<string>, ys: seq<string>)
    requires Sorted(ps, xs)
    ensures Sorted(ps, xs + ys) && forall p :: p in ps ==> Rank(xs + ys, p.a) < |xs|
  {
    forall p | p in ps
      ensures Rank(xs + ys, p.a) == Rank(xs, p.a) < |xs| && Rank(xs + ys, p.b) == Rank(xs, p.b) < |xs|
    {
      assert Ascends(xs, p);
      assert p.a == xs[Rank(xs, p.a)] && p.b == xs[Rank(xs, p.b)];
      RankConcat(xs, ys, p.a);
      RankConcat(xs, ys, p.b);
    }
    forall i, j | 0 <= i < j < |ps| ensures PairBefore(xs + ys, ps[i], ps[j]) {
      assert ps[i] in ps && ps[j] in ps && PairBefore(xs, ps[i], ps[j]);
    }
    forall i | 0 <= i < |ps| ensures Ascends(xs + ys, ps[i]) { assert ps[i] in ps; }
  }

  lemma RankAt(order: seq<string>, i: nat)
    requires NoTwice(order) && i < |order|
    ensures Rank(order, order[i]) == i
  {
  }

  /** `a` stands at place `at`, the rest from place `from` on. */
  lemma {:induction false} PairsWithSorted(a: Entity, rest: seq<Entity>, order: seq<string>, at: nat, from: nat,
                                           overlaps: (string, string) -> bool)
    requires NoTwice(order) && at < from && from + |rest| == |order| && order[at] == a.id
    requires forall i :: 0 <= i < |rest| ==> rest[i].id == order[from + i]
    ensures Sorted(PairsWith(a, rest, overlaps), order)
    ensures forall p :: p in PairsWith(a, rest, overlaps) ==> p.a == a.id && Rank(order, p.b) >= from
    decreases |rest|
  {
    if rest != [] {
      var tail := rest[1..];
      forall i | 0 <= i < |tail| ensures tail[i].id == order[from + 1 + i] { assert tail[i] == rest[i + 1]; }
      PairsWithSorted(a, tail, order, at, from + 1, overlaps);
      RankAt(order, at);
      RankAt(order, from);
      if overlaps(a.name, rest[0].name) { OneMorePair(Pair(a.id, rest[0].id), PairsWith(a, tail, overlaps), order); }
    }
  }

  lemma OneMorePair(p: Pair, ps: seq<Pair>, order: seq<string>)
    requires Ascends(order, p) && Sorted(ps, order) && forall q :: q in ps ==> PairBefore(order, p, q)
    ensures Sorted([p] + ps, order)
  {
    SortedConcat([p], ps, order);
  }

  lemma {:induction false} GroupPairsSorted(group: seq<Entity>, overlaps: (string, string) -> bool)
    requires NoTwice(IdList(group))
    ensures Sorted(GroupPairs(group, overlaps), IdList(group))
    decreases |group|
  {
    if group != [] {
      var a, rest, order := group[0], group[1..], IdList(group);
      FirstPairsSorted(group, overlaps);
      IdListTail(group);
      GroupPairsSorted(rest, overlaps);
      SortedBehind(GroupPairs(rest, overlaps), [a.id], IdList(rest));
      SortedConcat(PairsWith(a, rest, overlaps), GroupPairs(rest, overlaps), order);
    }
  }

  lemma FirstPairsSorted(group: seq<Entity>, overlaps: (string, string) -> bool)
    requires group != [] && NoTwice(IdList(group))
    ensures Sorted(PairsWith(group[0], group[1..], overlaps), IdList(group)) && Rank(IdList(group), group[0].id) == 0
    ensures forall p :: p in PairsWith(group[0], group[1..], overlaps) ==> p.a == group[0].id
  {
    PairsWithSorted(group[0], group[1..], IdList(group), 0, 1, overlaps);
    RankAt(IdList(group), 0);
  }

  lemma IdListTail(group: seq<Entity>)
    requires group != [] && NoTwice(IdList(group))
    ensures IdList(group) == [group[0].id] + IdList(group[1..]) && NoTwice(IdList(group[1..]))
    ensures group[0].id !in IdList(group[1..])
  {
    var ids, rest := IdList(group), IdList(group[1..]);
    assert forall i :: 0 <= i < |rest| ==> rest[i] == ids[i + 1];
  }

  lemma {:induction false} AllPairsSorted(groups: seq<seq<Entity>>, overlaps: (string, string) -> bool)
    requires NoTwice(MergeOrder(groups))
    ensures Sorted(AllPairs(groups, overlaps), MergeOrder(groups))
    decreases |groups|
  {
    if groups != [] {
      var xs, ys := IdList(groups[0]), MergeOrder(groups[1..]);
      assert MergeOrder(groups) == xs + ys;
      assert forall i :: 0 <= i < |xs| ==> xs[i] == (xs + ys)[i];
      assert forall j :: 0 <= j < |ys| ==> ys[j] == (xs + ys)[|xs| + j];
      GroupPairsSorted(groups[0], overlaps);
      AllPairsSorted(groups[1..], overlaps);
      SortedBefore(GroupPairs(groups[0], overlaps), xs, ys);
      SortedBehind(AllPairs(groups[1..], overlaps), xs, ys);
      SortedConcat(GroupPairs(groups[0], overlaps), AllPairs(groups[1..], overlaps), xs + ys);
    }
  }

  lemma ConfirmedSorted(pairs: seq<Pair>, verdict: set<Pair>, order: seq<string>)
    requires Sorted(pairs, order)
    ensures Sorted(Where(pairs, VerdictTest(verdict)), order)
    ensures forall p :: p in Where(pairs, VerdictTest(verdict)) <==> p in pairs && p in verdict
  {
    var at := WhereFrom(pairs, VerdictTest(verdict));
    WhereAre(pairs, VerdictTest(verdict));
  }

  // ----- grouping -----

  /** Each group holds the entities of its type, in order. */
  ghost predicate Grouped(es: seq<Entity>, d: Dict<seq<Entity>>) {
    && d.Valid()
    && (forall t :: t in d.at ==> DistinctEntities(d.at[t]) && forall e :: e in d.at[t] <==> e in es && e.typeId == t)
    && (forall e :: e in es ==> e.typeId in d.at)
  }

  lemma {:induction false} ByTypeGroups(es: seq<Entity>)
    requires DistinctEntities(es)
    ensures Grouped(es, ByType(es))
    decreases |es|
  {
    if es != [] {
      var front, last := es[..|es| - 1], es[|es| - 1];
      ByTypeGroups(front);
      SplitLast(es);
      assert forall e :: e in front ==> e.id != last.id;
      GroupedOneMore(front, ByType(front), last, es, ByType(es));
    }
  }

  lemma GroupedOneMore(es: seq<Entity>, d: Dict<seq<Entity>>, e: Entity, es1: seq<Entity>, d1: Dict<seq<Entity>>)
    requires Grouped(es, d) && es1 == es + [e] && forall x :: x in es ==> x.id != e.id
    requires d1 == d.Put(e.typeId, (if e.typeId in d.at then d.at[e.typeId] else []) + [e])
    ensures Grouped(es1, d1)
  {
    var group := if e.typeId in d.at then d.at[e.typeId] else [];
    forall t | t in d1.at
      ensures DistinctEntities(d1.at[t]) && forall x :: x in d1.at[t] <==> x in es1 && x.typeId == t
    {
      if t == e.typeId {
        assert d1.at[t] == group + [e];
        assert forall x :: x in group ==> x in es;
      }
    }
  }

  /** The entity `id` has one of the types from position `n` on. */
  ghost predicate TypedAfter(es: seq<Entity>, types: seq<string>, n: nat, id: string) {
    exists e, k :: n <= k < |types| && e in es && e.id == id && e.typeId == types[k]
  }

  /** The merge order lists every entity of the groups from position `n` on, none twice. */
  lemma {:induction false} OrderIsDistinct(es: seq<Entity>, d: Dict<seq<Entity>>, n: nat)
    requires DistinctEntities(es) && Grouped(es, d) && n <= |d.order|
    ensures NoTwice(MergeOrder(d.Values()[n..]))
    ensures forall id :: id in MergeOrder(d.Values()[n..]) ==> TypedAfter(es, d.order, n, id)
    decreases |d.order| - n
  {
    if n < |d.order| {
      var groups, later: seq<seq<Entity>> := d.Values()[n..], d.Values()[n + 1..];
      assert groups[1..] == later && groups[0] == d.at[d.order[n]];
      var xs, ys := IdList(groups[0]), MergeOrder(later);
      assert MergeOrder(groups) == xs + ys;
      OrderIsDistinct(es, d, n + 1);
      forall id | id in xs ensures TypedAfter(es, d.order, n, id) && id !in ys {
        FirstGroup(es, d, n, id);
        if id in ys { LaterGroup(es, d, n, id); }
      }
      forall id | id in ys ensures TypedAfter(es, d.order, n, id) {
        var e, k :| n + 1 <= k < |d.order| && e in es && e.id == id && e.typeId == d.order[k];
      }
      NoTwiceConcat(xs, ys);
    }
  }

  lemma NoTwiceConcat(xs: seq<string>, ys: seq<string>)
    requires NoTwice(xs) && NoTwice(ys) && forall x :: x in xs ==> x !in ys
    ensures NoTwice(xs + ys)
  {
    forall i, j | 0 <= i < |xs| && 0 <= j < |ys| ensures xs[i] != ys[j] { assert xs[i] in xs; }
  }

  lemma FirstGroup(es: seq<Entity>, d: Dict<seq<Entity>>, n: nat, id: string)
    requires Grouped(es, d) && n < |d.order| && id in IdList(d.at[d.order[n]])
    ensures exists e :: e in es && e.id == id && e.typeId == d.order[n]
    ensures TypedAfter(es, d.order, n, id)
  {
    var group := d.at[d.order[n]];
    var i :| 0 <= i < |group| && IdList(group)[i] == id;
    assert group[i] in group;
  }

  lemma LaterGroup(es: seq<Entity>, d: Dict<seq<Entity>>, n: nat, id: string)
    requires DistinctEntities(es) && Grouped(es, d) && n < |d.order| && TypedAfter(es, d.order, n + 1, id)
    ensures forall e :: e in es && e.id == id ==> e.typeId != d.order[n]
  {
    var f, k :| n + 1 <= k < |d.order| && f in es && f.id == id && f.typeId == d.order[k];
    forall e | e in es && e.id == id ensures e.typeId != d.order[n] {
      SameIdSameType(es, e, f);
      assert d.order[k] != d.order[n];
    }
  }

  lemma SameIdSameType(es: seq<Entity>, e: Entity, f: Entity)
    requires DistinctEntities(es) && e in es && f in es && e.id == f.id
    ensures e.typeId == f.typeId
  {
  }

  lemma InWorkspaceOf(es: seq<Entity>, workspace: string)
    requires DistinctEntities(es)
    ensures DistinctEntities(InWorkspace(es, workspace))
    ensures forall e :: e in InWorkspace(es, workspace) <==> e in es && e.workspace == workspace
  {
    var at := WhereFrom(es, WorkspaceTest(workspace));
    WhereAre(es, WorkspaceTest(workspace));
  }

  /** For every name filter and every set of confirmed pairs, the candidate pairs join stored entities and are sorted
      by the places of the entities in the groups. */
  lemma CandidatePairsSorted(es: seq<Entity>, workspace: string, overlaps: (string, string) -> bool,
                             verdict: Option<set<Pair>>)
    requires DistinctEntities(es)
    ensures Sorted(CandidatePairs(es, workspace, overlaps, verdict), MergeOrder(Groups(es, workspace)))
    ensures forall id :: id in MergeOrder(Groups(es, workspace)) ==> id in Ids(es)
  {
    var local := InWorkspace(es, workspace);
    InWorkspaceOf(es, workspace);
    ByTypeGroups(local);
    var d := ByType(local);
    OrderIsDistinct(local, d, 0);
    assert d.Values()[0..] == d.Values() == Groups(es, workspace);
    forall id | id in MergeOrder(Groups(es, workspace)) ensures id in Ids(es) {
      var e, k :| 0 <= k < |d.order| && e in local && e.id == id && e.typeId == d.order[k];
    }
    AllPairsSorted(d.Values(), overlaps);
    if verdict.Some? { ConfirmedSorted(AllPairs(d.Values(), overlaps), verdict.value, MergeOrder(d.Values())); }
  }

  // ----- merging the pairs -----

  datatype Progress = Progress(kb: KB, merges: seq<Pair>, results: seq<MergeResult>)

  function Consumed(merges: seq<Pair>): set<string> { set p | p in merges :: p.b }

  function MergeStep(s: Progress, p: Pair, flush: bool): Progress {
    if p.a in Consumed(s.merges) || p.b in Consumed(s.merges) then s
    else Progress(MergeTables(s.kb, p.a, p.b, flush), s.merges + [p], s.results + [MergeOutcome(s.kb, p.a, p.b, flush)])
  }

  function MergePairs(kb: KB, pairs: seq<Pair>, flush: bool): Progress {
    if pairs == [] then Progress(kb, [], [])
    else MergeStep(MergePairs(kb, pairs[..|pairs| - 1], flush), pairs[|pairs| - 1], flush)
  }

  /** What has been achieved: every merge succeeded, no entity was merged away twice, every keeper is still there,
      exactly the merged entities are gone, and every pair has lost an entity. */
  ghost predicate StarForest(kb: KB, pairs: seq<Pair>, s: Progress) { Safe(kb, s) && Covers(pairs, s.merges) }

  ghost predicate Safe(kb: KB, s: Progress) {
    && Integrity(s.kb)
    && |s.results| == |s.merges| && (forall i :: 0 <= i < |s.results| ==> s.results[i].Merged?)
    && (forall i, j :: 0 <= i < j < |s.merges| ==> s.merges[i].b != s.merges[j].b)
    && (forall i :: 0 <= i < |s.merges| ==> s.merges[i].a in Ids(s.kb.entities))
    && Ids(s.kb.entities) == Ids(kb.entities) - Consumed(s.merges)
    && |s.kb.entities| + |s.merges| == |kb.entities|
  }

  /** The merges are some of the pairs, every pair has an entity that was merged away, and something was merged unless
      there was no pair. */
  ghost predicate Covers(pairs: seq<Pair>, merges: seq<Pair>) {
    && (forall p :: p in merges ==> p in pairs)
    && (forall p :: p in pairs ==> p.a in Consumed(merges) || p.b in Consumed(merges))
    && (merges == [] <==> pairs == [])
  }

  lemma {:induction false} MergesCover(kb: KB, pairs: seq<Pair>, flush: bool)
    ensures Covers(pairs, MergePairs(kb, pairs, flush).merges)
    decreases |pairs|
  {
    if pairs != [] {
      var front, p := pairs[..|pairs| - 1], pairs[|pairs| - 1];
      var merges := MergePairs(kb, front, flush).merges;
      MergesCover(kb, front, flush);
      SplitLast(pairs);
      assert p in merges + [p];
      CoversOneMore(front, merges, p);
    }
  }

  lemma CoversOneMore(front: seq<Pair>, merges: seq<Pair>, p: Pair)
    requires Covers(front, merges)
    ensures Covers(front + [p], if p.a in Consumed(merges) || p.b in Consumed(merges) then merges else merges + [p])
  {
    assert p in merges + [p];
    forall x | x in Consumed(merges) ensures x in Consumed(merges + [p]) {
      var m :| m in merges && m.b == x;
      assert m in merges + [p];
    }
  }

  /** Merging sorted pairs of stored entities in order makes a star forest. */
  lemma MergesMakeStarForest(kb: KB, pairs: seq<Pair>, order: seq<string>, flush: bool)
    requires Integrity(kb) && Sorted(pairs, order) && forall id :: id in order ==> id in Ids(kb.entities)
    ensures StarForest(kb, pairs, MergePairs(kb, pairs, flush))
  {
    MergesAreSafe(kb, pairs, order, flush);
    MergesCover(kb, pairs, flush);
  }

  lemma {:induction false} MergesAreSafe(kb: KB, pairs: seq<Pair>, order: seq<string>, flush: bool)
    requires Integrity(kb) && Sorted(pairs, order) && forall id :: id in order ==> id in Ids(kb.entities)
    ensures Safe(kb, MergePairs(kb, pairs, flush))
    decreases |pairs|
  {
    if pairs != [] {
      var front, p := pairs[..|pairs| - 1], pairs[|pairs| - 1];
      MergesAreSafe(kb, front, order, flush);
      MergesCover(kb, front, flush);
      assert Ascends(order, p);
      assert p.a == order[Rank(order, p.a)] && p.b == order[Rank(order, p.b)];
      NoKeeperLater(pairs, order, MergePairs(kb, front, flush).merges);
      StaysSafe(kb, MergePairs(kb, front, flush), p, flush);
    }
  }

  /** The last pair merges away no keeper of a pair before it. */
  lemma NoKeeperLater(pairs: seq<Pair>, order: seq<string>, merges: seq<Pair>)
    requires Sorted(pairs, order) && pairs != [] && forall m :: m in merges ==> m in pairs[..|pairs| - 1]
    ensures forall m :: m in merges ==> m.a != pairs[|pairs| - 1].b
  {
    var front, p := pairs[..|pairs| - 1], pairs[|pairs| - 1];
    assert Ascends(order, p);
    forall m | m in merges ensures m.a != p.b {
      var i :| 0 <= i < |front| && front[i] == m;
      assert PairBefore(order, pairs[i], pairs[|pairs| - 1]);
    }
  }

  lemma MergesGrow(merges: seq<Pair>, p: Pair)
    requires (forall i, j :: 0 <= i < j < |merges| ==> merges[i].b != merges[j].b) && p.b !in Consumed(merges)
    ensures forall i, j :: 0 <= i < j < |merges + [p]| ==> (merges + [p])[i].b != (merges + [p])[j].b
    ensures Consumed(merges + [p]) == Consumed(merges) + {p.b}
  {
    forall i | 0 <= i < |merges| ensures merges[i].b != p.b {
      assert merges[i].b in Consumed(merges);
    }
  }

  lemma KeepersStay(merges: seq<Pair>, p: Pair, ids: set<string>)
    requires forall i :: 0 <= i < |merges| ==> merges[i].a in ids
    requires p.a in ids && p.a != p.b && forall m :: m in merges ==> m.a != p.b
    ensures forall i :: 0 <= i <= |merges| ==> (merges + [p])[i].a in ids - {p.b}
  {
    forall i | 0 <= i < |merges| ensures merges[i].a in ids - {p.b} {
      assert merges[i] in merges;
    }
  }

  lemma StaysSafe(kb: KB, s: Progress, p: Pair, flush: bool)
    requires Safe(kb, s) && p.a != p.b && p.a in Ids(kb.entities) && p.b in Ids(kb.entities)
    requires forall m :: m in s.merges ==> m.a != p.b
    ensures Safe(kb, MergeStep(s, p, flush))
  {
    if p.a !in Consumed(s.merges) && p.b !in Consumed(s.merges) {
      MergeKeepsIntegrity(s.kb, p.a, p.b, flush);
      MergesGrow(s.merges, p);
      var s1 := MergeStep(s, p, flush);
      assert s1.results[|s.results|].Merged?;
      KeepersStay(s.merges, p, Ids(s.kb.entities));
    }
  }

  /** End to end: a workspace-wide merge never fails, merges no entity twice and consumes no keeper; the survivors and
      the merges add up to the entities at the start; of every candidate pair an entity is merged away; and something
      is merged whenever there is a candidate. */
  lemma AutoMergeNeverTrips(kb: KB, workspace: string, overlaps: (string, string) -> bool, verdict: Option<set<Pair>>,
                            flush: bool)
    requires Integrity(kb)
    ensures var pairs := CandidatePairs(kb.entities, workspace, overlaps, verdict);
            StarForest(kb, pairs, MergePairs(kb, pairs, flush))
  {
    CandidatePairsSorted(kb.entities, workspace, overlaps, verdict);
    MergesMakeStarForest(kb, CandidatePairs(kb.entities, workspace, overlaps, verdict),
                         MergeOrder(Groups(kb.entities, workspace)), flush);
  }
}
