/** Which pairs the workspace-wide merge is about, and what it merges, in terms of the entity rows alone. */
module PlainAutoMerge {
  import opened AutoMerge
  import opened KnowledgeBase
  import opened OrderedDict
  import opened Sequences

  /** Two entities of the workspace and of one type, the first one stored earlier; their names overlap and, if there is
      a verdict, it confirms them. */
  ghost predicate Together(es: seq<Entity>, workspace: string, overlaps: (string, string) -> bool,
                           verdict: Option<set<Pair>>, i: int, j: int) {
    && 0 <= i < j < |es| && es[i].workspace == workspace && es[j].workspace == workspace
    && es[i].typeId == es[j].typeId && overlaps(es[i].name, es[j].name)
    && match verdict
       case None => true
       case Some(confirmed) => Pair(es[i].id, es[j].id) in confirmed
  }

  ghost predicate IsCandidate(es: seq<Entity>, workspace: string, overlaps: (string, string) -> bool,
                              verdict: Option<set<Pair>>, a: string, b: string) {
    exists i, j :: Together(es, workspace, overlaps, verdict, i, j) && es[i].id == a && es[j].id == b
  }

  // ----- the pairs -----

  /** Two places of a list, in order, with overlapping names. */
  ghost predicate OverlapAt(group: seq<Entity>, overlaps: (string, string) -> bool, i: int, j: int, a: string,
                            b: string) {
    0 <= i < j < |group| && group[i].id == a && group[j].id == b && overlaps(group[i].name, group[j].name)
  }

  ghost predicate Overlapping(group: seq<Entity>, overlaps: (string, string) -> bool, a: string, b: string) {
    exists i, j :: OverlapAt(group, overlaps, i, j, a, b)
  }

  lemma {:induction false} PairsWithAre(x: Entity, rest: seq<Entity>, overlaps: (string, string) -> bool, a: string,
                                        b: string)
    ensures Pair(a, b) in PairsWith(x, rest, overlaps)
            <==> a == x.id && exists j :: 0 <= j < |rest| && rest[j].id == b && overlaps(x.name, rest[j].name)
    decreases |rest|
  {
    if rest != [] {
      PairsWithAre(x, rest[1..], overlaps, a, b);
      assert forall j :: 0 < j < |rest| ==> rest[j] == rest[1..][j - 1];
      assert forall j :: 0 <= j < |rest| - 1 ==> rest[1..][j] == rest[j + 1];
    }
  }

  lemma {:induction false} GroupPairsAre(group: seq<Entity>, overlaps: (string, string) -> bool, a: string, b: string)
    ensures Pair(a, b) in GroupPairs(group, overlaps) <==> Overlapping(group, overlaps, a, b)
    decreases |group|
  {
    if group != [] {
      var rest := group[1..];
      GroupPairsAre(rest, overlaps, a, b);
      PairsWithAre(group[0], rest, overlaps, a, b);
      if i, j :| OverlapAt(group, overlaps, i, j, a, b) {
        assert group[j] == rest[j - 1];
        if i > 0 { assert OverlapAt(rest, overlaps, i - 1, j - 1, a, b); }
      }
      if j :| 0 <= j < |rest| && rest[j].id == b && overlaps(group[0].name, rest[j].name) && group[0].id == a {
        assert OverlapAt(group, overlaps, 0, j + 1, a, b);
      }
      if i, j :| OverlapAt(rest, overlaps, i, j, a, b) { assert OverlapAt(group, overlaps, i + 1, j + 1, a, b); }
    }
  }

  lemma {:induction false} AllPairsAre(groups: seq<seq<Entity>>, overlaps: (string, string) -> bool, a: string,
                                       b: string)
    ensures Pair(a, b) in AllPairs(groups, overlaps) <==> exists g :: g in groups && Overlapping(g, overlaps, a, b)
    decreases |groups|
  {
    if groups != [] {
      assert groups == [groups[0]] + groups[1..];
      AllPairsAre(groups[1..], overlaps, a, b);
      GroupPairsAre(groups[0], overlaps, a, b);
    }
  }

  function TypeTest(t: string): Entity -> bool { (e: Entity) => e.typeId == t }

  /** The group of a type is the list of its entities. */
  lemma {:induction false} GroupsAre(es: seq<Entity>)
    ensures forall t :: t in ByType(es).at <==> exists e :: e in es && e.typeId == t
    ensures forall t :: t in ByType(es).at ==> ByType(es).at[t] == Where(es, TypeTest(t))
  {
    if es != [] {
      var front, last := es[..|es| - 1], es[|es| - 1];
      GroupsAre(front);
      SplitLast(es);
      forall t | t in ByType(es).at ensures ByType(es).at[t] == Where(es, TypeTest(t)) {
        WhereLast(es, TypeTest(t));
        if t !in ByType(front).at { NoneOfType(front, t); }
      }
    }
  }

  lemma {:induction false} NoneOfType(es: seq<Entity>, t: string)
    requires forall e :: e in es ==> e.typeId != t
    ensures Where(es, TypeTest(t)) == []
  {
    if es != [] {
      NoneOfType(es[..|es| - 1], t);
      WhereLast(es, TypeTest(t));
    }
  }

  function LocalTest(workspace: string, t: string): Entity -> bool {
    (e: Entity) => e.workspace == workspace && e.typeId == t
  }

  ghost predicate PassAt(es: seq<Entity>, p: Entity -> bool, overlaps: (string, string) -> bool, i: int, j: int,
                         a: string, b: string) {
    OverlapAt(es, overlaps, i, j, a, b) && p(es[i]) && p(es[j])
  }

  lemma PlaceIn(at: seq<nat>, i: nat) returns (m: nat)
    requires i in at
    ensures m < |at| && at[m] == i
  {
    m :| 0 <= m < |at| && at[m] == i;
  }

  /** Two places among the rows that pass are two places in the table, in the same order. */
  lemma PlacesOf(es: seq<Entity>, p: Entity -> bool, overlaps: (string, string) -> bool, a: string, b: string)
    ensures Overlapping(Where(es, p), overlaps, a, b) <==> exists i, j :: PassAt(es, p, overlaps, i, j, a, b)
  {
    var rows := Where(es, p);
    var at := PickedFrom(es, p, Itself());
    if m, n :| OverlapAt(rows, overlaps, m, n, a, b) {
      assert at[m] < at[n] && rows[m] == es[at[m]] && rows[n] == es[at[n]];
      assert PassAt(es, p, overlaps, at[m], at[n], a, b);
    }
    if i, j :| PassAt(es, p, overlaps, i, j, a, b) {
      var m := PlaceIn(at, i);
      var n := PlaceIn(at, j);
      assert OverlapAt(rows, overlaps, m, n, a, b);
    }
  }

  ghost predicate InGroup(es: seq<Entity>, workspace: string, overlaps: (string, string) -> bool, t: string, a: string,
                          b: string) {
    Overlapping(Where(es, LocalTest(workspace, t)), overlaps, a, b)
  }

  lemma OverlapsAre(es: seq<Entity>, workspace: string, overlaps: (string, string) -> bool, a: string, b: string)
    ensures Pair(a, b) in AllPairs(Groups(es, workspace), overlaps)
            <==> exists t :: InGroup(es, workspace, overlaps, t, a, b)
  {
    var local, groups := InWorkspace(es, workspace), Groups(es, workspace);
    var d := ByType(local);
    AllPairsAre(groups, overlaps, a, b);
    GroupsAre(local);
    forall t ensures Where(local, TypeTest(t)) == Where(es, LocalTest(workspace, t)) {
      WhereTwice(es, WorkspaceTest(workspace), TypeTest(t), LocalTest(workspace, t));
    }
    if g :| g in groups && Overlapping(g, overlaps, a, b) {
      ValuesOf(d, g);
      var t :| t in d.at && d.at[t] == g;
      assert InGroup(es, workspace, overlaps, t, a, b);
    }
    if t :| InGroup(es, workspace, overlaps, t, a, b) {
      var g := Where(local, TypeTest(t));
      WhereAre(local, TypeTest(t));
      assert g[0] in g && g[0] in local && g[0].typeId == t;
      ValuesOf(d, g);
      assert g in groups;
    }
  }

  lemma InGroupIff(es: seq<Entity>, workspace: string, overlaps: (string, string) -> bool, a: string, b: string)
    ensures (exists t :: InGroup(es, workspace, overlaps, t, a, b))
            <==> IsCandidate(es, workspace, overlaps, None, a, b)
  {
    if t :| InGroup(es, workspace, overlaps, t, a, b) {
      PlacesOf(es, LocalTest(workspace, t), overlaps, a, b);
      var i, j :| PassAt(es, LocalTest(workspace, t), overlaps, i, j, a, b);
      assert Together(es, workspace, overlaps, None, i, j);
    }
    if i, j :| Together(es, workspace, overlaps, None, i, j) && es[i].id == a && es[j].id == b {
      var t := es[i].typeId;
      PlacesOf(es, LocalTest(workspace, t), overlaps, a, b);
      assert PassAt(es, LocalTest(workspace, t), overlaps, i, j, a, b);
      assert InGroup(es, workspace, overlaps, t, a, b);
    }
  }

  /** Which pairs are candidates. */
  lemma CandidatesAre(es: seq<Entity>, workspace: string, overlaps: (string, string) -> bool,
                      verdict: Option<set<Pair>>)
    ensures forall a, b :: Pair(a, b) in CandidatePairs(es, workspace, overlaps, verdict)
                      <==> IsCandidate(es, workspace, overlaps, verdict, a, b)
  {
    forall a, b
      ensures Pair(a, b) in CandidatePairs(es, workspace, overlaps, verdict)
              <==> IsCandidate(es, workspace, overlaps, verdict, a, b)
    {
      OverlapsAre(es, workspace, overlaps, a, b);
      InGroupIff(es, workspace, overlaps, a, b);
      ConfirmedAre(es, workspace, overlaps, verdict, a, b);
      if verdict.Some? { WhereAre(AllPairs(Groups(es, workspace), overlaps), VerdictTest(verdict.value)); }
    }
  }

  lemma ConfirmedAre(es: seq<Entity>, workspace: string, overlaps: (string, string) -> bool,
                     verdict: Option<set<Pair>>, a: string, b: string)
    ensures IsCandidate(es, workspace, overlaps, verdict, a, b)
            <==> IsCandidate(es, workspace, overlaps, None, a, b) && (verdict.Some? ==> Pair(a, b) in verdict.value)
  {
    if i, j :| Together(es, workspace, overlaps, verdict, i, j) && es[i].id == a && es[j].id == b {
      assert Together(es, workspace, overlaps, None, i, j);
    }
    if i, j :| Together(es, workspace, overlaps, None, i, j) && es[i].id == a && es[j].id == b {
      assert verdict.None? || Pair(a, b) in verdict.value ==> Together(es, workspace, overlaps, verdict, i, j);
    }
  }

  // ----- the merges -----

  ghost function MergedAway(results: seq<MergeResult>): set<string> {
    set r | r in results && r.Merged? :: r.merged
  }

  ghost predicate Distinctly(results: seq<MergeResult>) {
    && (forall r :: r in results ==> r.Merged?)
    && (forall i, j :: 0 <= i < j < |results| && results[i].Merged? && results[j].Merged? ==>
          results[i].merged != results[j].merged)
  }

  /** Only candidates are merged, no entity twice; exactly the merged ones are gone, the kept ones are still there, and
      of every candidate pair one entity has been merged away. */
  ghost predicate PlainlyAutoMerged(es: seq<Entity>, workspace: string, overlaps: (string, string) -> bool,
                                 verdict: Option<set<Pair>>, results: seq<MergeResult>, es1: seq<Entity>) {
    && Distinctly(results)
    && (forall r :: r in results && r.Merged? ==>
          IsCandidate(es, workspace, overlaps, verdict, r.kept, r.merged) && r.kept in Ids(es1))
    && (forall id :: id in Ids(es1) <==> id in Ids(es) && id !in MergedAway(results))
    && (forall a, b :: IsCandidate(es, workspace, overlaps, verdict, a, b) ==>
          a in MergedAway(results) || b in MergedAway(results))
  }

  /** The replies name the pairs that were merged. */
  lemma {:induction false} RepliesName(kb: KB, pairs: seq<Pair>, flush: bool)
    ensures var s := MergePairs(kb, pairs, flush);
            && |s.results| == |s.merges|
            && forall i :: 0 <= i < |s.results| && s.results[i].Merged? ==>
                 s.results[i].kept == s.merges[i].a && s.results[i].merged == s.merges[i].b
    decreases |pairs|
  {
    if pairs != [] { RepliesName(kb, pairs[..|pairs| - 1], flush); }
  }

  lemma RepliesMerge(kb: KB, pairs: seq<Pair>, s: Progress)
    requires StarForest(kb, pairs, s)
    requires forall i :: 0 <= i < |s.results| ==>
               s.results[i].kept == s.merges[i].a && s.results[i].merged == s.merges[i].b
    ensures Distinctly(s.results) && MergedAway(s.results) == Consumed(s.merges)
    ensures forall r :: r in s.results && r.Merged? ==>
              Pair(r.kept, r.merged) in pairs && r.kept in Ids(s.kb.entities)
  {
    ConsumedAreMerged(s);
    forall r | r in s.results && r.Merged? ensures Pair(r.kept, r.merged) in pairs && r.kept in Ids(s.kb.entities) {
      var i :| 0 <= i < |s.results| && s.results[i] == r;
      assert s.merges[i] in s.merges && Pair(r.kept, r.merged) == s.merges[i];
    }
  }

  /** What `auto_merge` promises, in plain terms. */
  lemma AutoMergeInPlainTerms(kb: KB, workspace: string, overlaps: (string, string) -> bool,
                              verdict: Option<set<Pair>>, flush: bool)
    requires Integrity(kb)
    ensures var s := MergePairs(kb, CandidatePairs(kb.entities, workspace, overlaps, verdict), flush);
            PlainlyAutoMerged(kb.entities, workspace, overlaps, verdict, s.results, s.kb.entities)
  {
    var pairs := CandidatePairs(kb.entities, workspace, overlaps, verdict);
    var s := MergePairs(kb, pairs, flush);
    AutoMergeNeverTrips(kb, workspace, overlaps, verdict, flush);
    CandidatesAre(kb.entities, workspace, overlaps, verdict);
    RepliesName(kb, pairs, flush);
    RepliesMerge(kb, pairs, s);
    forall a, b | IsCandidate(kb.entities, workspace, overlaps, verdict, a, b)
      ensures a in MergedAway(s.results) || b in MergedAway(s.results)
    {
      assert Pair(a, b) in pairs;
    }
  }

  lemma ConsumedAreMerged(s: Progress)
    requires |s.results| == |s.merges| && forall i :: 0 <= i < |s.results| ==> s.results[i].Merged?
    requires forall i :: 0 <= i < |s.results| ==> s.results[i].merged == s.merges[i].b
    ensures MergedAway(s.results) == Consumed(s.merges)
  {
    forall id ensures id in MergedAway(s.results) <==> id in Consumed(s.merges) {
      if id in Consumed(s.merges) {
        var i :| 0 <= i < |s.merges| && s.merges[i].b == id;
        assert s.results[i] in s.results;
      }
      if r :| r in s.results && r.merged == id {
        var i :| 0 <= i < |s.results| && s.results[i] == r;
        assert s.merges[i] in s.merges;
      }
    }
  }
}
