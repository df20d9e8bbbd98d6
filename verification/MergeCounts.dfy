/** What a merge's counts add up to, with and without the pending changes in view. */
module MergeCounts {
  import opened KnowledgeBase
  import opened MergeDuplicates
  import opened MergeQuotient
  import opened Sequences

  function Losers(rs: seq<Relation>, gone: string, keep: string, flush: bool): seq<Relation> {
    Dedupe(DedupeView(rs, gone, keep, flush)).losers
  }

  /** Rows that are both dropped as loops and reported as duplicates. */
  function CountedTwice(rs: seq<Relation>, gone: string, keep: string, flush: bool): set<string> {
    LoopIds(rs, gone, keep) * RelationIds(Losers(rs, gone, keep, flush))
  }

  lemma LosersCounted(rs: seq<Relation>, gone: string, keep: string, flush: bool)
    requires DistinctRelations(rs)
    ensures |RelationIds(Losers(rs, gone, keep, flush))| == |Losers(rs, gone, keep, flush)|
    ensures RelationIds(Losers(rs, gone, keep, flush)) <= RelationIds(rs)
  {
    var view, losers := DedupeView(rs, gone, keep, flush), Losers(rs, gone, keep, flush);
    ViewMembers(rs, gone, keep, flush);
    DistinctIsNoRepeat(view);
    DedupeKeepsBest(view);
    LosersAreDistinct(view);
    forall i, j | 0 <= i < j < |losers| ensures losers[i].id != losers[j].id {
      assert losers[i] in losers && losers[j] in losers && losers[i] != losers[j];
    }
    RelationIdsCounted(losers);
  }

  /** In either mode: relations before = relations after + dropped loops + duplicates - rows counted as both. */
  lemma MergeCounted(rs: seq<Relation>, gone: string, keep: string, flush: bool)
    requires DistinctRelations(rs)
    ensures |rs| + |CountedTwice(rs, gone, keep, flush)|
            == |MergedRelations(rs, gone, keep, flush)| + |LoopIds(rs, gone, keep)| + |Losers(rs, gone, keep, flush)|
  {
    var loops, lost := LoopIds(rs, gone, keep), RelationIds(Losers(rs, gone, keep, flush));
    LosersCounted(rs, gone, keep, flush);
    RepointedMembers(rs, gone, keep);
    RepointedIds(rs, gone, keep);
    SurvivingCount(RepointedRelations(rs, gone, keep), loops + lost);
    UnionCounted(loops, lost);
  }

  lemma UnionCounted<T>(a: set<T>, b: set<T>)
    ensures |a + b| + |a * b| == |a| + |b|
  {
    assert a + b == a + (b - a) && b == (b - a) + a * b;
  }

  /** The counts add up exactly when no dropped loop is also reported as a duplicate. */
  lemma MergeConservesIff(rs: seq<Relation>, gone: string, keep: string, flush: bool)
    requires DistinctRelations(rs)
    ensures |rs| == |MergedRelations(rs, gone, keep, flush)| + |LoopIds(rs, gone, keep)|
            + |Losers(rs, gone, keep, flush)|
            <==> CountedTwice(rs, gone, keep, flush) == {}
  {
    MergeCounted(rs, gone, keep, flush);
  }

  // ----- the condition on the stored rows -----

  /** Row `i` is kept before row `j`: it is more confident, or as confident and earlier. */
  predicate Wins(rs: seq<Relation>, i: nat, j: nat)
    requires i < |rs| && j < |rs|
  {
    rs[i].confidence > rs[j].confidence || (rs[i].confidence == rs[j].confidence && i < j)
  }

  ghost predicate BestAt(view: seq<Relation>, i: nat)
    requires i < |view|
  {
    forall j :: 0 <= j < |view| && j != i && view[j].Key() == view[i].Key() ==> Wins(view, i, j)
  }

  ghost predicate KeepersBest(view: seq<Relation>, d: Deduped) {
    forall k :: k in d.keepers ==> KeeperBest(view, d, k)
  }

  ghost predicate KeeperBest(view: seq<Relation>, d: Deduped, k: (string, string, string))
    requires k in d.keepers
  {
    exists i :: 0 <= i < |view| && view[i] == d.keepers[k] && view[i].Key() == k && BestAt(view, i)
  }

  /** The keeper of a key is its first best row. */
  lemma {:induction false} DedupeKeepsFirstBest(view: seq<Relation>)
    requires NoRepeat(view)
    ensures KeepersBest(view, Dedupe(view))
    decreases |view|
  {
    if view != [] {
      var front, last := view[..|view| - 1], view[|view| - 1];
      LastRow(view);
      DedupeKeepsFirstBest(front);
      DedupeKeepsBest(front);
      var d, d1 := Dedupe(front), Dedupe(view);
      forall k | k in d1.keepers ensures KeeperBest(view, d1, k) {
        BestOneMore(front, last, view, d, d1, k);
      }
    }
  }

  lemma BestOneMore(front: seq<Relation>, last: Relation, view: seq<Relation>, d: Deduped, d1: Deduped,
                    k: (string, string, string))
    requires view == front + [last] && DedupeInv(front, d) && KeepersBest(front, d) && d1 == DedupeStep(d, last)
    requires k in d1.keepers
    ensures KeeperBest(view, d1, k)
  {
    if k in d.keepers && d1.keepers[k] == d.keepers[k] {
      assert KeeperBest(front, d, k);
      var i :| 0 <= i < |front| && front[i] == d.keepers[k] && front[i].Key() == k && BestAt(front, i);
      forall j | 0 <= j < |view| && j != i && view[j].Key() == view[i].Key() ensures Wins(view, i, j) {
        if j < |front| { assert Wins(front, i, j); }
      }
      assert view[i] == d1.keepers[k] && BestAt(view, i);
    } else {
      var n := |front|;
      assert last.Key() == k && d1.keepers[k] == last;
      forall j | 0 <= j < |view| && j != n && view[j].Key() == view[n].Key() ensures Wins(view, n, j) {
        assert view[j] == front[j] && front[j] in front;
      }
      assert view[n] == d1.keepers[k] && BestAt(view, n);
    }
  }

  /** A row is a loser exactly when another row of its key wins. */
  lemma LoserIff(view: seq<Relation>, i: nat)
    requires NoRepeat(view) && i < |view|
    ensures view[i] in Dedupe(view).losers <==> !BestAt(view, i)
  {
    var d := Dedupe(view);
    DedupeKeepsBest(view);
    DedupeKeepsFirstBest(view);
    assert view[i] in view;
    var k := view[i].Key();
    assert KeeperBest(view, d, k);
    var n :| 0 <= n < |view| && view[n] == d.keepers[k] && view[n].Key() == k && BestAt(view, n);
    if n != i {
      assert Wins(view, n, i);
      assert BestAt(view, i) ==> Wins(view, i, n);
    }
  }

  /** A row that joins the two merged entities. */
  predicate Joins(r: Relation, gone: string, keep: string) { r.Touches(gone) && r.Touches(keep) }

  /** A row of the same type that the unflushed query sees and that has the same two ends after the merge: it joins the
      two entities as well, or is a self-loop of the kept one. */
  predicate Rivals(s: Relation, r: Relation, gone: string, keep: string) {
    s.relationType == r.relationType && s.Touches(keep) && s.source in {keep, gone} && s.target in {keep, gone}
  }

  /** Every row that joins the two entities wins against all its rivals. So there is at most one of each type. */
  ghost predicate JoinsWin(rs: seq<Relation>, gone: string, keep: string) {
    forall i, j :: 0 <= i < |rs| && 0 <= j < |rs| && i != j && Joins(rs[i], gone, keep)
        && Rivals(rs[j], rs[i], gone, keep)
      ==> Wins(rs, i, j)
  }

  /** Where a row of the table stands in the unflushed view, if it is in there. */
  lemma InView(rs: seq<Relation>, gone: string, keep: string, at: seq<nat>, i: nat) returns (m: nat)
    requires Sources(rs, VisibleTest(gone, keep, false), Repointing(gone, keep), DedupeView(rs, gone, keep, false), at)
    requires i < |rs| && rs[i].Touches(keep)
    ensures m < |at| && at[m] == i && DedupeView(rs, gone, keep, false)[m] == Repointed(rs[i], gone, keep)
  {
    assert VisibleTest(gone, keep, false)(rs[i]) && i in at;
    m :| 0 <= m < |at| && at[m] == i;
  }

  lemma BestInViewIff(rs: seq<Relation>, gone: string, keep: string, at: seq<nat>, i: nat, m: nat)
    requires gone != keep && i < |rs| && Joins(rs[i], gone, keep)
    requires Sources(rs, VisibleTest(gone, keep, false), Repointing(gone, keep), DedupeView(rs, gone, keep, false), at)
    requires m < |at| && at[m] == i
    ensures BestAt(DedupeView(rs, gone, keep, false), m)
            <==> forall j :: 0 <= j < |rs| && i != j && Rivals(rs[j], rs[i], gone, keep) ==> Wins(rs, i, j)
  {
    var view := DedupeView(rs, gone, keep, false);
    assert view[m] == Repointed(rs[i], gone, keep);
    if BestAt(view, m) {
      forall j | 0 <= j < |rs| && i != j && Rivals(rs[j], rs[i], gone, keep) ensures Wins(rs, i, j) {
        var n := InView(rs, gone, keep, at, j);
        assert view[n].Key() == view[m].Key() && Wins(view, m, n);
        assert n < m ==> at[n] < at[m];
      }
    }
    if forall j :: 0 <= j < |rs| && i != j && Rivals(rs[j], rs[i], gone, keep) ==> Wins(rs, i, j) {
      forall n | 0 <= n < |view| && n != m && view[n].Key() == view[m].Key() ensures Wins(view, m, n) {
        var j := at[n];
        assert view[n] == Repointed(rs[j], gone, keep) && VisibleTest(gone, keep, false)(rs[j]);
        assert m < n ==> at[m] < at[n];
        assert n < m ==> at[n] < at[m];
        assert Rivals(rs[j], rs[i], gone, keep) && Wins(rs, i, j);
      }
    }
  }

  lemma TwiceMeansLost(rs: seq<Relation>, gone: string, keep: string, at: seq<nat>, id: string) returns (i: nat, m: nat)
    requires DistinctRelations(rs) && id in CountedTwice(rs, gone, keep, false)
    requires Sources(rs, VisibleTest(gone, keep, false), Repointing(gone, keep), DedupeView(rs, gone, keep, false), at)
    ensures i < |rs| && rs[i].id == id && Joins(rs[i], gone, keep)
    ensures m < |at| && at[m] == i && DedupeView(rs, gone, keep, false)[m] in Losers(rs, gone, keep, false)
  {
    var view, losers := DedupeView(rs, gone, keep, false), Losers(rs, gone, keep, false);
    ViewMembers(rs, gone, keep, false);
    DistinctIsNoRepeat(view);
    DedupeKeepsBest(view);
    var r :| r in rs && BecomesLoop(r, gone, keep) && r.id == id;
    var l :| l in losers && l.id == id;
    assert l in view;
    m :| 0 <= m < |view| && view[m] == l;
    i := at[m];
    assert view[m] == Repointing(gone, keep)(rs[i]) && VisibleTest(gone, keep, false)(rs[i]);
    DistinctIsNoRepeat(rs);
    assert rs[i] in rs && rs[i] == r;
  }

  /** With autoflush off the counts add up exactly when every row that joins the two entities wins against the other
      rows of its type that join them and against the kept entity's self-loops of its type. */
  lemma UnflushedMergeConservesIff(rs: seq<Relation>, gone: string, keep: string)
    requires DistinctRelations(rs) && gone != keep
    ensures |rs| == |MergedRelations(rs, gone, keep, false)| + |LoopIds(rs, gone, keep)|
            + |Losers(rs, gone, keep, false)|
            <==> JoinsWin(rs, gone, keep)
  {
    MergeConservesIff(rs, gone, keep, false);
    var at := PickedFrom(rs, VisibleTest(gone, keep, false), Repointing(gone, keep));
    var view := DedupeView(rs, gone, keep, false);
    ViewMembers(rs, gone, keep, false);
    DistinctIsNoRepeat(view);
    if id :| id in CountedTwice(rs, gone, keep, false) {
      var i, m := TwiceMeansLost(rs, gone, keep, at, id);
      LoserIff(view, m);
      BestInViewIff(rs, gone, keep, at, i, m);
    }
    if CountedTwice(rs, gone, keep, false) == {} {
      forall i, j | 0 <= i < |rs| && 0 <= j < |rs| && i != j && Joins(rs[i], gone, keep)
          && Rivals(rs[j], rs[i], gone, keep)
        ensures Wins(rs, i, j)
      {
        var m := InView(rs, gone, keep, at, i);
        NotTwice(rs, gone, keep, i, view[m]);
        LoserIff(view, m);
        BestInViewIff(rs, gone, keep, at, i, m);
      }
    }
  }

  lemma NotTwice(rs: seq<Relation>, gone: string, keep: string, i: nat, image: Relation)
    requires CountedTwice(rs, gone, keep, false) == {} && gone != keep
    requires i < |rs| && Joins(rs[i], gone, keep) && image == Repointed(rs[i], gone, keep)
    ensures image !in Losers(rs, gone, keep, false)
  {
    assert rs[i] in rs && BecomesLoop(rs[i], gone, keep) && rs[i].id in LoopIds(rs, gone, keep);
    forall l | l in Losers(rs, gone, keep, false) ensures l != image {
      assert l.id !in CountedTwice(rs, gone, keep, false) && l.id in RelationIds(Losers(rs, gone, keep, false));
    }
  }

  lemma ViewOfTwo(a: Relation, b: Relation, gone: string, keep: string)
    requires a.Touches(keep) && b.Touches(keep)
    ensures DedupeView([a, b], gone, keep, false) == [Repointed(a, gone, keep), Repointed(b, gone, keep)]
  {
    var rs, p, f := [a, b], VisibleTest(gone, keep, false), Repointing(gone, keep);
    assert p(a) && p(b) && rs[..0] == [] && rs[..2] == rs;
    PickedNext(rs, 0, p, f);
    PickedNext(rs, 1, p, f);
  }

  lemma LosersOfTwo(x: Relation, y: Relation)
    requires x.Key() == y.Key() && x.confidence >= y.confidence
    ensures Dedupe([x, y]).losers == [y]
  {
    assert [x, y][..1] == [x] && [x][..0] == [];
    assert Dedupe([x]) == DedupeStep(Dedupe([]), x);
  }

  lemma LoopsOfTwo(a: Relation, b: Relation, gone: string, keep: string)
    requires gone != keep && a.source == keep && a.target == gone && b.source == gone && b.target == keep
    ensures LoopIds([a, b], gone, keep) == {a.id, b.id}
  {
    assert a in [a, b] && b in [a, b] && BecomesLoop(a, gone, keep) && BecomesLoop(b, gone, keep);
  }

  lemma RepointedTwo(a: Relation, b: Relation, gone: string, keep: string)
    ensures RepointedRelations([a, b], gone, keep) == [Repointed(a, gone, keep), Repointed(b, gone, keep)]
  {
  }

  /** Two rows of one type that join the two entities: nothing is left of them, and still a duplicate is reported. */
  lemma JoiningPairIsMiscounted(a: Relation, b: Relation, gone: string, keep: string)
    requires gone != keep && a.id != b.id && a.relationType == b.relationType && a.confidence >= b.confidence
    requires a.source == keep && a.target == gone && b.source == gone && b.target == keep
    ensures MergedRelations([a, b], gone, keep, false) == []
    ensures |LoopIds([a, b], gone, keep)| == 2 && |Losers([a, b], gone, keep, false)| == 1
  {
    var x, y := Repointed(a, gone, keep), Repointed(b, gone, keep);
    LoopsOfTwo(a, b, gone, keep);
    ViewOfTwo(a, b, gone, keep);
    LosersOfTwo(x, y);
    RepointedTwo(a, b, gone, keep);
    NoneSurvive([x, y], DeletedIds([a, b], gone, keep, false));
  }

  lemma {:induction false} NoneSurvive(rs: seq<Relation>, deleted: set<string>)
    requires forall r :: r in rs ==> r.id in deleted
    ensures Surviving(rs, deleted) == []
  {
    if rs != [] {
      NoneSurvive(rs[..|rs| - 1], deleted);
      SplitLast(rs);
      WhereLast(rs, SurvivalTest(deleted));
    }
  }
}
