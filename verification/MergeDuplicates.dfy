/** Duplicate relations after a merge, counting, and referential integrity. */
module MergeDuplicates {
  import opened KnowledgeBase
  import opened MergeQuotient
  import opened Sequences

  /** No two relations at `keep` have the same endpoints and type. */
  ghost predicate NoDuplicates(rs: seq<Relation>, keep: string) {
    forall a, b :: a in rs && b in rs && a != b && a.Touches(keep) && b.Touches(keep) ==> a.Key() != b.Key()
  }

  /** A row that survives the merge and was seen by the de-duplication is the keeper of its key. */
  lemma SeenSurvivorIsKeeper(rs: seq<Relation>, gone: string, keep: string, flush: bool, r: Relation)
    requires DistinctRelations(rs) && r in rs && Visible(r, gone, keep, flush)
    requires r.id !in DeletedIds(rs, gone, keep, flush)
    ensures var d := Dedupe(DedupeView(rs, gone, keep, flush));
            var image := Repointed(r, gone, keep);
            image.Key() in d.keepers && d.keepers[image.Key()] == image
  {
    var view := DedupeView(rs, gone, keep, flush);
    var d := Dedupe(view);
    var image := Repointed(r, gone, keep);
    ViewMembers(rs, gone, keep, flush);
    DistinctIsNoRepeat(view);
    DedupeKeepsBest(view);
    assert image in view;
    assert image in d.losers ==> image.id in RelationIds(d.losers);
  }

  /** When the de-duplicating query sees the pending changes, no duplicates are left at the kept entity. */
  lemma FlushedMergeLeavesNoDuplicates(rs: seq<Relation>, gone: string, keep: string)
    requires DistinctRelations(rs)
    ensures NoDuplicates(MergedRelations(rs, gone, keep, true), keep)
  {
    var merged := MergedRelations(rs, gone, keep, true);
    forall a, b | a in merged && b in merged && a != b && a.Touches(keep) && b.Touches(keep)
      ensures a.Key() != b.Key()
    {
      NewIsImage(rs, gone, keep, true, a);
      NewIsImage(rs, gone, keep, true, b);
      var ra :| ra in rs && a == Repointed(ra, gone, keep) && ra.id !in DeletedIds(rs, gone, keep, true);
      var rb :| rb in rs && b == Repointed(rb, gone, keep) && rb.id !in DeletedIds(rs, gone, keep, true);
      SeenSurvivorIsKeeper(rs, gone, keep, true, ra);
      SeenSurvivorIsKeeper(rs, gone, keep, true, rb);
    }
  }

  /** A relation at `gone` only, whose image collides with that of another relation: the query that goes by the
      stored endpoints does not return it. */
  ghost predicate Collides(gone: string, keep: string, r: Relation, s: Relation) {
    && r != s && r.Touches(gone) && !r.Touches(keep) && !Repointed(r, gone, keep).IsLoop()
    && Repointed(r, gone, keep).Key() == Repointed(s, gone, keep).Key()
  }

  ghost predicate HiddenCollision(rs: seq<Relation>, gone: string, keep: string) {
    exists r, s :: r in rs && s in rs && Collides(gone, keep, r, s)
  }

  lemma UnseenSurvives(rs: seq<Relation>, gone: string, keep: string, r: Relation)
    requires DistinctRelations(rs) && r in rs && !r.Touches(keep) && !Repointed(r, gone, keep).IsLoop()
    ensures Repointed(r, gone, keep) in MergedRelations(rs, gone, keep, false)
  {
    var view := DedupeView(rs, gone, keep, false);
    DeletedNonLoop(rs, gone, keep, false, r);
    ViewMembers(rs, gone, keep, false);
    DistinctIsNoRepeat(rs);
    DistinctIsNoRepeat(view);
    DedupeKeepsBest(view);
    assert Repointed(r, gone, keep) !in view;
    SurvivingMembers(RepointedRelations(rs, gone, keep), DeletedIds(rs, gone, keep, false));
    RepointedMembers(rs, gone, keep);
  }

  /** Beside a row that was not seen there is always another survivor of a colliding key. */
  lemma CollisionSurvives(rs: seq<Relation>, gone: string, keep: string, r: Relation, s: Relation)
    requires DistinctRelations(rs) && r in rs && s in rs && Collides(gone, keep, r, s)
    ensures !NoDuplicates(MergedRelations(rs, gone, keep, false), keep)
  {
    var merged := MergedRelations(rs, gone, keep, false);
    var image := Repointed(r, gone, keep);
    UnseenSurvives(rs, gone, keep, r);
    var other := AnotherSurvivor(rs, gone, keep, r, s);
    assert image in merged && other in merged && image != other && image.Touches(keep) && other.Touches(keep);
  }

  lemma AnotherSurvivor(rs: seq<Relation>, gone: string, keep: string, r: Relation, s: Relation)
    returns (other: Relation)
    requires DistinctRelations(rs) && r in rs && s in rs && Collides(gone, keep, r, s)
    ensures other in MergedRelations(rs, gone, keep, false) && other.Key() == Repointed(r, gone, keep).Key()
    ensures other.id != r.id
  {
    DistinctIsNoRepeat(rs);
    if !s.Touches(keep) {
      UnseenSurvives(rs, gone, keep, s);
      other := Repointed(s, gone, keep);
    } else {
      var view := DedupeView(rs, gone, keep, false);
      ViewMembers(rs, gone, keep, false);
      DistinctIsNoRepeat(view);
      DedupeKeepsBest(view);
      assert Repointed(s, gone, keep) in view;
      other := Dedupe(view).keepers[Repointed(s, gone, keep).Key()];
      var o :| o in rs && Visible(o, gone, keep, false) && other == Repointed(o, gone, keep);
      DeletedNonLoop(rs, gone, keep, false, o);
      SurvivingMembers(RepointedRelations(rs, gone, keep), DeletedIds(rs, gone, keep, false));
      RepointedMembers(rs, gone, keep);
    }
  }

  lemma DuplicateIsCollision(rs: seq<Relation>, gone: string, keep: string, a: Relation, b: Relation)
    requires DistinctRelations(rs) && gone != keep
    requires a in MergedRelations(rs, gone, keep, false) && b in MergedRelations(rs, gone, keep, false)
    requires a != b && a.Touches(keep) && b.Touches(keep) && a.Key() == b.Key()
    ensures HiddenCollision(rs, gone, keep)
  {
    NewIsImage(rs, gone, keep, false, a);
    NewIsImage(rs, gone, keep, false, b);
    var ra :| ra in rs && a == Repointed(ra, gone, keep) && ra.id !in DeletedIds(rs, gone, keep, false);
    var rb :| rb in rs && b == Repointed(rb, gone, keep) && rb.id !in DeletedIds(rs, gone, keep, false);
    if ra.Touches(keep) && rb.Touches(keep) {
      SeenSurvivorIsKeeper(rs, gone, keep, false, ra);
      SeenSurvivorIsKeeper(rs, gone, keep, false, rb);
    } else if !ra.Touches(keep) {
      assert ra.id !in LoopIds(rs, gone, keep);
      assert Collides(gone, keep, ra, rb);
    } else {
      assert rb.id !in LoopIds(rs, gone, keep);
      assert Collides(gone, keep, rb, ra);
    }
  }

  /** When the query goes by the stored endpoints, as the application's sessions are configured, duplicates are
      left exactly when there is a hidden collision. */
  lemma UnflushedMergeLeavesNoDuplicatesIff(rs: seq<Relation>, gone: string, keep: string)
    requires DistinctRelations(rs) && gone != keep
    ensures NoDuplicates(MergedRelations(rs, gone, keep, false), keep) <==> !HiddenCollision(rs, gone, keep)
  {
    if HiddenCollision(rs, gone, keep) {
      var r, s :| r in rs && s in rs && Collides(gone, keep, r, s);
      CollisionSurvives(rs, gone, keep, r, s);
    }
    var merged := MergedRelations(rs, gone, keep, false);
    forall a, b | a in merged && b in merged && a != b && a.Touches(keep) && b.Touches(keep)
        && !HiddenCollision(rs, gone, keep)
      ensures a.Key() != b.Key()
    {
      if a.Key() == b.Key() { DuplicateIsCollision(rs, gone, keep, a, b); }
    }
  }

  /** The input: two rows of one type from `gone` and from `keep` to the same third entity are both left. */
  lemma TwoRowsToOneTargetStay(a: Relation, b: Relation, gone: string, keep: string)
    requires a.source == gone && b.source == keep && a.target == b.target && a.relationType == b.relationType
    requires gone != keep && a.target != gone && a.target != keep && a.id != b.id
    ensures !NoDuplicates(MergedRelations([a, b], gone, keep, false), keep)
  {
    assert a in [a, b] && b in [a, b] && Collides(gone, keep, a, b);
    UnflushedMergeLeavesNoDuplicatesIff([a, b], gone, keep);
  }

  // ----- counting -----

  lemma {:induction false} SurvivingCount(rs: seq<Relation>, deleted: set<string>)
    requires DistinctRelations(rs) && deleted <= RelationIds(rs)
    ensures |Surviving(rs, deleted)| + |deleted| == |rs|
  {
    if rs == [] {
      assert deleted == {};
    } else {
      var front, last := rs[..|rs| - 1], rs[|rs| - 1];
      assert rs == front + [last];
      assert forall r :: r in front ==> r.id != last.id;
      SurvivingCount(front, deleted - {last.id});
      SurvivingIgnoresLast(front, deleted, last.id);
      WhereLast(rs, SurvivalTest(deleted));
    }
  }

  lemma {:induction false} SurvivingIgnoresLast(rs: seq<Relation>, deleted: set<string>, id: string)
    requires forall r :: r in rs ==> r.id != id
    ensures Surviving(rs, deleted) == Surviving(rs, deleted - {id})
  {
    if rs != [] {
      SplitLast(rs);
      SurvivingIgnoresLast(rs[..|rs| - 1], deleted, id);
      WhereLast(rs, SurvivalTest(deleted));
      WhereLast(rs, SurvivalTest(deleted - {id}));
    }
  }

  lemma {:induction false} RelationIdsCounted(rs: seq<Relation>)
    requires DistinctRelations(rs)
    ensures |RelationIds(rs)| == |rs|
  {
    if rs != [] {
      var front, last := rs[..|rs| - 1], rs[|rs| - 1];
      RelationIdsCounted(front);
      assert rs == front + [last];
      assert last.id !in RelationIds(front);
      assert RelationIds(rs) == RelationIds(front) + {last.id};
    }
  }

  /** The losers are distinct rows of the table, and with flushing none of them is a dropped loop. */
  lemma LosersAreRows(rs: seq<Relation>, gone: string, keep: string)
    requires DistinctRelations(rs)
    ensures var losers := Dedupe(DedupeView(rs, gone, keep, true)).losers;
            && |RelationIds(losers)| == |losers|
            && RelationIds(losers) <= RelationIds(rs) && RelationIds(losers) !! LoopIds(rs, gone, keep)
  {
    var view := DedupeView(rs, gone, keep, true);
    var losers := Dedupe(view).losers;
    ViewMembers(rs, gone, keep, true);
    DistinctIsNoRepeat(view);
    DedupeKeepsBest(view);
    LosersAreDistinct(view);
    forall i, j | 0 <= i < j < |losers| ensures losers[i].id != losers[j].id {
      assert losers[i] in losers && losers[j] in losers && losers[i] != losers[j];
    }
    RelationIdsCounted(losers);
    forall id | id in RelationIds(losers) ensures id !in LoopIds(rs, gone, keep) && id in RelationIds(rs) {
      var l :| l in losers && l.id == id;
      LoserIsNoLoop(rs, gone, keep, l);
    }
  }

  lemma LoserIsNoLoop(rs: seq<Relation>, gone: string, keep: string, l: Relation)
    requires DistinctRelations(rs) && l in DedupeView(rs, gone, keep, true)
    ensures l.id !in LoopIds(rs, gone, keep) && l.id in RelationIds(rs)
  {
    ViewMembers(rs, gone, keep, true);
    DistinctIsNoRepeat(rs);
    var o :| o in rs && Visible(o, gone, keep, true) && l == Repointed(o, gone, keep);
    assert forall r :: r in rs && r.id == o.id ==> r == o;
  }

  /** With flushing, the relations before the merge are those after it, the dropped loops and the duplicates. */
  lemma FlushedMergeConserves(rs: seq<Relation>, gone: string, keep: string)
    requires DistinctRelations(rs)
    ensures |rs| == |MergedRelations(rs, gone, keep, true)| + |LoopIds(rs, gone, keep)|
                    + |Dedupe(DedupeView(rs, gone, keep, true)).losers|
  {
    var losers := Dedupe(DedupeView(rs, gone, keep, true)).losers;
    var loops, lost := LoopIds(rs, gone, keep), RelationIds(losers);
    LosersAreRows(rs, gone, keep);
    assert |loops + lost| == |loops| + |lost|;
    RepointedMembers(rs, gone, keep);
    RepointedIds(rs, gone, keep);
    SurvivingCount(RepointedRelations(rs, gone, keep), loops + lost);
  }

  lemma RepointedIds(rs: seq<Relation>, gone: string, keep: string)
    ensures RelationIds(RepointedRelations(rs, gone, keep)) == RelationIds(rs)
  {
    RepointedMembers(rs, gone, keep);
    forall r | r in rs ensures r.id in RelationIds(RepointedRelations(rs, gone, keep)) {
      assert Repointed(r, gone, keep) in RepointedRelations(rs, gone, keep);
    }
  }

  // ----- integrity -----

  lemma {:induction false} MergedRowsAre(es: seq<Entity>, keep: Entity, gone: Entity)
    requires keep.id != gone.id
    ensures forall e :: e in MergedEntities(es, keep, gone)
              <==> || (keep.id in Ids(es) && e == MergedFields(keep, gone))
                   || (e in es && e.id != keep.id && e.id != gone.id)
  {
    if es != [] {
      MergedRowsAre(es[..|es| - 1], keep, gone);
      LastEntity(es);
    }
  }

  lemma LastEntity(es: seq<Entity>)
    requires es != []
    ensures forall e :: e in es <==> e in es[..|es| - 1] || e == es[|es| - 1]
    ensures Ids(es) == Ids(es[..|es| - 1]) + {es[|es| - 1].id}
    ensures DistinctEntities(es) ==> DistinctEntities(es[..|es| - 1]) && es[|es| - 1].id !in Ids(es[..|es| - 1])
  {
    assert es == es[..|es| - 1] + [es[|es| - 1]];
  }

  lemma {:induction false} MergedRowsCounted(es: seq<Entity>, keep: Entity, gone: Entity)
    requires keep.id != gone.id && DistinctEntities(es)
    ensures DistinctEntities(MergedEntities(es, keep, gone))
    ensures |MergedEntities(es, keep, gone)| == |es| - (if gone.id in Ids(es) then 1 else 0)
  {
    if es != [] {
      var front := es[..|es| - 1];
      LastEntity(es);
      MergedRowsCounted(front, keep, gone);
      MergedRowsAre(front, keep, gone);
      var merged, last := MergedEntities(front, keep, gone), es[|es| - 1];
      forall i | 0 <= i < |merged| ensures merged[i].id != last.id {
        assert merged[i] in merged;
      }
    }
  }

  lemma MergedEntityMembers(es: seq<Entity>, keep: Entity, gone: Entity)
    requires keep.id != gone.id && keep in es && gone in es && DistinctEntities(es)
    ensures Ids(MergedEntities(es, keep, gone)) == Ids(es) - {gone.id}
    ensures DistinctEntities(MergedEntities(es, keep, gone))
    ensures forall e :: e in MergedEntities(es, keep, gone)
              <==> e == MergedFields(keep, gone) || (e in es && e.id != keep.id && e.id != gone.id)
    ensures |MergedEntities(es, keep, gone)| == |es| - 1
  {
    MergedRowsAre(es, keep, gone);
    MergedRowsCounted(es, keep, gone);
    var merged := MergedEntities(es, keep, gone);
    forall id ensures id in Ids(merged) <==> id in Ids(es) - {gone.id} {
      if id in Ids(es) - {gone.id} {
        var e :| e in es && e.id == id;
        assert (if e.id == keep.id then MergedFields(keep, gone) else e) in merged;
      }
    }
  }

  lemma MergedRelationsDistinct(rs: seq<Relation>, gone: string, keep: string, flush: bool)
    requires DistinctRelations(rs)
    ensures DistinctRelations(MergedRelations(rs, gone, keep, flush))
  {
    RepointedMembers(rs, gone, keep);
    SurvivingMembers(RepointedRelations(rs, gone, keep), DeletedIds(rs, gone, keep, flush));
  }

  lemma MergedRelationsEnd(rs: seq<Relation>, ids: set<string>, keep: string, gone: string, flush: bool)
    requires keep in ids && keep != gone && forall r :: r in rs ==> r.source in ids && r.target in ids
    ensures forall r :: r in MergedRelations(rs, gone, keep, flush) ==>
              r.source in ids - {gone} && r.target in ids - {gone}
  {
    forall x | x in MergedRelations(rs, gone, keep, flush)
      ensures x.source in ids - {gone} && x.target in ids - {gone}
    {
      NewIsImage(rs, gone, keep, flush, x);
      var r :| r in rs && x == Repointed(r, gone, keep) && r.id !in DeletedIds(rs, gone, keep, flush);
    }
  }

  lemma RepointedMentionsEnd(ms: seq<Mention>, ids: set<string>, keep: string, gone: string)
    requires keep in ids && keep != gone && forall m :: m in ms ==> m.entityId in ids
    ensures forall m :: m in RepointedMentions(ms, gone, keep) ==> m.entityId in ids - {gone}
  {
    var moved := RepointedMentions(ms, gone, keep);
    forall m | m in moved ensures m.entityId in ids - {gone} {
      var i :| 0 <= i < |moved| && moved[i] == m;
      assert ms[i] in ms;
    }
  }

  /** Mentions are conserved: the kept entity has its own and the merged one's, which has none left. */
  lemma {:induction false} MentionsConserved(ms: seq<Mention>, gone: string, keep: string)
    requires gone != keep
    ensures var moved := RepointedMentions(ms, gone, keep);
            && |moved| == |ms| && CountMentions(moved, gone) == 0
            && CountMentions(moved, keep) == CountMentions(ms, keep) + CountMentions(ms, gone)
  {
    if ms != [] {
      var front := ms[..|ms| - 1];
      MentionsConserved(front, gone, keep);
      assert RepointedMentions(ms, gone, keep)[..|ms| - 1] == RepointedMentions(front, gone, keep);
    }
  }

  /** A merge keeps integrity, whatever the de-duplicating query saw, and exactly the merged entity is gone. */
  lemma MergeKeepsIntegrity(kb: KB, keepId: string, goneId: string, flush: bool)
    requires Integrity(kb)
    ensures Integrity(MergeTables(kb, keepId, goneId, flush))
    ensures MergeOutcome(kb, keepId, goneId, flush).Merged? ==>
              && Ids(MergeTables(kb, keepId, goneId, flush).entities) == Ids(kb.entities) - {goneId}
              && |MergeTables(kb, keepId, goneId, flush).entities| == |kb.entities| - 1
  {
    if MergeOutcome(kb, keepId, goneId, flush).Merged? {
      var keep, gone := Find(kb.entities, keepId).value, Find(kb.entities, goneId).value;
      MergedEntityMembers(kb.entities, keep, gone);
      MergedRelationsDistinct(kb.relations, goneId, keepId, flush);
      MergedRelationsEnd(kb.relations, Ids(kb.entities), keepId, goneId, flush);
      RepointedMentionsEnd(kb.mentions, Ids(kb.entities), keepId, goneId);
    }
  }
}
