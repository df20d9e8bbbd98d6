/** What a merge does to the tables, in terms of the rows' fields alone. */
module PlainMerge {
  import opened KnowledgeBase
  import opened MergeCounts
  import opened MergeDuplicates
  import opened MergeQuotient
  import opened OrderedDict
  import opened Sequences

  // ----- relations -----

  ghost function Moved(x: string, gone: string, keep: string): string { if x == gone then keep else x }

  /** Only the ends differ, and only where the end was `gone`. */
  ghost predicate Renames(r: Relation, x: Relation, gone: string, keep: string) {
    && x.id == r.id && x.workspace == r.workspace && x.relationType == r.relationType && x.confidence == r.confidence
    && x.source == Moved(r.source, gone, keep) && x.target == Moved(r.target, gone, keep)
  }

  /** A row at `gone` that joins the two merged entities, or `gone` to itself. */
  ghost predicate DropsOut(r: Relation, gone: string, keep: string) {
    && (r.source == gone || r.target == gone)
    && (r.source == gone || r.source == keep) && (r.target == gone || r.target == keep)
  }

  /** The rows among which duplicates are looked for: with pending changes visible all that end at the kept entity now,
      else those that did so before. */
  ghost predicate Compared(r: Relation, gone: string, keep: string, flush: bool) {
    if flush then
      (Moved(r.source, gone, keep) == keep || Moved(r.target, gone, keep) == keep) && !DropsOut(r, gone, keep)
    else r.source == keep || r.target == keep
  }

  ghost predicate SameKind(r: Relation, s: Relation, gone: string, keep: string) {
    && r.relationType == s.relationType
    && Moved(r.source, gone, keep) == Moved(s.source, gone, keep)
    && Moved(r.target, gone, keep) == Moved(s.target, gone, keep)
  }

  /** A compared row of the same kind is more confident, or as confident and earlier. */
  ghost predicate Outdone(rs: seq<Relation>, gone: string, keep: string, flush: bool, i: nat)
    requires i < |rs|
  {
    exists j :: 0 <= j < |rs| && j != i && Compared(rs[j], gone, keep, flush) && SameKind(rs[i], rs[j], gone, keep)
        && (rs[j].confidence > rs[i].confidence || (rs[j].confidence == rs[i].confidence && j < i))
  }

  ghost predicate Remains(rs: seq<Relation>, gone: string, keep: string, flush: bool, i: nat)
    requires i < |rs|
  {
    && !DropsOut(rs[i], gone, keep)
    && !(Compared(rs[i], gone, keep, flush) && Outdone(rs, gone, keep, flush, i))
  }

  /** `from` says which rows remain, in order; they are renamed and otherwise as before. */
  ghost predicate RowsRemain(rs: seq<Relation>, merged: seq<Relation>, gone: string, keep: string, flush: bool,
                             from: seq<nat>) {
    && |from| == |merged| && Increasing(from)
    && (forall n :: 0 <= n < |from| ==> from[n] < |rs| && Renames(rs[from[n]], merged[n], gone, keep))
    && (forall i :: 0 <= i < |rs| ==> (i in from <==> Remains(rs, gone, keep, flush, i)))
  }

  /** `at` says which rows the de-duplicating query returns. */
  ghost predicate Viewed(rs: seq<Relation>, gone: string, keep: string, flush: bool, at: seq<nat>) {
    Sources(rs, VisibleTest(gone, keep, flush), Repointing(gone, keep), DedupeView(rs, gone, keep, flush), at)
  }

  lemma ViewAt(rs: seq<Relation>, gone: string, keep: string, flush: bool, at: seq<nat>, n: nat)
    requires Viewed(rs, gone, keep, flush, at) && n < |at|
    ensures at[n] < |rs| && |DedupeView(rs, gone, keep, flush)| == |at| && Compared(rs[at[n]], gone, keep, flush)
    ensures DedupeView(rs, gone, keep, flush)[n] == Repointed(rs[at[n]], gone, keep)
  {
    assert VisibleTest(gone, keep, flush)(rs[at[n]]);
  }

  lemma ViewHas(rs: seq<Relation>, gone: string, keep: string, flush: bool, at: seq<nat>, i: nat) returns (n: nat)
    requires Viewed(rs, gone, keep, flush, at) && i < |rs| && Compared(rs[i], gone, keep, flush)
    ensures n < |at| && at[n] == i
  {
    assert VisibleTest(gone, keep, flush)(rs[i]) && i in at;
    n :| 0 <= n < |at| && at[n] == i;
  }

  lemma SameKindIff(r: Relation, s: Relation, gone: string, keep: string)
    ensures SameKind(r, s, gone, keep) <==> Repointed(r, gone, keep).Key() == Repointed(s, gone, keep).Key()
  {
  }

  lemma OutdoneIsNotBest(rs: seq<Relation>, gone: string, keep: string, flush: bool, at: seq<nat>, m: nat)
    requires Viewed(rs, gone, keep, flush, at) && m < |at| && at[m] < |rs| && Outdone(rs, gone, keep, flush, at[m])
    ensures m < |DedupeView(rs, gone, keep, flush)| && !BestAt(DedupeView(rs, gone, keep, flush), m)
  {
    var i := at[m];
    var j :| 0 <= j < |rs| && j != i && Compared(rs[j], gone, keep, flush) && SameKind(rs[i], rs[j], gone, keep)
        && (rs[j].confidence > rs[i].confidence || (rs[j].confidence == rs[i].confidence && j < i));
    var n := ViewHas(rs, gone, keep, flush, at, j);
    ViewAt(rs, gone, keep, flush, at, m);
    ViewAt(rs, gone, keep, flush, at, n);
    SameKindIff(rs[i], rs[j], gone, keep);
    assert m < n ==> at[m] < at[n];
    assert !Wins(DedupeView(rs, gone, keep, flush), m, n);
  }

  lemma NotBestIsOutdone(rs: seq<Relation>, gone: string, keep: string, flush: bool, at: seq<nat>, m: nat)
    requires Viewed(rs, gone, keep, flush, at) && m < |at| && |at| == |DedupeView(rs, gone, keep, flush)|
    requires !BestAt(DedupeView(rs, gone, keep, flush), m)
    ensures at[m] < |rs| && Outdone(rs, gone, keep, flush, at[m])
  {
    var view := DedupeView(rs, gone, keep, flush);
    var n :| 0 <= n < |view| && n != m && view[n].Key() == view[m].Key() && !Wins(view, m, n);
    ViewAt(rs, gone, keep, flush, at, m);
    ViewAt(rs, gone, keep, flush, at, n);
    SameKindIff(rs[at[m]], rs[at[n]], gone, keep);
    assert if m < n then at[m] < at[n] else at[n] < at[m];
  }

  /** A loser has the id of one row only. */
  lemma LoserIsRow(rs: seq<Relation>, gone: string, keep: string, flush: bool, i: nat, l: Relation)
    requires DistinctRelations(rs) && i < |rs| && l in Dedupe(DedupeView(rs, gone, keep, flush)).losers
    requires l.id == rs[i].id
    ensures Compared(rs[i], gone, keep, flush) && l == Repointed(rs[i], gone, keep)
  {
    var view := DedupeView(rs, gone, keep, flush);
    ViewMembers(rs, gone, keep, flush);
    DistinctIsNoRepeat(rs);
    DistinctIsNoRepeat(view);
    DedupeKeepsBest(view);
    assert l in view;
    var o :| o in rs && Visible(o, gone, keep, flush) && l == Repointed(o, gone, keep);
    assert rs[i] in rs && o == rs[i];
  }

  lemma LostIff(rs: seq<Relation>, gone: string, keep: string, flush: bool, i: nat)
    requires DistinctRelations(rs) && i < |rs|
    ensures rs[i].id in RelationIds(Dedupe(DedupeView(rs, gone, keep, flush)).losers)
            <==> Compared(rs[i], gone, keep, flush) && Outdone(rs, gone, keep, flush, i)
  {
    var at := PickedFrom(rs, VisibleTest(gone, keep, flush), Repointing(gone, keep));
    var view := DedupeView(rs, gone, keep, flush);
    ViewMembers(rs, gone, keep, flush);
    DistinctIsNoRepeat(view);
    if Compared(rs[i], gone, keep, flush) {
      var m := ViewHas(rs, gone, keep, flush, at, i);
      ViewAt(rs, gone, keep, flush, at, m);
      LoserIff(view, m);
      if Outdone(rs, gone, keep, flush, i) { OutdoneIsNotBest(rs, gone, keep, flush, at, m); }
      if l :| l in Dedupe(view).losers && l.id == rs[i].id {
        LoserIsRow(rs, gone, keep, flush, i, l);
        NotBestIsOutdone(rs, gone, keep, flush, at, m);
      }
    } else if l :| l in Dedupe(view).losers && l.id == rs[i].id {
      LoserIsRow(rs, gone, keep, flush, i, l);
    }
  }

  lemma DeletedIff(rs: seq<Relation>, gone: string, keep: string, flush: bool, i: nat)
    requires DistinctRelations(rs) && i < |rs|
    ensures rs[i].id in DeletedIds(rs, gone, keep, flush) <==> !Remains(rs, gone, keep, flush, i)
  {
    LostIff(rs, gone, keep, flush, i);
    DistinctIsNoRepeat(rs);
    assert rs[i] in rs;
    assert rs[i].id in LoopIds(rs, gone, keep) <==> DropsOut(rs[i], gone, keep);
  }

  lemma RelationsInPlainTerms(rs: seq<Relation>, gone: string, keep: string, flush: bool) returns (from: seq<nat>)
    requires DistinctRelations(rs)
    ensures RowsRemain(rs, MergedRelations(rs, gone, keep, flush), gone, keep, flush, from)
  {
    var moved, deleted := RepointedRelations(rs, gone, keep), DeletedIds(rs, gone, keep, flush);
    from := PickedFrom(moved, SurvivalTest(deleted), Itself());
    forall i | 0 <= i < |rs| ensures i in from <==> Remains(rs, gone, keep, flush, i) {
      DeletedIff(rs, gone, keep, flush, i);
      assert SurvivalTest(deleted)(moved[i]) <==> Remains(rs, gone, keep, flush, i);
      if i in from {
        var n :| 0 <= n < |from| && from[n] == i;
        assert SurvivalTest(deleted)(moved[from[n]]);
      }
    }
  }

  // ----- entities and mentions -----

  /** `f` is the kept entity with the better confidence, the other's properties where it had none of its own, and the
      other's names as aliases. */
  ghost predicate FoldedInto(keep: Entity, gone: Entity, f: Entity) {
    && f.id == keep.id && f.workspace == keep.workspace && f.typeId == keep.typeId
    && f.name == keep.name && f.normalized == keep.normalized
    && f.confidence >= keep.confidence && f.confidence >= gone.confidence
    && (f.confidence == keep.confidence || f.confidence == gone.confidence)
    && (forall k :: k in f.properties <==> k in keep.properties || k in gone.properties)
    && (forall k :: k in keep.properties ==> f.properties[k] == keep.properties[k])
    && (forall k :: k in gone.properties && k !in keep.properties ==> f.properties[k] == gone.properties[k])
    && keep.aliases <= f.aliases
    && (forall a :: a in f.aliases <==>
          a in keep.aliases || (a != "" && (a in gone.aliases || a == gone.name || a == gone.normalized)))
  }

  lemma {:induction false} AddedAliases(aliases: seq<string>, more: seq<string>)
    ensures aliases <= AddAliases(aliases, more)
    ensures forall a :: a in AddAliases(aliases, more) <==> a in aliases || (a != "" && a in more)
    decreases |more|
  {
    if more != [] {
      assert more == [more[0]] + more[1..];
      AddedAliases(if more[0] != "" && more[0] !in aliases then aliases + [more[0]] else aliases, more[1..]);
    }
  }

  lemma FieldsInPlainTerms(keep: Entity, gone: Entity)
    ensures FoldedInto(keep, gone, MergedFields(keep, gone))
  {
    var more := gone.aliases + [gone.name, gone.normalized];
    AddedAliases(keep.aliases, more);
    assert forall a :: a in more <==> a in gone.aliases || a == gone.name || a == gone.normalized by {
      assert more[|gone.aliases|] == gone.name && more[|gone.aliases| + 1] == gone.normalized;
    }
  }

  /** A mention of the merged entity is one of the kept entity now; nothing else about any mention changes. */
  ghost predicate MentionsMoved(before: seq<Mention>, after: seq<Mention>, gone: string, keep: string) {
    && |after| == |before|
    && forall i :: 0 <= i < |before| ==>
         && after[i].id == before[i].id && after[i].workspace == before[i].workspace
         && after[i].docId == before[i].docId && after[i].chunkId == before[i].chunkId
         && after[i].text == before[i].text && after[i].confidence == before[i].confidence
         && after[i].entityId == Moved(before[i].entityId, gone, keep)
  }

  /** The kept entity has been folded, the merged one is gone, and every other entity is as before. */
  ghost predicate EntitiesMerged(before: seq<Entity>, after: seq<Entity>, keepId: string, goneId: string) {
    exists keep, gone, f ::
      && keep in before && keep.id == keepId && gone in before && gone.id == goneId && FoldedInto(keep, gone, f)
      && forall e :: e in after <==> e == f || (e in before && e.id != keepId && e.id != goneId)
  }

  ghost function MentionsOf(ms: seq<Mention>, id: string): set<int> {
    set i | 0 <= i < |ms| && ms[i].entityId == id
  }

  ghost predicate Moves(r: Relation, gone: string, keep: string) {
    (r.source == gone || r.target == gone) && !DropsOut(r, gone, keep)
  }

  ghost function MovedRows(rs: seq<Relation>, gone: string, keep: string): set<int> {
    set i | 0 <= i < |rs| && Moves(rs[i], gone, keep)
  }

  lemma MentionsOfLast(ms: seq<Mention>, m: Mention, id: string)
    ensures MentionsOf(ms + [m], id) == MentionsOf(ms, id) + if m.entityId == id then {|ms|} else {}
  {
  }

  lemma {:induction false} MentionsCounted(ms: seq<Mention>, id: string)
    ensures CountMentions(ms, id) == |MentionsOf(ms, id)|
  {
    if ms != [] {
      MentionsCounted(ms[..|ms| - 1], id);
      MentionsOfLast(ms[..|ms| - 1], ms[|ms| - 1], id);
      SplitLast(ms);
    }
  }

  lemma MovedRowsLast(rs: seq<Relation>, r: Relation, gone: string, keep: string)
    ensures MovedRows(rs + [r], gone, keep) == MovedRows(rs, gone, keep) + if Moves(r, gone, keep) then {|rs|} else {}
  {
  }

  lemma {:induction false} MovedCounted(rs: seq<Relation>, gone: string, keep: string)
    ensures CountMoved(rs, gone, keep) == |MovedRows(rs, gone, keep)|
  {
    if rs != [] {
      MovedCounted(rs[..|rs| - 1], gone, keep);
      MovedRowsLast(rs[..|rs| - 1], rs[|rs| - 1], gone, keep);
      SplitLast(rs);
    }
  }

  ghost predicate Present(kb: KB, id: string) { exists e :: e in kb.entities && e.id == id }

  ghost function OutdoneRows(rs: seq<Relation>, gone: string, keep: string, flush: bool): set<int> {
    set i | 0 <= i < |rs| && Compared(rs[i], gone, keep, flush) && Outdone(rs, gone, keep, flush, i)
  }

  ghost function IdsAt(rs: seq<Relation>, at: set<int>): set<string>
    requires forall i :: i in at ==> 0 <= i < |rs|
  {
    set i | i in at :: rs[i].id
  }

  lemma IdsAtLess(rs: seq<Relation>, at: set<int>, i: int)
    requires DistinctRelations(rs) && i in at && forall j :: j in at ==> 0 <= j < |rs|
    ensures IdsAt(rs, at) == IdsAt(rs, at - {i}) + {rs[i].id} && rs[i].id !in IdsAt(rs, at - {i})
  {
    assert forall j :: j in at <==> j in at - {i} || j == i;
    forall j | j in at - {i} ensures rs[j].id != rs[i].id {
      assert j < i || i < j;
    }
  }

  lemma {:induction false} IdsAtCounted(rs: seq<Relation>, at: set<int>)
    requires DistinctRelations(rs) && forall i :: i in at ==> 0 <= i < |rs|
    ensures |IdsAt(rs, at)| == |at|
    decreases |at|
  {
    if at != {} {
      var i := SomeMember(at);
      IdsAtCounted(rs, at - {i});
      IdsAtLess(rs, at, i);
    }
  }

  lemma SomeMember<T>(s: set<T>) returns (x: T)
    requires s != {}
    ensures x in s
  {
    x :| x in s;
  }

  lemma DedupedCounted(rs: seq<Relation>, gone: string, keep: string, flush: bool)
    requires DistinctRelations(rs)
    ensures |Dedupe(DedupeView(rs, gone, keep, flush)).losers| == |OutdoneRows(rs, gone, keep, flush)|
  {
    var losers := Dedupe(DedupeView(rs, gone, keep, flush)).losers;
    LosersCounted(rs, gone, keep, flush);
    IdsAtCounted(rs, OutdoneRows(rs, gone, keep, flush));
    assert losers == Losers(rs, gone, keep, flush);
    forall id ensures id in RelationIds(losers) <==> id in IdsAt(rs, OutdoneRows(rs, gone, keep, flush)) {
      if id in RelationIds(losers) {
        var i :| 0 <= i < |rs| && rs[i].id == id;
        LostIff(rs, gone, keep, flush, i);
        assert i in OutdoneRows(rs, gone, keep, flush);
        assert rs[i].id in IdsAt(rs, OutdoneRows(rs, gone, keep, flush));
      }
      if id in IdsAt(rs, OutdoneRows(rs, gone, keep, flush)) {
        var i :| i in OutdoneRows(rs, gone, keep, flush) && rs[i].id == id;
        LostIff(rs, gone, keep, flush, i);
      }
    }
    assert RelationIds(losers) == IdsAt(rs, OutdoneRows(rs, gone, keep, flush));
  }

  /** What a merge request comes to: the errors in order, nothing changed by them; else the merged tables and a reply
      that counts the mentions and the relations that moved and the rows that were outdone. */
  ghost predicate PlainlyMerged(kb: KB, kb1: KB, keep: string, gone: string, flush: bool, r: MergeResult) {
    if !Present(kb, keep) then r == Rejected(KeepNotFound) && kb1 == kb
    else if !Present(kb, gone) then r == Rejected(MergeNotFound) && kb1 == kb
    else if keep == gone then r == Rejected(SelfMerge) && kb1 == kb
    else
      && EntitiesMerged(kb.entities, kb1.entities, keep, gone)
      && MentionsMoved(kb.mentions, kb1.mentions, gone, keep)
      && (exists from :: RowsRemain(kb.relations, kb1.relations, gone, keep, flush, from))
      && r.Merged? && r.kept == keep && r.merged == gone
      && r.mentionsMoved == |MentionsOf(kb.mentions, gone)| && r.relationsMoved == |MovedRows(kb.relations, gone, keep)|
      && r.relationsDeduped == |OutdoneRows(kb.relations, gone, keep, flush)|
  }

  lemma EntitiesInPlainTerms(es: seq<Entity>, keep: Entity, gone: Entity)
    requires DistinctEntities(es) && keep in es && gone in es && keep.id != gone.id
    ensures EntitiesMerged(es, MergedEntities(es, keep, gone), keep.id, gone.id)
  {
    MergedEntityMembers(es, keep, gone);
    FieldsInPlainTerms(keep, gone);
  }

  lemma ReplyCounts(kb: KB, keep: string, gone: string, flush: bool)
    requires DistinctRelations(kb.relations) && MergeOutcome(kb, keep, gone, flush).Merged?
    ensures var r := MergeOutcome(kb, keep, gone, flush);
            && r.mentionsMoved == |MentionsOf(kb.mentions, gone)|
            && r.relationsMoved == |MovedRows(kb.relations, gone, keep)|
            && r.relationsDeduped == |OutdoneRows(kb.relations, gone, keep, flush)|
  {
    MentionsCounted(kb.mentions, gone);
    MovedCounted(kb.relations, gone, keep);
    DedupedCounted(kb.relations, gone, keep, flush);
  }

  lemma TablesMerged(kb: KB, keep: string, gone: string, flush: bool)
    requires Integrity(kb) && MergeOutcome(kb, keep, gone, flush).Merged?
    ensures var kb1 := MergeTables(kb, keep, gone, flush);
            && EntitiesMerged(kb.entities, kb1.entities, keep, gone)
            && MentionsMoved(kb.mentions, kb1.mentions, gone, keep)
            && exists from :: RowsRemain(kb.relations, kb1.relations, gone, keep, flush, from)
  {
    EntitiesInPlainTerms(kb.entities, Find(kb.entities, keep).value, Find(kb.entities, gone).value);
    var from := RelationsInPlainTerms(kb.relations, gone, keep, flush);
  }

  /** What `merge` promises, in plain terms. */
  lemma MergeInPlainTerms(kb: KB, keep: string, gone: string, flush: bool)
    requires Integrity(kb)
    ensures PlainlyMerged(kb, MergeTables(kb, keep, gone, flush), keep, gone, flush,
                          MergeOutcome(kb, keep, gone, flush))
  {
    assert Present(kb, keep) <==> Find(kb.entities, keep).Some?;
    assert Present(kb, gone) <==> Find(kb.entities, gone).Some?;
    if MergeOutcome(kb, keep, gone, flush).Merged? {
      TablesMerged(kb, keep, gone, flush);
      ReplyCounts(kb, keep, gone, flush);
    }
  }
}
