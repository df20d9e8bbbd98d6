/** The entity services as they work on the session: rows are changed in place, deleted and added. */
module EntityServices {
  import opened AutoMerge
  import opened EntityLifecycle
  import opened EntityResolution
  import opened KnowledgeBase
  import opened OrderedDict
  import opened PlainAutoMerge
  import opened PlainExtraction
  import opened PlainMerge
  import opened PlainRelations
  import opened PlainResolution
  import opened Sequences

  class EntitySession {
    var entities: seq<Entity>
    var mentions: seq<Mention>
    var relations: seq<Relation>
    const m: Matching

    constructor (kb: KB, m: Matching)
      ensures Contents() == kb && this.m == m
    {
      entities, mentions, relations := kb.entities, kb.mentions, kb.relations;
      this.m := m;
    }

    ghost function Contents(): KB
      reads this
    {
      KB(entities, mentions, relations)
    }

    // ----- merge -----

    method RepointMentions(gone: string, keep: string) returns (moved: nat)
      modifies this`mentions
      ensures mentions == RepointedMentions(old(mentions), gone, keep)
      ensures moved == CountMentions(old(mentions), gone)
    {
      ghost var before := mentions;
      moved := 0;
      for i := 0 to |mentions|
        invariant |mentions| == |before|
        invariant forall k :: 0 <= k < |before| ==>
                    mentions[k] == if k < i then RepointedMention(before[k], gone, keep) else before[k]
        invariant moved == CountMentions(before[..i], gone)
      {
        assert before[..i + 1][..i] == before[..i];
        if mentions[i].entityId == gone {
          mentions := mentions[i := mentions[i].(entityId := keep)];
          moved := moved + 1;
        }
      }
      assert before[..|before|] == before;
    }

    /** Repoints relation endpoints; `loops` are the rows to delete because they became self-loops. */
    method RepointRelations(gone: string, keep: string) returns (moved: nat, loops: set<string>)
      modifies this`relations
      ensures relations == RepointedRelations(old(relations), gone, keep)
      ensures moved == CountMoved(old(relations), gone, keep) && loops == LoopIds(old(relations), gone, keep)
    {
      ghost var before := relations;
      moved, loops := 0, {};
      for i := 0 to |relations|
        invariant |relations| == |before|
        invariant forall k :: 0 <= k < |before| ==>
                    relations[k] == if k < i then Repointed(before[k], gone, keep) else before[k]
        invariant moved == CountMoved(before[..i], gone, keep) && loops == LoopIds(before[..i], gone, keep)
      {
        LoopIdsNext(before, i, gone, keep);
        var relation := relations[i];
        if relation.source == gone || relation.target == gone {
          if relation.source == gone {
            relation := relation.(source := keep);
          }
          if relation.target == gone {
            relation := relation.(target := keep);
          }
          relations := relations[i := relation];
          if relation.source == relation.target {
            loops := loops + {relation.id};
          } else {
            moved := moved + 1;
          }
        }
      }
      assert before[..|before|] == before;
    }

    static lemma LoopIdsNext(rs: seq<Relation>, i: nat, gone: string, keep: string)
      requires i < |rs|
      ensures LoopIds(rs[..i + 1], gone, keep)
              == LoopIds(rs[..i], gone, keep) + (if BecomesLoop(rs[i], gone, keep) then {rs[i].id} else {})
      ensures var moves := rs[i].Touches(gone) && !BecomesLoop(rs[i], gone, keep);
              CountMoved(rs[..i + 1], gone, keep) == CountMoved(rs[..i], gone, keep) + if moves then 1 else 0
    {
      assert rs[..i + 1][..i] == rs[..i] && rs[..i + 1] == rs[..i] + [rs[i]];
    }

    /** `view` is what the query for relations at the kept entity returned. */
    static method DedupeRelations(view: seq<Relation>) returns (toDelete: seq<Relation>)
      ensures toDelete == Dedupe(view).losers
    {
      var keepers: map<(string, string, string), Relation> := map[];
      toDelete := [];
      for i := 0 to |view|
        invariant Deduped(keepers, toDelete) == Dedupe(view[..i])
      {
        assert view[..i + 1][..i] == view[..i];
        var relation := view[i];
        if relation.Key() !in keepers {
          keepers := keepers[relation.Key() := relation];
        } else if relation.confidence > keepers[relation.Key()].confidence {
          toDelete := toDelete + [keepers[relation.Key()]];
          keepers := keepers[relation.Key() := relation];
        } else {
          toDelete := toDelete + [relation];
        }
      }
      assert view[..|view|] == view;
    }

    static method CollectAliases(aliases: seq<string>, more: seq<string>) returns (merged: seq<string>)
      ensures merged == AddAliases(aliases, more)
    {
      merged := aliases;
      for i := 0 to |more|
        invariant AddAliases(merged, more[i..]) == AddAliases(aliases, more)
      {
        assert more[i..][0] == more[i] && more[i..][1..] == more[i + 1..];
        if more[i] != "" && more[i] !in merged {
          merged := merged + [more[i]];
        }
      }
    }

    /** Commits pending deletions of relations. */
    method DeleteRelations(doomed: set<string>)
      modifies this`relations
      ensures relations == Surviving(old(relations), doomed)
    {
      var rows := relations;
      relations := [];
      for i := 0 to |rows|
        invariant relations == Surviving(rows[..i], doomed)
      {
        assert rows[..i + 1][..i] == rows[..i];
        if rows[i].id !in doomed {
          relations := relations + [rows[i]];
        }
      }
      assert rows[..|rows|] == rows;
    }

    /** Folds `gone` into `keep` and deletes `gone`. */
    method FoldEntity(keep: Entity, gone: Entity)
      modifies this`entities
      ensures entities == MergedEntities(old(entities), keep, gone)
    {
      var aliases := CollectAliases(keep.aliases, gone.aliases + [gone.name, gone.normalized]);
      var folded := Combined(keep, gone, aliases);
      var rows := entities;
      entities := [];
      for i := 0 to |rows|
        invariant entities == MergedEntities(rows[..i], keep, gone)
      {
        MergedEntitiesNext(rows, i, keep, gone);
        if rows[i].id != gone.id {
          entities := entities + [if rows[i].id == keep.id then folded else rows[i]];
        }
      }
      assert rows[..|rows|] == rows;
    }

    /** `flush` says whether the de-duplicating query sees the pending changes. */
    method Merge(keepId: string, goneId: string, flush: bool) returns (r: MergeResult)
      modifies this
      ensures Contents() == MergeTables(old(Contents()), keepId, goneId, flush)
      ensures r == MergeOutcome(old(Contents()), keepId, goneId, flush)
      ensures Integrity(old(Contents())) ==> PlainlyMerged(old(Contents()), Contents(), keepId, goneId, flush, r)
    {
      ghost var before := Contents();
      if Integrity(before) { MergeInPlainTerms(before, keepId, goneId, flush); }
      var keep, gone := Find(entities, keepId), Find(entities, goneId);
      if keep.None? {
        return Rejected(KeepNotFound);
      }
      if gone.None? {
        return Rejected(MergeNotFound);
      }
      if keepId == goneId {
        return Rejected(SelfMerge);
      }
      var view := DedupeView(relations, goneId, keepId, flush);
      var mentionsMoved := RepointMentions(goneId, keepId);
      var relationsMoved, loops := RepointRelations(goneId, keepId);
      var duplicates := DedupeRelations(view);
      DeleteRelations(loops + RelationIds(duplicates));
      FoldEntity(keep.value, gone.value);
      r := Merged(keepId, goneId, mentionsMoved, relationsMoved, |duplicates|);
    }

    /** One round of the loop of `auto_merge`: a pair whose entities are already merged away is skipped. */
    method MergePair(ghost s: Progress, pair: Pair, flush: bool, consumed0: set<string>, results0: seq<MergeResult>)
      returns (consumed: set<string>, results: seq<MergeResult>)
      requires s.kb == Contents() && s.results == results0 && consumed0 == Consumed(s.merges)
      modifies this
      ensures var s1 := MergeStep(s, pair, flush);
              s1.kb == Contents() && s1.results == results && consumed == Consumed(s1.merges)
    {
      consumed, results := consumed0, results0;
      if pair.a !in consumed && pair.b !in consumed {
        var result := Merge(pair.a, pair.b, flush);
        results := results + [result];
        consumed := consumed + {pair.b};
        ConsumedNext(s.merges, pair);
      }
    }

    method MergeAllPairs(pairs: seq<Pair>, flush: bool) returns (results: seq<MergeResult>)
      modifies this
      ensures var s := MergePairs(old(Contents()), pairs, flush); Contents() == s.kb && results == s.results
    {
      ghost var start := Contents();
      ghost var s := Progress(start, [], []);
      var consumed: set<string> := {};
      results := [];
      for i := 0 to |pairs|
        invariant s == MergePairs(start, pairs[..i], flush)
        invariant s.kb == Contents() && s.results == results && consumed == Consumed(s.merges)
      {
        MergePairsNext(start, pairs, i, flush);
        consumed, results := MergePair(s, pairs[i], flush, consumed, results);
        s := MergeStep(s, pairs[i], flush);
      }
      assert pairs[..|pairs|] == pairs;
    }

    static lemma MergePairsNext(kb: KB, pairs: seq<Pair>, i: nat, flush: bool)
      requires i < |pairs|
      ensures MergePairs(kb, pairs[..i + 1], flush) == MergeStep(MergePairs(kb, pairs[..i], flush), pairs[i], flush)
    {
      assert pairs[..i + 1][..i] == pairs[..i];
    }

    method AutoMerge(workspace: string, verdict: Option<set<Pair>>, flush: bool, dryRun: bool)
      returns (pairs: seq<Pair>, results: seq<MergeResult>)
      modifies this
      ensures pairs == CandidatePairs(old(entities), workspace, m.overlaps, verdict)
      ensures forall a, b :: Pair(a, b) in pairs
                        <==> IsCandidate(old(entities), workspace, m.overlaps, verdict, a, b)
      ensures dryRun ==> Contents() == old(Contents()) && results == []
      ensures !dryRun ==> var s := MergePairs(old(Contents()), pairs, flush); Contents() == s.kb && results == s.results
      ensures !dryRun && Integrity(old(Contents())) ==>
                PlainlyAutoMerged(old(entities), workspace, m.overlaps, verdict, results, entities)
    {
      ghost var before := Contents();
      CandidatesAre(entities, workspace, m.overlaps, verdict);
      if Integrity(before) { AutoMergeInPlainTerms(before, workspace, m.overlaps, verdict, flush); }
      pairs := CandidatePairs(entities, workspace, m.overlaps, verdict);
      results := [];
      if dryRun || pairs == [] {
        return;
      }
      results := MergeAllPairs(pairs, flush);
    }

    static lemma ConsumedNext(merges: seq<Pair>, p: Pair)
      ensures Consumed(merges + [p]) == Consumed(merges) + {p.b}
    {
    }

    // ----- resolution -----

    method ResolveEntity(workspace: string, typeId: string, item: Item, decisions: seq<Decision>, newId: string)
      returns (id: string, created: bool)
      modifies this`entities
      ensures Resolution(Contents(), id, created) ==
                Resolve(old(Contents()), workspace, typeId, item, decisions, newId, m)
      ensures DistinctEntities(old(entities)) ==>
                ItemResolved(old(entities), entities, workspace, typeId, item, decisions, newId, m, id, created)
    {
      if DistinctEntities(entities) {
        ResolveInPlainTerms(Contents(), workspace, typeId, item, decisions, newId, m);
      }
      var candidates := InScopeOnly(entities, workspace, typeId);
      var hit := FindByNormalized(candidates, item.normalized);
      if hit.None? {
        hit := MatchByAlias(item, candidates, m.lower);
      }
      if hit.None? {
        hit := MatchByLlm(OverlapOnly(item, candidates, m.overlaps), decisions);
      }
      if hit.Some? {
        MergeInto(hit.value, item);
        return hit.value.id, false;
      }
      entities := entities + [Created(workspace, typeId, item, newId)];
      return newId, true;
    }

    /** `resolving` says whether there is a resolution service. */
    method GetOrCreateEntity(resolving: bool, workspace: string, typeId: string, item: Item, decisions: seq<Decision>,
                             newId: string) returns (id: string, created: bool)
      modifies this`entities
      ensures Resolution(Contents(), id, created) ==
                GotOrCreated(old(Contents()), resolving, workspace, typeId, item, decisions, newId, m)
      ensures DistinctEntities(old(entities)) ==>
                if resolving
                then ItemResolved(old(entities), entities, workspace, typeId, item, decisions, newId, m, id, created)
                else PlainlyFound(old(entities), entities, workspace, typeId, item, newId, id, created)
    {
      if DistinctEntities(entities) { FallbackInPlainTerms(Contents(), workspace, typeId, item, newId); }
      if resolving {
        id, created := ResolveEntity(workspace, typeId, item, decisions, newId);
        return;
      }
      var existing := FirstWhere(entities, HasNormalized(workspace, item.normalized));
      if existing.Some? {
        entities := Replaced(entities, Refreshed(existing.value, item));
        return existing.value.id, false;
      }
      entities := entities + [Created(workspace, typeId, item, newId)];
      return newId, true;
    }

    method MergeInto(e: Entity, item: Item)
      modifies this`entities
      ensures entities == Replaced(old(entities), Folded(e, item))
    {
      var aliases := CollectAliases(e.aliases, item.aliases + [item.name]);
      entities := Replaced(entities, e.(confidence := Max(e.confidence, item.confidence), aliases := aliases,
                                        properties := e.properties + item.properties));
    }

    // ----- relation extraction and cleanup -----

    /** Items whose endpoints are not both found are skipped; `newIds` are the ids for the rows. */
    method PersistRelations(workspace: string, items: seq<RelationItem>, newIds: seq<string>)
      requires |items| == |newIds|
      modifies this`relations
      ensures Contents() == PersistedAll(old(Contents()), workspace, items, newIds, m.lower)
      ensures RelationsAdded(entities, old(relations), relations, workspace, items, newIds, m.lower)
    {
      ghost var kb := Contents();
      PersistedInPlainTerms(kb, workspace, items, newIds, m.lower);
      for i := 0 to |items|
        invariant entities == kb.entities && mentions == kb.mentions
        invariant Contents() == PersistedAll(kb, workspace, items[..i], newIds[..i], m.lower)
      {
        assert items[..i + 1][..i] == items[..i] && newIds[..i + 1][..i] == newIds[..i];
        var source := FindByText(entities, workspace, items[i].source, m.lower);
        var target := FindByText(entities, workspace, items[i].target, m.lower);
        if source.None? || target.None? {
          continue;
        }
        var row := Relation(newIds[i], workspace, source.value.id, target.value.id, items[i].relationType,
                            items[i].confidence);
        relations := relations + [row];
      }
      assert items[..|items|] == items && newIds[..|newIds|] == newIds;
    }

    /** Deletes the invalid entities, their mentions and every relation at one; `removed` counts the listed ids
        that name a stored entity, as often as they are listed. */
    method Remove(invalid: seq<string>) returns (removed: nat)
      modifies this
      ensures Contents() == Cleaned(old(Contents()), invalid)
      ensures removed == CountStored(invalid, Ids(old(entities)))
      ensures DistinctEntities(old(entities)) ==>
                (removed == |old(entities)| - |entities|
                 <==> forall id :: id in Ids(old(entities)) ==> !NamedTwice(invalid, id))
    {
      if DistinctEntities(entities) { CleanupCountIff(Contents(), invalid); }
      if invalid == [] {
        NothingToClean(Contents());
        return 0;
      }
      var ids := set id | id in invalid;
      removed := 0;
      for i := 0 to |invalid|
        invariant removed == CountStored(invalid[..i], Ids(entities))
      {
        assert invalid[..i + 1][..i] == invalid[..i];
        if Find(entities, invalid[i]).Some? {
          removed := removed + 1;
        }
      }
      assert invalid[..|invalid|] == invalid;
      mentions := Where(mentions, ValidMention(ids));
      relations := Where(relations, ValidRelation(ids));
      entities := Where(entities, ValidEntity(ids));
    }

    static lemma NothingToClean(kb: KB)
      ensures Cleaned(kb, []) == kb
    {
      WhereAll(kb.entities, ValidEntity({}));
      WhereAll(kb.mentions, ValidMention({}));
      WhereAll(kb.relations, ValidRelation({}));
      assert (set id: string | id in []) == {};
    }
  }
}
