/** Extraction, relation extraction and cleanup, and referential integrity over whole runs of all entity services. */
module EntityLifecycle {
  import opened AutoMerge
  import opened EntityResolution
  import opened KnowledgeBase
  import opened MergeDuplicates
  import opened OrderedDict
  import opened PlainExtraction
  import opened Sequences

  // ----- relation extraction -----

  /** An extracted relation names its endpoints in words. */
  datatype RelationItem = RelationItem(source: string, target: string, relationType: string, confidence: real)

  /** `_find_entity`: by normalized name, else by exact name, in the workspace. */
  function FindByText(es: seq<Entity>, workspace: string, text: string, lower: string -> string): (r: Option<Entity>)
    ensures r.Some? ==> r.value in es && r.value.workspace == workspace
    ensures r.Some? ==> r.value.normalized == lower(text) || r.value.name == text
    ensures r.None? <==> forall e :: e in es && e.workspace == workspace ==>
              e.normalized != lower(text) && e.name != text
  {
    var byNormalized := FirstWhere(es, (e: Entity) => e.workspace == workspace && e.normalized == lower(text));
    if byNormalized.Some? then byNormalized
    else FirstWhere(es, (e: Entity) => e.workspace == workspace && e.name == text)
  }

  /** A relation is stored only if both endpoints are found. */
  function PersistRelation(kb: KB, workspace: string, item: RelationItem, newId: string, lower: string -> string): KB {
    var source := FindByText(kb.entities, workspace, item.source, lower);
    var target := FindByText(kb.entities, workspace, item.target, lower);
    if source.None? || target.None? then kb
    else
      var row := Relation(newId, workspace, source.value.id, target.value.id, item.relationType, item.confidence);
      kb.(relations := kb.relations + [row])
  }

  function PersistedAll(kb: KB, workspace: string, items: seq<RelationItem>, newIds: seq<string>,
                               lower: string -> string): KB
    requires |items| == |newIds|
  {
    if items == [] then kb
    else
      var n := |items| - 1;
      PersistRelation(PersistedAll(kb, workspace, items[..n], newIds[..n], lower), workspace, items[n], newIds[n],
                      lower)
  }

  // ----- cleanup -----

  function ValidMention(invalid: set<string>): Mention -> bool { (m: Mention) => m.entityId !in invalid }

  function ValidRelation(invalid: set<string>): Relation -> bool {
    (r: Relation) => r.source !in invalid && r.target !in invalid
  }

  function ValidEntity(invalid: set<string>): Entity -> bool { (e: Entity) => e.id !in invalid }

  /** `_remove`: the invalid entities with their mentions and every relation that touches one. */
  function Cleaned(kb: KB, invalid: seq<string>): KB {
    var ids := set id | id in invalid;
    KB(Where(kb.entities, ValidEntity(ids)), Where(kb.mentions, ValidMention(ids)),
       Where(kb.relations, ValidRelation(ids)))
  }

  lemma CleanedRows(kb: KB, invalid: seq<string>)
    ensures forall e :: e in Cleaned(kb, invalid).entities <==> e in kb.entities && e.id !in invalid
    ensures forall m :: m in Cleaned(kb, invalid).mentions <==> m in kb.mentions && m.entityId !in invalid
    ensures forall r :: r in Cleaned(kb, invalid).relations
              <==> r in kb.relations && r.source !in invalid && r.target !in invalid
  {
    var ids := set id | id in invalid;
    WhereAre(kb.entities, ValidEntity(ids));
    WhereAre(kb.mentions, ValidMention(ids));
    WhereAre(kb.relations, ValidRelation(ids));
  }

  lemma CleanedDistinct(kb: KB, invalid: seq<string>)
    ensures DistinctEntities(kb.entities) ==> DistinctEntities(Cleaned(kb, invalid).entities)
    ensures DistinctRelations(kb.relations) ==> DistinctRelations(Cleaned(kb, invalid).relations)
  {
    var ids := set id | id in invalid;
    var e := WhereFrom(kb.entities, ValidEntity(ids));
    var r := WhereFrom(kb.relations, ValidRelation(ids));
  }

  /** Cleanup removes exactly the invalid entities, their mentions and the relations at them, and keeps integrity. */
  lemma CleanupIsExact(kb: KB, invalid: seq<string>)
    requires Integrity(kb)
    ensures var kb1 := Cleaned(kb, invalid);
            && Integrity(kb1)
            && (forall e :: e in kb1.entities <==> e in kb.entities && e.id !in invalid)
            && (forall m :: m in kb1.mentions <==> m in kb.mentions && m.entityId !in invalid)
            && (forall r :: r in kb1.relations <==> r in kb.relations && r.source !in invalid && r.target !in invalid)
  {
    CleanedRows(kb, invalid);
    CleanedDistinct(kb, invalid);
    var kb1 := Cleaned(kb, invalid);
    forall id | id in Ids(kb.entities) && id !in invalid ensures id in Ids(kb1.entities) {
      var e :| e in kb.entities && e.id == id;
      assert e in kb1.entities;
    }
  }

  /** What `_remove` reports: how often the list names a stored entity. */
  function CountStored(invalid: seq<string>, ids: set<string>): nat {
    if invalid == [] then 0
    else CountStored(invalid[..|invalid| - 1], ids) + if invalid[|invalid| - 1] in ids then 1 else 0
  }

  ghost predicate NamedTwice(invalid: seq<string>, id: string) {
    exists i, j :: 0 <= i < j < |invalid| && invalid[i] == id && invalid[j] == id
  }

  function Listed(invalid: seq<string>): set<string> { set id | id in invalid }

  /** The count is the number of distinct stored ids exactly when none of them is listed twice. */
  lemma {:induction false} CountStoredIff(invalid: seq<string>, ids: set<string>)
    ensures CountStored(invalid, ids) >= |Listed(invalid) * ids|
    ensures CountStored(invalid, ids) == |Listed(invalid) * ids|
            <==> forall id :: id in ids ==> !NamedTwice(invalid, id)
    decreases |invalid|
  {
    if invalid == [] {
      assert Listed(invalid) * ids == {};
    } else {
      var front, last := invalid[..|invalid| - 1], invalid[|invalid| - 1];
      CountStoredIff(front, ids);
      SplitLast(invalid);
      assert Listed(invalid) == Listed(front) + {last};
      NamedTwiceLast(front, last);
      MeetOneMore(Listed(front), ids, last);
    }
  }

  lemma NamedTwiceLast(front: seq<string>, last: string)
    ensures forall id :: NamedTwice(front + [last], id) <==> NamedTwice(front, id) || (id == last && last in front)
  {
    var all := front + [last];
    forall id ensures NamedTwice(all, id) <==> NamedTwice(front, id) || (id == last && last in front) {
      if NamedTwice(front, id) {
        var i, j :| 0 <= i < j < |front| && front[i] == id && front[j] == id;
        assert all[i] == id && all[j] == id;
      }
      if id == last && last in front {
        var i :| 0 <= i < |front| && front[i] == last;
        assert all[i] == id && all[|front|] == id;
      }
    }
  }

  lemma MeetOneMore(a: set<string>, b: set<string>, x: string)
    ensures |(a + {x}) * b| == |a * b| + if x in b && x !in a then 1 else 0
  {
    if x in b && x !in a {
      assert (a + {x}) * b == a * b + {x};
    } else {
      assert (a + {x}) * b == a * b;
    }
  }

  lemma {:induction false} RemovedCounted(es: seq<Entity>, ids: set<string>)
    requires DistinctEntities(es)
    ensures |es| == |Where(es, ValidEntity(ids))| + |Ids(es) * ids|
  {
    if es == [] {
      assert Ids(es) * ids == {};
    } else {
      var front, last := es[..|es| - 1], es[|es| - 1];
      RemovedCounted(front, ids);
      LastEntity(es);
      WhereLast(es, ValidEntity(ids));
      MeetOneMore(Ids(front), ids, last.id);
    }
  }

  /** The reported count is the number of entities removed exactly when no stored id is listed twice. */
  lemma CleanupCountIff(kb: KB, invalid: seq<string>)
    requires DistinctEntities(kb.entities)
    ensures CountStored(invalid, Ids(kb.entities)) == |kb.entities| - |Cleaned(kb, invalid).entities|
            <==> forall id :: id in Ids(kb.entities) ==> !NamedTwice(invalid, id)
  {
    CountStoredIff(invalid, Ids(kb.entities));
    RemovedCounted(kb.entities, Listed(invalid));
    assert Listed(invalid) * Ids(kb.entities) == Ids(kb.entities) * Listed(invalid);
  }

  /** One entity listed twice is counted twice. */
  lemma TwoListedOneRemoved(kb: KB, e: Entity)
    requires kb.entities == [e]
    ensures CountStored([e.id, e.id], Ids(kb.entities)) == 2 && Cleaned(kb, [e.id, e.id]).entities == []
  {
    assert e in kb.entities;
    assert [e.id, e.id][..1] == [e.id] && [e.id][..0] == [];
    assert CountStored([e.id], Ids(kb.entities)) == 1;
    WhereLast(kb.entities, ValidEntity({e.id}));
    assert [e][..0] == [] && Listed([e.id, e.id]) == {e.id};
  }

  // ----- the names after a workspace-wide merge -----

  /** The pair joins two entities of one workspace and type. */
  ghost predicate PairInScope(es: seq<Entity>, p: Pair) {
    exists x, y :: x in es && y in es && x.id == p.a && y.id == p.b && SameScope(x, y)
  }

  lemma {:induction false} PairsWithFrom(a: Entity, rest: seq<Entity>, overlaps: (string, string) -> bool, p: Pair)
    requires p in PairsWith(a, rest, overlaps)
    ensures p.a == a.id && exists y :: y in rest && y.id == p.b
    decreases |rest|
  {
    assert rest == [rest[0]] + rest[1..];
    if p in PairsWith(a, rest[1..], overlaps) { PairsWithFrom(a, rest[1..], overlaps, p); }
  }

  lemma {:induction false} GroupPairsFrom(group: seq<Entity>, overlaps: (string, string) -> bool, p: Pair)
    requires p in GroupPairs(group, overlaps)
    ensures exists x, y :: x in group && y in group && x.id == p.a && y.id == p.b
    decreases |group|
  {
    assert group == [group[0]] + group[1..];
    if p in PairsWith(group[0], group[1..], overlaps) {
      PairsWithFrom(group[0], group[1..], overlaps, p);
    } else {
      GroupPairsFrom(group[1..], overlaps, p);
    }
  }

  lemma {:induction false} AllPairsFrom(groups: seq<seq<Entity>>, overlaps: (string, string) -> bool, p: Pair)
    returns (group: seq<Entity>)
    requires p in AllPairs(groups, overlaps)
    ensures group in groups && exists x, y :: x in group && y in group && x.id == p.a && y.id == p.b
    decreases |groups|
  {
    if p in GroupPairs(groups[0], overlaps) {
      group := groups[0];
      GroupPairsFrom(group, overlaps, p);
    } else {
      group := AllPairsFrom(groups[1..], overlaps, p);
    }
  }

  lemma CandidatesInScope(es: seq<Entity>, workspace: string, overlaps: (string, string) -> bool,
                          verdict: Option<set<Pair>>, p: Pair)
    requires DistinctEntities(es) && p in CandidatePairs(es, workspace, overlaps, verdict)
    ensures PairInScope(es, p)
  {
    var groups := Groups(es, workspace);
    if verdict.Some? { WhereAre(AllPairs(groups, overlaps), VerdictTest(verdict.value)); }
    var group := AllPairsFrom(groups, overlaps, p);
    var x, y :| x in group && y in group && x.id == p.a && y.id == p.b;
    var local := InWorkspace(es, workspace);
    InWorkspaceOf(es, workspace);
    ByTypeGroups(local);
    ValuesOf(ByType(local), group);
    assert x in local && y in local && SameScope(x, y);
  }

  /** What is left of the entities keeps its ids and scopes. */
  ghost predicate ScopesKept(es: seq<Entity>, es1: seq<Entity>) {
    forall f :: f in es1 ==> exists e :: e in es && e.id == f.id && SameScope(e, f)
  }

  lemma MergeKeepsScopes(es: seq<Entity>, kb: KB, p: Pair, flush: bool)
    requires ScopesKept(es, kb.entities) && DistinctEntities(kb.entities)
    ensures ScopesKept(es, MergeTables(kb, p.a, p.b, flush).entities)
  {
    if MergeOutcome(kb, p.a, p.b, flush).Merged? {
      var keep, gone := Find(kb.entities, p.a).value, Find(kb.entities, p.b).value;
      MergedEntityMembers(kb.entities, keep, gone);
      forall f | f in MergedEntities(kb.entities, keep, gone)
        ensures exists e :: e in es && e.id == f.id && SameScope(e, f)
      {
        var g := if f == MergedFields(keep, gone) then keep else f;
        assert g in kb.entities && g.id == f.id && SameScope(g, f);
      }
    }
  }

  lemma InScopeLosesNoName(es: seq<Entity>, kb: KB, p: Pair)
    requires DistinctEntities(es) && ScopesKept(es, kb.entities) && PairInScope(es, p)
    ensures LosesNoName(kb, p.a, p.b)
  {
    var keep, gone := Find(kb.entities, p.a), Find(kb.entities, p.b);
    if keep.Some? && gone.Some? {
      var x, y :| x in es && y in es && x.id == p.a && y.id == p.b && SameScope(x, y);
      SameIdSameEntity(es, x);
      SameIdSameEntity(es, y);
      var e :| e in es && e.id == keep.value.id && SameScope(e, keep.value);
      var f :| f in es && f.id == gone.value.id && SameScope(f, gone.value);
    }
  }

  /** Merging pairs of entities of one workspace and type, in any order, uncovers no name. */
  lemma {:induction false} MergePairsCover(kb: KB, pairs: seq<Pair>, flush: bool, ws: string, ty: string)
    requires DistinctEntities(kb.entities) && forall p :: p in pairs ==> PairInScope(kb.entities, p)
    ensures var es := MergePairs(kb, pairs, flush).kb.entities;
            DistinctEntities(es) && ScopesKept(kb.entities, es) && Covered(kb.entities, ws, ty) <= Covered(es, ws, ty)
    decreases |pairs|
  {
    if pairs != [] {
      var front, p := pairs[..|pairs| - 1], pairs[|pairs| - 1];
      MergePairsCover(kb, front, flush, ws, ty);
      var s := MergePairs(kb, front, flush);
      InScopeLosesNoName(kb.entities, s.kb, p);
      MergeCovers(s.kb, p.a, p.b, flush, ws, ty);
      MergeKeepsIds(s.kb, p.a, p.b, flush);
      MergeKeepsScopes(kb.entities, s.kb, p, flush);
    }
  }

  /** A workspace-wide merge uncovers no name of any workspace and type. */
  lemma AutoMergeCovers(kb: KB, workspace: string, overlaps: (string, string) -> bool, verdict: Option<set<Pair>>,
                        flush: bool, ws: string, ty: string)
    requires DistinctEntities(kb.entities)
    ensures var s := MergePairs(kb, CandidatePairs(kb.entities, workspace, overlaps, verdict), flush);
            Covered(kb.entities, ws, ty) <= Covered(s.kb.entities, ws, ty)
  {
    var pairs := CandidatePairs(kb.entities, workspace, overlaps, verdict);
    forall p | p in pairs
      ensures PairInScope(kb.entities, p)
    {
      CandidatesInScope(kb.entities, workspace, overlaps, verdict, p);
    }
    MergePairsCover(kb, pairs, flush, ws, ty);
  }

  // ----- runs -----

  /** The services' operations on the tables. */
  datatype Action =
    | Extract(resolving: bool, workspace: string, typeId: string, item: Item, decisions: seq<Decision>,
              newEntity: string, mention: Mention)
    | Relate(workspace: string, relation: RelationItem, newRelation: string)
    | Merge(keep: string, gone: string, flush: bool)
    | MergeAll(workspace: string, verdict: Option<set<Pair>>, flush: bool)
    | Cleanup(invalid: seq<string>)

  /** `extract_and_persist` of one entity: find or create it, then add a mention of it. */
  function Extracted(kb: KB, a: Action, m: Matching): KB
    requires a.Extract?
  {
    var r := GotOrCreated(kb, a.resolving, a.workspace, a.typeId, a.item, a.decisions, a.newEntity, m);
    r.kb.(mentions := r.kb.mentions + [a.mention.(entityId := r.entityId)])
  }

  function Do(kb: KB, a: Action, m: Matching): KB {
    match a
    case Extract(_, _, _, _, _, _, _) => Extracted(kb, a, m)
    case Relate(workspace, relation, newRelation) => PersistRelation(kb, workspace, relation, newRelation, m.lower)
    case Merge(keep, gone, flush) => MergeTables(kb, keep, gone, flush)
    case MergeAll(workspace, verdict, flush) =>
      MergePairs(kb, CandidatePairs(kb.entities, workspace, m.overlaps, verdict), flush).kb
    case Cleanup(invalid) => Cleaned(kb, invalid)
  }

  /** Ids of new rows are new. */
  ghost predicate FreshIds(kb: KB, a: Action) {
    match a
    case Extract(_, _, _, _, _, newEntity, _) => newEntity !in Ids(kb.entities)
    case Relate(_, _, newRelation) => newRelation !in RelationIds(kb.relations)
    case _ => true
  }

  function DoAll(kb: KB, actions: seq<Action>, m: Matching): KB
    decreases |actions|
  {
    if actions == [] then kb else DoAll(Do(kb, actions[0], m), actions[1..], m)
  }

  ghost predicate AllFresh(kb: KB, actions: seq<Action>, m: Matching)
    decreases |actions|
  {
    actions == [] || (FreshIds(kb, actions[0]) && AllFresh(Do(kb, actions[0], m), actions[1..], m))
  }

  /** One more mention, of this entity, and otherwise as given. */
  ghost predicate MentionAdded(before: seq<Mention>, after: seq<Mention>, given: Mention, entityId: string) {
    && |after| == |before| + 1 && before <= after
    && after[|before|].id == given.id && after[|before|].workspace == given.workspace
    && after[|before|].docId == given.docId && after[|before|].chunkId == given.chunkId
    && after[|before|].text == given.text && after[|before|].confidence == given.confidence
    && after[|before|].entityId == entityId
  }

  lemma ExtractKeepsIntegrity(kb: KB, a: Action, m: Matching)
    requires Integrity(kb) && a.Extract? && FreshIds(kb, a)
    ensures Integrity(Extracted(kb, a, m))
    ensures var r := GotOrCreated(kb, a.resolving, a.workspace, a.typeId, a.item, a.decisions, a.newEntity, m);
            && r.entityId in Ids(Extracted(kb, a, m).entities)
            && MentionAdded(kb.mentions, Extracted(kb, a, m).mentions, a.mention, r.entityId)
  {
    GotCovers(kb, a.resolving, a.workspace, a.typeId, a.item, a.decisions, a.newEntity, m, a.workspace, a.typeId);
  }

  lemma RelateKeepsIntegrity(kb: KB, workspace: string, item: RelationItem, newId: string, lower: string -> string)
    requires Integrity(kb) && newId !in RelationIds(kb.relations)
    ensures Integrity(PersistRelation(kb, workspace, item, newId, lower))
  {
    var rs := kb.relations;
    forall i | 0 <= i < |rs| ensures rs[i].id != newId {
      assert rs[i] in rs;
    }
  }

  lemma ActionKeepsIntegrity(kb: KB, a: Action, m: Matching)
    requires Integrity(kb) && FreshIds(kb, a)
    ensures Integrity(Do(kb, a, m))
  {
    match a
    case Extract(_, _, _, _, _, _, _) => ExtractKeepsIntegrity(kb, a, m);
    case Relate(workspace, relation, newRelation) =>
      RelateKeepsIntegrity(kb, workspace, relation, newRelation, m.lower);
    case Merge(keep, gone, flush) => MergeKeepsIntegrity(kb, keep, gone, flush);
    case MergeAll(workspace, verdict, flush) => AutoMergeNeverTrips(kb, workspace, m.overlaps, verdict, flush);
    case Cleanup(invalid) => CleanupIsExact(kb, invalid);
  }

  /** In every run of the services, every mention and every relation endpoint names a stored entity. */
  lemma {:induction false} RunsKeepIntegrity(kb: KB, actions: seq<Action>, m: Matching)
    requires Integrity(kb) && AllFresh(kb, actions, m)
    ensures Integrity(DoAll(kb, actions, m))
    decreases |actions|
  {
    if actions != [] {
      ActionKeepsIntegrity(kb, actions[0], m);
      RunsKeepIntegrity(Do(kb, actions[0], m), actions[1..], m);
    }
  }

  /** No merge of the run loses a name, and nothing is cleaned up. */
  ghost predicate KeepsNames(kb: KB, actions: seq<Action>, m: Matching)
    decreases |actions|
  {
    if actions == [] then true
    else
      && (actions[0].Merge? ==> LosesNoName(kb, actions[0].keep, actions[0].gone)) && !actions[0].Cleanup?
      && KeepsNames(Do(kb, actions[0], m), actions[1..], m)
  }

  lemma ActionCovers(kb: KB, a: Action, m: Matching, ws: string, ty: string)
    requires DistinctEntities(kb.entities) && FreshIds(kb, a) && !a.Cleanup?
    requires (a.Merge? ==> LosesNoName(kb, a.keep, a.gone))
    ensures Covered(kb.entities, ws, ty) <= Covered(Do(kb, a, m).entities, ws, ty)
  {
    match a
    case Extract(resolving, workspace, typeId, item, decisions, newEntity, _) =>
      GotCovers(kb, resolving, workspace, typeId, item, decisions, newEntity, m, ws, ty);
    case Relate(_, _, _) =>
    case Merge(keep, gone, flush) => MergeCovers(kb, keep, gone, flush, ws, ty);
    case MergeAll(workspace, verdict, flush) => AutoMergeCovers(kb, workspace, m.overlaps, verdict, flush, ws, ty);
  }

  /** In every run of extraction, relation persisting, workspace-wide merges and merges that lose no name, the covered
      names of every workspace and type only grow. */
  lemma {:induction false} RunsCover(kb: KB, actions: seq<Action>, m: Matching, ws: string, ty: string)
    requires Integrity(kb) && AllFresh(kb, actions, m) && KeepsNames(kb, actions, m)
    ensures Covered(kb.entities, ws, ty) <= Covered(DoAll(kb, actions, m).entities, ws, ty)
    decreases |actions|
  {
    if actions != [] {
      ActionCovers(kb, actions[0], m, ws, ty);
      ActionKeepsIntegrity(kb, actions[0], m);
      RunsCover(Do(kb, actions[0], m), actions[1..], m, ws, ty);
    }
  }
}
