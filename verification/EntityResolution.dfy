/** Resolving an extracted entity against the stored ones, and the names that a knowledge base covers. */
module EntityResolution {
  import opened KnowledgeBase
  import opened MergeDuplicates
  import opened OrderedDict
  import opened Sequences

  datatype Item = Item(name: string, normalized: string, aliases: seq<string>, confidence: real,
                       properties: map<string, string>)

  /** One entry of a language model's verdict. */
  datatype Decision = Decision(entityA: string, entityB: string, same: bool)

  /** Case folding, and whether two names share enough tokens to be worth asking about. */
  datatype Matching = Matching(lower: string -> string, overlaps: (string, string) -> bool)

  predicate InScope(e: Entity, workspace: string, typeId: string) { e.workspace == workspace && e.typeId == typeId }

  function Names(e: Entity): set<string> { {e.name, e.normalized} + set a | a in e.aliases }

  function ItemNames(item: Item): set<string> { {item.name, item.normalized} + set a | a in item.aliases }

  function Lowered(names: set<string>, lower: string -> string): set<string> { set n | n in names :: lower(n) }

  function ScopeTest(workspace: string, typeId: string): Entity -> bool { (e: Entity) => InScope(e, workspace, typeId) }

  function InScopeOnly(es: seq<Entity>, workspace: string, typeId: string): (cs: seq<Entity>)
    ensures forall e :: e in cs <==> e in es && InScope(e, workspace, typeId)
  {
    WhereAre(es, ScopeTest(workspace, typeId));
    Where(es, ScopeTest(workspace, typeId))
  }

  /** Stage 1: the first entity in scope with this normalized name. */
  function FindByNormalized(candidates: seq<Entity>, normalized: string): (r: Option<Entity>)
    ensures r.Some? ==> r.value in candidates && r.value.normalized == normalized
    ensures r.None? ==> forall e :: e in candidates ==> e.normalized != normalized
  {
    if candidates == [] then None
    else if candidates[0].normalized == normalized then Some(candidates[0])
    else FindByNormalized(candidates[1..], normalized)
  }

  /** Stage 2: the first candidate that shares a lower-cased name, normalized name or alias with the item. */
  function MatchByAlias(item: Item, candidates: seq<Entity>, lower: string -> string): (r: Option<Entity>)
    ensures r.Some? ==> r.value in candidates && Lowered(ItemNames(item), lower) * Lowered(Names(r.value), lower) != {}
    ensures r.None? ==> forall e :: e in candidates ==> Lowered(ItemNames(item), lower) * Lowered(Names(e), lower) == {}
  {
    if candidates == [] then None
    else if Lowered(ItemNames(item), lower) * Lowered(Names(candidates[0]), lower) != {} then Some(candidates[0])
    else MatchByAlias(item, candidates[1..], lower)
  }

  function OverlapTest(item: Item, overlaps: (string, string) -> bool): Entity -> bool {
    (e: Entity) => overlaps(item.name, e.name)
  }

  function OverlapOnly(item: Item, candidates: seq<Entity>, overlaps: (string, string) -> bool): (cs: seq<Entity>)
    ensures forall e :: e in cs <==> e in candidates && overlaps(item.name, e.name)
  {
    WhereAre(candidates, OverlapTest(item, overlaps));
    Where(candidates, OverlapTest(item, overlaps))
  }

  const NEW_ID := "NEW"

  /** Stage 3: the first positive verdict about the new item that names an asked-about candidate. An absent or
      failing language model answers nothing. */
  function MatchByLlm(asked: seq<Entity>, decisions: seq<Decision>): (r: Option<Entity>)
    ensures r.Some? ==> r.value in asked
  {
    if decisions == [] then None
    else
      var d := decisions[0];
      var hit := if d.same && d.entityA == NEW_ID then Find(asked, d.entityB) else None;
      if hit.Some? then hit else MatchByLlm(asked, decisions[1..])
  }

  function ResolveHit(kb: KB, workspace: string, typeId: string, item: Item, decisions: seq<Decision>,
                      m: Matching): (r: Option<Entity>)
    ensures r.Some? ==> r.value in kb.entities && InScope(r.value, workspace, typeId)
  {
    var candidates := InScopeOnly(kb.entities, workspace, typeId);
    var byName := FindByNormalized(candidates, item.normalized);
    var byAlias := MatchByAlias(item, candidates, m.lower);
    if byName.Some? then byName
    else if byAlias.Some? then byAlias
    else MatchByLlm(OverlapOnly(item, candidates, m.overlaps), decisions)
  }

  ghost predicate SharesName(item: Item, e: Entity, lower: string -> string) {
    Lowered(ItemNames(item), lower) * Lowered(Names(e), lower) != {}
  }

  /** The chain is tried cheapest first: a match by normalized name if there is one, else one by a shared name if
      there is one, else only what the language model was asked about and affirmed. */
  lemma ResolveStages(kb: KB, workspace: string, typeId: string, item: Item, decisions: seq<Decision>, m: Matching)
    ensures var r := ResolveHit(kb, workspace, typeId, item, decisions, m);
            if exists e :: e in kb.entities && InScope(e, workspace, typeId) && e.normalized == item.normalized
            then r.Some? && r.value.normalized == item.normalized
            else if exists e :: e in kb.entities && InScope(e, workspace, typeId) && SharesName(item, e, m.lower)
            then r.Some? && SharesName(item, r.value, m.lower)
            else r.Some? ==> m.overlaps(item.name, r.value.name)
                             && exists d :: d in decisions && d.same && d.entityA == NEW_ID && d.entityB == r.value.id
  {
    var candidates := InScopeOnly(kb.entities, workspace, typeId);
    assert FindByNormalized(candidates, item.normalized).None? ==>
             forall e :: e in candidates ==> e.normalized != item.normalized;
    assert MatchByAlias(item, candidates, m.lower).None? ==>
             forall e :: e in candidates ==> !SharesName(item, e, m.lower);
    LlmHitWasAffirmed(OverlapOnly(item, candidates, m.overlaps), decisions);
  }

  /** A positive verdict about the new item. */
  predicate Affirms(d: Decision) { d.same && d.entityA == NEW_ID }

  lemma {:induction false} LlmHitWasAffirmed(asked: seq<Entity>, decisions: seq<Decision>)
    ensures var r := MatchByLlm(asked, decisions);
            r.Some? ==> exists d :: d in decisions && d.same && d.entityA == NEW_ID && d.entityB == r.value.id
    ensures MatchByLlm(asked, decisions).Some? <==> exists d :: d in decisions && Affirms(d) && d.entityB in Ids(asked)
  {
    if decisions != [] {
      LlmHitWasAffirmed(asked, decisions[1..]);
      assert decisions == [decisions[0]] + decisions[1..];
    }
  }

  /** `_merge_into`. */
  function Folded(e: Entity, item: Item): Entity {
    e.(confidence := Max(e.confidence, item.confidence),
       aliases := AddAliases(e.aliases, item.aliases + [item.name]),
       properties := e.properties + item.properties)
  }

  function Created(workspace: string, typeId: string, item: Item, newId: string): Entity {
    Entity(newId, workspace, typeId, item.name, item.normalized, item.aliases, item.confidence, item.properties)
  }

  /** The table with the row of `e.id` replaced. */
  function Replaced(es: seq<Entity>, e: Entity): (r: seq<Entity>)
    ensures |r| == |es| && forall i :: 0 <= i < |es| ==> r[i] == if es[i].id == e.id then e else es[i]
  {
    seq(|es|, i requires 0 <= i < |es| => if es[i].id == e.id then e else es[i])
  }

  datatype Resolution = Resolution(kb: KB, entityId: string, created: bool)

  function Resolve(kb: KB, workspace: string, typeId: string, item: Item, decisions: seq<Decision>, newId: string,
                   m: Matching): Resolution {
    var hit := ResolveHit(kb, workspace, typeId, item, decisions, m);
    if hit.Some? then Resolution(kb.(entities := Replaced(kb.entities, Folded(hit.value, item))), hit.value.id, false)
    else Resolution(kb.(entities := kb.entities + [Created(workspace, typeId, item, newId)]), newId, true)
  }

  // ----- coverage -----

  /** The non-empty names, normalized names and aliases of the entities of one workspace and type. */
  ghost function Covered(es: seq<Entity>, workspace: string, typeId: string): set<string> {
    set e, n | e in es && InScope(e, workspace, typeId) && n in Names(e) && n != "" :: n
  }

  /** Every name of `e` but the empty one is a name of `f`, in the same scope. */
  ghost predicate Subsumes(f: Entity, e: Entity) {
    f.workspace == e.workspace && f.typeId == e.typeId && forall n :: n in Names(e) && n != "" ==> n in Names(f)
  }

  lemma CoverageGrows(es: seq<Entity>, es1: seq<Entity>, workspace: string, typeId: string)
    requires forall e :: e in es ==> exists f :: f in es1 && Subsumes(f, e)
    ensures Covered(es, workspace, typeId) <= Covered(es1, workspace, typeId)
  {
    forall n | n in Covered(es, workspace, typeId) ensures n in Covered(es1, workspace, typeId) {
      var e :| e in es && InScope(e, workspace, typeId) && n in Names(e) && n != "";
      var f :| f in es1 && Subsumes(f, e);
    }
  }

  lemma FoldedSubsumes(e: Entity, item: Item)
    ensures Subsumes(Folded(e, item), e) && (item.name != "" ==> item.name in Names(Folded(e, item)))
  {
    assert item.name in item.aliases + [item.name];
    assert forall a :: a in e.aliases ==> a in Folded(e, item).aliases;
  }

  lemma MergedFieldsSubsumes(keep: Entity, gone: Entity)
    requires keep.workspace == gone.workspace && keep.typeId == gone.typeId
    ensures Subsumes(MergedFields(keep, gone), keep) && Subsumes(MergedFields(keep, gone), gone)
  {
    var more := gone.aliases + [gone.name, gone.normalized];
    assert more[|gone.aliases|] == gone.name && more[|gone.aliases| + 1] == gone.normalized;
    assert gone.name in more && gone.normalized in more && forall a :: a in gone.aliases ==> a in more;
    assert forall a :: a in keep.aliases ==> a in MergedFields(keep, gone).aliases;
  }

  lemma ReplacedSubsumes(es: seq<Entity>, e: Entity, f: Entity)
    requires DistinctEntities(es) && e in es && f.id == e.id && Subsumes(f, e)
    ensures forall x :: x in es ==> exists y :: y in Replaced(es, f) && Subsumes(y, x)
    ensures f in Replaced(es, f) && DistinctEntities(Replaced(es, f)) && Ids(Replaced(es, f)) == Ids(es)
  {
    var r := Replaced(es, f);
    forall x | x in es ensures exists y :: y in r && Subsumes(y, x) {
      var i :| 0 <= i < |es| && es[i] == x;
      var j :| 0 <= j < |es| && es[j] == e;
      assert i != j ==> es[i].id != es[j].id;
      assert r[i] in r && Subsumes(r[i], x);
    }
    forall id ensures id in Ids(r) <==> id in Ids(es) {
      if id in Ids(es) {
        var i :| 0 <= i < |es| && es[i].id == id;
        assert r[i] in r && r[i].id == id;
      }
    }
    var j :| 0 <= j < |es| && es[j] == e;
    assert r[j] == f;
  }

  /** Resolving an item never uncovers a name, covers the item's own, and keeps the ids. */
  lemma ResolveCovers(kb: KB, workspace: string, typeId: string, item: Item, decisions: seq<Decision>, newId: string,
                      m: Matching, ws: string, ty: string)
    requires DistinctEntities(kb.entities) && newId !in Ids(kb.entities)
    ensures var r := Resolve(kb, workspace, typeId, item, decisions, newId, m);
            && Covered(kb.entities, ws, ty) <= Covered(r.kb.entities, ws, ty)
            && (item.name != "" ==> item.name in Covered(r.kb.entities, workspace, typeId))
            && DistinctEntities(r.kb.entities)
            && Ids(r.kb.entities) == Ids(kb.entities) + {r.entityId} && (r.created <==> r.entityId !in Ids(kb.entities))
  {
    var hit := ResolveHit(kb, workspace, typeId, item, decisions, m);
    if hit.Some? {
      FoldCovers(kb.entities, hit.value, item, ws, ty);
    } else {
      CreateCovers(kb.entities, Created(workspace, typeId, item, newId), ws, ty);
    }
  }

  lemma FoldCovers(es: seq<Entity>, e: Entity, item: Item, ws: string, ty: string)
    requires DistinctEntities(es) && e in es
    ensures var es1 := Replaced(es, Folded(e, item));
            && Covered(es, ws, ty) <= Covered(es1, ws, ty) && DistinctEntities(es1) && Ids(es1) == Ids(es)
            && (item.name != "" ==> item.name in Covered(es1, e.workspace, e.typeId))
  {
    var f := Folded(e, item);
    FoldedSubsumes(e, item);
    ReplacedSubsumes(es, e, f);
    CoverageGrows(es, Replaced(es, f), ws, ty);
    assert InScope(f, e.workspace, e.typeId);
  }

  lemma CreateCovers(es: seq<Entity>, e: Entity, ws: string, ty: string)
    requires DistinctEntities(es) && e.id !in Ids(es)
    ensures var es1 := es + [e];
            && Covered(es, ws, ty) <= Covered(es1, ws, ty) && DistinctEntities(es1) && Ids(es1) == Ids(es) + {e.id}
            && (e.name != "" ==> e.name in Covered(es1, e.workspace, e.typeId))
  {
    var es1 := es + [e];
    assert e in es1 && InScope(e, e.workspace, e.typeId);
    assert e.name in Names(e) && e in es1;
    forall i | 0 <= i < |es| ensures es[i].id != e.id { assert es[i] in es; }
    forall x | x in es ensures exists y :: y in es1 && Subsumes(y, x) { assert x in es1 && Subsumes(x, x); }
    CoverageGrows(es, es1, ws, ty);
  }

  lemma SameIdSameEntity(es: seq<Entity>, e: Entity)
    requires DistinctEntities(es) && e in es
    ensures forall x :: x in es && x.id == e.id ==> x == e
  {
  }

  ghost predicate SameScope(e: Entity, f: Entity) { e.workspace == f.workspace && e.typeId == f.typeId }

  /** Every name of `gone` is a name of another entity of its workspace and type. */
  ghost predicate CoveredElsewhere(es: seq<Entity>, gone: Entity) {
    forall n :: n in Names(gone) && n != "" ==> exists e :: NamesElsewhere(es, gone, n, e)
  }

  ghost predicate NamesElsewhere(es: seq<Entity>, gone: Entity, n: string, e: Entity) {
    e in es && e.id != gone.id && SameScope(e, gone) && n in Names(e)
  }

  /** A merge that is carried out loses no name: the two entities are of one workspace and type, or the names of the
      one that goes are covered elsewhere. */
  ghost predicate LosesNoName(kb: KB, keepId: string, goneId: string) {
    var keep, gone := Find(kb.entities, keepId), Find(kb.entities, goneId);
    if keep.Some? && gone.Some? && keepId != goneId
    then SameScope(keep.value, gone.value) || CoveredElsewhere(kb.entities, gone.value)
    else true
  }

  /** Whatever is merged, every entity but the one that goes keeps its names and its scope. */
  lemma OthersSubsumed(es: seq<Entity>, keep: Entity, gone: Entity, e: Entity) returns (f: Entity)
    requires DistinctEntities(es) && keep in es && gone in es && keep.id != gone.id && e in es && e.id != gone.id
    ensures f in MergedEntities(es, keep, gone) && Subsumes(f, e) && (e == keep ==> f == MergedFields(keep, gone))
    ensures SameScope(keep, gone) && e == keep ==> Subsumes(f, gone)
  {
    MergedEntityMembers(es, keep, gone);
    SameIdSameEntity(es, keep);
    if e == keep {
      f := MergedFields(keep, gone);
      KeepSubsumed(keep, gone);
      if SameScope(keep, gone) { MergedFieldsSubsumes(keep, gone); }
    } else {
      f := e;
    }
  }

  lemma KeepSubsumed(keep: Entity, gone: Entity)
    ensures Subsumes(MergedFields(keep, gone), keep)
  {
    assert forall a :: a in keep.aliases ==> a in MergedFields(keep, gone).aliases;
  }

  /** A merge that loses no name uncovers none. */
  lemma MergeCovers(kb: KB, keepId: string, goneId: string, flush: bool, ws: string, ty: string)
    requires DistinctEntities(kb.entities) && LosesNoName(kb, keepId, goneId)
    ensures Covered(kb.entities, ws, ty) <= Covered(MergeTables(kb, keepId, goneId, flush).entities, ws, ty)
  {
    if MergeOutcome(kb, keepId, goneId, flush).Merged? {
      var keep, gone := Find(kb.entities, keepId).value, Find(kb.entities, goneId).value;
      var merged := MergeTables(kb, keepId, goneId, flush).entities;
      SameIdSameEntity(kb.entities, gone);
      forall n | n in Covered(kb.entities, ws, ty) ensures n in Covered(merged, ws, ty) {
        var e :| e in kb.entities && InScope(e, ws, ty) && n in Names(e) && n != "";
        if e.id != gone.id {
          var f := OthersSubsumed(kb.entities, keep, gone, e);
        } else if SameScope(keep, gone) {
          var f := OthersSubsumed(kb.entities, keep, gone, keep);
        } else {
          assert exists x :: NamesElsewhere(kb.entities, gone, n, x);
          var x :| NamesElsewhere(kb.entities, gone, n, x);
          var f := OthersSubsumed(kb.entities, keep, gone, x);
        }
      }
    }
  }

  lemma MergeKeepsIds(kb: KB, keepId: string, goneId: string, flush: bool)
    requires DistinctEntities(kb.entities)
    ensures DistinctEntities(MergeTables(kb, keepId, goneId, flush).entities)
    ensures Ids(MergeTables(kb, keepId, goneId, flush).entities) <= Ids(kb.entities)
  {
    if MergeOutcome(kb, keepId, goneId, flush).Merged? {
      MergedEntityMembers(kb.entities, Find(kb.entities, keepId).value, Find(kb.entities, goneId).value);
    }
  }

  /** A name of the entity that goes stays covered in its scope only through another entity, unless the one kept is of
      that scope too. */
  lemma CoveredAfterMerge(es: seq<Entity>, keep: Entity, gone: Entity, n: string)
    requires DistinctEntities(es) && keep in es && gone in es && keep.id != gone.id && !SameScope(keep, gone)
    requires n in Covered(MergedEntities(es, keep, gone), gone.workspace, gone.typeId)
    ensures exists e :: NamesElsewhere(es, gone, n, e)
  {
    MergedEntityMembers(es, keep, gone);
    var merged := MergedEntities(es, keep, gone);
    var f :| f in merged && InScope(f, gone.workspace, gone.typeId) && n in Names(f) && n != "";
    assert f != MergedFields(keep, gone);
    assert NamesElsewhere(es, gone, n, f);
  }

  /** A merge uncovers no name of any workspace and type exactly when it loses none. */
  lemma MergeCoversIff(kb: KB, keepId: string, goneId: string, flush: bool)
    requires DistinctEntities(kb.entities)
    ensures LosesNoName(kb, keepId, goneId)
            <==> forall ws, ty ::
                   Covered(kb.entities, ws, ty) <= Covered(MergeTables(kb, keepId, goneId, flush).entities, ws, ty)
  {
    var merged := MergeTables(kb, keepId, goneId, flush).entities;
    if LosesNoName(kb, keepId, goneId) {
      forall ws, ty ensures Covered(kb.entities, ws, ty) <= Covered(merged, ws, ty) {
        MergeCovers(kb, keepId, goneId, flush, ws, ty);
      }
    }
    if forall ws, ty :: Covered(kb.entities, ws, ty) <= Covered(merged, ws, ty) {
      NothingUncovered(kb, keepId, goneId, flush);
    }
  }

  lemma NothingUncovered(kb: KB, keepId: string, goneId: string, flush: bool)
    requires DistinctEntities(kb.entities)
    requires forall ws, ty ::
               Covered(kb.entities, ws, ty) <= Covered(MergeTables(kb, keepId, goneId, flush).entities, ws, ty)
    ensures LosesNoName(kb, keepId, goneId)
  {
    if MergeOutcome(kb, keepId, goneId, flush).Merged? {
      var keep, gone := Find(kb.entities, keepId).value, Find(kb.entities, goneId).value;
      if !SameScope(keep, gone) {
        forall n | n in Names(gone) && n != "" ensures exists e :: NamesElsewhere(kb.entities, gone, n, e) {
          assert gone in kb.entities && InScope(gone, gone.workspace, gone.typeId);
          assert n in Covered(kb.entities, gone.workspace, gone.typeId);
          CoveredAfterMerge(kb.entities, keep, gone, n);
        }
      }
    }
  }

  /** So a merge across types uncovers the name of the entity that goes, if nothing else of its type has it. */
  lemma CrossTypeMergeUncovers(kb: KB, keep: Entity, gone: Entity, flush: bool)
    requires kb.entities == [keep, gone] && keep.id != gone.id && keep.typeId != gone.typeId && gone.name != ""
    ensures gone.name in Covered(kb.entities, gone.workspace, gone.typeId)
    ensures gone.name !in Covered(MergeTables(kb, keep.id, gone.id, flush).entities, gone.workspace, gone.typeId)
  {
    assert gone in kb.entities && InScope(gone, gone.workspace, gone.typeId) && gone.name in Names(gone);
    assert kb.entities[0] == keep && kb.entities[1] == gone && keep in kb.entities;
    SameIdSameEntity(kb.entities, keep);
    SameIdSameEntity(kb.entities, gone);
    if gone.name in Covered(MergedEntities(kb.entities, keep, gone), gone.workspace, gone.typeId) {
      CoveredAfterMerge(kb.entities, keep, gone, gone.name);
    }
  }

  /** An entity is created only if none of the item's lower-cased names is one of a stored entity in scope. */
  lemma CreatedOnlyIfUncovered(kb: KB, workspace: string, typeId: string, item: Item, decisions: seq<Decision>,
                               newId: string, m: Matching)
    requires Resolve(kb, workspace, typeId, item, decisions, newId, m).created
    ensures Lowered(ItemNames(item), m.lower) !! Lowered(Covered(kb.entities, workspace, typeId), m.lower)
  {
    var candidates := InScopeOnly(kb.entities, workspace, typeId);
    forall k | k in Lowered(Covered(kb.entities, workspace, typeId), m.lower)
      ensures k !in Lowered(ItemNames(item), m.lower)
    {
      var n :| n in Covered(kb.entities, workspace, typeId) && m.lower(n) == k;
      var e :| e in kb.entities && InScope(e, workspace, typeId) && n in Names(e) && n != "";
      assert k in Lowered(Names(e), m.lower) && e in candidates;
      assert Lowered(ItemNames(item), m.lower) * Lowered(Names(e), m.lower) == {};
      assert k !in Lowered(ItemNames(item), m.lower) * Lowered(Names(e), m.lower);
    }
  }

  // ----- runs of resolutions and merges -----

  datatype Op =
    | OpResolve(workspace: string, typeId: string, item: Item, decisions: seq<Decision>, newId: string)
    | OpMerge(keep: string, gone: string, flush: bool)

  function Apply(kb: KB, op: Op, m: Matching): KB {
    match op
    case OpResolve(workspace, typeId, item, decisions, newId) =>
      Resolve(kb, workspace, typeId, item, decisions, newId, m).kb
    case OpMerge(keep, gone, flush) => MergeTables(kb, keep, gone, flush)
  }

  /** New ids are new, and merges lose no name. */
  ghost predicate Allowed(kb: KB, op: Op) {
    match op
    case OpResolve(_, _, _, _, newId) => newId !in Ids(kb.entities)
    case OpMerge(keep, gone, _) => LosesNoName(kb, keep, gone)
  }

  function RunOps(kb: KB, ops: seq<Op>, m: Matching): KB
    decreases |ops|
  {
    if ops == [] then kb else RunOps(Apply(kb, ops[0], m), ops[1..], m)
  }

  ghost predicate AllAllowed(kb: KB, ops: seq<Op>, m: Matching)
    decreases |ops|
  {
    ops == [] || (Allowed(kb, ops[0]) && AllAllowed(Apply(kb, ops[0], m), ops[1..], m))
  }

  /** Over any run, the covered names of every workspace and type only grow. */
  lemma {:induction false} CoverageIsMonotone(kb: KB, ops: seq<Op>, m: Matching, ws: string, ty: string)
    requires DistinctEntities(kb.entities) && AllAllowed(kb, ops, m)
    ensures Covered(kb.entities, ws, ty) <= Covered(RunOps(kb, ops, m).entities, ws, ty)
    ensures DistinctEntities(RunOps(kb, ops, m).entities)
    decreases |ops|
  {
    if ops != [] {
      match ops[0]
      case OpResolve(workspace, typeId, item, decisions, newId) =>
        ResolveCovers(kb, workspace, typeId, item, decisions, newId, m, ws, ty);
        CoverageIsMonotone(Apply(kb, ops[0], m), ops[1..], m, ws, ty);
      case OpMerge(keep, gone, flush) =>
        MergeCovers(kb, keep, gone, flush, ws, ty);
        MergeKeepsIds(kb, keep, gone, flush);
        CoverageIsMonotone(Apply(kb, ops[0], m), ops[1..], m, ws, ty);
    }
  }

  /** A name once covered is never created again: after any run, an item that carries it, in any letter case,
      resolves to a stored entity. In particular the name of an entity that has been merged away. */
  lemma CoveredNameIsNeverRecreated(kb: KB, ops: seq<Op>, m: Matching, workspace: string, typeId: string, name: string,
                                    item: Item, decisions: seq<Decision>, newId: string)
    requires DistinctEntities(kb.entities) && AllAllowed(kb, ops, m)
    requires name in Covered(kb.entities, workspace, typeId)
    requires m.lower(name) in Lowered(ItemNames(item), m.lower)
    ensures !Resolve(RunOps(kb, ops, m), workspace, typeId, item, decisions, newId, m).created
  {
    CoverageIsMonotone(kb, ops, m, workspace, typeId);
    assert m.lower(name) in Lowered(Covered(RunOps(kb, ops, m).entities, workspace, typeId), m.lower);
    if Resolve(RunOps(kb, ops, m), workspace, typeId, item, decisions, newId, m).created {
      CreatedOnlyIfUncovered(RunOps(kb, ops, m), workspace, typeId, item, decisions, newId, m);
    }
  }

  // ----- resolving an item twice -----

  /** Nothing of the item but its normalized name is there to be remembered. */
  predicate Unnamed(item: Item) { item.name == "" && forall a :: a in item.aliases ==> a == "" }

  /** Neither the normalized name nor any lower-cased name of the item is one of an entity in scope. */
  ghost predicate Unknown(es: seq<Entity>, workspace: string, typeId: string, item: Item, lower: string -> string) {
    forall e :: e in es && InScope(e, workspace, typeId) ==>
      e.normalized != item.normalized && !SharesName(item, e, lower)
  }

  ghost predicate MayAsk(es: seq<Entity>, workspace: string, typeId: string, item: Item,
                         overlaps: (string, string) -> bool, e: Entity) {
    e in es && InScope(e, workspace, typeId) && overlaps(item.name, e.name)
  }

  /** A verdict affirms an entity in scope that the language model is asked about. */
  ghost predicate Affirmed(es: seq<Entity>, workspace: string, typeId: string, item: Item, decisions: seq<Decision>,
                           overlaps: (string, string) -> bool) {
    exists d, e :: d in decisions && Affirms(d) && MayAsk(es, workspace, typeId, item, overlaps, e) && d.entityB == e.id
  }

  /** When an item is created: it is unknown and no verdict affirms it. */
  lemma CreatedIff(kb: KB, workspace: string, typeId: string, item: Item, decisions: seq<Decision>, newId: string,
                   m: Matching)
    ensures Resolve(kb, workspace, typeId, item, decisions, newId, m).created
            <==> Unknown(kb.entities, workspace, typeId, item, m.lower)
                 && !Affirmed(kb.entities, workspace, typeId, item, decisions, m.overlaps)
  {
    var candidates := InScopeOnly(kb.entities, workspace, typeId);
    var asked := OverlapOnly(item, candidates, m.overlaps);
    LlmHitWasAffirmed(asked, decisions);
    assert forall e :: e in asked <==> MayAsk(kb.entities, workspace, typeId, item, m.overlaps, e);
    assert FindByNormalized(candidates, item.normalized).None? <==>
           forall e :: e in candidates ==> e.normalized != item.normalized;
    assert MatchByAlias(item, candidates, m.lower).None? <==>
           forall e :: e in candidates ==> !SharesName(item, e, m.lower);
  }

  /** The two entities cannot be told apart by a resolution. */
  ghost predicate Alike(e: Entity, f: Entity) {
    e.id == f.id && SameScope(e, f) && e.name == f.name && e.normalized == f.normalized && Names(e) == Names(f)
  }

  ghost predicate AllAlike(es: seq<Entity>, fs: seq<Entity>) {
    |es| == |fs| && forall i :: 0 <= i < |es| ==> Alike(es[i], fs[i])
  }

  lemma AlikeResolve(es: seq<Entity>, fs: seq<Entity>, workspace: string, typeId: string, item: Item,
                     decisions: seq<Decision>, m: Matching)
    requires AllAlike(es, fs)
    ensures Unknown(es, workspace, typeId, item, m.lower) ==> Unknown(fs, workspace, typeId, item, m.lower)
    ensures Affirmed(es, workspace, typeId, item, decisions, m.overlaps)
            ==> Affirmed(fs, workspace, typeId, item, decisions, m.overlaps)
  {
    if Unknown(es, workspace, typeId, item, m.lower) {
      forall f | f in fs && InScope(f, workspace, typeId)
        ensures f.normalized != item.normalized && !SharesName(item, f, m.lower)
      {
        var i :| 0 <= i < |fs| && fs[i] == f;
        assert Alike(es[i], f) && es[i] in es;
      }
    }
    if Affirmed(es, workspace, typeId, item, decisions, m.overlaps) {
      var d, e :| d in decisions && Affirms(d) && MayAsk(es, workspace, typeId, item, m.overlaps, e)
          && d.entityB == e.id;
      var i :| 0 <= i < |es| && es[i] == e;
      assert Alike(e, fs[i]) && MayAsk(fs, workspace, typeId, item, m.overlaps, fs[i]);
    }
  }

  lemma {:induction false} NothingToAdd(aliases: seq<string>, more: seq<string>)
    requires forall a :: a in more ==> a == ""
    ensures AddAliases(aliases, more) == aliases
    decreases |more|
  {
    if more != [] {
      forall a | a in more[1..] ensures a == "" { assert a in more; }
      NothingToAdd(aliases, more[1..]);
    }
  }

  /** Folding an unnamed item in adds no name. */
  lemma UnnamedLeavesAlike(es: seq<Entity>, e: Entity, item: Item)
    requires DistinctEntities(es) && e in es && Unnamed(item)
    ensures AllAlike(es, Replaced(es, Folded(e, item))) && AllAlike(Replaced(es, Folded(e, item)), es)
  {
    NothingToAdd(e.aliases, item.aliases + [item.name]);
    SameIdSameEntity(es, e);
  }

  /** Folding any other item in makes it known. */
  lemma NamedIsKnown(es: seq<Entity>, e: Entity, item: Item, lower: string -> string)
    requires DistinctEntities(es) && e in es && !Unnamed(item)
    ensures !Unknown(Replaced(es, Folded(e, item)), e.workspace, e.typeId, item, lower)
  {
    var more := item.aliases + [item.name];
    assert item.name == more[|item.aliases|] && forall a :: a in item.aliases ==> a in more;
    var x := item.name;
    if x == "" { x :| x in item.aliases && x != ""; }
    var f := Folded(e, item);
    FoldedSubsumes(e, item);
    ReplacedSubsumes(es, e, f);
    assert x in Names(f) && x in ItemNames(item);
    assert lower(x) in Lowered(ItemNames(item), lower) * Lowered(Names(f), lower);
  }

  /** Resolving an item again at once creates an entity exactly when it has no name and no alias, its normalized name
      and its empty names were unknown, and a verdict affirmed it the first time but not the second. */
  lemma RecreatedAtOnceIff(kb: KB, workspace: string, typeId: string, item: Item, first: seq<Decision>, firstId: string,
                           second: seq<Decision>, secondId: string, m: Matching)
    requires DistinctEntities(kb.entities)
    ensures var kb1 := Resolve(kb, workspace, typeId, item, first, firstId, m).kb;
            Resolve(kb1, workspace, typeId, item, second, secondId, m).created
            <==> Unnamed(item) && Unknown(kb.entities, workspace, typeId, item, m.lower)
                 && Affirmed(kb.entities, workspace, typeId, item, first, m.overlaps)
                 && !Affirmed(kb.entities, workspace, typeId, item, second, m.overlaps)
  {
    var kb1 := Resolve(kb, workspace, typeId, item, first, firstId, m).kb;
    var hit := ResolveHit(kb, workspace, typeId, item, first, m);
    CreatedIff(kb, workspace, typeId, item, first, firstId, m);
    CreatedIff(kb1, workspace, typeId, item, second, secondId, m);
    if hit.None? {
      var e := Created(workspace, typeId, item, firstId);
      assert e in kb1.entities && InScope(e, workspace, typeId);
    } else if Unnamed(item) {
      UnnamedLeavesAlike(kb.entities, hit.value, item);
      AlikeResolve(kb.entities, kb1.entities, workspace, typeId, item, second, m);
      AlikeResolve(kb1.entities, kb.entities, workspace, typeId, item, second, m);
    } else {
      NamedIsKnown(kb.entities, hit.value, item, m.lower);
    }
  }

  /** What a resolution leaves behind of the item's names: not its normalized name, unless it creates an entity. */
  function KeptNames(item: Item, created: bool): set<string> {
    {item.name} + (set a | a in item.aliases) + if created then {item.normalized} else {}
  }

  lemma ResolveCoversNames(kb: KB, workspace: string, typeId: string, item: Item, decisions: seq<Decision>,
                           newId: string, m: Matching, x: string)
    requires DistinctEntities(kb.entities) && newId !in Ids(kb.entities) && x != ""
    requires x in KeptNames(item, Resolve(kb, workspace, typeId, item, decisions, newId, m).created)
    ensures x in Covered(Resolve(kb, workspace, typeId, item, decisions, newId, m).kb.entities, workspace, typeId)
    ensures x in ItemNames(item)
  {
    var es := Resolve(kb, workspace, typeId, item, decisions, newId, m).kb.entities;
    var hit := ResolveHit(kb, workspace, typeId, item, decisions, m);
    if hit.Some? {
      var f, more := Folded(hit.value, item), item.aliases + [item.name];
      assert item.name == more[|item.aliases|] && forall a :: a in item.aliases ==> a in more;
      FoldedSubsumes(hit.value, item);
      ReplacedSubsumes(kb.entities, hit.value, f);
      assert f in es && InScope(f, workspace, typeId) && x in Names(f);
    } else {
      var e := Created(workspace, typeId, item, newId);
      assert e in es && InScope(e, workspace, typeId) && x in Names(e);
    }
  }

  /** The item resolved a first time, a run of other operations, and the item resolved again. */
  datatype Twice = Twice(workspace: string, typeId: string, item: Item, first: seq<Decision>, firstId: string,
                         ops: seq<Op>, second: seq<Decision>, secondId: string)
  {
    function First(kb: KB, m: Matching): Resolution { Resolve(kb, workspace, typeId, item, first, firstId, m) }

    function Second(kb: KB, m: Matching): Resolution {
      Resolve(RunOps(First(kb, m).kb, ops, m), workspace, typeId, item, second, secondId, m)
    }

    ghost predicate Allowed(kb: KB, m: Matching) {
      DistinctEntities(kb.entities) && firstId !in Ids(kb.entities) && AllAllowed(First(kb, m).kb, ops, m)
    }
  }

  /** A covered name that the item has, in any letter case, keeps it from being created again. */
  lemma NameIsKept(kb: KB, t: Twice, m: Matching, x: string)
    requires t.Allowed(kb, m) && m.lower(x) in Lowered(ItemNames(t.item), m.lower)
    requires x in Covered(kb.entities, t.workspace, t.typeId)
             || x in Covered(t.First(kb, m).kb.entities, t.workspace, t.typeId)
    ensures !t.Second(kb, m).created
  {
    ResolveCovers(kb, t.workspace, t.typeId, t.item, t.first, t.firstId, m, t.workspace, t.typeId);
    CoveredNameIsNeverRecreated(t.First(kb, m).kb, t.ops, m, t.workspace, t.typeId, x, t.item, t.second, t.secondId);
  }

  /** Resolving an item again, after any run, creates an entity only if the item has no name and no alias, no stored
      non-empty name was among its own, and the first time either created nothing or left it without a normalized name;
      however its first resolution ended and whatever the language model says either time. */
  lemma RecreatedOnlyIfUnnamed(kb: KB, t: Twice, m: Matching)
    requires t.Allowed(kb, m)
    ensures t.Second(kb, m).created ==>
              && Unnamed(t.item) && (t.First(kb, m).created ==> t.item.normalized == "")
              && Lowered(ItemNames(t.item), m.lower) !! Lowered(Covered(kb.entities, t.workspace, t.typeId), m.lower)
  {
    if t.Second(kb, m).created {
      forall x | x in Covered(kb.entities, t.workspace, t.typeId)
        ensures m.lower(x) !in Lowered(ItemNames(t.item), m.lower)
      {
        if m.lower(x) in Lowered(ItemNames(t.item), m.lower) { NameIsKept(kb, t, m, x); }
      }
      var kept := KeptNames(t.item, t.First(kb, m).created);
      forall x | x in kept ensures x == "" {
        if x != "" {
          ResolveCoversNames(kb, t.workspace, t.typeId, t.item, t.first, t.firstId, m, x);
          NameIsKept(kb, t, m, x);
        }
      }
      assert t.item.name in kept && forall a :: a in t.item.aliases ==> a in kept;
      assert t.First(kb, m).created ==> t.item.normalized in kept;
    }
  }
}
