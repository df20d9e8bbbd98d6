/** How an extracted entity is resolved, in terms of the rows' fields alone. */
module PlainResolution {
  import opened EntityResolution
  import opened KnowledgeBase
  import opened OrderedDict
  import opened PlainMerge
  import opened Sequences

  // ----- the three stages -----

  ghost predicate Local(e: Entity, workspace: string, typeId: string) { e.workspace == workspace && e.typeId == typeId }

  ghost predicate ItemHas(item: Item, x: string) { x == item.name || x == item.normalized || x in item.aliases }

  ghost predicate EntityHas(e: Entity, y: string) { y == e.name || y == e.normalized || y in e.aliases }

  /** A name, normalized name or alias of the one is, lower-cased, one of the other. */
  ghost predicate SharesAnyName(item: Item, e: Entity, lower: string -> string) {
    exists x, y :: ItemHas(item, x) && EntityHas(e, y) && lower(x) == lower(y)
  }

  ghost predicate ByNormalized(es: seq<Entity>, workspace: string, typeId: string, item: Item, i: int) {
    0 <= i < |es| && Local(es[i], workspace, typeId) && es[i].normalized == item.normalized
  }

  ghost predicate BySharedName(es: seq<Entity>, workspace: string, typeId: string, item: Item, lower: string -> string,
                               i: int) {
    0 <= i < |es| && Local(es[i], workspace, typeId) && SharesAnyName(item, es[i], lower)
  }

  /** The k-th decision says that the new item is this entity, about which the language model was asked. */
  ghost predicate ByDecision(es: seq<Entity>, workspace: string, typeId: string, item: Item, decisions: seq<Decision>,
                             overlaps: (string, string) -> bool, k: int, i: int) {
    && 0 <= i < |es| && Local(es[i], workspace, typeId) && overlaps(item.name, es[i].name)
    && 0 <= k < |decisions| && decisions[k].same && decisions[k].entityA == "NEW" && decisions[k].entityB == es[i].id
  }

  ghost predicate FirstNormalized(es: seq<Entity>, workspace: string, typeId: string, item: Item, i: int) {
    && ByNormalized(es, workspace, typeId, item, i)
    && forall j :: ByNormalized(es, workspace, typeId, item, j) ==> i <= j
  }

  ghost predicate FirstShared(es: seq<Entity>, workspace: string, typeId: string, item: Item, lower: string -> string,
                              i: int) {
    && BySharedName(es, workspace, typeId, item, lower, i)
    && forall j :: BySharedName(es, workspace, typeId, item, lower, j) ==> i <= j
  }

  ghost predicate FirstDecided(es: seq<Entity>, workspace: string, typeId: string, item: Item,
                               decisions: seq<Decision>, overlaps: (string, string) -> bool, k: int, i: int) {
    && ByDecision(es, workspace, typeId, item, decisions, overlaps, k, i)
    && forall l, j :: ByDecision(es, workspace, typeId, item, decisions, overlaps, l, j) ==> k <= l
  }

  /** The row that the item is found to be: the first one with its normalized name; else the first one that shares a
      name; else the one that the first confirming decision names. */
  ghost predicate FoundAt(es: seq<Entity>, workspace: string, typeId: string, item: Item, decisions: seq<Decision>,
                          m: Matching, i: int) {
    if exists j :: ByNormalized(es, workspace, typeId, item, j) then FirstNormalized(es, workspace, typeId, item, i)
    else if exists j :: BySharedName(es, workspace, typeId, item, m.lower, j) then
      FirstShared(es, workspace, typeId, item, m.lower, i)
    else exists k :: FirstDecided(es, workspace, typeId, item, decisions, m.overlaps, k, i)
  }

  // ----- what becomes of the row -----

  /** The better confidence, the item's properties over the row's own, and the item's name and aliases added. */
  ghost predicate ItemFolded(e: Entity, item: Item, f: Entity) {
    && f.id == e.id && f.workspace == e.workspace && f.typeId == e.typeId && f.name == e.name
    && f.normalized == e.normalized
    && f.confidence >= e.confidence && f.confidence >= item.confidence
    && (f.confidence == e.confidence || f.confidence == item.confidence)
    && (forall k :: k in f.properties <==> k in e.properties || k in item.properties)
    && (forall k :: k in item.properties ==> f.properties[k] == item.properties[k])
    && (forall k :: k in e.properties && k !in item.properties ==> f.properties[k] == e.properties[k])
    && e.aliases <= f.aliases
    && (forall a :: a in f.aliases <==> a in e.aliases || (a != "" && (a in item.aliases || a == item.name)))
  }

  ghost predicate IsNew(workspace: string, typeId: string, item: Item, newId: string, e: Entity) {
    && e.id == newId && e.workspace == workspace && e.typeId == typeId && e.name == item.name
    && e.normalized == item.normalized && e.aliases == item.aliases && e.confidence == item.confidence
    && e.properties == item.properties
  }

  /** Row `i` has been folded with the item, and no other row has changed. */
  ghost predicate FoldedAt(es: seq<Entity>, es1: seq<Entity>, item: Item, i: int) {
    && |es1| == |es| && 0 <= i < |es| && ItemFolded(es[i], item, es1[i])
    && forall j :: 0 <= j < |es| && j != i ==> es1[j] == es[j]
  }

  ghost predicate Added(es: seq<Entity>, es1: seq<Entity>, workspace: string, typeId: string, item: Item,
                        newId: string) {
    |es1| == |es| + 1 && es1[..|es|] == es && IsNew(workspace, typeId, item, newId, es1[|es|])
  }

  /** The item is folded into the row it is found to be, or else a new row is added. */
  ghost predicate ItemResolved(es: seq<Entity>, es1: seq<Entity>, workspace: string, typeId: string, item: Item,
                               decisions: seq<Decision>, newId: string, m: Matching, id: string, created: bool) {
    if exists i :: FoundAt(es, workspace, typeId, item, decisions, m, i) then
      exists i :: FoundAt(es, workspace, typeId, item, decisions, m, i) && FoldedAt(es, es1, item, i)
        && id == es[i].id && !created
    else Added(es, es1, workspace, typeId, item, newId) && id == newId && created
  }

  // ----- the proofs -----

  lemma SharesIff(item: Item, e: Entity, lower: string -> string)
    ensures SharesName(item, e, lower) <==> SharesAnyName(item, e, lower)
  {
    if k :| k in Lowered(ItemNames(item), lower) * Lowered(Names(e), lower) {
      var x :| x in ItemNames(item) && lower(x) == k;
      var y :| y in Names(e) && lower(y) == k;
      assert ItemHas(item, x) && EntityHas(e, y);
    }
    if x, y :| ItemHas(item, x) && EntityHas(e, y) && lower(x) == lower(y) {
      assert x in ItemNames(item) && y in Names(e);
      assert lower(x) in Lowered(ItemNames(item), lower) * Lowered(Names(e), lower);
    }
  }

  function NormalizedTest(normalized: string): Entity -> bool { (e: Entity) => e.normalized == normalized }

  ghost function ShareTest(item: Item, lower: string -> string): Entity -> bool {
    (e: Entity) => SharesName(item, e, lower)
  }

  lemma {:induction false} FindIsFirst(cs: seq<Entity>, normalized: string)
    ensures FindByNormalized(cs, normalized) == FirstWhere(cs, NormalizedTest(normalized))
  {
    if cs != [] { FindIsFirst(cs[1..], normalized); }
  }

  lemma {:induction false} MatchIsFirst(item: Item, cs: seq<Entity>, lower: string -> string)
    ensures MatchByAlias(item, cs, lower) == FirstWhere(cs, ShareTest(item, lower))
  {
    if cs != [] { MatchIsFirst(item, cs[1..], lower); }
  }

  /** The first of the rows that pass is the first row that passes. */
  lemma {:induction false} FirstAmong(es: seq<Entity>, p: Entity -> bool, q: Entity -> bool, both: Entity -> bool)
    requires forall e :: both(e) <==> p(e) && q(e)
    ensures FirstWhere(Where(es, p), q) == FirstWhere(es, both)
  {
    if es == [] {
      assert Where(es, p) == [];
    } else {
      assert es == [es[0]] + es[1..];
      FirstAmong(es[1..], p, q, both);
      WhereFirst(es[0], es[1..], p);
      var rest := Where(es[1..], p);
      if p(es[0]) {
        assert ([es[0]] + rest)[0] == es[0] && ([es[0]] + rest)[1..] == rest;
      } else {
        assert [] + rest == rest;
      }
    }
  }

  ghost function LocalNormalized(workspace: string, typeId: string, item: Item): Entity -> bool {
    (e: Entity) => Local(e, workspace, typeId) && e.normalized == item.normalized
  }

  ghost function LocalShare(workspace: string, typeId: string, item: Item, lower: string -> string): Entity -> bool {
    (e: Entity) => Local(e, workspace, typeId) && SharesName(item, e, lower)
  }

  lemma StageOne(es: seq<Entity>, workspace: string, typeId: string, item: Item)
    ensures var hit := FindByNormalized(InScopeOnly(es, workspace, typeId), item.normalized);
            && (hit.None? <==> forall j :: !ByNormalized(es, workspace, typeId, item, j))
            && (hit.Some? ==> exists i :: FirstNormalized(es, workspace, typeId, item, i) && es[i] == hit.value)
  {
    var p := LocalNormalized(workspace, typeId, item);
    FindIsFirst(InScopeOnly(es, workspace, typeId), item.normalized);
    FirstAmong(es, ScopeTest(workspace, typeId), NormalizedTest(item.normalized), p);
    FirstOrNone(es, p);
    forall j ensures ByNormalized(es, workspace, typeId, item, j) <==> 0 <= j < |es| && p(es[j]) {
    }
  }

  lemma StageTwo(es: seq<Entity>, workspace: string, typeId: string, item: Item, lower: string -> string)
    ensures var hit := MatchByAlias(item, InScopeOnly(es, workspace, typeId), lower);
            && (hit.None? <==> forall j :: !BySharedName(es, workspace, typeId, item, lower, j))
            && (hit.Some? ==> exists i :: FirstShared(es, workspace, typeId, item, lower, i) && es[i] == hit.value)
  {
    var p := LocalShare(workspace, typeId, item, lower);
    MatchIsFirst(item, InScopeOnly(es, workspace, typeId), lower);
    FirstAmong(es, ScopeTest(workspace, typeId), ShareTest(item, lower), p);
    FirstOrNone(es, p);
    forall j ensures BySharedName(es, workspace, typeId, item, lower, j) <==> 0 <= j < |es| && p(es[j]) {
      if 0 <= j < |es| { SharesIff(item, es[j], lower); }
    }
  }

  lemma FirstOrNone(es: seq<Entity>, p: Entity -> bool)
    ensures FirstWhere(es, p).None? <==> forall j :: 0 <= j < |es| ==> !p(es[j])
    ensures FirstWhere(es, p).Some? ==> exists i :: IsFirst(es, p, i) && es[i] == FirstWhere(es, p).value
  {
  }

  ghost predicate Confirms(asked: seq<Entity>, d: Decision) { Affirms(d) && d.entityB in Ids(asked) }

  /** The language model's answer is the first decision that confirms an entity it was asked about. */
  lemma {:induction false} FirstDecision(asked: seq<Entity>, decisions: seq<Decision>)
    ensures MatchByLlm(asked, decisions).None? <==>
            forall k :: 0 <= k < |decisions| ==> !Confirms(asked, decisions[k])
    ensures MatchByLlm(asked, decisions).Some? ==>
              exists k :: FirstConfirming(asked, decisions, k)
                && MatchByLlm(asked, decisions).value.id == decisions[k].entityB
  {
    if decisions != [] {
      FirstDecision(asked, decisions[1..]);
      if Confirms(asked, decisions[0]) {
        assert FirstConfirming(asked, decisions, 0);
      } else {
        assert forall k :: 0 < k < |decisions| ==> decisions[k] == decisions[1..][k - 1];
        if k :| FirstConfirming(asked, decisions[1..], k)
                && MatchByLlm(asked, decisions[1..]).value.id == decisions[1..][k].entityB {
          assert FirstConfirming(asked, decisions, k + 1);
        }
      }
    }
  }

  ghost predicate FirstConfirming(asked: seq<Entity>, decisions: seq<Decision>, k: int) {
    && 0 <= k < |decisions| && Confirms(asked, decisions[k])
    && forall l :: 0 <= l < k ==> !Confirms(asked, decisions[l])
  }

  lemma StageThree(es: seq<Entity>, workspace: string, typeId: string, item: Item, decisions: seq<Decision>,
                   overlaps: (string, string) -> bool)
    requires DistinctEntities(es)
    ensures var hit := MatchByLlm(OverlapOnly(item, InScopeOnly(es, workspace, typeId), overlaps), decisions);
            && (hit.None? <==> forall l, j :: !ByDecision(es, workspace, typeId, item, decisions, overlaps, l, j))
            && (hit.Some? ==> exists k, i ::
                  FirstDecided(es, workspace, typeId, item, decisions, overlaps, k, i) && es[i] == hit.value)
  {
    var asked := OverlapOnly(item, InScopeOnly(es, workspace, typeId), overlaps);
    var hit := MatchByLlm(asked, decisions);
    FirstDecision(asked, decisions);
    forall l, j | ByDecision(es, workspace, typeId, item, decisions, overlaps, l, j)
      ensures Confirms(asked, decisions[l])
    {
      assert es[j] in asked;
    }
    forall l | 0 <= l < |decisions| && Confirms(asked, decisions[l])
      ensures exists j :: ByDecision(es, workspace, typeId, item, decisions, overlaps, l, j)
    {
      var e :| e in asked && e.id == decisions[l].entityB;
      var j :| 0 <= j < |es| && es[j] == e;
      assert ByDecision(es, workspace, typeId, item, decisions, overlaps, l, j);
    }
    if hit.Some? {
      var k :| FirstConfirming(asked, decisions, k) && hit.value.id == decisions[k].entityB;
      var i :| 0 <= i < |es| && es[i] == hit.value;
      assert FirstDecided(es, workspace, typeId, item, decisions, overlaps, k, i);
    }
  }

  ghost predicate HitAt(es: seq<Entity>, workspace: string, typeId: string, item: Item, decisions: seq<Decision>,
                        m: Matching, hit: Entity, i: int) {
    FoundAt(es, workspace, typeId, item, decisions, m, i) && 0 <= i < |es| && es[i] == hit
  }

  lemma HitIsFound(kb: KB, workspace: string, typeId: string, item: Item, decisions: seq<Decision>, m: Matching)
    requires DistinctEntities(kb.entities)
    ensures var hit := ResolveHit(kb, workspace, typeId, item, decisions, m);
            && (hit.None? <==> forall i :: !FoundAt(kb.entities, workspace, typeId, item, decisions, m, i))
            && (hit.Some? ==> exists i :: HitAt(kb.entities, workspace, typeId, item, decisions, m, hit.value, i))
  {
    var es := kb.entities;
    StageOne(es, workspace, typeId, item);
    StageTwo(es, workspace, typeId, item, m.lower);
    StageThree(es, workspace, typeId, item, decisions, m.overlaps);
    var hit := ResolveHit(kb, workspace, typeId, item, decisions, m);
    if FindByNormalized(InScopeOnly(es, workspace, typeId), item.normalized).Some? {
      var i :| FirstNormalized(es, workspace, typeId, item, i) && es[i] == hit.value;
      assert HitAt(es, workspace, typeId, item, decisions, m, hit.value, i);
    } else if MatchByAlias(item, InScopeOnly(es, workspace, typeId), m.lower).Some? {
      var i :| FirstShared(es, workspace, typeId, item, m.lower, i) && es[i] == hit.value;
      assert HitAt(es, workspace, typeId, item, decisions, m, hit.value, i);
    } else if hit.Some? {
      var k, i :| FirstDecided(es, workspace, typeId, item, decisions, m.overlaps, k, i) && es[i] == hit.value;
      assert HitAt(es, workspace, typeId, item, decisions, m, hit.value, i);
    }
  }

  lemma FoldInPlainTerms(e: Entity, item: Item)
    ensures ItemFolded(e, item, Folded(e, item))
  {
    var more := item.aliases + [item.name];
    AddedAliases(e.aliases, more);
    assert forall a :: a in more <==> a in item.aliases || a == item.name by {
      assert more[|item.aliases|] == item.name;
    }
  }

  lemma ReplacedAt(es: seq<Entity>, i: nat, f: Entity)
    requires DistinctEntities(es) && i < |es| && f.id == es[i].id
    ensures |Replaced(es, f)| == |es| && Replaced(es, f)[i] == f
    ensures forall j :: 0 <= j < |es| && j != i ==> Replaced(es, f)[j] == es[j]
  {
    forall j | 0 <= j < |es| && j != i ensures es[j].id != es[i].id {
      assert j < i || i < j;
    }
  }

  /** What `resolve` promises, in plain terms. */
  lemma ResolveInPlainTerms(kb: KB, workspace: string, typeId: string, item: Item, decisions: seq<Decision>,
                            newId: string, m: Matching)
    requires DistinctEntities(kb.entities)
    ensures var r := Resolve(kb, workspace, typeId, item, decisions, newId, m);
            && ItemResolved(kb.entities, r.kb.entities, workspace, typeId, item, decisions, newId, m, r.entityId,
                            r.created)
            && r.kb.mentions == kb.mentions && r.kb.relations == kb.relations
  {
    var hit := ResolveHit(kb, workspace, typeId, item, decisions, m);
    HitIsFound(kb, workspace, typeId, item, decisions, m);
    if hit.Some? {
      var i :| HitAt(kb.entities, workspace, typeId, item, decisions, m, hit.value, i);
      FoldInPlainTerms(hit.value, item);
      ReplacedAt(kb.entities, i, Folded(hit.value, item));
      assert FoldedAt(kb.entities, Replaced(kb.entities, Folded(hit.value, item)), item, i);
    }
  }
}
