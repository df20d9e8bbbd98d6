/** Finding or creating an extracted entity: with the resolution chain if there is a language model, else by exact
    normalized name in the workspace. */
module PlainExtraction {
  import opened EntityResolution
  import opened KnowledgeBase
  import opened MergeDuplicates
  import opened PlainResolution

  function HasNormalized(workspace: string, normalized: string): Entity -> bool {
    (e: Entity) => e.workspace == workspace && e.normalized == normalized
  }

  /** The fallback's update keeps the name and the aliases. */
  function Refreshed(e: Entity, item: Item): Entity {
    e.(confidence := Max(e.confidence, item.confidence), properties := e.properties + item.properties)
  }

  /** Without a resolution service: any type of the workspace is searched. */
  function PlainlyResolved(kb: KB, workspace: string, typeId: string, item: Item, newId: string): Resolution {
    var hit := FirstWhere(kb.entities, HasNormalized(workspace, item.normalized));
    if hit.Some? then
      Resolution(kb.(entities := Replaced(kb.entities, Refreshed(hit.value, item))), hit.value.id, false)
    else Resolution(kb.(entities := kb.entities + [Created(workspace, typeId, item, newId)]), newId, true)
  }

  /** `_get_or_create_entity`. */
  function GotOrCreated(kb: KB, resolving: bool, workspace: string, typeId: string, item: Item,
                        decisions: seq<Decision>, newId: string, m: Matching): Resolution {
    if resolving then Resolve(kb, workspace, typeId, item, decisions, newId, m)
    else PlainlyResolved(kb, workspace, typeId, item, newId)
  }

  // ----- names and ids -----

  lemma RefreshedIsAlike(es: seq<Entity>, e: Entity, item: Item)
    requires DistinctEntities(es) && e in es
    ensures AllAlike(es, Replaced(es, Refreshed(e, item)))
  {
    SameIdSameEntity(es, e);
  }

  lemma RefreshCovers(es: seq<Entity>, e: Entity, item: Item, ws: string, ty: string)
    requires DistinctEntities(es) && e in es
    ensures var es1 := Replaced(es, Refreshed(e, item));
            Covered(es, ws, ty) <= Covered(es1, ws, ty) && DistinctEntities(es1) && Ids(es1) == Ids(es)
  {
    var f := Refreshed(e, item);
    assert Subsumes(f, e);
    ReplacedSubsumes(es, e, f);
    CoverageGrows(es, Replaced(es, f), ws, ty);
  }

  /** Either way no name is uncovered and no id is lost or used twice. */
  lemma GotCovers(kb: KB, resolving: bool, workspace: string, typeId: string, item: Item, decisions: seq<Decision>,
                  newId: string, m: Matching, ws: string, ty: string)
    requires DistinctEntities(kb.entities) && newId !in Ids(kb.entities)
    ensures var r := GotOrCreated(kb, resolving, workspace, typeId, item, decisions, newId, m);
            && Covered(kb.entities, ws, ty) <= Covered(r.kb.entities, ws, ty) && DistinctEntities(r.kb.entities)
            && Ids(r.kb.entities) == Ids(kb.entities) + {r.entityId} && (r.created <==> r.entityId !in Ids(kb.entities))
  {
    var hit := FirstWhere(kb.entities, HasNormalized(workspace, item.normalized));
    if resolving {
      ResolveCovers(kb, workspace, typeId, item, decisions, newId, m, ws, ty);
    } else if hit.Some? {
      RefreshCovers(kb.entities, hit.value, item, ws, ty);
    } else {
      CreateCovers(kb.entities, Created(workspace, typeId, item, newId), ws, ty);
    }
  }

  // ----- what the fallback promises and what it does not -----

  ghost predicate Carries(e: Entity, workspace: string, normalized: string) {
    e.workspace == workspace && e.normalized == normalized
  }

  ghost predicate Carried(es: seq<Entity>, workspace: string, normalized: string) {
    exists e :: e in es && Carries(e, workspace, normalized)
  }

  /** No two entities of a workspace have the same normalized name. */
  ghost predicate UniqueNames(es: seq<Entity>) {
    forall i, j :: 0 <= i < j < |es| ==> es[i].workspace != es[j].workspace || es[i].normalized != es[j].normalized
  }

  /** The fallback creates an entity exactly when none of the workspace, whatever its type, has the normalized name;
      afterwards the entity returned has it, and unique normalized names stay unique. */
  lemma PlainIsExact(kb: KB, workspace: string, typeId: string, item: Item, newId: string)
    requires DistinctEntities(kb.entities) && newId !in Ids(kb.entities)
    ensures var r := PlainlyResolved(kb, workspace, typeId, item, newId);
            && (r.created <==> !Carried(kb.entities, workspace, item.normalized))
            && (exists e :: e in r.kb.entities && e.id == r.entityId && Carries(e, workspace, item.normalized))
            && (UniqueNames(kb.entities) ==> UniqueNames(r.kb.entities))
  {
    var es := kb.entities;
    var hit := FirstWhere(es, HasNormalized(workspace, item.normalized));
    if hit.Some? {
      var f := Refreshed(hit.value, item);
      assert Carries(hit.value, workspace, item.normalized);
      RefreshedIsAlike(es, hit.value, item);
      var i :| 0 <= i < |es| && es[i] == hit.value;
      assert Replaced(es, f)[i] == f && f in Replaced(es, f) && Carries(f, workspace, item.normalized);
      if UniqueNames(es) { UniqueIfAlike(es, Replaced(es, f)); }
    } else {
      var e := Created(workspace, typeId, item, newId);
      assert e in es + [e] && Carries(e, workspace, item.normalized);
      forall i | 0 <= i < |es| ensures !Carries(es[i], workspace, item.normalized) { assert es[i] in es; }
    }
  }

  /** The row keeps its names; its confidence is the better one, and the item's properties win. */
  ghost predicate ItemNoted(e: Entity, item: Item, f: Entity) {
    && f.id == e.id && f.workspace == e.workspace && f.typeId == e.typeId && f.name == e.name
    && f.normalized == e.normalized && f.aliases == e.aliases
    && f.confidence >= e.confidence && f.confidence >= item.confidence
    && (f.confidence == e.confidence || f.confidence == item.confidence)
    && (forall k :: k in f.properties <==> k in e.properties || k in item.properties)
    && (forall k :: k in item.properties ==> f.properties[k] == item.properties[k])
    && (forall k :: k in e.properties && k !in item.properties ==> f.properties[k] == e.properties[k])
  }

  ghost predicate CarriesAt(es: seq<Entity>, workspace: string, normalized: string, i: int) {
    && 0 <= i < |es| && Carries(es[i], workspace, normalized)
    && forall j :: 0 <= j < i ==> !Carries(es[j], workspace, normalized)
  }

  ghost predicate NotedAt(es: seq<Entity>, es1: seq<Entity>, item: Item, i: int) {
    && |es1| == |es| && 0 <= i < |es| && ItemNoted(es[i], item, es1[i])
    && forall j :: 0 <= j < |es| && j != i ==> es1[j] == es[j]
  }

  /** The first row of the workspace with the normalized name, of whatever type, is updated; without one a row is
      added. */
  ghost predicate PlainlyFound(es: seq<Entity>, es1: seq<Entity>, workspace: string, typeId: string, item: Item,
                               newId: string, id: string, created: bool) {
    if Carried(es, workspace, item.normalized) then
      exists i :: CarriesAt(es, workspace, item.normalized, i) && NotedAt(es, es1, item, i) && id == es[i].id
          && !created
    else Added(es, es1, workspace, typeId, item, newId) && id == newId && created
  }

  lemma FallbackInPlainTerms(kb: KB, workspace: string, typeId: string, item: Item, newId: string)
    requires DistinctEntities(kb.entities)
    ensures var r := PlainlyResolved(kb, workspace, typeId, item, newId);
            PlainlyFound(kb.entities, r.kb.entities, workspace, typeId, item, newId, r.entityId, r.created)
  {
    var es, p := kb.entities, HasNormalized(workspace, item.normalized);
    var hit := FirstWhere(es, p);
    if hit.Some? {
      var i :| IsFirst(es, p, i) && es[i] == hit.value;
      assert CarriesAt(es, workspace, item.normalized, i) && es[i] in es;
      ReplacedAt(es, i, Refreshed(hit.value, item));
      assert NotedAt(es, Replaced(es, Refreshed(hit.value, item)), item, i);
    }
  }

  lemma UniqueIfAlike(es: seq<Entity>, fs: seq<Entity>)
    requires AllAlike(es, fs) && UniqueNames(es)
    ensures UniqueNames(fs)
  {
    forall i, j | 0 <= i < j < |fs| ensures fs[i].workspace != fs[j].workspace || fs[i].normalized != fs[j].normalized {
      assert Alike(es[i], fs[i]) && Alike(es[j], fs[j]);
    }
  }

  /** A normalized name is carried after a merge exactly if an entity other than the one that goes carried it. */
  lemma CarriedAfterMerge(es: seq<Entity>, keep: Entity, gone: Entity, workspace: string, normalized: string)
    requires DistinctEntities(es) && keep in es && gone in es && keep.id != gone.id
    ensures Carried(MergedEntities(es, keep, gone), workspace, normalized)
            <==> exists e :: e in es && e.id != gone.id && Carries(e, workspace, normalized)
  {
    var merged := MergedEntities(es, keep, gone);
    MergedEntityMembers(es, keep, gone);
    SameIdSameEntity(es, keep);
    if e :| e in es && e.id != gone.id && Carries(e, workspace, normalized) {
      var f := if e == keep then MergedFields(keep, gone) else e;
      assert f in merged && Carries(f, workspace, normalized);
    }
    if f :| f in merged && Carries(f, workspace, normalized) {
      var e := if f == MergedFields(keep, gone) then keep else f;
      assert e in es && e.id != gone.id && Carries(e, workspace, normalized);
    }
  }

  /** The fallback forgets merges: an item with the normalized name of an entity that has been merged away is created
      again exactly when no other entity of the workspace has that normalized name. */
  lemma PlainForgetsMerged(kb: KB, keep: Entity, gone: Entity, flush: bool, typeId: string, item: Item, newId: string)
    requires DistinctEntities(kb.entities) && keep in kb.entities && gone in kb.entities && keep.id != gone.id
    requires item.normalized == gone.normalized && newId !in Ids(kb.entities)
    ensures PlainlyResolved(MergeTables(kb, keep.id, gone.id, flush), gone.workspace, typeId, item, newId).created
            <==> forall e :: e in kb.entities && e.id != gone.id ==> !Carries(e, gone.workspace, gone.normalized)
  {
    SameIdSameEntity(kb.entities, keep);
    SameIdSameEntity(kb.entities, gone);
    MergeKeepsIds(kb, keep.id, gone.id, flush);
    PlainIsExact(MergeTables(kb, keep.id, gone.id, flush), gone.workspace, typeId, item, newId);
    CarriedAfterMerge(kb.entities, keep, gone, gone.workspace, gone.normalized);
  }
}
