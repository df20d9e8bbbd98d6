/** Which relations are stored for extracted ones, in terms of the rows' fields alone. */
module PlainRelations {
  import opened EntityLifecycle
  import opened KnowledgeBase
  import opened OrderedDict

  ghost predicate Normal(es: seq<Entity>, workspace: string, text: string, lower: string -> string, i: int) {
    0 <= i < |es| && es[i].workspace == workspace && es[i].normalized == lower(text)
  }

  ghost predicate Named(es: seq<Entity>, workspace: string, text: string, i: int) {
    0 <= i < |es| && es[i].workspace == workspace && es[i].name == text
  }

  /** The entity of the workspace that the text names: the first one whose normalized name is the lower-cased text, else
      the first one with that very name. */
  ghost predicate NamedBy(es: seq<Entity>, workspace: string, text: string, lower: string -> string, i: int) {
    if exists j :: Normal(es, workspace, text, lower, j) then
      Normal(es, workspace, text, lower, i) && forall j :: Normal(es, workspace, text, lower, j) ==> i <= j
    else
      Named(es, workspace, text, i) && forall j :: Named(es, workspace, text, j) ==> i <= j
  }

  ghost predicate IsNamed(es: seq<Entity>, workspace: string, text: string, lower: string -> string) {
    exists i :: NamedBy(es, workspace, text, lower, i)
  }

  /** The row runs from the entity named as the source to the one named as the target. */
  ghost predicate RelationFor(es: seq<Entity>, workspace: string, item: RelationItem, newId: string,
                              lower: string -> string, r: Relation) {
    && r.id == newId && r.workspace == workspace && r.relationType == item.relationType
    && r.confidence == item.confidence
    && (exists i :: NamedBy(es, workspace, item.source, lower, i) && r.source == es[i].id)
    && (exists j :: NamedBy(es, workspace, item.target, lower, j) && r.target == es[j].id)
  }

  ghost predicate HasEnds(es: seq<Entity>, workspace: string, item: RelationItem, lower: string -> string) {
    IsNamed(es, workspace, item.source, lower) && IsNamed(es, workspace, item.target, lower)
  }

  /** One more row for every item both of whose ends are named, in order, and nothing else. */
  ghost predicate RelationsAdded(es: seq<Entity>, rs: seq<Relation>, rs1: seq<Relation>, workspace: string,
                                 items: seq<RelationItem>, newIds: seq<string>, lower: string -> string)
    requires |items| == |newIds|
    decreases |items|
  {
    if items == [] then rs1 == rs
    else
      var n := |items| - 1;
      if HasEnds(es, workspace, items[n], lower) then
        && rs1 != [] && RelationFor(es, workspace, items[n], newIds[n], lower, rs1[|rs1| - 1])
        && RelationsAdded(es, rs, rs1[..|rs1| - 1], workspace, items[..n], newIds[..n], lower)
      else RelationsAdded(es, rs, rs1, workspace, items[..n], newIds[..n], lower)
  }

  lemma TextIsFound(es: seq<Entity>, workspace: string, text: string, lower: string -> string)
    ensures var hit := FindByText(es, workspace, text, lower);
            && (hit.None? <==> !IsNamed(es, workspace, text, lower))
            && (hit.Some? ==> exists i :: NamedBy(es, workspace, text, lower, i) && es[i] == hit.value)
  {
    var p := (e: Entity) => e.workspace == workspace && e.normalized == lower(text);
    var q := (e: Entity) => e.workspace == workspace && e.name == text;
    forall j ensures Normal(es, workspace, text, lower, j) <==> 0 <= j < |es| && p(es[j]) {
    }
    forall j ensures Named(es, workspace, text, j) <==> 0 <= j < |es| && q(es[j]) {
    }
    if FirstWhere(es, p).Some? {
      var i :| IsFirst(es, p, i) && es[i] == FirstWhere(es, p).value;
      assert NamedBy(es, workspace, text, lower, i);
    } else {
      forall j ensures !Normal(es, workspace, text, lower, j) {
        if 0 <= j < |es| { assert es[j] in es; }
      }
      if FirstWhere(es, q).Some? {
        var i :| IsFirst(es, q, i) && es[i] == FirstWhere(es, q).value;
        assert NamedBy(es, workspace, text, lower, i);
      }
    }
  }

  lemma OneRelation(kb: KB, workspace: string, item: RelationItem, newId: string, lower: string -> string)
    ensures var rs1 := PersistRelation(kb, workspace, item, newId, lower).relations;
            if HasEnds(kb.entities, workspace, item, lower)
            then rs1 != [] && rs1[..|rs1| - 1] == kb.relations
                 && RelationFor(kb.entities, workspace, item, newId, lower, rs1[|rs1| - 1])
            else rs1 == kb.relations
    ensures PersistRelation(kb, workspace, item, newId, lower).entities == kb.entities
  {
    TextIsFound(kb.entities, workspace, item.source, lower);
    TextIsFound(kb.entities, workspace, item.target, lower);
  }

  /** What persisting extracted relations promises, in plain terms. */
  lemma {:induction false} PersistedInPlainTerms(kb: KB, workspace: string, items: seq<RelationItem>,
                                                 newIds: seq<string>, lower: string -> string)
    requires |items| == |newIds|
    ensures var kb1 := PersistedAll(kb, workspace, items, newIds, lower);
            && kb1.entities == kb.entities && kb1.mentions == kb.mentions
            && RelationsAdded(kb.entities, kb.relations, kb1.relations, workspace, items, newIds, lower)
    decreases |items|
  {
    if items != [] {
      var n := |items| - 1;
      var front := PersistedAll(kb, workspace, items[..n], newIds[..n], lower);
      PersistedInPlainTerms(kb, workspace, items[..n], newIds[..n], lower);
      OneRelation(front, workspace, items[n], newIds[n], lower);
    }
  }
}
