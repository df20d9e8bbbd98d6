/** Entities, mentions and relations, and the merge of one entity into another as a function of the tables. */
module KnowledgeBase {
  import opened OrderedDict
  import opened Sequences

  datatype Entity = Entity(id: string, workspace: string, typeId: string, name: string, normalized: string,
                           aliases: seq<string>, confidence: real, properties: map<string, string>)

  datatype Mention = Mention(id: string, workspace: string, entityId: string, docId: string, chunkId: Option<string>,
                             text: string, confidence: real)

  datatype Relation = Relation(id: string, workspace: string, source: string, target: string, relationType: string,
                               confidence: real)
  {
    predicate Touches(id: string) { source == id || target == id }

    predicate IsLoop() { source == target }

    function Key(): (string, string, string) { (source, target, relationType) }
  }

  /** The tables, each in query order. */
  datatype KB = KB(entities: seq<Entity>, mentions: seq<Mention>, relations: seq<Relation>)

  function Ids(es: seq<Entity>): set<string> { set e | e in es :: e.id }

  ghost predicate DistinctEntities(es: seq<Entity>) {
    forall i, j :: 0 <= i < j < |es| ==> es[i].id != es[j].id
  }

  ghost predicate DistinctRelations(rs: seq<Relation>) {
    forall i, j :: 0 <= i < j < |rs| ==> rs[i].id != rs[j].id
  }

  /** Primary keys are unique, and every mention and relation endpoint names a stored entity. */
  ghost predicate Integrity(kb: KB) {
    && DistinctEntities(kb.entities) && DistinctRelations(kb.relations)
    && (forall m :: m in kb.mentions ==> m.entityId in Ids(kb.entities))
    && (forall r :: r in kb.relations ==> r.source in Ids(kb.entities) && r.target in Ids(kb.entities))
  }

  /** `session.get(Entity, id)`. */
  function Find(es: seq<Entity>, id: string): (r: Option<Entity>)
    ensures r.Some? <==> id in Ids(es)
    ensures r.Some? ==> r.value in es && r.value.id == id
  {
    if es == [] then None
    else if es[0].id == id then Some(es[0])
    else
      assert es == [es[0]] + es[1..];
      Find(es[1..], id)
  }

  ghost predicate IsFirst(es: seq<Entity>, p: Entity -> bool, i: int) {
    0 <= i < |es| && p(es[i]) && forall j :: 0 <= j < i ==> !p(es[j])
  }

  /** The first row that passes. */
  function FirstWhere(es: seq<Entity>, p: Entity -> bool): (r: Option<Entity>)
    ensures r.Some? ==> r.value in es && p(r.value)
    ensures r.Some? ==> exists i :: IsFirst(es, p, i) && es[i] == r.value
    ensures r.None? ==> forall e :: e in es ==> !p(e)
  {
    if es == [] then None
    else if p(es[0]) then
      assert IsFirst(es, p, 0);
      Some(es[0])
    else
      var r := FirstWhere(es[1..], p);
      assert forall i :: IsFirst(es[1..], p, i) ==> IsFirst(es, p, i + 1) && es[i + 1] == es[1..][i];
      r
  }

  // ----- repointing -----

  /** Where an id points after `gone` has been merged into `keep`. */
  function Image(x: string, gone: string, keep: string): string { if x == gone then keep else x }

  function RepointedMention(m: Mention, gone: string, keep: string): Mention {
    m.(entityId := Image(m.entityId, gone, keep))
  }

  function RepointedMentions(ms: seq<Mention>, gone: string, keep: string): (r: seq<Mention>)
    ensures |r| == |ms| && forall i :: 0 <= i < |ms| ==> r[i] == RepointedMention(ms[i], gone, keep)
  {
    seq(|ms|, i requires 0 <= i < |ms| => RepointedMention(ms[i], gone, keep))
  }

  function Repointed(r: Relation, gone: string, keep: string): Relation {
    r.(source := Image(r.source, gone, keep), target := Image(r.target, gone, keep))
  }

  function RepointedRelations(rs: seq<Relation>, gone: string, keep: string): (q: seq<Relation>)
    ensures |q| == |rs| && forall i :: 0 <= i < |rs| ==> q[i] == Repointed(rs[i], gone, keep)
  {
    seq(|rs|, i requires 0 <= i < |rs| => Repointed(rs[i], gone, keep))
  }

  /** A relation that touched `gone` and has become a self-loop is deleted. */
  predicate BecomesLoop(r: Relation, gone: string, keep: string) {
    r.Touches(gone) && Repointed(r, gone, keep).IsLoop()
  }

  function LoopIds(rs: seq<Relation>, gone: string, keep: string): set<string> {
    set r | r in rs && BecomesLoop(r, gone, keep) :: r.id
  }

  // ----- de-duplication -----

  /** Does the query of `_dedupe_relations` return this row? With pending changes flushed it sees the row's new
      endpoints and no deleted row; without, it goes by the endpoints still stored in the database. */
  predicate Visible(r: Relation, gone: string, keep: string, flush: bool) {
    if flush then Repointed(r, gone, keep).Touches(keep) && !BecomesLoop(r, gone, keep) else r.Touches(keep)
  }

  /** The rows the query returns, as they are now in memory. */
  function DedupeView(rs: seq<Relation>, gone: string, keep: string, flush: bool): seq<Relation> {
    Picked(rs, VisibleTest(gone, keep, flush), Repointing(gone, keep))
  }

  function VisibleTest(gone: string, keep: string, flush: bool): Relation -> bool {
    (r: Relation) => Visible(r, gone, keep, flush)
  }

  function Repointing(gone: string, keep: string): Relation -> Relation { (r: Relation) => Repointed(r, gone, keep) }

  datatype Deduped = Deduped(keepers: map<(string, string, string), Relation>, losers: seq<Relation>)

  function DedupeStep(d: Deduped, r: Relation): Deduped {
    if r.Key() !in d.keepers then d.(keepers := d.keepers[r.Key() := r])
    else if r.confidence > d.keepers[r.Key()].confidence then
      Deduped(d.keepers[r.Key() := r], d.losers + [d.keepers[r.Key()]])
    else d.(losers := d.losers + [r])
  }

  /** Of rows with the same endpoints and type the most confident one is kept, the earliest among equals. */
  function Dedupe(view: seq<Relation>): Deduped {
    if view == [] then Deduped(map[], []) else DedupeStep(Dedupe(view[..|view| - 1]), view[|view| - 1])
  }

  function RelationIds(rs: seq<Relation>): set<string> { set r | r in rs :: r.id }

  /** The ids of all rows deleted by a merge. */
  function DeletedIds(rs: seq<Relation>, gone: string, keep: string, flush: bool): set<string> {
    LoopIds(rs, gone, keep) + RelationIds(Dedupe(DedupeView(rs, gone, keep, flush)).losers)
  }

  function SurvivalTest(deleted: set<string>): Relation -> bool { (r: Relation) => r.id !in deleted }

  function Surviving(rs: seq<Relation>, deleted: set<string>): seq<Relation> { Where(rs, SurvivalTest(deleted)) }

  function MergedRelations(rs: seq<Relation>, gone: string, keep: string, flush: bool): seq<Relation> {
    Surviving(RepointedRelations(rs, gone, keep), DeletedIds(rs, gone, keep, flush))
  }

  // ----- fields -----

  /** `for alias in more: if alias and alias not in merged: merged.append(alias)`. */
  function AddAliases(aliases: seq<string>, more: seq<string>): (r: seq<string>)
    ensures aliases <= r
    ensures forall a :: a in more && a != "" ==> a in r
    ensures forall a :: a in r ==> a in aliases || a in more
    decreases |more|
  {
    if more == [] then aliases
    else
      assert more == [more[0]] + more[1..];
      var next := if more[0] != "" && more[0] !in aliases then aliases + [more[0]] else aliases;
      assert more[0] != "" ==> more[0] in next;
      var r := AddAliases(next, more[1..]);
      assert forall a :: a in next ==> a in r;
      r
  }

  function Max(a: real, b: real): real { if a >= b then a else b }

  /** `keep` with these aliases, the better confidence, and the properties of `gone` where it has none of its own. */
  function Combined(keep: Entity, gone: Entity, aliases: seq<string>): Entity {
    Entity(keep.id, keep.workspace, keep.typeId, keep.name, keep.normalized, aliases,
           Max(keep.confidence, gone.confidence), gone.properties + keep.properties)
  }

  function MergedFields(keep: Entity, gone: Entity): Entity {
    Combined(keep, gone, AddAliases(keep.aliases, gone.aliases + [gone.name, gone.normalized]))
  }

  /** The entity table after `gone` has been folded into `keep` and deleted. */
  function MergedEntities(es: seq<Entity>, keep: Entity, gone: Entity): seq<Entity> {
    if es == [] then []
    else
      var e := es[|es| - 1];
      MergedEntities(es[..|es| - 1], keep, gone)
      + if e.id == gone.id then [] else if e.id == keep.id then [MergedFields(keep, gone)] else [e]
  }

  datatype MergeError = KeepNotFound | MergeNotFound | SelfMerge

  datatype MergeResult =
    | Merged(kept: string, merged: string, mentionsMoved: nat, relationsMoved: nat, relationsDeduped: nat)
    | Rejected(error: MergeError)

  function CountMentions(ms: seq<Mention>, id: string): nat {
    if ms == [] then 0 else CountMentions(ms[..|ms| - 1], id) + if ms[|ms| - 1].entityId == id then 1 else 0
  }

  /** Relations repointed and not dropped as loops. */
  function CountMoved(rs: seq<Relation>, gone: string, keep: string): nat {
    if rs == [] then 0
    else
      var r := rs[|rs| - 1];
      CountMoved(rs[..|rs| - 1], gone, keep) + if r.Touches(gone) && !BecomesLoop(r, gone, keep) then 1 else 0
  }

  function MergeOutcome(kb: KB, keepId: string, goneId: string, flush: bool): MergeResult {
    if Find(kb.entities, keepId).None? then Rejected(KeepNotFound)
    else if Find(kb.entities, goneId).None? then Rejected(MergeNotFound)
    else if keepId == goneId then Rejected(SelfMerge)
    else Merged(keepId, goneId, CountMentions(kb.mentions, goneId), CountMoved(kb.relations, goneId, keepId),
                |Dedupe(DedupeView(kb.relations, goneId, keepId, flush)).losers|)
  }

  /** The tables after a merge request. */
  function MergeTables(kb: KB, keepId: string, goneId: string, flush: bool): KB {
    if MergeOutcome(kb, keepId, goneId, flush).Rejected? then kb
    else
      KB(MergedEntities(kb.entities, Find(kb.entities, keepId).value, Find(kb.entities, goneId).value),
         RepointedMentions(kb.mentions, goneId, keepId),
         MergedRelations(kb.relations, goneId, keepId, flush))
  }

  lemma MergedEntitiesNext(es: seq<Entity>, i: nat, keep: Entity, gone: Entity)
    requires i < |es|
    ensures MergedEntities(es[..i + 1], keep, gone)
            == MergedEntities(es[..i], keep, gone)
               + if es[i].id == gone.id then [] else if es[i].id == keep.id then [MergedFields(keep, gone)] else [es[i]]
  {
    assert es[..i + 1][..i] == es[..i];
  }
}
