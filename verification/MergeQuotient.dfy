/** A merge is a quotient of the relation graph: `gone` is identified with `keep` and nothing else changes. */
module MergeQuotient {
  import opened KnowledgeBase
  import opened Sequences

  // ----- the passes, row by row -----

  lemma ViewMembers(rs: seq<Relation>, gone: string, keep: string, flush: bool)
    ensures forall x :: x in DedupeView(rs, gone, keep, flush)
              <==> exists r :: r in rs && Visible(r, gone, keep, flush) && x == Repointed(r, gone, keep)
    ensures DistinctRelations(rs) ==> DistinctRelations(DedupeView(rs, gone, keep, flush))
  {
    PickedAre(rs, VisibleTest(gone, keep, flush), Repointing(gone, keep));
    var at := PickedFrom(rs, VisibleTest(gone, keep, flush), Repointing(gone, keep));
    forall x ensures x in DedupeView(rs, gone, keep, flush)
                     <==> exists r :: r in rs && Visible(r, gone, keep, flush) && x == Repointed(r, gone, keep)
    {
      if r :| r in rs && Visible(r, gone, keep, flush) && x == Repointed(r, gone, keep) {
        assert VisibleTest(gone, keep, flush)(r) && Repointing(gone, keep)(r) == x;
      }
    }
  }

  lemma SurvivingMembers(rs: seq<Relation>, deleted: set<string>)
    ensures forall r :: r in Surviving(rs, deleted) <==> r in rs && r.id !in deleted
    ensures DistinctRelations(rs) ==> DistinctRelations(Surviving(rs, deleted))
  {
    WhereAre(rs, SurvivalTest(deleted));
    var at := WhereFrom(rs, SurvivalTest(deleted));
  }

  /** The state of the de-duplication loop: each key seen has one keeper, the most confident row of that key,
      and every other row seen is a loser. */
  ghost predicate DedupeInv(view: seq<Relation>, d: Deduped) {
    && (forall k :: k in d.keepers ==> d.keepers[k] in view && d.keepers[k].Key() == k)
    && (forall r :: r in view ==> r.Key() in d.keepers && d.keepers[r.Key()].confidence >= r.confidence)
    && (forall r :: r in d.losers ==> r in view && r.Key() in d.keepers && r != d.keepers[r.Key()])
    && (forall r :: r in view ==> r in d.losers || r == d.keepers[r.Key()])
  }

  ghost predicate NoRepeat(view: seq<Relation>) {
    forall i, j :: 0 <= i < j < |view| ==> view[i] != view[j]
  }

  lemma DedupeStepKeeps(view: seq<Relation>, d: Deduped, r: Relation, view1: seq<Relation>, d1: Deduped)
    requires DedupeInv(view, d) && r !in view && view1 == view + [r] && d1 == DedupeStep(d, r)
    ensures DedupeInv(view1, d1)
    ensures |d1.losers| + |d1.keepers| == |d.losers| + |d.keepers| + 1
  {
    if r.Key() !in d.keepers {
      FirstOfKey(view, d, r, view1, d1);
    } else {
      NextOfKey(view, d, r, view1, d1);
    }
  }

  lemma FirstOfKey(view: seq<Relation>, d: Deduped, r: Relation, view1: seq<Relation>, d1: Deduped)
    requires DedupeInv(view, d) && r.Key() !in d.keepers && view1 == view + [r]
    requires d1 == Deduped(d.keepers[r.Key() := r], d.losers)
    ensures DedupeInv(view1, d1)
  {
  }

  lemma NextOfKey(view: seq<Relation>, d: Deduped, r: Relation, view1: seq<Relation>, d1: Deduped)
    requires DedupeInv(view, d) && r.Key() in d.keepers && r !in view && view1 == view + [r]
    requires var best := d.keepers[r.Key()];
             d1 == if r.confidence > best.confidence then Deduped(d.keepers[r.Key() := r], d.losers + [best])
                   else Deduped(d.keepers, d.losers + [r])
    ensures DedupeInv(view1, d1)
  {
  }

  lemma LosersDoNotRepeat(view: seq<Relation>, d: Deduped, r: Relation)
    requires DedupeInv(view, d) && r !in view && NoRepeat(d.losers)
    ensures NoRepeat(DedupeStep(d, r).losers)
  {
    var next := if r.Key() in d.keepers && r.confidence > d.keepers[r.Key()].confidence then d.keepers[r.Key()] else r;
    assert next !in d.losers;
  }

  lemma LastRow(view: seq<Relation>)
    requires NoRepeat(view) && view != []
    ensures var front, last := view[..|view| - 1], view[|view| - 1];
            && NoRepeat(front) && last !in front && view == front + [last]
            && Dedupe(view) == DedupeStep(Dedupe(front), last)
  {
  }

  lemma {:induction false} DedupeKeepsBest(view: seq<Relation>)
    requires NoRepeat(view)
    ensures DedupeInv(view, Dedupe(view))
    ensures |Dedupe(view).losers| + |Dedupe(view).keepers| == |view|
    decreases |view|
  {
    if view != [] {
      var front, last := view[..|view| - 1], view[|view| - 1];
      LastRow(view);
      DedupeKeepsBest(front);
      DedupeStepKeeps(front, Dedupe(front), last, view, Dedupe(view));
    }
  }

  lemma {:induction false} LosersAreDistinct(view: seq<Relation>)
    requires NoRepeat(view)
    ensures NoRepeat(Dedupe(view).losers)
    decreases |view|
  {
    if view != [] {
      var front, last := view[..|view| - 1], view[|view| - 1];
      LosersAreDistinct(front);
      DedupeKeepsBest(front);
      LosersDoNotRepeat(front, Dedupe(front), last);
    }
  }

  lemma DistinctIsNoRepeat(rs: seq<Relation>)
    requires DistinctRelations(rs)
    ensures NoRepeat(rs) && forall a, b :: a in rs && b in rs && a.id == b.id ==> a == b
  {
  }

  /** A non-loop image is deleted only if it is a loser of the de-duplication. */
  lemma DeletedNonLoop(rs: seq<Relation>, gone: string, keep: string, flush: bool, r: Relation)
    requires DistinctRelations(rs) && r in rs && !Repointed(r, gone, keep).IsLoop()
    ensures r.id in DeletedIds(rs, gone, keep, flush)
            <==> Repointed(r, gone, keep) in Dedupe(DedupeView(rs, gone, keep, flush)).losers
  {
    var view := DedupeView(rs, gone, keep, flush);
    var losers := Dedupe(view).losers;
    DistinctIsNoRepeat(rs);
    ViewMembers(rs, gone, keep, flush);
    DistinctIsNoRepeat(view);
    DedupeKeepsBest(view);
    assert r.id !in LoopIds(rs, gone, keep);
    if r.id in RelationIds(losers) {
      var l :| l in losers && l.id == r.id;
      assert l in view;
      var o :| o in rs && Visible(o, gone, keep, flush) && l == Repointed(o, gone, keep);
      assert o == r;
    }
  }

  lemma RepointedMembers(rs: seq<Relation>, gone: string, keep: string)
    ensures forall x ::
              x in RepointedRelations(rs, gone, keep) <==> exists r :: r in rs && x == Repointed(r, gone, keep)
    ensures DistinctRelations(rs) ==> DistinctRelations(RepointedRelations(rs, gone, keep))
  {
    var q := RepointedRelations(rs, gone, keep);
    forall r | r in rs ensures Repointed(r, gone, keep) in q {
      var i :| 0 <= i < |rs| && rs[i] == r;
      assert q[i] == Repointed(r, gone, keep);
    }
  }

  // ----- images -----

  /** Every relation after the merge is the image of one before it. */
  lemma NewIsImage(rs: seq<Relation>, gone: string, keep: string, flush: bool, x: Relation)
    requires x in MergedRelations(rs, gone, keep, flush)
    ensures exists r :: r in rs && x == Repointed(r, gone, keep) && r.id !in DeletedIds(rs, gone, keep, flush)
  {
    SurvivingMembers(RepointedRelations(rs, gone, keep), DeletedIds(rs, gone, keep, flush));
    RepointedMembers(rs, gone, keep);
  }

  /** Every relation that does not collapse to a loop has, after the merge, a relation with its image's endpoints
      and type, at least as confident. Whether or not the query saw the pending changes. */
  lemma OldHasImage(rs: seq<Relation>, gone: string, keep: string, flush: bool, r: Relation)
    requires DistinctRelations(rs) && r in rs && !Repointed(r, gone, keep).IsLoop()
    ensures exists x ::
              && x in MergedRelations(rs, gone, keep, flush)
              && x.Key() == Repointed(r, gone, keep).Key() && x.confidence >= r.confidence
  {
    var image := Repointed(r, gone, keep);
    var view := DedupeView(rs, gone, keep, flush);
    var d := Dedupe(view);
    var deleted := DeletedIds(rs, gone, keep, flush);
    SurvivingMembers(RepointedRelations(rs, gone, keep), deleted);
    RepointedMembers(rs, gone, keep);
    DeletedNonLoop(rs, gone, keep, flush, r);
    if image in d.losers {
      ViewMembers(rs, gone, keep, flush);
      DistinctIsNoRepeat(view);
      DedupeKeepsBest(view);
      var best := d.keepers[image.Key()];
      var o :| o in rs && Visible(o, gone, keep, flush) && best == Repointed(o, gone, keep);
      DeletedNonLoop(rs, gone, keep, flush, o);
      assert best in MergedRelations(rs, gone, keep, flush);
    } else {
      assert image in MergedRelations(rs, gone, keep, flush);
    }
  }

  // ----- connectivity -----

  /** One step of a trail: stay, follow a relation either way, or use the extra link. */
  ghost predicate Step(rs: seq<Relation>, extra: set<(string, string)>, a: string, b: string) {
    || a == b
    || (exists r :: r in rs && ((r.source == a && r.target == b) || (r.source == b && r.target == a)))
    || (a, b) in extra || (b, a) in extra
  }

  ghost predicate Trail(rs: seq<Relation>, extra: set<(string, string)>, p: seq<string>) {
    p != [] && forall i :: 0 <= i < |p| - 1 ==> Step(rs, extra, p[i], p[i + 1])
  }

  ghost predicate Connected(rs: seq<Relation>, extra: set<(string, string)>, a: string, b: string) {
    exists p :: Trail(rs, extra, p) && p[0] == a && p[|p| - 1] == b
  }

  lemma StepExtends(rs: seq<Relation>, extra: set<(string, string)>, a: string, b: string, c: string)
    requires Connected(rs, extra, a, b) && Step(rs, extra, b, c)
    ensures Connected(rs, extra, a, c)
  {
    var p :| Trail(rs, extra, p) && p[0] == a && p[|p| - 1] == b;
    assert Trail(rs, extra, p + [c]);
  }

  /** The image of a trail through the old graph, with keep and gone linked, is a trail through the new one. */
  lemma ImageStep(rs: seq<Relation>, gone: string, keep: string, flush: bool, a: string, b: string)
    requires DistinctRelations(rs) && Step(rs, {(keep, gone)}, a, b)
    ensures Step(MergedRelations(rs, gone, keep, flush), {}, Image(a, gone, keep), Image(b, gone, keep))
  {
    if r :| r in rs && ((r.source == a && r.target == b) || (r.source == b && r.target == a)) {
      if !Repointed(r, gone, keep).IsLoop() {
        OldHasImage(rs, gone, keep, flush, r);
        var x :| x in MergedRelations(rs, gone, keep, flush) && x.Key() == Repointed(r, gone, keep).Key()
            && x.confidence >= r.confidence;
        assert x.source == Image(r.source, gone, keep) && x.target == Image(r.target, gone, keep);
      }
    }
  }

  lemma ImageConnected(rs: seq<Relation>, gone: string, keep: string, flush: bool, a: string, b: string)
    requires DistinctRelations(rs) && Connected(rs, {(keep, gone)}, a, b)
    ensures Connected(MergedRelations(rs, gone, keep, flush), {}, Image(a, gone, keep), Image(b, gone, keep))
  {
    var p :| Trail(rs, {(keep, gone)}, p) && p[0] == a && p[|p| - 1] == b;
    ImageTrail(rs, gone, keep, flush, p);
  }

  function Images(p: seq<string>, gone: string, keep: string): (q: seq<string>)
    ensures |q| == |p| && forall i :: 0 <= i < |p| ==> q[i] == Image(p[i], gone, keep)
  {
    seq(|p|, i requires 0 <= i < |p| => Image(p[i], gone, keep))
  }

  lemma ImageTrail(rs: seq<Relation>, gone: string, keep: string, flush: bool, p: seq<string>)
    requires DistinctRelations(rs) && Trail(rs, {(keep, gone)}, p)
    ensures Trail(MergedRelations(rs, gone, keep, flush), {}, Images(p, gone, keep))
  {
    var q := Images(p, gone, keep);
    forall i | 0 <= i < |p| - 1 ensures Step(MergedRelations(rs, gone, keep, flush), {}, q[i], q[i + 1]) {
      ImageStep(rs, gone, keep, flush, p[i], p[i + 1]);
    }
  }

  lemma SameImageLinked(rs: seq<Relation>, gone: string, keep: string, a: string, b: string)
    requires Image(a, gone, keep) == Image(b, gone, keep)
    ensures Step(rs, {(keep, gone)}, a, b)
  {
  }

  lemma StepLifts(rs: seq<Relation>, gone: string, keep: string, flush: bool, c: string, d: string)
    returns (u: string, v: string)
    requires Step(MergedRelations(rs, gone, keep, flush), {}, c, d) && c != d
    ensures Step(rs, {(keep, gone)}, u, v) && Image(u, gone, keep) == c && Image(v, gone, keep) == d
  {
    var x :| x in MergedRelations(rs, gone, keep, flush)
        && ((x.source == c && x.target == d) || (x.source == d && x.target == c));
    NewIsImage(rs, gone, keep, flush, x);
    var r :| r in rs && x == Repointed(r, gone, keep) && r.id !in DeletedIds(rs, gone, keep, flush);
    u, v := if x.source == c then r.source else r.target, if x.source == c then r.target else r.source;
  }

  /** A trail through the new graph can be followed in the old one, from any preimage to any preimage. */
  lemma {:induction false} TrailLifts(rs: seq<Relation>, gone: string, keep: string, flush: bool, p: seq<string>,
                                      a: string, b: string)
    requires DistinctRelations(rs) && Trail(MergedRelations(rs, gone, keep, flush), {}, p)
    requires p[0] == Image(a, gone, keep) && p[|p| - 1] == Image(b, gone, keep)
    ensures Connected(rs, {(keep, gone)}, a, b)
    decreases |p|
  {
    var links := {(keep, gone)};
    assert Trail(rs, links, [a]) && Connected(rs, links, a, a);
    if |p| == 1 {
      SameImageLinked(rs, gone, keep, a, b);
      StepExtends(rs, links, a, a, b);
    } else {
      var n := |p| - 1;
      var front := p[..n];
      assert front[0] == p[0] && front[n - 1] == p[n - 1]
             && Step(MergedRelations(rs, gone, keep, flush), {}, p[n - 1], p[n]);
      if p[n - 1] == p[n] {
        TrailLifts(rs, gone, keep, flush, front, a, b);
      } else {
        var u, v := StepLifts(rs, gone, keep, flush, p[n - 1], p[n]);
        TrailLifts(rs, gone, keep, flush, front, a, u);
        StepExtends(rs, links, a, u, v);
        SameImageLinked(rs, gone, keep, v, b);
        StepExtends(rs, links, a, v, b);
      }
    }
  }

  /** Two entities' images are connected after the merge exactly when the entities were connected before it in the
      graph with keep and gone linked. */
  lemma MergeKeepsConnectivity(rs: seq<Relation>, gone: string, keep: string, flush: bool, a: string, b: string)
    requires DistinctRelations(rs)
    ensures Connected(MergedRelations(rs, gone, keep, flush), {}, Image(a, gone, keep), Image(b, gone, keep))
            <==> Connected(rs, {(keep, gone)}, a, b)
  {
    if Connected(rs, {(keep, gone)}, a, b) {
      ImageConnected(rs, gone, keep, flush, a, b);
    }
    if Connected(MergedRelations(rs, gone, keep, flush), {}, Image(a, gone, keep), Image(b, gone, keep)) {
      var p :| Trail(MergedRelations(rs, gone, keep, flush), {}, p)
               && p[0] == Image(a, gone, keep) && p[|p| - 1] == Image(b, gone, keep);
      TrailLifts(rs, gone, keep, flush, p, a, b);
    }
  }
}
