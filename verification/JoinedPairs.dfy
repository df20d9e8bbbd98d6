/** When a workspace-wide merge joins every candidate pair, and when it leaves some apart. */
module JoinedPairs {
  import opened AutoMerge
  import opened KnowledgeBase
  import opened OrderedDict
  import opened Sequences

  // ----- the merges as a function of the pairs -----

  /** The pairs that the loop merges, whatever the tables hold. */
  function Chosen(pairs: seq<Pair>): seq<Pair> {
    if pairs == [] then []
    else
      var merges, p := Chosen(pairs[..|pairs| - 1]), pairs[|pairs| - 1];
      if p.a in Consumed(merges) || p.b in Consumed(merges) then merges else merges + [p]
  }

  lemma {:induction false} MergesAreChosen(kb: KB, pairs: seq<Pair>, flush: bool)
    ensures MergePairs(kb, pairs, flush).merges == Chosen(pairs)
    decreases |pairs|
  {
    if pairs != [] { MergesAreChosen(kb, pairs[..|pairs| - 1], flush); }
  }

  /** The entity that stands for `x` after the merges. */
  function Keeper(merges: seq<Pair>, x: string): string {
    if merges == [] then x
    else if merges[|merges| - 1].b == x then merges[|merges| - 1].a
    else Keeper(merges[..|merges| - 1], x)
  }

  lemma {:induction false} KeeperOf(merges: seq<Pair>, x: string)
    ensures if x in Consumed(merges) then Pair(Keeper(merges, x), x) in merges else Keeper(merges, x) == x
    decreases |merges|
  {
    if merges != [] {
      var front := merges[..|merges| - 1];
      SplitLast(merges);
      assert Consumed(merges) == Consumed(front) + {merges[|merges| - 1].b};
      KeeperOf(front, x);
    }
  }

  /** Every pair has ended in one entity. */
  ghost predicate AllJoined(pairs: seq<Pair>) {
    forall p :: p in pairs ==> Keeper(Chosen(pairs), p.a) == Keeper(Chosen(pairs), p.b)
  }

  // ----- components -----

  predicate Paired(pairs: seq<Pair>, x: string, y: string) { Pair(x, y) in pairs || Pair(y, x) in pairs }

  ghost predicate PairTrail(pairs: seq<Pair>, t: seq<string>) {
    t != [] && forall i :: 0 <= i < |t| - 1 ==> Paired(pairs, t[i], t[i + 1])
  }

  /** `x` and `y` are in one component of the pairs. */
  ghost predicate Linked(pairs: seq<Pair>, x: string, y: string) {
    exists t :: PairTrail(pairs, t) && t[0] == x && t[|t| - 1] == y
  }

  lemma LinkedSelf(pairs: seq<Pair>, x: string)
    ensures Linked(pairs, x, x)
  {
    assert PairTrail(pairs, [x]);
  }

  lemma LinkedOneMore(pairs: seq<Pair>, x: string, y: string, z: string)
    requires Linked(pairs, x, y) && Paired(pairs, y, z)
    ensures Linked(pairs, x, z)
  {
    var t :| PairTrail(pairs, t) && t[0] == x && t[|t| - 1] == y;
    assert PairTrail(pairs, t + [z]);
  }

  lemma LinkedTransitive(pairs: seq<Pair>, x: string, y: string, z: string)
    requires Linked(pairs, x, y) && Linked(pairs, y, z)
    ensures Linked(pairs, x, z)
  {
    var t :| PairTrail(pairs, t) && t[0] == y && t[|t| - 1] == z;
    LinkedAlong(pairs, x, t, |t| - 1);
  }

  lemma {:induction false} LinkedAlong(pairs: seq<Pair>, x: string, t: seq<string>, i: nat)
    requires PairTrail(pairs, t) && i < |t| && Linked(pairs, x, t[0])
    ensures Linked(pairs, x, t[i])
  {
    if i > 0 {
      LinkedAlong(pairs, x, t, i - 1);
      assert Paired(pairs, t[i - 1], t[i - 1 + 1]);
      LinkedOneMore(pairs, x, t[i - 1], t[i]);
    }
  }

  /** No linked entity comes before `f`. */
  ghost predicate IsFirst(pairs: seq<Pair>, order: seq<string>, f: string) {
    forall y :: Linked(pairs, f, y) ==> Rank(order, f) <= Rank(order, y)
  }

  /** In every component the first entity is paired with every other one. */
  ghost predicate FirstMeetsAll(pairs: seq<Pair>, order: seq<string>) {
    forall f, x :: IsFirst(pairs, order, f) && Linked(pairs, f, x) && f != x ==> Pair(f, x) in pairs
  }

  lemma {:induction false} FirstOf(pairs: seq<Pair>, order: seq<string>, x: string) returns (f: string)
    ensures Linked(pairs, x, f) && IsFirst(pairs, order, f)
    decreases Rank(order, x)
  {
    LinkedSelf(pairs, x);
    if IsFirst(pairs, order, x) {
      f := x;
    } else {
      var y :| Linked(pairs, x, y) && Rank(order, y) < Rank(order, x);
      f := FirstOf(pairs, order, y);
      LinkedTransitive(pairs, x, y, f);
    }
  }

  lemma LinkedBack(pairs: seq<Pair>, x: string, y: string)
    requires Linked(pairs, x, y)
    ensures Linked(pairs, y, x)
  {
    var t :| PairTrail(pairs, t) && t[0] == x && t[|t| - 1] == y;
    var back := seq(|t|, i requires 0 <= i < |t| => t[|t| - 1 - i]);
    forall i | 0 <= i < |back| - 1 ensures Paired(pairs, back[i], back[i + 1]) {
      var j := |t| - 2 - i;
      assert Paired(pairs, t[j], t[j + 1]);
    }
    assert PairTrail(pairs, back);
  }

  // ----- what the loop consumes -----

  lemma {:induction false} ChosenAreSome(pairs: seq<Pair>)
    ensures forall p :: p in Chosen(pairs) ==> p in pairs
    decreases |pairs|
  {
    if pairs != [] {
      ChosenAreSome(pairs[..|pairs| - 1]);
      SplitLast(pairs);
    }
  }

  /** The first entity of a component is never merged away. */
  lemma FirstIsKept(pairs: seq<Pair>, order: seq<string>, f: string)
    requires Sorted(pairs, order) && IsFirst(pairs, order, f)
    ensures forall p :: p in pairs ==> p.b != f
    ensures f !in Consumed(Chosen(pairs)) && Keeper(Chosen(pairs), f) == f
  {
    forall p | p in pairs ensures p.b != f {
      var i :| 0 <= i < |pairs| && pairs[i] == p;
      assert Ascends(order, pairs[i]);
      if p.b == f {
        LinkedSelf(pairs, f);
        LinkedOneMore(pairs, f, f, p.a);
      }
    }
    ChosenAreSome(pairs);
    KeeperOf(Chosen(pairs), f);
  }

  /** If `f` is merged away nowhere and no entity before it is paired with `x`, then the pair (f, x) is merged. */
  lemma {:induction false} FirstTakes(pairs: seq<Pair>, order: seq<string>, f: string, x: string)
    requires Sorted(pairs, order) && Pair(f, x) in pairs && forall p :: p in pairs ==> p.b != f
    requires forall p :: p in pairs && p.b == x ==> Rank(order, f) <= Rank(order, p.a)
    ensures Pair(f, x) in Chosen(pairs) && forall p :: p in Chosen(pairs) && p.b == x ==> p.a == f
    decreases |pairs|
  {
    var front, last := pairs[..|pairs| - 1], pairs[|pairs| - 1];
    SplitLast(pairs);
    ChosenAreSome(front);
    if Pair(f, x) in front {
      SortedFront(pairs, order);
      FirstTakes(front, order, f, x);
      assert x in Consumed(Chosen(front));
    } else {
      // nothing before this pair can have merged x away
      forall p | p in front ensures p.b != x {
        var i :| 0 <= i < |front| && front[i] == p;
        assert PairBefore(order, pairs[i], pairs[|pairs| - 1]) && Ascends(order, pairs[i]) && Ascends(order, last);
        if p.b == x { SameRank(order, p.a, f); }
      }
    }
  }

  lemma SortedFront(pairs: seq<Pair>, order: seq<string>)
    requires Sorted(pairs, order) && pairs != []
    ensures Sorted(pairs[..|pairs| - 1], order)
  {
    var front := pairs[..|pairs| - 1];
    forall i | 0 <= i < |front| ensures Ascends(order, front[i]) { assert Ascends(order, pairs[i]); }
    forall i, j | 0 <= i < j < |front| ensures PairBefore(order, front[i], front[j]) {
      assert PairBefore(order, pairs[i], pairs[j]);
    }
  }

  lemma SameRank(order: seq<string>, x: string, y: string)
    requires Rank(order, x) < |order|
    ensures Rank(order, x) == Rank(order, y) ==> x == y
  {
  }

  // ----- the exact condition -----

  /** If the first entity of a component is paired with every other one, it takes them all. */
  lemma FirstTakesAll(pairs: seq<Pair>, order: seq<string>, f: string, x: string)
    requires Sorted(pairs, order) && FirstMeetsAll(pairs, order) && IsFirst(pairs, order, f) && Linked(pairs, f, x)
    ensures Keeper(Chosen(pairs), x) == f
  {
    FirstIsKept(pairs, order, f);
    if x != f {
      forall p | p in pairs && p.b == x ensures Rank(order, f) <= Rank(order, p.a) {
        LinkedOneMore(pairs, f, x, p.a);
      }
      FirstTakes(pairs, order, f, x);
      KeeperOf(Chosen(pairs), x);
      assert Pair(f, x) in Chosen(pairs);
    }
  }

  /** If every pair is joined, so is every component. */
  lemma {:induction false} JoinedAlong(pairs: seq<Pair>, t: seq<string>, i: nat)
    requires AllJoined(pairs) && PairTrail(pairs, t) && i < |t|
    ensures Keeper(Chosen(pairs), t[i]) == Keeper(Chosen(pairs), t[0])
  {
    if i > 0 {
      JoinedAlong(pairs, t, i - 1);
      assert Paired(pairs, t[i - 1], t[i - 1 + 1]);
    }
  }

  lemma JoinedMeansMet(pairs: seq<Pair>, order: seq<string>, f: string, x: string)
    requires Sorted(pairs, order) && AllJoined(pairs) && IsFirst(pairs, order, f) && Linked(pairs, f, x) && f != x
    ensures Pair(f, x) in pairs
  {
    var t :| PairTrail(pairs, t) && t[0] == f && t[|t| - 1] == x;
    JoinedAlong(pairs, t, |t| - 1);
    FirstIsKept(pairs, order, f);
    KeeperOf(Chosen(pairs), x);
    ChosenAreSome(pairs);
  }

  /** Every pair ends in one entity exactly when, in each component of the pairs, the first entity is paired with every
      other one. */
  lemma AllJoinedIff(pairs: seq<Pair>, order: seq<string>)
    requires Sorted(pairs, order)
    ensures AllJoined(pairs) <==> FirstMeetsAll(pairs, order)
  {
    if AllJoined(pairs) {
      forall f, x | IsFirst(pairs, order, f) && Linked(pairs, f, x) && f != x ensures Pair(f, x) in pairs {
        JoinedMeansMet(pairs, order, f, x);
      }
    }
    if FirstMeetsAll(pairs, order) {
      forall p | p in pairs ensures Keeper(Chosen(pairs), p.a) == Keeper(Chosen(pairs), p.b) {
        var f := FirstOf(pairs, order, p.a);
        LinkedBack(pairs, p.a, f);
        LinkedOneMore(pairs, f, p.a, p.b);
        FirstTakesAll(pairs, order, f, p.a);
        FirstTakesAll(pairs, order, f, p.b);
      }
    }
  }

  lemma KeepersSurvive(kb: KB, s: Progress, x: string)
    requires Safe(kb, s) && x in Ids(kb.entities)
    ensures Keeper(s.merges, x) in Ids(s.kb.entities)
  {
    KeeperOf(s.merges, x);
    if x in Consumed(s.merges) {
      var i :| 0 <= i < |s.merges| && s.merges[i] == Pair(Keeper(s.merges, x), x);
    }
  }

  /** For the workspace-wide merge: after it every candidate pair names one surviving entity exactly under that
      condition, and each entity's keeper survives in any case. */
  lemma AutoMergeJoinsIff(kb: KB, workspace: string, overlaps: (string, string) -> bool, verdict: Option<set<Pair>>,
                          flush: bool)
    requires Integrity(kb)
    ensures var pairs := CandidatePairs(kb.entities, workspace, overlaps, verdict);
            AllJoined(pairs) <==> FirstMeetsAll(pairs, MergeOrder(Groups(kb.entities, workspace)))
    ensures var s := MergePairs(kb, CandidatePairs(kb.entities, workspace, overlaps, verdict), flush);
            && s.merges == Chosen(CandidatePairs(kb.entities, workspace, overlaps, verdict))
            && forall x :: x in Ids(kb.entities) ==> Keeper(s.merges, x) in Ids(s.kb.entities)
  {
    var pairs := CandidatePairs(kb.entities, workspace, overlaps, verdict);
    CandidatePairsSorted(kb.entities, workspace, overlaps, verdict);
    AllJoinedIff(pairs, MergeOrder(Groups(kb.entities, workspace)));
    MergesAreKept(kb, workspace, overlaps, verdict, pairs, flush);
  }

  lemma MergesAreKept(kb: KB, workspace: string, overlaps: (string, string) -> bool, verdict: Option<set<Pair>>,
                      pairs: seq<Pair>, flush: bool)
    requires Integrity(kb) && pairs == CandidatePairs(kb.entities, workspace, overlaps, verdict)
    ensures var s := MergePairs(kb, pairs, flush);
            s.merges == Chosen(pairs) && forall x :: x in Ids(kb.entities) ==> Keeper(s.merges, x) in Ids(s.kb.entities)
  {
    MergesAreChosen(kb, pairs, flush);
    AutoMergeNeverTrips(kb, workspace, overlaps, verdict, flush);
    forall x | x in Ids(kb.entities)
      ensures Keeper(MergePairs(kb, pairs, flush).merges, x) in Ids(MergePairs(kb, pairs, flush).kb.entities)
    {
      KeepersSurvive(kb, MergePairs(kb, pairs, flush), x);
    }
  }

  /** Three entities of one type in a row, of which only neighbours overlap: the second pair is left apart. */
  lemma RowOfThreeIsLeftApart(a: Entity, b: Entity, c: Entity, overlaps: (string, string) -> bool)
    requires a.workspace == b.workspace == c.workspace && a.typeId == b.typeId == c.typeId
    requires a.id != b.id && b.id != c.id && a.id != c.id
    requires overlaps(a.name, b.name) && overlaps(b.name, c.name) && !overlaps(a.name, c.name)
    ensures var pairs := CandidatePairs([a, b, c], a.workspace, overlaps, None);
            && pairs == [Pair(a.id, b.id), Pair(b.id, c.id)] && Chosen(pairs) == [Pair(a.id, b.id)]
            && Keeper(Chosen(pairs), b.id) == a.id && Keeper(Chosen(pairs), c.id) == c.id && !AllJoined(pairs)
  {
    GroupsOfThree(a, b, c);
    PairsOfThree(a, b, c, overlaps);
    var p, q := Pair(a.id, b.id), Pair(b.id, c.id);
    assert [p, q][..1] == [p] && [p][..0] == [];
    assert [p][0] == p && p in [p] && p.b in Consumed([p]);
    assert Chosen([p]) == [p] && Consumed([p]) == {b.id};
    assert q in [p, q];
  }

  lemma PairsOfThree(a: Entity, b: Entity, c: Entity, overlaps: (string, string) -> bool)
    requires overlaps(a.name, b.name) && overlaps(b.name, c.name) && !overlaps(a.name, c.name)
    ensures AllPairs([[a, b, c]], overlaps) == [Pair(a.id, b.id), Pair(b.id, c.id)]
  {
    assert [a, b, c][1..] == [b, c] && [b, c][1..] == [c] && [c][1..] == [];
    assert PairsWith(c, [], overlaps) == [] && PairsWith(b, [c], overlaps) == [Pair(b.id, c.id)];
    assert PairsWith(a, [], overlaps) == [] && PairsWith(a, [c], overlaps) == [];
    assert PairsWith(a, [b, c], overlaps) == [Pair(a.id, b.id)] + PairsWith(a, [c], overlaps);
    assert GroupPairs([], overlaps) == [] && GroupPairs([c], overlaps) == [];
    assert GroupPairs([b, c], overlaps) == PairsWith(b, [c], overlaps) + GroupPairs([c], overlaps);
    assert GroupPairs([a, b, c], overlaps) == PairsWith(a, [b, c], overlaps) + GroupPairs([b, c], overlaps);
    assert [[a, b, c]][1..] == [];
  }

  lemma GroupsOfThree(a: Entity, b: Entity, c: Entity)
    requires a.workspace == b.workspace == c.workspace && a.typeId == b.typeId == c.typeId
    ensures Groups([a, b, c], a.workspace) == [[a, b, c]]
  {
    WhereAll([a, b, c], WorkspaceTest(a.workspace));
    OneTypeOneGroup([a, b, c], a.typeId);
  }

  lemma {:induction false} OneTypeOneGroup(es: seq<Entity>, typeId: string)
    requires es != [] && forall e :: e in es ==> e.typeId == typeId
    ensures ByType(es).order == [typeId] && ByType(es).at == map[typeId := es] && ByType(es).Values() == [es]
  {
    var front, last := es[..|es| - 1], es[|es| - 1];
    SplitLast(es);
    if front != [] { OneTypeOneGroup(front, typeId); }
  }
}
