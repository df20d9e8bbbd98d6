/** Max-fusion of two ranked lists, and why cutting each list first loses nothing. */
module Retrieval {
  import opened OrderedDict
  import opened Ranking
  import opened Sequences

  datatype Origin = Row | Keyword | Vector

  datatype SearchHit = SearchHit(chunk: string, document: string, content: string, score: real, origin: Origin)

  /** What a keyword hit is worth over a vector hit. */
  const KEYWORD_BONUS := 0.05

  function Score(): SearchHit -> real { (h: SearchHit) => h.score }

  function Scores(hs: seq<SearchHit>): seq<real> { seq(|hs|, i requires 0 <= i < |hs| => hs[i].score) }

  function Top(hs: seq<SearchHit>, limit: int): seq<SearchHit> { Slice(SortDesc(hs, Score()), limit) }

  ghost predicate OnePerChunk(hs: seq<SearchHit>) {
    forall i, j :: 0 <= i < j < |hs| ==> hs[i].chunk != hs[j].chunk
  }

  /** A keyword hit as it enters the merge. */
  function Boosted(h: SearchHit): SearchHit {
    SearchHit(h.chunk, h.document, h.content, h.score + KEYWORD_BONUS, Keyword)
  }

  function PutKeyword(ks: seq<SearchHit>): (d: Dict<SearchHit>)
    ensures d.Valid() && forall c :: c in d.at ==> d.at[c].chunk == c
  {
    if ks == [] then Empty()
    else
      var h := ks[|ks| - 1];
      PutKeyword(ks[..|ks| - 1]).Put(h.chunk, Boosted(h))
  }

  /** A vector hit replaces a record only if it scores strictly better. */
  function Raise(d: Dict<SearchHit>, h: SearchHit): Dict<SearchHit> {
    if h.chunk !in d.at || h.score > d.at[h.chunk].score then d.Put(h.chunk, h.(origin := Vector)) else d
  }

  function PutVector(d: Dict<SearchHit>, vs: seq<SearchHit>): (r: Dict<SearchHit>)
    requires d.Valid() && forall c :: c in d.at ==> d.at[c].chunk == c
    ensures r.Valid() && forall c :: c in r.at ==> r.at[c].chunk == c
  {
    if vs == [] then d else Raise(PutVector(d, vs[..|vs| - 1]), vs[|vs| - 1])
  }

  /** The merged dictionary of `_hybrid_search`. */
  function Fuse(ks: seq<SearchHit>, vs: seq<SearchHit>): (r: Dict<SearchHit>)
    ensures r.Valid() && forall c :: c in r.at ==> r.at[c].chunk == c
  {
    PutVector(PutKeyword(ks), vs)
  }

  /** What the source computes: cut both lists, merge, sort, cut again. */
  function Hybrid(ks: seq<SearchHit>, vs: seq<SearchHit>, limit: int): seq<SearchHit> {
    Top(Fuse(Top(ks, limit), Top(vs, limit)).Values(), limit)
  }

  /** The chunks that some hit scores at `t` or better. */
  ghost function Above(hs: seq<SearchHit>, t: real): set<string> { set h | h in hs && h.score >= t :: h.chunk }

  ghost function AboveIn(d: Dict<SearchHit>, t: real): set<string> { set c | c in d.at && d.at[c].score >= t }

  // ----- fusion in terms of thresholds -----

  lemma PutAbove(d: Dict<SearchHit>, k: string, h: SearchHit, t: real)
    requires k !in d.at
    ensures AboveIn(d.Put(k, h), t) == AboveIn(d, t) + if h.score >= t then {k} else {}
  {
  }

  lemma RaiseAbove(d: Dict<SearchHit>, h: SearchHit, t: real)
    ensures AboveIn(Raise(d, h), t) == AboveIn(d, t) + if h.score >= t then {h.chunk} else {}
  {
  }

  lemma {:induction false} KeywordAbove(ks: seq<SearchHit>, t: real)
    requires OnePerChunk(ks)
    ensures AboveIn(PutKeyword(ks), t) == Above(ks, t - KEYWORD_BONUS)
  {
    if ks != [] {
      var rest, h := ks[..|ks| - 1], ks[|ks| - 1];
      KeywordAbove(rest, t);
      LastAbove(ks, t - KEYWORD_BONUS);
      KeywordKeys(rest);
      assert h.chunk !in PutKeyword(rest).at;
      PutAbove(PutKeyword(rest), h.chunk, Boosted(h), t);
    }
  }

  ghost function Chunks(hs: seq<SearchHit>): set<string> { set h | h in hs :: h.chunk }

  lemma LastChunk(hs: seq<SearchHit>)
    requires hs != []
    ensures Chunks(hs) == Chunks(hs[..|hs| - 1]) + {hs[|hs| - 1].chunk}
  {
    assert hs == hs[..|hs| - 1] + [hs[|hs| - 1]];
  }

  lemma {:induction false} KeywordKeys(ks: seq<SearchHit>)
    ensures PutKeyword(ks).at.Keys == Chunks(ks)
  {
    if ks != [] {
      KeywordKeys(ks[..|ks| - 1]);
      LastChunk(ks);
    }
  }

  lemma LastAbove(hs: seq<SearchHit>, t: real)
    requires hs != []
    ensures Above(hs, t) == Above(hs[..|hs| - 1], t) + if hs[|hs| - 1].score >= t then {hs[|hs| - 1].chunk} else {}
  {
    assert hs == hs[..|hs| - 1] + [hs[|hs| - 1]];
  }

  lemma {:induction false} VectorAbove(d: Dict<SearchHit>, vs: seq<SearchHit>, t: real)
    requires d.Valid() && forall c :: c in d.at ==> d.at[c].chunk == c
    ensures AboveIn(PutVector(d, vs), t) == AboveIn(d, t) + Above(vs, t)
  {
    if vs != [] {
      var rest, h := vs[..|vs| - 1], vs[|vs| - 1];
      VectorAbove(d, rest, t);
      LastAbove(vs, t);
      RaiseAbove(PutVector(d, rest), h, t);
    }
  }

  lemma ValuesAbove(d: Dict<SearchHit>, t: real)
    requires d.Valid() && forall c :: c in d.at ==> d.at[c].chunk == c
    ensures Above(d.Values(), t) == AboveIn(d, t) && OnePerChunk(d.Values())
  {
    forall c ensures c in Above(d.Values(), t) <==> c in AboveIn(d, t) {
      if c in AboveIn(d, t) { ValuesOf(d, d.at[c]); }
    }
  }

  /** A chunk's fused score reaches `t` exactly when its boosted keyword score or its vector score does. */
  lemma FuseAbove(ks: seq<SearchHit>, vs: seq<SearchHit>, t: real)
    requires OnePerChunk(ks)
    ensures Above(Fuse(ks, vs).Values(), t) == Above(ks, t - KEYWORD_BONUS) + Above(vs, t)
    ensures OnePerChunk(Fuse(ks, vs).Values())
  {
    KeywordAbove(ks, t);
    VectorAbove(PutKeyword(ks), vs, t);
    ValuesAbove(Fuse(ks, vs), t);
  }

  // ----- ranks in terms of thresholds -----

  ghost predicate Ranked(hs: seq<SearchHit>) {
    forall i, j :: 0 <= i < j < |hs| ==> hs[i].score >= hs[j].score
  }

  lemma LastIsNew(hs: seq<SearchHit>, t: real)
    requires OnePerChunk(hs) && hs != []
    ensures OnePerChunk(hs[..|hs| - 1])
    ensures |Above(hs, t)| == |Above(hs[..|hs| - 1], t)| + if hs[|hs| - 1].score >= t then 1 else 0
  {
    LastAbove(hs, t);
    assert hs[|hs| - 1].chunk !in Above(hs[..|hs| - 1], t);
  }

  /** In a ranked list, exactly the first |Above(t)| hits score `t` or better. */
  lemma {:induction false} RankByCount(hs: seq<SearchHit>, t: real)
    requires Ranked(hs) && OnePerChunk(hs)
    ensures |Above(hs, t)| <= |hs|
    ensures forall i :: 0 <= i < |hs| ==> (hs[i].score >= t <==> i < |Above(hs, t)|)
  {
    if hs != [] {
      var rest, h := hs[..|hs| - 1], hs[|hs| - 1];
      LastIsNew(hs, t);
      RankByCount(rest, t);
      var n := |Above(rest, t)|;
      assert h.score >= t && rest != [] ==> rest[|rest| - 1].score >= t;
      OneMoreRank(rest, n, h, t);
      SplitLast(hs);
    }
  }

  lemma OneMoreRank(rest: seq<SearchHit>, n: nat, h: SearchHit, t: real)
    requires n <= |rest| && forall i :: 0 <= i < |rest| ==> (rest[i].score >= t <==> i < n)
    requires h.score >= t ==> n == |rest|
    ensures forall i :: 0 <= i <= |rest| ==> ((rest + [h])[i].score >= t <==> i < if h.score >= t then n + 1 else n)
  {
  }

  lemma SortedIsRanked(hs: seq<SearchHit>)
    ensures Ranked(SortDesc(hs, Score())) && multiset(SortDesc(hs, Score())) == multiset(hs)
  {
    SortDescSorts(hs, Score());
    var ys := SortDesc(hs, Score());
    forall i, j | 0 <= i < j < |ys| ensures ys[i].score >= ys[j].score {
      assert Score()(ys[i]) >= Score()(ys[j]);
    }
  }

  lemma RearrangedAbove(xs: seq<SearchHit>, ys: seq<SearchHit>, t: real)
    requires multiset(xs) == multiset(ys)
    ensures Above(xs, t) == Above(ys, t)
  {
    assert forall h :: h in xs <==> h in multiset(xs);
    assert forall h :: h in ys <==> h in multiset(ys);
  }

  lemma OnePerChunkRearranged(xs: seq<SearchHit>, ys: seq<SearchHit>)
    requires multiset(xs) == multiset(ys) && OnePerChunk(xs)
    ensures OnePerChunk(ys)
  {
    DistinctCounts(xs);
    DistinctCounts(ys);
    forall i, j | 0 <= i < j < |ys| ensures ys[i].chunk != ys[j].chunk {
      assert ys[i] in multiset(xs) && ys[j] in multiset(xs);
      assert ys[i] != ys[j];
    }
  }

  /** A ranked and cut list: one hit a chunk, and either it kept every chunk above `t` or it is full of them. */
  lemma TopAbove(hs: seq<SearchHit>, limit: nat, t: real)
    requires OnePerChunk(hs)
    ensures Above(Top(hs, limit), t) <= Above(hs, t) && OnePerChunk(Top(hs, limit))
    ensures |Above(Top(hs, limit), t)| == if limit <= |Above(hs, t)| then limit else |Above(hs, t)|
    ensures Above(Top(hs, limit), t) == Above(hs, t) || |Above(Top(hs, limit), t)| >= limit
  {
    var sorted := SortDesc(hs, Score());
    var top := Top(hs, limit);
    SortedIsRanked(hs);
    RearrangedAbove(hs, sorted, t);
    OnePerChunkRearranged(hs, sorted);
    assert forall i :: 0 <= i < |top| ==> top[i] == sorted[i];
    RankByCount(sorted, t);
    RankByCount(top, t);
    assert Above(top, t) <= Above(sorted, t);
    var n := |Above(sorted, t)|;
    if n <= limit {
      forall c | c in Above(sorted, t) ensures c in Above(top, t) {
        var h :| h in sorted && h.score >= t && h.chunk == c;
        var i :| 0 <= i < |sorted| && sorted[i] == h;
        assert top[i] == h;
      }
      assert Above(top, t) == Above(sorted, t);
    } else {
      if limit > 0 { assert top[limit - 1].score >= t; }
    }
  }

  ghost predicate SameUpTo(xs: seq<SearchHit>, ys: seq<SearchHit>, limit: nat, t: real) {
    |Above(xs, t)| == |Above(ys, t)| || (|Above(xs, t)| >= limit && |Above(ys, t)| >= limit)
  }

  /** The two merges have, at every threshold, the same number of chunks above it, up to `limit`. */
  lemma SameCounts(ks: seq<SearchHit>, vs: seq<SearchHit>, limit: nat, t: real)
    requires OnePerChunk(ks) && OnePerChunk(vs)
    ensures SameUpTo(Fuse(Top(ks, limit), Top(vs, limit)).Values(), Fuse(ks, vs).Values(), limit, t)
  {
    var tk := t - KEYWORD_BONUS;
    TopAbove(ks, limit, tk);
    TopAbove(vs, limit, t);
    FuseAbove(ks, vs, t);
    FuseAbove(Top(ks, limit), Top(vs, limit), t);
    var cut := Above(Top(ks, limit), tk) + Above(Top(vs, limit), t);
    var full := Above(ks, tk) + Above(vs, t);
    SubsetCount(cut, full);
    SubsetCount(Above(Top(ks, limit), tk), cut);
    SubsetCount(Above(Top(vs, limit), t), cut);
  }

  /** Two ranked lists with the same counts up to `limit` have the same first `limit` scores. */
  lemma SameCountsSameScores(xs: seq<SearchHit>, ys: seq<SearchHit>, limit: nat)
    requires OnePerChunk(xs) && OnePerChunk(ys)
    requires forall t :: SameUpTo(xs, ys, limit, t)
    ensures Scores(Top(xs, limit)) == Scores(Top(ys, limit))
  {
    var sx, sy := SortDesc(xs, Score()), SortDesc(ys, Score());
    SortedIsRanked(xs);
    SortedIsRanked(ys);
    OnePerChunkRearranged(xs, sx);
    OnePerChunkRearranged(ys, sy);
    forall t ensures SameUpTo(sx, sy, limit, t) {
      RearrangedAbove(xs, sx, t);
      RearrangedAbove(ys, sy, t);
      assert SameUpTo(xs, ys, limit, t);
    }
    forall i ensures AtLeast(sx, sy, limit, i) && AtLeast(sy, sx, limit, i) {
      RankTransfers(sx, sy, limit, i);
      forall t ensures SameUpTo(sy, sx, limit, t) { assert SameUpTo(sx, sy, limit, t); }
      RankTransfers(sy, sx, limit, i);
    }
    CutsAgree(sx, sy, limit);
  }

  /** At position `i`, if it exists in `sx`, `sy` scores no less. */
  ghost predicate AtLeast(sx: seq<SearchHit>, sy: seq<SearchHit>, limit: nat, i: nat) {
    i < limit && i < |sx| ==> i < |sy| && sy[i].score >= sx[i].score
  }

  lemma CutsAgree(sx: seq<SearchHit>, sy: seq<SearchHit>, limit: nat)
    requires forall i :: AtLeast(sx, sy, limit, i) && AtLeast(sy, sx, limit, i)
    ensures Scores(Slice(sx, limit)) == Scores(Slice(sy, limit))
  {
    assert AtLeast(sx, sy, limit, |sy|) && AtLeast(sy, sx, limit, |sx|);
    forall i | 0 <= i < |Slice(sx, limit)| ensures i < |sy| && sx[i].score == sy[i].score {
      assert AtLeast(sx, sy, limit, i) && AtLeast(sy, sx, limit, i);
    }
  }

  lemma RankTransfers(sx: seq<SearchHit>, sy: seq<SearchHit>, limit: nat, i: nat)
    requires Ranked(sx) && Ranked(sy) && OnePerChunk(sx) && OnePerChunk(sy)
    requires forall t :: SameUpTo(sx, sy, limit, t)
    ensures AtLeast(sx, sy, limit, i)
  {
    if i < limit && i < |sx| {
      var t := sx[i].score;
      assert SameUpTo(sx, sy, limit, t);
      RankByCount(sx, t);
      RankByCount(sy, t);
    }
  }

  /** The hits have the scores of the best ones of the full merge. */
  ghost predicate Lossless(hits: seq<SearchHit>, ks: seq<SearchHit>, vs: seq<SearchHit>, limit: nat) {
    Scores(hits) == Scores(Top(Fuse(ks, vs).Values(), limit))
  }

  /** Cutting both lists to `limit` before the merge gives the same top scores as merging the full lists. */
  lemma TruncationLossless(ks: seq<SearchHit>, vs: seq<SearchHit>, limit: nat)
    requires OnePerChunk(ks) && OnePerChunk(vs)
    ensures Lossless(Hybrid(ks, vs, limit), ks, vs, limit)
  {
    TopAbove(ks, limit, 0.0);
    FuseAbove(ks, vs, 0.0);
    FuseAbove(Top(ks, limit), Top(vs, limit), 0.0);
    forall t ensures SameUpTo(Fuse(Top(ks, limit), Top(vs, limit)).Values(), Fuse(ks, vs).Values(), limit, t) {
      SameCounts(ks, vs, limit, t);
    }
    SameCountsSameScores(Fuse(Top(ks, limit), Top(vs, limit)).Values(), Fuse(ks, vs).Values(), limit);
  }

  /** If the cut merge under-scores a chunk, it already holds `limit` chunks scoring better. */
  lemma UnderScoredIsCrowdedOut(ks: seq<SearchHit>, vs: seq<SearchHit>, limit: nat, c: string, t: real)
    requires OnePerChunk(ks) && OnePerChunk(vs)
    requires c in Above(Fuse(ks, vs).Values(), t) && c !in Above(Fuse(Top(ks, limit), Top(vs, limit)).Values(), t)
    ensures |Above(Fuse(Top(ks, limit), Top(vs, limit)).Values(), t)| >= limit
  {
    var tk := t - KEYWORD_BONUS;
    TopAbove(ks, limit, tk);
    TopAbove(vs, limit, t);
    FuseAbove(ks, vs, t);
    FuseAbove(Top(ks, limit), Top(vs, limit), t);
    var cut := Above(Top(ks, limit), tk) + Above(Top(vs, limit), t);
    SubsetCount(Above(Top(ks, limit), tk), cut);
    SubsetCount(Above(Top(vs, limit), t), cut);
  }

  /** Every returned hit carries the score of the full merge, although it was computed from the cut lists. */
  lemma ReturnedScoreIsFull(ks: seq<SearchHit>, vs: seq<SearchHit>, limit: nat, i: nat)
    requires OnePerChunk(ks) && OnePerChunk(vs) && i < |Hybrid(ks, vs, limit)|
    ensures var h := Hybrid(ks, vs, limit)[i];
            h.chunk in Fuse(ks, vs).at && Fuse(ks, vs).at[h.chunk].score == h.score
  {
    var cut, full := Fuse(Top(ks, limit), Top(vs, limit)), Fuse(ks, vs);
    var sorted := SortDesc(cut.Values(), Score());
    var h := Hybrid(ks, vs, limit)[i];
    SortedIsRanked(cut.Values());
    assert h == sorted[i] && h in multiset(sorted);
    ValuesOf(cut, h);
    var c := h.chunk;
    CutBelowFull(ks, vs, limit, h.score);
    ValuesAbove(cut, h.score);
    ValuesAbove(full, h.score);
    assert c in AboveIn(cut, h.score);
    var f := full.at[c].score;
    if f > h.score {
      ValuesAbove(cut, f);
      ValuesAbove(full, f);
      UnderScoredIsCrowdedOut(ks, vs, limit, c, f);
      OnePerChunkRearranged(cut.Values(), sorted);
      RearrangedAbove(cut.Values(), sorted, f);
      RankByCount(sorted, f);
    }
  }

  lemma CutBelowFull(ks: seq<SearchHit>, vs: seq<SearchHit>, limit: nat, t: real)
    requires OnePerChunk(ks) && OnePerChunk(vs)
    ensures Above(Fuse(Top(ks, limit), Top(vs, limit)).Values(), t) <= Above(Fuse(ks, vs).Values(), t)
  {
    TopAbove(ks, limit, t - KEYWORD_BONUS);
    TopAbove(vs, limit, t);
    FuseAbove(ks, vs, t);
    FuseAbove(Top(ks, limit), Top(vs, limit), t);
  }

  // ----- single lists -----

  /** What a bare keyword or vector search keeps: the best `limit` hits, in order. */
  lemma TopIsBest(hs: seq<SearchHit>, limit: nat, a: SearchHit, b: SearchHit)
    requires a in Top(hs, limit) && b in hs && b !in Top(hs, limit)
    ensures a.score >= b.score && |Top(hs, limit)| == limit
  {
    var sorted := SortDesc(hs, Score());
    SortedIsRanked(hs);
    assert b in multiset(sorted);
    var j :| 0 <= j < |sorted| && sorted[j] == b;
    var i :| 0 <= i < |Top(hs, limit)| && Top(hs, limit)[i] == a;
    assert sorted[i] == a;
    assert forall k :: 0 <= k < |Top(hs, limit)| ==> Top(hs, limit)[k] == sorted[k];
    assert j >= |Top(hs, limit)|;
  }
}
