/** Evidence anchors, from their validation in the back end to the highlights of the reader page. */
module Anchors {
  import opened OrderedDict
  import opened Ranking
  import opened Sequences
  import T = Text

  /** The fields of an insight draft that anchoring reads. */
  datatype Draft = Draft(chunkId: string, evidence: string, start: nat, end: nat)

  /** What the draft's schema enforces: some evidence, and increasing offsets. */
  predicate WellFormed(d: Draft) { d.evidence != "" && d.start < d.end }

  datatype Anchor = Anchor(start: nat, end: nat)

  /** Keep the claimed offsets if they slice out the evidence; else relocate to its only occurrence; else reject. */
  function ValidateAnchor(content: string, d: Draft): Option<Anchor> {
    if T.Slice(content, d.start, d.end) == d.evidence then Some(Anchor(d.start, d.end))
    else
      var first := T.Find(content, d.evidence, 0);
      if first < 0 || T.Find(content, d.evidence, first + 1) >= 0 then None
      else Some(Anchor(first, first + |d.evidence|))
  }

  ghost predicate OnlyOccurrence(content: string, part: string, at: int) {
    T.Occurs(content, part, at) && forall i :: T.Occurs(content, part, i) ==> i == at
  }

  ghost predicate OccursOnce(content: string, part: string) { exists at :: OnlyOccurrence(content, part, at) }

  /** Looking for a first and a second occurrence decides whether there is exactly one. */
  lemma SearchedTwice(content: string, part: string, first: int)
    requires first == T.Find(content, part, 0)
    ensures first >= 0 && T.Find(content, part, first + 1) < 0 ==> OnlyOccurrence(content, part, first)
    ensures OccursOnce(content, part) ==> first >= 0 && T.Find(content, part, first + 1) < 0
  {
    if first >= 0 && T.Find(content, part, first + 1) < 0 {
      assert OnlyOccurrence(content, part, first);
    } else if first >= 0 {
      var second := T.Find(content, part, first + 1);
      assert T.Occurs(content, part, second) && T.Occurs(content, part, first) && first != second;
    }
  }

  /** Offsets that slice out some evidence start at an occurrence of it, and end at its end or beyond the text. */
  lemma SliceOccurs(content: string, evidence: string, start: nat, end: nat)
    requires evidence != "" && T.Slice(content, start, end) == evidence
    ensures T.Occurs(content, evidence, start) && (end <= |content| ==> end == start + |evidence|)
  {
  }

  lemma OccurrenceSlices(content: string, part: string, at: nat)
    requires T.Occurs(content, part, at)
    ensures T.Slice(content, at, at + |part|) == part
  {
  }

  /** An accepted anchor starts at an occurrence of the evidence and slices it out; a relocated one is at the only
      occurrence, overlapping ones counted. A draft is rejected exactly when its own offsets are wrong and the
      evidence occurs nowhere or more than once. */
  lemma AnchorsHoldEvidence(content: string, d: Draft)
    requires WellFormed(d)
    ensures var a := ValidateAnchor(content, d);
            && (a.Some? ==> a.value.start < a.value.end && T.Occurs(content, d.evidence, a.value.start)
                            && T.Slice(content, a.value.start, a.value.end) == d.evidence)
            && (a.Some? && a.value != Anchor(d.start, d.end)
                ==> OnlyOccurrence(content, d.evidence, a.value.start) && a.value.end == a.value.start + |d.evidence|)
            && (a.None? <==> T.Slice(content, d.start, d.end) != d.evidence && !OccursOnce(content, d.evidence))
  {
    if T.Slice(content, d.start, d.end) == d.evidence {
      SliceOccurs(content, d.evidence, d.start, d.end);
    } else {
      var first := T.Find(content, d.evidence, 0);
      SearchedTwice(content, d.evidence, first);
      if first >= 0 { OccurrenceSlices(content, d.evidence, first); }
    }
  }

  /** Python clamps a slice, so claimed offsets that overshoot the chunk can be accepted: an accepted anchor lies
      inside the chunk exactly when it is not such a claim. */
  lemma AnchorInsideUnlessClaimOvershoots(content: string, d: Draft)
    requires WellFormed(d) && ValidateAnchor(content, d).Some?
    ensures var a := ValidateAnchor(content, d).value;
            a.end <= |content| <==> !(T.Slice(content, d.start, d.end) == d.evidence && d.end > |content|)
  {
    AnchorsHoldEvidence(content, d);
  }

  /** The input: evidence that ends the chunk, claimed with any later end, is accepted with that end. */
  lemma OvershootingClaimIsAccepted(before: string, evidence: string, excess: nat)
    requires evidence != "" && excess > 0
    ensures var content := before + evidence;
            var claim := Draft("", evidence, |before|, |content| + excess);
            WellFormed(claim) && ValidateAnchor(content, claim) == Some(Anchor(|before|, |content| + excess))
  {
    var content := before + evidence;
    assert T.Slice(content, |before|, |content| + excess) == evidence;
  }

  // ----- the loop of run_analysis that keeps anchored drafts -----

  datatype ReaderChunk = ReaderChunk(id: string, content: string)

  /** A stored insight. Offsets are plain integers to the reader page. */
  datatype Insight = Insight(chunkId: string, start: int, end: int, evidence: string)

  function ChunkInsights(chunk: ReaderChunk, drafts: seq<Draft>): seq<Insight> {
    if drafts == [] then []
    else
      var d := drafts[|drafts| - 1];
      var a := ValidateAnchor(chunk.content, d);
      ChunkInsights(chunk, drafts[..|drafts| - 1])
      + if d.chunkId == chunk.id && a.Some? then [Insight(chunk.id, a.value.start, a.value.end, d.evidence)] else []
  }

  function AllInsights(chunks: seq<ReaderChunk>, results: seq<seq<Draft>>): seq<Insight>
    requires |chunks| == |results|
  {
    if chunks == [] then []
    else
      var n := |chunks| - 1;
      AllInsights(chunks[..n], results[..n]) + ChunkInsights(chunks[n], results[n])
  }

  // ----- which drafts are stored, in plain terms -----

  ghost predicate StandsAt(content: string, part: string, at: int) {
    0 <= at && at + |part| <= |content| && forall i :: 0 <= i < |part| ==> content[at + i] == part[i]
  }

  ghost predicate OnlyPlace(content: string, part: string, at: int) {
    StandsAt(content, part, at) && forall i :: StandsAt(content, part, i) ==> i == at
  }

  /** The evidence stands at the claimed start and ends at the claimed end, or at the end of the chunk before it. */
  ghost predicate ClaimHolds(content: string, d: Draft) {
    && StandsAt(content, d.evidence, d.start)
    && (d.end == d.start + |d.evidence| || (d.end > |content| && |content| == d.start + |d.evidence|))
  }

  /** A draft for this chunk whose claim holds, or whose evidence stands at one place only. */
  ghost predicate Accepted(chunk: ReaderChunk, d: Draft) {
    d.chunkId == chunk.id && (ClaimHolds(chunk.content, d) || exists at :: OnlyPlace(chunk.content, d.evidence, at))
  }

  /** The insight has the draft's evidence, at the claimed offsets if the claim holds, else at its only place. */
  ghost predicate Records(chunk: ReaderChunk, d: Draft, x: Insight) {
    && x.chunkId == chunk.id && x.evidence == d.evidence
    && if ClaimHolds(chunk.content, d) then x.start == d.start && x.end == d.end
       else OnlyPlace(chunk.content, d.evidence, x.start) && x.end == x.start + |d.evidence|
  }

  /** `from` says which drafts the insights stem from, in order: exactly the accepted ones. */
  ghost predicate RecordsFrom(chunk: ReaderChunk, drafts: seq<Draft>, xs: seq<Insight>, from: seq<nat>) {
    && |from| == |xs| && Increasing(from)
    && (forall n :: 0 <= n < |from| ==> from[n] < |drafts| && Records(chunk, drafts[from[n]], xs[n]))
    && (forall j :: 0 <= j < |drafts| ==> (j in from <==> Accepted(chunk, drafts[j])))
  }

  ghost predicate RecordsAccepted(chunk: ReaderChunk, drafts: seq<Draft>, xs: seq<Insight>) {
    exists from :: RecordsFrom(chunk, drafts, xs, from)
  }

  ghost function Concat(parts: seq<seq<Insight>>): seq<Insight> {
    if parts == [] then [] else Concat(parts[..|parts| - 1]) + parts[|parts| - 1]
  }

  /** Chunk by chunk, in order, exactly the accepted drafts are stored. */
  ghost predicate StoresAccepted(chunks: seq<ReaderChunk>, results: seq<seq<Draft>>, persisted: seq<Insight>)
    requires |chunks| == |results|
  {
    exists parts :: |parts| == |chunks| && persisted == Concat(parts)
        && forall k :: 0 <= k < |parts| ==> RecordsAccepted(chunks[k], results[k], parts[k])
  }

  ghost predicate AllWellFormed(results: seq<seq<Draft>>) {
    forall k, d :: 0 <= k < |results| && d in results[k] ==> WellFormed(d)
  }

  lemma StandsIff(content: string, part: string, at: int)
    ensures StandsAt(content, part, at) <==> T.Occurs(content, part, at)
  {
    if StandsAt(content, part, at) { assert content[at..at + |part|] == part; }
    if T.Occurs(content, part, at) {
      forall i | 0 <= i < |part| ensures content[at + i] == part[i] { assert content[at..at + |part|][i] == part[i]; }
    }
  }

  lemma OnlyPlaceIff(content: string, part: string, at: int)
    ensures OnlyPlace(content, part, at) <==> OnlyOccurrence(content, part, at)
  {
    forall i ensures StandsAt(content, part, i) <==> T.Occurs(content, part, i) { StandsIff(content, part, i); }
  }

  lemma ClaimIff(content: string, d: Draft)
    requires WellFormed(d)
    ensures ClaimHolds(content, d) <==> T.Slice(content, d.start, d.end) == d.evidence
  {
    StandsIff(content, d.evidence, d.start);
    if T.Slice(content, d.start, d.end) == d.evidence { SliceOccurs(content, d.evidence, d.start, d.end); }
  }

  lemma AcceptedIff(chunk: ReaderChunk, d: Draft)
    requires WellFormed(d)
    ensures Accepted(chunk, d) <==> d.chunkId == chunk.id && ValidateAnchor(chunk.content, d).Some?
    ensures Accepted(chunk, d) ==>
              var a := ValidateAnchor(chunk.content, d).value;
              Records(chunk, d, Insight(chunk.id, a.start, a.end, d.evidence))
  {
    AnchorsHoldEvidence(chunk.content, d);
    ClaimIff(chunk.content, d);
    forall at ensures OnlyPlace(chunk.content, d.evidence, at) <==> OnlyOccurrence(chunk.content, d.evidence, at) {
      OnlyPlaceIff(chunk.content, d.evidence, at);
    }
    if at :| OnlyPlace(chunk.content, d.evidence, at) { assert OccursOnce(chunk.content, d.evidence); }
  }

  lemma RecordsOneMore(chunk: ReaderChunk, drafts: seq<Draft>, xs: seq<Insight>, from: seq<nat>, d: Draft)
    requires RecordsFrom(chunk, drafts, xs, from)
    ensures !Accepted(chunk, d) ==> RecordsFrom(chunk, drafts + [d], xs, from)
    ensures forall x :: Accepted(chunk, d) && Records(chunk, d, x) ==>
              RecordsFrom(chunk, drafts + [d], xs + [x], from + [|drafts|])
  {
    assert (from + [|drafts|])[|from|] == |drafts|;
    forall j | 0 <= j < |drafts| ensures j in from + [|drafts|] <==> j in from {
    }
  }

  lemma InsightsOneMore(chunk: ReaderChunk, front: seq<Draft>, d: Draft)
    requires WellFormed(d)
    ensures Accepted(chunk, d) ==> ValidateAnchor(chunk.content, d).Some?
    ensures var xs, a := ChunkInsights(chunk, front), ValidateAnchor(chunk.content, d);
            ChunkInsights(chunk, front + [d])
            == if Accepted(chunk, d) then xs + [Insight(chunk.id, a.value.start, a.value.end, d.evidence)] else xs
  {
    assert (front + [d])[..|front|] == front;
    AcceptedIff(chunk, d);
  }

  lemma StoresOneMore(chunk: ReaderChunk, front: seq<Draft>, d: Draft)
    requires WellFormed(d) && RecordsAccepted(chunk, front, ChunkInsights(chunk, front))
    ensures RecordsAccepted(chunk, front + [d], ChunkInsights(chunk, front + [d]))
  {
    var xs := ChunkInsights(chunk, front);
    var from: seq<nat> :| RecordsFrom(chunk, front, xs, from);
    AcceptedIff(chunk, d);
    InsightsOneMore(chunk, front, d);
    RecordsOneMore(chunk, front, xs, from, d);
    if Accepted(chunk, d) {
      assert RecordsFrom(chunk, front + [d], ChunkInsights(chunk, front + [d]), from + [|front|]);
    } else {
      assert RecordsFrom(chunk, front + [d], xs, from);
    }
  }

  lemma {:induction false} ChunkStoresAccepted(chunk: ReaderChunk, drafts: seq<Draft>)
    requires forall d :: d in drafts ==> WellFormed(d)
    ensures RecordsAccepted(chunk, drafts, ChunkInsights(chunk, drafts))
  {
    if drafts == [] {
      assert RecordsFrom(chunk, drafts, ChunkInsights(chunk, drafts), []);
    } else {
      ChunkStoresAccepted(chunk, drafts[..|drafts| - 1]);
      StoresOneMore(chunk, drafts[..|drafts| - 1], drafts[|drafts| - 1]);
      SplitLast(drafts);
    }
  }

  lemma {:induction false} InsightsByChunk(chunks: seq<ReaderChunk>, results: seq<seq<Draft>>)
    returns (parts: seq<seq<Insight>>)
    requires |chunks| == |results| && AllWellFormed(results)
    ensures |parts| == |chunks| && AllInsights(chunks, results) == Concat(parts)
    ensures forall k :: 0 <= k < |parts| ==> RecordsAccepted(chunks[k], results[k], parts[k])
  {
    if chunks == [] {
      parts := [];
    } else {
      var n := |chunks| - 1;
      assert forall k :: 0 <= k < n ==> results[..n][k] == results[k] && chunks[..n][k] == chunks[k];
      var front := InsightsByChunk(chunks[..n], results[..n]);
      ChunkStoresAccepted(chunks[n], results[n]);
      parts := front + [ChunkInsights(chunks[n], results[n])];
      assert parts[..n] == front;
    }
  }

  /** `results[i]` is what the language model answered for `chunks[i]`. */
  method RunAnalysis(chunks: seq<ReaderChunk>, results: seq<seq<Draft>>) returns (persisted: seq<Insight>)
    requires |chunks| == |results|
    ensures persisted == AllInsights(chunks, results)
    ensures AllWellFormed(results) ==> StoresAccepted(chunks, results, persisted)
  {
    if AllWellFormed(results) { ghost var parts := InsightsByChunk(chunks, results); }
    persisted := [];
    for i := 0 to |chunks|
      invariant persisted == AllInsights(chunks[..i], results[..i])
    {
      assert chunks[..i + 1][..i] == chunks[..i] && results[..i + 1][..i] == results[..i];
      ghost var before := persisted;
      for j := 0 to |results[i]|
        invariant persisted == before + ChunkInsights(chunks[i], results[i][..j])
      {
        assert results[i][..j + 1][..j] == results[i][..j];
        var draft := results[i][j];
        if draft.chunkId == chunks[i].id {
          var anchor := ValidateAnchor(chunks[i].content, draft);
          if anchor.Some? {
            persisted := persisted + [Insight(chunks[i].id, anchor.value.start, anchor.value.end, draft.evidence)];
          }
        }
      }
      assert results[i][..|results[i]|] == results[i];
    }
    assert chunks[..|chunks|] == chunks && results[..|results|] == results;
  }

  /** What holds of every stored insight of a chunk. */
  ghost predicate Anchored(content: string, i: Insight) {
    0 <= i.start < i.end && T.Slice(content, i.start, i.end) == i.evidence
  }

  lemma {:induction false} ChunkInsightsAnchored(chunk: ReaderChunk, drafts: seq<Draft>)
    requires forall d :: d in drafts ==> WellFormed(d)
    ensures forall x :: x in ChunkInsights(chunk, drafts) ==> x.chunkId == chunk.id && Anchored(chunk.content, x)
  {
    if drafts != [] {
      var d := drafts[|drafts| - 1];
      ChunkInsightsAnchored(chunk, drafts[..|drafts| - 1]);
      AnchorsHoldEvidence(chunk.content, d);
    }
  }

  /** Every insight of an analysis belongs to one of its chunks and is anchored in a chunk of that id. */
  lemma {:induction false} AllInsightsAnchored(chunks: seq<ReaderChunk>, results: seq<seq<Draft>>)
    requires |chunks| == |results| && forall k :: 0 <= k < |results| ==> forall d :: d in results[k] ==> WellFormed(d)
    ensures forall x :: x in AllInsights(chunks, results) ==>
              exists k :: 0 <= k < |chunks| && chunks[k].id == x.chunkId && Anchored(chunks[k].content, x)
  {
    if chunks != [] {
      var n := |chunks| - 1;
      AllInsightsAnchored(chunks[..n], results[..n]);
      ChunkInsightsAnchored(chunks[n], results[n]);
      forall x | x in AllInsights(chunks, results)
        ensures exists k :: 0 <= k < |chunks| && chunks[k].id == x.chunkId && Anchored(chunks[k].content, x)
      {
        if x in AllInsights(chunks[..n], results[..n]) {
          var k :| 0 <= k < n && chunks[..n][k].id == x.chunkId && Anchored(chunks[..n][k].content, x);
          assert chunks[k].id == x.chunkId;
        } else {
          assert x in ChunkInsights(chunks[n], results[n]);
        }
      }
    }
  }

  // ----- renderChunk -----

  datatype Fragment = Plain(text: string) | Highlight(insight: Insight, text: string)

  /** JavaScript's `s.slice(a, b)`: negative bounds count from the end, all are clamped. */
  function JsSlice(s: string, a: int, b: int): string {
    var lo, hi := JsBound(s, a), JsBound(s, b);
    if lo <= hi then s[lo..hi] else ""
  }

  function JsBound(s: string, a: int): (n: nat)
    ensures n <= |s|
  {
    if a < 0 then (if |s| + a < 0 then 0 else |s| + a) else if a > |s| then |s| else a
  }

  predicate InRange(content: string, i: Insight) { i.start >= 0 && i.end <= |content| }

  function RangeTest(content: string): Insight -> bool { (i: Insight) => InRange(content, i) }

  function ByStart(): Insight -> real { (i: Insight) => -(i.start as real) }

  /** Filtered and sorted, as the page does before it renders. */
  function Placed(content: string, insights: seq<Insight>): seq<Insight> {
    SortDesc(Where(insights, RangeTest(content)), ByStart())
  }

  function RenderFrom(content: string, anchors: seq<Insight>, cursor: int): seq<Fragment>
    decreases |anchors|
  {
    if anchors == [] then [Plain(JsSlice(content, cursor, |content|))]
    else
      var a := anchors[0];
      if a.start < cursor then RenderFrom(content, anchors[1..], cursor)
      else
        [Plain(JsSlice(content, cursor, a.start)), Highlight(a, JsSlice(content, a.start, a.end))]
        + RenderFrom(content, anchors[1..], a.end)
  }

  lemma RenderNext(content: string, anchors: seq<Insight>, i: nat, cursor: int)
    requires i < |anchors|
    ensures RenderFrom(content, anchors[i..], cursor) ==
            if anchors[i].start < cursor then RenderFrom(content, anchors[i + 1..], cursor)
            else [Plain(JsSlice(content, cursor, anchors[i].start)),
                  Highlight(anchors[i], JsSlice(content, anchors[i].start, anchors[i].end))]
                 + RenderFrom(content, anchors[i + 1..], anchors[i].end)
  {
    assert anchors[i..][0] == anchors[i] && anchors[i..][1..] == anchors[i + 1..];
  }

  method RenderChunk(content: string, insights: seq<Insight>) returns (nodes: seq<Fragment>)
    ensures nodes == RenderFrom(content, Placed(content, insights), 0)
  {
    var anchors := Placed(content, insights);
    nodes := [];
    var cursor := 0;
    for i := 0 to |anchors|
      invariant nodes + RenderFrom(content, anchors[i..], cursor) == RenderFrom(content, anchors, 0)
    {
      var insight := anchors[i];
      RenderNext(content, anchors, i, cursor);
      if insight.start < cursor {
        continue;
      }
      nodes := nodes + [Plain(JsSlice(content, cursor, insight.start)),
                        Highlight(insight, JsSlice(content, insight.start, insight.end))];
      cursor := insight.end;
    }
    nodes := nodes + [Plain(JsSlice(content, cursor, |content|))];
  }

  function TextOf(fs: seq<Fragment>): string {
    if fs == [] then "" else fs[0].text + TextOf(fs[1..])
  }

  /** The highlighted insights, in order. */
  function Kept(anchors: seq<Insight>, cursor: int): seq<Insight>
    decreases |anchors|
  {
    if anchors == [] then []
    else if anchors[0].start < cursor then Kept(anchors[1..], cursor)
    else [anchors[0]] + Kept(anchors[1..], anchors[0].end)
  }

  function Highlights(fs: seq<Fragment>): seq<Fragment> {
    if fs == [] then [] else (if fs[0].Highlight? then [fs[0]] else []) + Highlights(fs[1..])
  }

  function Marks(content: string, kept: seq<Insight>): (fs: seq<Fragment>)
    ensures |fs| == |kept|
    ensures forall i :: 0 <= i < |kept| ==> fs[i] == Highlight(kept[i], JsSlice(content, kept[i].start, kept[i].end))
  {
    if kept == [] then []
    else [Highlight(kept[0], JsSlice(content, kept[0].start, kept[0].end))] + Marks(content, kept[1..])
  }

  ghost predicate Forward(content: string, anchors: seq<Insight>) {
    forall i :: 0 <= i < |anchors| ==> 0 <= anchors[i].start < anchors[i].end <= |content|
  }

  /** Nothing of the chunk is lost, repeated or reordered by highlighting. */
  lemma {:induction false} RenderIsLossless(content: string, anchors: seq<Insight>, cursor: nat)
    requires Forward(content, anchors) && cursor <= |content|
    ensures TextOf(RenderFrom(content, anchors, cursor)) == content[cursor..]
    decreases |anchors|
  {
    if anchors == [] {
      assert content[cursor..|content|] == content[cursor..];
    } else if anchors[0].start < cursor {
      RenderIsLossless(content, anchors[1..], cursor);
    } else {
      var a := anchors[0];
      RenderIsLossless(content, anchors[1..], a.end);
      TextOfTwo(Plain(content[cursor..a.start]), Highlight(a, content[a.start..a.end]),
                RenderFrom(content, anchors[1..], a.end));
      CutInThree(content, cursor, a.start, a.end);
    }
  }

  lemma TextOfTwo(p: Fragment, h: Fragment, rest: seq<Fragment>)
    ensures TextOf([p, h] + rest) == p.text + (h.text + TextOf(rest))
  {
    assert ([p, h] + rest)[1..] == [h] + rest && ([h] + rest)[1..] == rest;
  }

  lemma CutInThree(s: string, a: nat, b: nat, c: nat)
    requires a <= b <= c <= |s|
    ensures s[a..] == s[a..b] + (s[b..c] + s[c..])
  {
  }

  lemma HighlightsOfTwo(p: Fragment, h: Fragment, rest: seq<Fragment>)
    requires p.Plain? && h.Highlight?
    ensures Highlights([p, h] + rest) == [h] + Highlights(rest)
  {
    assert ([p, h] + rest)[1..] == [h] + rest && ([h] + rest)[1..] == rest;
  }

  /** The highlights of the page are those of the kept insights. */
  lemma {:induction false} HighlightsAreKept(content: string, anchors: seq<Insight>, cursor: int)
    ensures Highlights(RenderFrom(content, anchors, cursor)) == Marks(content, Kept(anchors, cursor))
    decreases |anchors|
  {
    if anchors == [] {
      assert [Plain(JsSlice(content, cursor, |content|))][1..] == [];
    } else {
      var a := anchors[0];
      if a.start < cursor {
        HighlightsAreKept(content, anchors[1..], cursor);
      } else {
        HighlightsAreKept(content, anchors[1..], a.end);
        HighlightsOfTwo(Plain(JsSlice(content, cursor, a.start)), Highlight(a, JsSlice(content, a.start, a.end)),
                        RenderFrom(content, anchors[1..], a.end));
        assert ([a] + Kept(anchors[1..], a.end))[1..] == Kept(anchors[1..], a.end);
      }
    }
  }

  /** The kept insights lie one after the other. */
  lemma {:induction false} KeptAreDisjoint(content: string, anchors: seq<Insight>, cursor: nat)
    requires Forward(content, anchors)
    ensures forall i :: 0 <= i < |Kept(anchors, cursor)| ==>
              Kept(anchors, cursor)[i] in anchors && Kept(anchors, cursor)[i].start >= cursor
    ensures forall i, j :: 0 <= i < j < |Kept(anchors, cursor)| ==>
              Kept(anchors, cursor)[i].end <= Kept(anchors, cursor)[j].start
    decreases |anchors|
  {
    if anchors != [] {
      KeptAreDisjoint(content, anchors[1..], if anchors[0].start < cursor then cursor else anchors[0].end);
    }
  }

  ghost predicate StartsInside(x: Insight, k: Insight) { k.start <= x.start < k.end }

  ghost predicate Ascending(anchors: seq<Insight>) {
    forall i, j :: 0 <= i < j < |anchors| ==> anchors[i].start <= anchors[j].start
  }

  /** A skipped insight starts inside a highlighted one (or inside what was already rendered). */
  lemma {:induction false} SkippedOverlapsKept(content: string, anchors: seq<Insight>, cursor: nat, x: Insight)
    requires Forward(content, anchors) && Ascending(anchors) && x in anchors && x.start >= cursor
    ensures x in Kept(anchors, cursor) || exists k :: k in Kept(anchors, cursor) && StartsInside(x, k)
    decreases |anchors|
  {
    var a := anchors[0];
    if a.start < cursor {
      SkippedOverlapsKept(content, anchors[1..], cursor, x);
    } else if x != a {
      assert x in anchors[1..] && a.start <= x.start;
      if x.start >= a.end {
        SkippedOverlapsKept(content, anchors[1..], a.end, x);
        var ks := Kept(anchors[1..], a.end);
        if x !in ks {
          var k :| k in ks && StartsInside(x, k);
          assert k in [a] + ks;
        }
      } else {
        assert a in Kept(anchors, cursor) && StartsInside(x, a);
      }
    }
  }

  lemma PlacedInOrder(content: string, insights: seq<Insight>)
    requires forall x :: x in insights ==> x.start < x.end
    ensures Forward(content, Placed(content, insights)) && Ascending(Placed(content, insights))
    ensures forall x :: x in Placed(content, insights) <==> x in insights && InRange(content, x)
  {
    var inRange, anchors := Where(insights, RangeTest(content)), Placed(content, insights);
    WhereAre(insights, RangeTest(content));
    SortDescSorts(inRange, ByStart());
    forall x ensures x in anchors <==> x in inRange { assert x in multiset(anchors) <==> x in multiset(inRange); }
    forall i, j | 0 <= i < j < |anchors| ensures anchors[i].start <= anchors[j].start {
      assert ByStart()(anchors[i]) >= ByStart()(anchors[j]);
    }
    forall i | 0 <= i < |anchors| ensures 0 <= anchors[i].start < anchors[i].end <= |content| {
      assert anchors[i] in anchors;
    }
  }

  /** For any insights with increasing offsets the page shows the chunk's text unchanged, its highlights are in order
      and apart, and every insight inside the chunk is highlighted or starts inside a highlighted one. */
  lemma HighlightingIsLossless(content: string, insights: seq<Insight>)
    requires forall x :: x in insights ==> x.start < x.end
    ensures var page := RenderFrom(content, Placed(content, insights), 0);
            var ks := Kept(Placed(content, insights), 0);
            && TextOf(page) == content
            && Highlights(page) == Marks(content, ks)
            && (forall i :: 0 <= i < |ks| ==> ks[i] in insights && InRange(content, ks[i]))
            && (forall i, j :: 0 <= i < j < |ks| ==> ks[i].end <= ks[j].start)
            && (forall x :: x in insights && InRange(content, x) ==>
                  x in ks || exists k :: k in ks && StartsInside(x, k))
  {
    var anchors := Placed(content, insights);
    PlacedInOrder(content, insights);
    RenderIsLossless(content, anchors, 0);
    HighlightsAreKept(content, anchors, 0);
    KeptAreDisjoint(content, anchors, 0);
    assert content[0..] == content;
    var ks := Kept(anchors, 0);
    forall x | x in insights && InRange(content, x) ensures x in ks || exists k :: k in ks && StartsInside(x, k) {
      SkippedOverlapsKept(content, anchors, 0, x);
    }
  }

  /** End to end: with anchored insights each highlight shows the evidence it is for, and every insight is highlighted,
      overlaps a highlighted one, or overshoots the chunk. */
  lemma AnchoredInsightsRender(content: string, insights: seq<Insight>)
    requires forall x :: x in insights ==> Anchored(content, x)
    ensures var page := RenderFrom(content, Placed(content, insights), 0);
            var ks := Kept(Placed(content, insights), 0);
            && TextOf(page) == content
            && Highlights(page) == Marks(content, ks)
            && (forall i :: 0 <= i < |ks| ==> ks[i] in insights && Marks(content, ks)[i].text == ks[i].evidence)
            && (forall i, j :: 0 <= i < j < |ks| ==> ks[i].end <= ks[j].start)
            && (forall x :: x in insights ==> x in ks || x.end > |content| || exists k :: k in ks && StartsInside(x, k))
  {
    HighlightingIsLossless(content, insights);
  }

  /** So a page that shows any of the insights which an analysis stored for a chunk is such a page. */
  lemma StoredInsightsAreAnchored(chunks: seq<ReaderChunk>, results: seq<seq<Draft>>, k: nat, shown: seq<Insight>)
    requires |chunks| == |results| && forall i :: 0 <= i < |results| ==> forall d :: d in results[i] ==> WellFormed(d)
    requires forall i, j :: 0 <= i < j < |chunks| ==> chunks[i].id != chunks[j].id
    requires k < |chunks| && forall x :: x in shown ==> x in AllInsights(chunks, results) && x.chunkId == chunks[k].id
    ensures forall x :: x in shown ==> Anchored(chunks[k].content, x)
    ensures TextOf(RenderFrom(chunks[k].content, Placed(chunks[k].content, shown), 0)) == chunks[k].content
  {
    AllInsightsAnchored(chunks, results);
    forall x | x in shown ensures Anchored(chunks[k].content, x) {
      var i :| 0 <= i < |chunks| && chunks[i].id == x.chunkId && Anchored(chunks[i].content, x);
      assert i == k;
    }
    AnchoredInsightsRender(chunks[k].content, shown);
  }
}
