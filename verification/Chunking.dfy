/** Splitting a document into chunks: greedy paragraph packing and offset recovery. */
module Chunking {
  import opened Heading
  import opened OrderedDict
  import opened Text

  const BLANK_LINE := "\n\n"

  function Break(s: string): (r: int)
    ensures r == -1 || Occurs(s, BLANK_LINE, r)
    ensures forall i :: 0 <= i && (r == -1 || i < r) ==> !Occurs(s, BLANK_LINE, i)
  {
    Find(s, BLANK_LINE, 0)
  }

  /** `text.split("\n\n")`. */
  function Split(s: string): seq<string>
    decreases |s|
  {
    var n := Break(s);
    if n == -1 then [s] else [s[..n]] + Split(s[n + 2..])
  }

  /** Splitting loses nothing, and no part contains the separator. */
  lemma {:induction false} SplitIsExact(s: string)
    ensures Split(s) != [] && Join(Split(s)) == s
    ensures forall i :: 0 <= i < |Split(s)| ==> Break(Split(s)[i]) == -1
    decreases |s|
  {
    var n := Break(s);
    if n >= 0 {
      var rest := Split(s[n + 2..]);
      SplitIsExact(s[n + 2..]);
      assert ([s[..n]] + rest)[1..] == rest;
      Parted(s, n);
    }
  }

  lemma Parted(s: string, n: nat)
    requires Break(s) == n
    ensures n + 2 <= |s| && s == s[..n] + BLANK_LINE + s[n + 2..] && Break(s[..n]) == -1
  {
    assert s == s[..n] + s[n..n + 2] + s[n + 2..];
    forall i | 0 <= i ensures !Occurs(s[..n], BLANK_LINE, i) {
      if i + 2 <= n { assert s[..n][i..i + 2] == s[i..i + 2] && !Occurs(s, BLANK_LINE, i); }
    }
  }

  function Paragraphs(lines: seq<string>): (ps: seq<string>)
    ensures forall i :: 0 <= i < |ps| ==> ps[i] != "" && Stripped(ps[i])
  {
    if lines == [] then []
    else Paragraphs(lines[..|lines| - 1]) + if Strip(lines[|lines| - 1]) != "" then [Strip(lines[|lines| - 1])] else []
  }

  ghost predicate AllParagraphs(ps: seq<string>) { forall k :: 0 <= k < |ps| ==> ps[k] != "" && Stripped(ps[k]) }

  function ParagraphsOf(text: string): (ps: seq<string>)
    ensures AllParagraphs(ps)
  {
    Paragraphs(Split(text))
  }

  /** `"\n\n".join(ps)`. */
  function Join(ps: seq<string>): string {
    if ps == [] then "" else if |ps| == 1 then ps[0] else ps[0] + BLANK_LINE + Join(ps[1..])
  }

  /** What the packing loop still emits, given the chunk it is building. */
  function PackFrom(current: string, ps: seq<string>, maxChars: int): seq<string>
    decreases |ps|
  {
    if ps == [] then (if current != "" then [current] else [])
    else if current == "" then PackFrom(ps[0], ps[1..], maxChars)
    else if |current| + |ps[0]| + 2 <= maxChars then PackFrom(current + BLANK_LINE + ps[0], ps[1..], maxChars)
    else [current] + PackFrom(ps[0], ps[1..], maxChars)
  }

  lemma OneMore(lines: seq<string>, i: nat)
    requires i < |lines|
    ensures lines[..i + 1] == lines[..i] + [lines[i]]
    ensures i + 1 == |lines| ==> lines == lines[..i] + [lines[i]]
  {
  }

  lemma ParagraphsLast(lines: seq<string>, line: string, stripped: string)
    requires stripped == Strip(line)
    ensures Paragraphs(lines + [line]) == Paragraphs(lines) + if stripped != "" then [stripped] else []
  {
    assert (lines + [line])[..|lines|] == lines;
  }

  method ListParagraphs(text: string) returns (paragraphs: seq<string>)
    ensures paragraphs == ParagraphsOf(text)
  {
    var lines := Split(text);
    paragraphs := [];
    for i := 0 to |lines|
      invariant paragraphs == Paragraphs(lines[..i])
    {
      var paragraph := Strip(lines[i]);
      ParagraphsLast(lines[..i], lines[i], paragraph);
      OneMore(lines, i);
      if paragraph != "" {
        paragraphs := paragraphs + [paragraph];
      }
    }
    assert lines[..|lines|] == lines;
  }

  method PackParagraphs(paragraphs: seq<string>, maxChars: int) returns (chunks: seq<string>)
    ensures chunks == PackFrom("", paragraphs, maxChars)
  {
    chunks := [];
    var current := "";
    for i := 0 to |paragraphs|
      invariant chunks + PackFrom(current, paragraphs[i..], maxChars) == PackFrom("", paragraphs, maxChars)
    {
      var paragraph := paragraphs[i];
      PackNext(current, paragraphs, i, maxChars);
      if current == "" {
        current := paragraph;
      } else if |current| + |paragraph| + 2 <= maxChars {
        current := current + BLANK_LINE + paragraph;
      } else {
        chunks := chunks + [current];
        current := paragraph;
      }
    }
    if current != "" {
      chunks := chunks + [current];
    }
  }

  method SplitText(text: string, maxChars: int) returns (chunks: seq<string>)
    ensures chunks == PackFrom("", ParagraphsOf(text), maxChars)
    ensures BestPacking(chunks, ParagraphsOf(text), maxChars)
  {
    var paragraphs := ListParagraphs(text);
    chunks := PackParagraphs(paragraphs, maxChars);
    PackingIsBest(paragraphs, maxChars);
  }

  lemma PackNext(current: string, ps: seq<string>, i: nat, maxChars: int)
    requires i < |ps|
    ensures PackFrom(current, ps[i..], maxChars) ==
            if current == "" then PackFrom(ps[i], ps[i + 1..], maxChars)
            else if |current| + |ps[i]| + 2 <= maxChars then
              PackFrom(current + BLANK_LINE + ps[i], ps[i + 1..], maxChars)
            else [current] + PackFrom(ps[i], ps[i + 1..], maxChars)
  {
    assert ps[i..][0] == ps[i] && ps[i..][1..] == ps[i + 1..];
  }

  // ----- groups of paragraphs -----

  function Flatten(gs: seq<seq<string>>): seq<string> {
    if gs == [] then [] else gs[0] + Flatten(gs[1..])
  }

  function JoinEach(gs: seq<seq<string>>): (r: seq<string>)
    ensures |r| == |gs| && forall i :: 0 <= i < |gs| ==> r[i] == Join(gs[i])
  {
    if gs == [] then [] else [Join(gs[0])] + JoinEach(gs[1..])
  }

  /** A group is allowed if it is one paragraph or joins to at most `maxChars`. */
  predicate Fits(g: seq<string>, maxChars: int) { g != [] && (|g| == 1 || |Join(g)| <= maxChars) }

  /** An in-order grouping of the paragraphs into allowed groups. */
  ghost predicate IsGrouping(gs: seq<seq<string>>, ps: seq<string>, maxChars: int) {
    Flatten(gs) == ps && forall i :: 0 <= i < |gs| ==> Fits(gs[i], maxChars)
  }

  /** The greedy loop on groups: `g` is the group being built. */
  function Groups(g: seq<string>, ps: seq<string>, maxChars: int): (gs: seq<seq<string>>)
    requires g != []
    ensures gs != []
    decreases |ps|
  {
    if ps == [] then [g]
    else if |Join(g)| + |ps[0]| + 2 <= maxChars then Groups(g + [ps[0]], ps[1..], maxChars)
    else [g] + Groups([ps[0]], ps[1..], maxChars)
  }

  lemma {:induction false} JoinConcat(a: seq<string>, b: seq<string>)
    requires a != [] && b != []
    ensures Join(a + b) == Join(a) + BLANK_LINE + Join(b)
  {
    if |a| == 1 {
      assert (a + b)[1..] == b;
    } else {
      JoinConcat(a[1..], b);
      assert (a + b)[1..] == a[1..] + b;
      calc {
        Join(a + b);
        a[0] + BLANK_LINE + Join(a[1..] + b);
        a[0] + BLANK_LINE + (Join(a[1..]) + BLANK_LINE + Join(b));
        (a[0] + BLANK_LINE + Join(a[1..])) + BLANK_LINE + Join(b);
      }
    }
  }

  lemma {:induction false} PackedAsGroups(g: seq<string>, ps: seq<string>, maxChars: int)
    requires g != [] && g[0] != "" && forall i :: 0 <= i < |ps| ==> ps[i] != ""
    ensures PackFrom(Join(g), ps, maxChars) == JoinEach(Groups(g, ps, maxChars))
    decreases |ps|
  {
    assert Join(g) != "";
    if ps != [] {
      JoinConcat(g, [ps[0]]);
      if |Join(g)| + |ps[0]| + 2 <= maxChars {
        PackedAsGroups(g + [ps[0]], ps[1..], maxChars);
      } else {
        PackedAsGroups([ps[0]], ps[1..], maxChars);
        var rest := Groups([ps[0]], ps[1..], maxChars);
        assert ([g] + rest)[1..] == rest;
      }
    }
  }

  lemma {:induction false} GroupsPartition(g: seq<string>, ps: seq<string>, maxChars: int)
    requires Fits(g, maxChars)
    ensures IsGrouping(Groups(g, ps, maxChars), g + ps, maxChars)
    decreases |ps|
  {
    if ps == [] {
      assert Flatten([g]) == g + Flatten([][..]);
    } else if |Join(g)| + |ps[0]| + 2 <= maxChars {
      JoinConcat(g, [ps[0]]);
      GroupsPartition(g + [ps[0]], ps[1..], maxChars);
      assert (g + [ps[0]]) + ps[1..] == g + ps;
    } else {
      GroupsPartition([ps[0]], ps[1..], maxChars);
      var rest := Groups([ps[0]], ps[1..], maxChars);
      assert ([g] + rest)[1..] == rest && [ps[0]] + ps[1..] == ps;
    }
  }

  ghost predicate Suffix(a: seq<string>, b: seq<string>) { |a| <= |b| && b[|b| - |a|..] == a }

  lemma SuffixNoLonger(a: seq<string>, b: seq<string>)
    requires a != [] && Suffix(a, b)
    ensures |Join(a)| <= |Join(b)|
  {
    if |a| < |b| {
      JoinConcat(b[..|b| - |a|], a);
      assert b[..|b| - |a|] + a == b;
    }
  }

  lemma PrefixNoLonger(a: seq<string>, b: seq<string>)
    requires a != []
    ensures |Join(a)| <= |Join(a + b)|
  {
    if b != [] { JoinConcat(a, b); } else { assert a + b == a; }
  }

  lemma NextInGroup(h: seq<string>, hx: seq<string>, rest: seq<string>)
    requires hx != []
    ensures (hx + rest)[0] == hx[0] && (hx + rest)[1..] == hx[1..] + rest && (h + [hx[0]]) + hx[1..] == h + hx
  {
  }

  lemma NextGroup(hx: seq<string>, hs: seq<seq<string>>)
    requires hx == [] && hs != [] && hs[0] != []
    ensures var ps := hx + Flatten(hs);
            && ps != [] && ps[0] == hs[0][0] && ps[1..] == hs[0][1..] + Flatten(hs[1..])
            && [hs[0][0]] + hs[0][1..] == hs[0]
  {
    assert hx + Flatten(hs) == hs[0] + Flatten(hs[1..]);
  }

  /** If greedy's group began no earlier than the other one, it has room for what the other one takes. */
  lemma RoomForNext(g: seq<string>, h: seq<string>, hx: seq<string>, maxChars: int)
    requires g != [] && Suffix(g, h) && hx != [] && Fits(h + hx, maxChars)
    ensures |Join(g)| + |hx[0]| + 2 <= maxChars
  {
    var p := hx[0];
    NextInGroup(h, hx, []);
    JoinConcat(g, [p]);
    SuffixNoLonger(g + [p], h + [p]);
    PrefixNoLonger(h + [p], hx[1..]);
  }

  /** Greedy stays ahead. Another grouping is building `h`, will add `hx` to it and then make the groups `hs`.
      If greedy has started no later group (`even`) its own group `g` began no earlier, and it needs no more
      groups than the other from here on; if it is one group ahead it needs at most one more. */
  lemma {:induction false} StaysAhead(g: seq<string>, h: seq<string>, hx: seq<string>, hs: seq<seq<string>>,
                                      maxChars: int, even: bool)
    requires g != [] && h != [] && Fits(h + hx, maxChars) && forall i :: 0 <= i < |hs| ==> Fits(hs[i], maxChars)
    requires even ==> Suffix(g, h)
    ensures |Groups(g, hx + Flatten(hs), maxChars)| <= 1 + |hs| + (if even then 0 else 1)
    decreases |hs|, |hx|
  {
    if hx != [] {
      var p := hx[0];
      NextInGroup(h, hx, Flatten(hs));
      if even { RoomForNext(g, h, hx, maxChars); }
      if |Join(g)| + |p| + 2 <= maxChars {
        StaysAhead(g + [p], h + [p], hx[1..], hs, maxChars, even);
      } else {
        StaysAhead([p], h + [p], hx[1..], hs, maxChars, true);
      }
    } else if hs != [] {
      var p, next := hs[0][0], hs[0][1..];
      NextGroup(hx, hs);
      if |Join(g)| + |p| + 2 <= maxChars {
        StaysAhead(g + [p], [p], next, hs[1..], maxChars, false);
      } else {
        StaysAhead([p], [p], next, hs[1..], maxChars, true);
      }
    }
  }

  function GreedyGroups(ps: seq<string>, maxChars: int): seq<seq<string>> {
    if ps == [] then [] else Groups([ps[0]], ps[1..], maxChars)
  }

  lemma GreedyIsSmallest(ps: seq<string>, maxChars: int, gs: seq<seq<string>>)
    requires ps != [] && IsGrouping(gs, ps, maxChars)
    ensures |GreedyGroups(ps, maxChars)| <= |gs|
  {
    assert gs != [] && gs[0][0] == ps[0];
    assert [ps[0]] + gs[0][1..] == gs[0] && gs[0][1..] + Flatten(gs[1..]) == ps[1..];
    StaysAhead([ps[0]], [ps[0]], gs[0][1..], gs[1..], maxChars, true);
  }

  /** The chunks are joined groups of paragraphs, none too long unless it is a single paragraph, and no in-order
      grouping into allowed groups has fewer. */
  lemma PackingIsOptimal(ps: seq<string>, maxChars: int)
    requires forall i :: 0 <= i < |ps| ==> ps[i] != ""
    ensures PackFrom("", ps, maxChars) == JoinEach(GreedyGroups(ps, maxChars))
    ensures IsGrouping(GreedyGroups(ps, maxChars), ps, maxChars)
    ensures forall gs :: IsGrouping(gs, ps, maxChars) ==> |PackFrom("", ps, maxChars)| <= |gs|
  {
    if ps != [] {
      PackedAsGroups([ps[0]], ps[1..], maxChars);
      GroupsPartition([ps[0]], ps[1..], maxChars);
      assert [ps[0]] + ps[1..] == ps;
      forall gs | IsGrouping(gs, ps, maxChars) ensures |PackFrom("", ps, maxChars)| <= |gs| {
        GreedyIsSmallest(ps, maxChars, gs);
      }
    }
  }

  /** Two neighbouring chunks could not have been one. */
  lemma {:induction false} NeighboursDoNotFit(g: seq<string>, ps: seq<string>, maxChars: int, i: nat)
    requires g != [] && i + 1 < |Groups(g, ps, maxChars)|
    ensures var gs := Groups(g, ps, maxChars);
            gs[i + 1] != [] && |Join(gs[i])| + 2 + |gs[i + 1][0]| > maxChars
    decreases |ps|
  {
    if |Join(g)| + |ps[0]| + 2 <= maxChars {
      NeighboursDoNotFit(g + [ps[0]], ps[1..], maxChars, i);
    } else {
      FirstGroupStarts([ps[0]], ps[1..], maxChars);
      if i > 0 { NeighboursDoNotFit([ps[0]], ps[1..], maxChars, i - 1); }
    }
  }

  lemma {:induction false} FirstGroupStarts(g: seq<string>, ps: seq<string>, maxChars: int)
    requires g != []
    ensures g <= Groups(g, ps, maxChars)[0]
    decreases |ps|
  {
    if ps != [] && |Join(g)| + |ps[0]| + 2 <= maxChars { FirstGroupStarts(g + [ps[0]], ps[1..], maxChars); }
  }

  lemma {:induction false} JoinFlatten(gs: seq<seq<string>>)
    requires forall i :: 0 <= i < |gs| ==> gs[i] != []
    ensures Join(JoinEach(gs)) == Join(Flatten(gs))
  {
    if |gs| == 1 {
      assert Flatten(gs) == gs[0];
    } else if |gs| > 1 {
      JoinFlatten(gs[1..]);
      assert Flatten(gs[1..]) != [] by { assert gs[1] != []; }
      JoinConcat(gs[0], Flatten(gs[1..]));
    }
  }

  /** No text is lost or reordered: the chunks join to what the paragraphs join to. */
  lemma ChunksJoinToParagraphs(ps: seq<string>, maxChars: int)
    requires forall i :: 0 <= i < |ps| ==> ps[i] != ""
    ensures Join(PackFrom("", ps, maxChars)) == Join(ps)
  {
    PackingIsOptimal(ps, maxChars);
    JoinFlatten(GreedyGroups(ps, maxChars));
  }

  /** What the packing promises. The chunks are allowed groups of paragraphs, in order; no allowed grouping has fewer;
      no text is lost; and no two neighbouring chunks would have fitted into one. */
  ghost predicate BestPacking(chunks: seq<string>, ps: seq<string>, maxChars: int) {
    && (exists gs :: IsGrouping(gs, ps, maxChars) && chunks == JoinEach(gs))
    && (forall gs :: IsGrouping(gs, ps, maxChars) ==> |chunks| <= |gs|)
    && Join(chunks) == Join(ps)
    && (forall i :: 0 < i < |chunks| ==> |chunks[i - 1]| + 2 + |chunks[i]| > maxChars)
  }

  lemma PackingIsBest(ps: seq<string>, maxChars: int)
    requires forall i :: 0 <= i < |ps| ==> ps[i] != ""
    ensures BestPacking(PackFrom("", ps, maxChars), ps, maxChars)
  {
    PackingIsOptimal(ps, maxChars);
    ChunksJoinToParagraphs(ps, maxChars);
    var chunks := PackFrom("", ps, maxChars);
    forall i | 0 < i < |chunks| ensures |chunks[i - 1]| + 2 + |chunks[i]| > maxChars {
      ChunksDoNotFit(ps, maxChars, i);
    }
  }

  lemma ChunksDoNotFit(ps: seq<string>, maxChars: int, i: nat)
    requires 0 < i < |GreedyGroups(ps, maxChars)|
    ensures var gs := GreedyGroups(ps, maxChars); |Join(gs[i - 1])| + 2 + |Join(gs[i])| > maxChars
  {
    NeighboursDoNotFit([ps[0]], ps[1..], maxChars, i - 1);
    var g := GreedyGroups(ps, maxChars)[i];
    assert g == [g[0]] + g[1..];
    PrefixNoLonger([g[0]], g[1..]);
  }

  // ----- offsets -----

  datatype Chunk = Chunk(index: nat, content: string, start: nat, end: nat)

  /** Offset of a piece: where it is found at or after `start`, or `start` itself. */
  function OffsetOf(content: string, piece: string, start: nat): nat {
    var found := Find(content, piece, start);
    if found < 0 then start else found
  }

  function Locate(content: string, pieces: seq<string>, index: nat, start: nat): (cs: seq<Chunk>)
    ensures |cs| == |pieces|
  {
    if pieces == [] then []
    else
      var offset := OffsetOf(content, pieces[0], start);
      [Chunk(index, pieces[0], offset, offset + |pieces[0]|)]
          + Locate(content, pieces[1..], index + 1, offset + |pieces[0]|)
  }

  function Pieces(content: string, maxChars: int): seq<string> {
    PackFrom("", ParagraphsOf(Strip(content)), maxChars)
  }

  lemma Regrouped<T>(front: seq<T>, x: T, rest: seq<T>)
    ensures (front + [x]) + rest == front + ([x] + rest)
  {
  }

  lemma LocateNext(content: string, pieces: seq<string>, i: nat, start: nat, chunk: Chunk)
    requires i < |pieces|
    requires var offset := OffsetOf(content, pieces[i], start);
             chunk == Chunk(i, pieces[i], offset, offset + |pieces[i]|)
    ensures Locate(content, pieces[i..], i, start) == [chunk] + Locate(content, pieces[i + 1..], i + 1, chunk.end)
  {
    assert pieces[i..][0] == pieces[i] && pieces[i..][1..] == pieces[i + 1..];
  }

  method LocatePieces(content: string, pieces: seq<string>) returns (chunks: seq<Chunk>)
    ensures chunks == Locate(content, pieces, 0, 0)
  {
    chunks := [];
    var start: nat := 0;
    for i := 0 to |pieces|
      invariant chunks + Locate(content, pieces[i..], i, start) == Locate(content, pieces, 0, 0)
    {
      var piece := pieces[i];
      var offset := OffsetOf(content, piece, start);
      var chunk := Chunk(i, piece, offset, offset + |piece|);
      LocateNext(content, pieces, i, start, chunk);
      Regrouped(chunks, chunk, Locate(content, pieces[i + 1..], i + 1, chunk.end));
      chunks := chunks + [chunk];
      start := offset + |piece|;
    }
  }

  // ----- headings -----

  function Headings(chunks: seq<Chunk>, heading: string -> Option<string>): (hs: seq<Option<string>>)
    ensures |hs| == |chunks| && forall i :: 0 <= i < |chunks| ==> hs[i] == heading(chunks[i].content)
  {
    seq(|chunks|, i requires 0 <= i < |chunks| => heading(chunks[i].content))
  }

  /** The heading of a chunk stands at its place in `headings`. */
  method SplitDocument(content: string, maxChars: int) returns (chunks: seq<Chunk>, headings: seq<Option<string>>)
    ensures chunks == if Strip(content) == "" then [Chunk(0, "", 0, 0)]
                      else Locate(content, Pieces(content, maxChars), 0, 0)
    ensures headings == Headings(chunks, ChunkHeading)
    ensures forall i :: 0 <= i < |chunks| ==> SaysHeading(chunks[i].content, headings[i])
  {
    var normalized := Strip(content);
    if normalized == "" {
      chunks := [Chunk(0, "", 0, 0)];
    } else {
      var pieces := SplitText(normalized, maxChars);
      chunks := LocatePieces(content, pieces);
    }
    headings := Headings(chunks, ChunkHeading);
    forall i | 0 <= i < |chunks| ensures SaysHeading(chunks[i].content, headings[i]) {
      HeadingInPlainTerms(chunks[i].content);
    }
  }

  /** Where the search for chunk `i` begins. */
  function PreviousEnd(cs: seq<Chunk>, i: nat, start: nat): nat
    requires i < |cs|
  {
    if i == 0 then start else cs[i - 1].end
  }

  lemma LocateTail(content: string, pieces: seq<string>, index: nat, start: nat, i: nat)
    requires 0 < i < |pieces|
    ensures var cs := Locate(content, pieces, index, start);
            var next := OffsetOf(content, pieces[0], start) + |pieces[0]|;
            var tail := Locate(content, pieces[1..], index + 1, next);
            cs[i] == tail[i - 1] && PreviousEnd(cs, i, start) == PreviousEnd(tail, i - 1, next)
                && pieces[i] == pieces[1..][i - 1]
  {
  }

  /** For every text: chunks are numbered in order, carry the pieces, and have ordered, disjoint intervals of the
      pieces' lengths; and an interval slices out its piece exactly when the piece occurs from there on at all. */
  lemma {:induction false} OffsetsInOrder(content: string, pieces: seq<string>, index: nat, start: nat, i: nat)
    requires i < |pieces|
    ensures var cs := Locate(content, pieces, index, start);
            && cs[i].index == index + i && cs[i].content == pieces[i] && cs[i].end == cs[i].start + |pieces[i]|
            && PreviousEnd(cs, i, start) <= cs[i].start
            && (Occurs(content, pieces[i], cs[i].start) <==> Find(content, pieces[i], PreviousEnd(cs, i, start)) != -1)
  {
    if i > 0 {
      var next := OffsetOf(content, pieces[0], start) + |pieces[0]|;
      LocateTail(content, pieces, index, start, i);
      OffsetsInOrder(content, pieces[1..], index + 1, next, i - 1);
    }
  }

  /** `offs` places the pieces in the text, in order and apart, from `start` on. */
  ghost predicate Places(content: string, pieces: seq<string>, offs: seq<nat>, start: nat) {
    && |offs| == |pieces|
    && (forall i :: 0 <= i < |pieces| ==> Occurs(content, pieces[i], offs[i]))
    && (pieces != [] ==> offs[0] >= start)
    && (forall i :: 0 < i < |pieces| ==> offs[i] >= offs[i - 1] + |pieces[i - 1]|)
  }

  /** Every interval slices out its piece. */
  ghost predicate AllExact(content: string, cs: seq<Chunk>) {
    forall i :: 0 <= i < |cs| ==> Occurs(content, cs[i].content, cs[i].start)
  }

  lemma PlacesTail(content: string, pieces: seq<string>, offs: seq<nat>, start: nat, next: nat)
    requires Places(content, pieces, offs, start) && pieces != [] && next <= offs[0] + |pieces[0]|
    ensures Places(content, pieces[1..], offs[1..], next)
  {
    var ps, os := pieces[1..], offs[1..];
    forall i | 0 <= i < |ps|
      ensures Occurs(content, ps[i], os[i])
    {
      assert ps[i] == pieces[i + 1] && os[i] == offs[i + 1];
    }
    forall i | 0 < i < |ps| ensures os[i] >= os[i - 1] + |ps[i - 1]| {
      assert offs[i + 1] >= offs[i + 1 - 1] + |pieces[i + 1 - 1]|;
    }
    if ps != [] { assert offs[1] >= offs[1 - 1] + |pieces[1 - 1]|; }
  }

  /** Taking each piece at its first place leaves room for the rest wherever any placement does. */
  lemma {:induction false} LeftmostSuffices(content: string, pieces: seq<string>, offs: seq<nat>, index: nat,
                                            start: nat)
    requires Places(content, pieces, offs, start)
    ensures AllExact(content, Locate(content, pieces, index, start))
    decreases |pieces|
  {
    if pieces != [] {
      var next := OffsetOf(content, pieces[0], start) + |pieces[0]|;
      var tail := Locate(content, pieces[1..], index + 1, next);
      assert Occurs(content, pieces[0], offs[0]);
      PlacesTail(content, pieces, offs, start, next);
      LeftmostSuffices(content, pieces[1..], offs[1..], index + 1, next);
      var cs := Locate(content, pieces, index, start);
      forall i | 0 <= i < |cs| ensures Occurs(content, cs[i].content, cs[i].start) {
        if i > 0 { assert cs[i] == tail[i - 1]; }
      }
    }
  }

  /** For a whole document: every interval slices out its piece exactly when the pieces occur in the text at all, in
      order and apart. */
  lemma OffsetsExactIff(content: string, pieces: seq<string>, index: nat, start: nat)
    ensures AllExact(content, Locate(content, pieces, index, start))
            <==> exists offs :: Places(content, pieces, offs, start)
  {
    var cs := Locate(content, pieces, index, start);
    if AllExact(content, cs) {
      var offs := seq(|cs|, i requires 0 <= i < |cs| => cs[i].start);
      forall i | 0 <= i < |pieces|
        ensures Occurs(content, pieces[i], offs[i])
        ensures offs[i] >= if i == 0 then start else offs[i - 1] + |pieces[i - 1]|
      {
        OffsetsInOrder(content, pieces, index, start, i);
        if i > 0 { OffsetsInOrder(content, pieces, index, start, i - 1); }
      }
      assert Places(content, pieces, offs, start);
    }
    if offs :| Places(content, pieces, offs, start) { LeftmostSuffices(content, pieces, offs, index, start); }
  }

  /** A piece that starts with text is found right after a run of white space. */
  lemma FindSkipsSpace(content: string, piece: string, start: nat, at: nat)
    requires Occurs(content, piece, at) && start <= at && piece != "" && !IsSpace(piece[0])
    requires forall i :: start <= i < at ==> IsSpace(content[i])
    ensures Find(content, piece, start) == at
  {
    forall i | start <= i < at ensures !Occurs(content, piece, i) {
      if i + |piece| <= |content| {
        assert content[i..i + |piece|][0] == content[i];
      }
    }
  }

  /** One piece after white space: it is found there, and what follows it follows in the text. */
  lemma PieceLocated(content: string, start: nat, gap: string, piece: string, rest: string)
    requires start <= |content| && content[start..] == gap + piece + rest && AllSpace(gap)
    requires piece != "" && !IsSpace(piece[0])
    ensures Occurs(content, piece, start + |gap|) && Find(content, piece, start) == start + |gap|
    ensures start + |gap| + |piece| + |rest| == |content| && content[start + |gap| + |piece|..] == rest
  {
    var at, suffix := start + |gap|, content[start..];
    assert suffix[|gap|..|gap| + |piece|] == piece && suffix[|gap| + |piece|..] == rest;
    assert content[at..at + |piece|] == suffix[|gap|..|gap| + |piece|];
    assert content[at + |piece|..] == suffix[|gap| + |piece|..];
    forall k | start <= k < at ensures IsSpace(content[k]) {
      assert content[k] == suffix[k - start] == gap[k - start];
    }
    FindSkipsSpace(content, piece, start, at);
  }

  lemma JoinHead(gap: string, pieces: seq<string>, post: string)
    requires pieces != []
    ensures |pieces| == 1 ==> gap + Join(pieces) + post == gap + pieces[0] + post
    ensures |pieces| > 1 ==> gap + Join(pieces) + post == gap + pieces[0] + (BLANK_LINE + Join(pieces[1..]) + post)
  {
    if |pieces| > 1 { Regroup(gap, pieces[0], BLANK_LINE, Join(pieces[1..]), post); }
  }

  lemma Regroup(a: string, b: string, c: string, d: string, e: string)
    ensures a + (b + c + d) + e == a + b + (c + d + e)
  {
  }

  /** Chunk `i` slices out its piece, directly after white space of length `gap` for the first chunk and two
      characters after its predecessor for the others; the last one ends `post` characters before the end. */
  ghost predicate ExactAt(content: string, cs: seq<Chunk>, i: nat, start: nat, gap: nat, post: nat)
    requires i < |cs|
  {
    && Occurs(content, cs[i].content, cs[i].start) && cs[i].end == cs[i].start + |cs[i].content|
    && cs[i].start == PreviousEnd(cs, i, start) + (if i == 0 then gap else 2)
    && (i == |cs| - 1 ==> cs[i].end == |content| - post)
  }

  lemma ExactLater(content: string, pieces: seq<string>, index: nat, start: nat, next: nat, i: nat, gap: nat, post: nat)
    requires 0 < i < |pieces| && next == OffsetOf(content, pieces[0], start) + |pieces[0]|
    requires ExactAt(content, Locate(content, pieces[1..], index + 1, next), i - 1, next, 2, post)
    ensures ExactAt(content, Locate(content, pieces, index, start), i, start, gap, post)
  {
    LocateTail(content, pieces, index, start, i);
  }

  /** From `start` on the text is white space `gap`, the pieces with one blank line between each two, and `post`. */
  ghost predicate Adjacent(content: string, start: nat, gap: string, pieces: seq<string>, post: string) {
    && pieces != [] && start <= |content| && content[start..] == gap + Join(pieces) + post && AllSpace(gap)
    && forall k :: 0 <= k < |pieces| ==> pieces[k] != "" && !IsSpace(pieces[k][0])
  }

  lemma FirstLocated(content: string, start: nat, gap: string, pieces: seq<string>, post: string, next: nat)
    requires Adjacent(content, start, gap, pieces, post) && next == start + |gap| + |pieces[0]|
    ensures Occurs(content, pieces[0], start + |gap|) && OffsetOf(content, pieces[0], start) == start + |gap|
    ensures if |pieces| == 1 then next + |post| == |content| else Adjacent(content, next, BLANK_LINE, pieces[1..], post)
  {
    JoinHead(gap, pieces, post);
    if |pieces| == 1 {
      PieceLocated(content, start, gap, pieces[0], post);
    } else {
      PieceLocated(content, start, gap, pieces[0], BLANK_LINE + Join(pieces[1..]) + post);
      BlankLineIsSpace();
    }
  }

  lemma BlankLineIsSpace()
    ensures AllSpace(BLANK_LINE)
  {
  }

  lemma ExactFirst(content: string, pieces: seq<string>, index: nat, start: nat, gap: nat, post: nat)
    requires pieces != [] && Occurs(content, pieces[0], start + gap)
    requires OffsetOf(content, pieces[0], start) == start + gap
    requires |pieces| == 1 ==> start + gap + |pieces[0]| + post == |content|
    ensures ExactAt(content, Locate(content, pieces, index, start), 0, start, gap, post)
  {
    assert Locate(content, pieces, index, start)[0] == Chunk(index, pieces[0], start + gap, start + gap + |pieces[0]|);
  }

  /** If the pieces follow each other in the text with exactly one blank line between them, and only white space
      `gap` before the first, every interval is exact. */
  lemma {:induction false} AdjacentPiecesLocated(content: string, pieces: seq<string>, index: nat, start: nat,
                                                 gap: string, post: string, i: nat)
    requires Adjacent(content, start, gap, pieces, post) && i < |pieces|
    ensures ExactAt(content, Locate(content, pieces, index, start), i, start, |gap|, |post|)
    decreases |pieces|
  {
    var next := start + |gap| + |pieces[0]|;
    FirstLocated(content, start, gap, pieces, post, next);
    if i > 0 {
      AdjacentPiecesLocated(content, pieces[1..], index + 1, next, BLANK_LINE, post, i - 1);
      ExactLater(content, pieces, index, start, next, i, |gap|, |post|);
    } else {
      ExactFirst(content, pieces, index, start, |gap|, |post|);
    }
  }

  // ----- text in normal form -----

  /** A paragraph as the splitter leaves it: text, stripped, with no blank line inside. */
  ghost predicate IsParagraph(p: string) { p != "" && Stripped(p) && Break(p) == -1 }

  lemma BreakAfterParagraph(p: string, rest: string)
    requires IsParagraph(p)
    ensures Break(p + BLANK_LINE + rest) == |p|
  {
    var s := p + BLANK_LINE + rest;
    assert Occurs(s, BLANK_LINE, |p|);
    forall i | 0 <= i < |p| ensures !Occurs(s, BLANK_LINE, i) {
      if i + 2 <= |p| {
        assert s[i..i + 2] == p[i..i + 2];
        assert !Occurs(p, BLANK_LINE, i);
      } else {
        assert s[i..i + 2][0] == p[|p| - 1];
      }
    }
  }

  lemma {:induction false} SplitJoined(ps: seq<string>)
    requires ps != [] && forall i :: 0 <= i < |ps| ==> IsParagraph(ps[i])
    ensures Split(Join(ps)) == ps
  {
    if |ps| > 1 {
      BreakAfterParagraph(ps[0], Join(ps[1..]));
      var s := Join(ps);
      assert s[..|ps[0]|] == ps[0] && s[|ps[0]| + 2..] == Join(ps[1..]);
      SplitJoined(ps[1..]);
    }
  }

  lemma StripIdle(p: string)
    requires p != "" && Stripped(p)
    ensures Strip(p) == p
  {
    StripPadded("", p, "");
    assert "" + p + "" == p;
  }

  lemma {:induction false} ParagraphsKept(ps: seq<string>)
    requires forall i :: 0 <= i < |ps| ==> IsParagraph(ps[i])
    ensures Paragraphs(ps) == ps
  {
    if ps != [] {
      var n := |ps| - 1;
      ParagraphsKept(ps[..n]);
      StripIdle(ps[n]);
      ParagraphsLast(ps[..n], ps[n], ps[n]);
      OneMore(ps, n);
    }
  }

  lemma {:induction false} JoinEnds(ps: seq<string>)
    requires ps != [] && forall i :: 0 <= i < |ps| ==> ps[i] != "" && Stripped(ps[i])
    ensures Join(ps) != "" && Stripped(Join(ps)) && Join(ps)[0] == ps[0][0]
  {
    if |ps| > 1 { JoinEnds(ps[1..]); }
  }

  /** The exact case: stripped paragraphs separated by exactly one blank line, with any white space around them.
      The chunks are the greedy packing of those very paragraphs, every interval slices out its chunk, the first
      one starts after the leading white space, neighbours are two apart and the last ends before the trailing. */
  lemma NormalFormIsExact(pre: string, ps: seq<string>, post: string, maxChars: int, i: nat)
    requires AllSpace(pre) && AllSpace(post) && ps != [] && forall k :: 0 <= k < |ps| ==> IsParagraph(ps[k])
    requires i < |PackFrom("", ps, maxChars)|
    ensures var content := pre + Join(ps) + post;
            var cs := Locate(content, Pieces(content, maxChars), 0, 0);
            && Strip(content) == Join(ps) && Pieces(content, maxChars) == PackFrom("", ps, maxChars)
            && cs[i].content == PackFrom("", ps, maxChars)[i]
            && ExactAt(content, cs, i, 0, |pre|, |post|)
  {
    var content := pre + Join(ps) + post;
    JoinEnds(ps);
    StripPadded(pre, Join(ps), post);
    SplitJoined(ps);
    ParagraphsKept(ps);
    var pieces := PackFrom("", ps, maxChars);
    ChunksJoinToParagraphs(ps, maxChars);
    PiecesStartWithText(ps, maxChars);
    assert content[0..] == pre + Join(pieces) + post;
    AdjacentPiecesLocated(content, pieces, 0, 0, pre, post, i);
    OffsetsInOrder(content, pieces, 0, 0, i);
  }

  lemma PiecesStartWithText(ps: seq<string>, maxChars: int)
    requires forall i :: 0 <= i < |ps| ==> ps[i] != "" && Stripped(ps[i])
    ensures forall k :: 0 <= k < |PackFrom("", ps, maxChars)| ==>
              PackFrom("", ps, maxChars)[k] != "" && !IsSpace(PackFrom("", ps, maxChars)[k][0])
  {
    PackingIsOptimal(ps, maxChars);
    var gs := GreedyGroups(ps, maxChars);
    forall k | 0 <= k < |gs| ensures Join(gs[k]) != "" && !IsSpace(Join(gs[k])[0]) {
      GroupMembers(gs, k);
      forall j | 0 <= j < |gs[k]| ensures gs[k][j] != "" && Stripped(gs[k][j]) {
        assert gs[k][j] in gs[k];
      }
      JoinEnds(gs[k]);
    }
  }

  lemma {:induction false} GroupMembers(gs: seq<seq<string>>, k: nat)
    requires k < |gs|
    ensures forall p :: p in gs[k] ==> p in Flatten(gs)
  {
    if k > 0 { GroupMembers(gs[1..], k - 1); }
  }

  lemma SplitExtraBlankLine(a: string, b: string)
    requires IsParagraph(a) && IsParagraph(b)
    ensures Split(a + BLANK_LINE + (BLANK_LINE + b)) == [a, "", b]
  {
    var rest := BLANK_LINE + b;
    var s := a + BLANK_LINE + rest;
    BreakAfterParagraph(a, rest);
    assert s[..|a|] == a && s[|a| + 2..] == rest;
    assert Occurs(rest, BLANK_LINE, 0) && Break(rest) == 0;
    assert rest[..0] == "" && rest[2..] == b;
    assert Split(rest) == [""] + Split(b) == ["", b];
  }

  lemma ThreeLines(a: string, b: string, c: string)
    ensures [a] + [b] + [c] == [a, b, c] && [a] + [] + [c] == [a, c]
  {
  }

  lemma ParagraphsSkipBlank(a: string, b: string)
    requires IsParagraph(a) && IsParagraph(b)
    ensures Paragraphs([a, "", b]) == [a, b]
  {
    ParagraphsKept([a]);
    ParagraphsLast([a], "", "");
    StripIdle(b);
    ParagraphsLast([a] + [""], b, b);
    ThreeLines(a, "", b);
  }

  lemma PieceAbsent(a: string, b: string, content: string, piece: string)
    requires IsParagraph(a) && IsParagraph(b)
    requires content == a + BLANK_LINE + (BLANK_LINE + b) && piece == a + BLANK_LINE + b
    ensures Find(content, piece, 0) == -1
  {
    forall i | 0 <= i ensures !Occurs(content, piece, i) {
      if i + |piece| <= |content| {
        if i == 0 {
          assert content[i..i + |piece|][|a| + 2] == content[|a| + 2] == '\n' && piece[|a| + 2] == b[0];
        } else {
          assert content[i..i + |piece|][|a| - 1] == content[i + |a| - 1] == '\n' && piece[|a| - 1] == a[|a| - 1];
        }
      }
    }
  }

  lemma PackTwo(a: string, b: string, maxChars: int)
    requires a != "" && b != "" && |a| + |b| + 2 <= maxChars
    ensures PackFrom("", [a, b], maxChars) == [a + BLANK_LINE + b]
  {
    var piece := a + BLANK_LINE + b;
    assert [a, b][1..] == [b] && [b][1..] == [];
    assert PackFrom(piece, [], maxChars) == [piece];
    assert PackFrom(a, [b], maxChars) == PackFrom(piece, [], maxChars);
  }

  lemma LocateMissing(content: string, piece: string)
    requires Find(content, piece, 0) == -1
    ensures Locate(content, [piece], 0, 0) == [Chunk(0, piece, 0, |piece|)] && !Occurs(content, piece, 0)
  {
    assert [piece][1..] == [];
  }

  /** Outside normal form intervals can be off: whenever two paragraphs that fit together have one more blank line
      between them, their chunk occurs nowhere in the text and its interval is the fallback one. */
  lemma ExtraBlankLineMisplaces(a: string, b: string, content: string, maxChars: int)
    requires IsParagraph(a) && IsParagraph(b) && |a| + |b| + 2 <= maxChars
    requires content == a + BLANK_LINE + (BLANK_LINE + b)
    ensures var piece := a + BLANK_LINE + b;
            Locate(content, Pieces(content, maxChars), 0, 0) == [Chunk(0, piece, 0, |piece|)]
                && !Occurs(content, piece, 0)
  {
    assert content[0] == a[0] && content[|content| - 1] == b[|b| - 1];
    StripIdle(content);
    SplitExtraBlankLine(a, b);
    ParagraphsSkipBlank(a, b);
    PackTwo(a, b, maxChars);
    PieceAbsent(a, b, content, a + BLANK_LINE + b);
    LocateMissing(content, a + BLANK_LINE + b);
  }
}
