/** A text is its paragraphs, each behind a gap of white space. */
module ChunkSpacing {
  import opened Chunking
  import opened Text

  /** Each paragraph behind its gap. */
  function Woven(gaps: seq<string>, ps: seq<string>): string
    requires |gaps| == |ps|
  {
    if ps == [] then "" else gaps[0] + ps[0] + Woven(gaps[1..], ps[1..])
  }

  /** The text is these paragraphs behind these gaps, and white space at the end. There is a blank line in each gap
      between two paragraphs. */
  ghost predicate Weaves(text: string, gaps: seq<string>, ps: seq<string>, post: string) {
    && |gaps| == |ps| && text == Woven(gaps, ps) + post && AllSpace(post)
    && (forall k :: 0 <= k < |gaps| ==> AllSpace(gaps[k]))
    && (forall k :: 0 < k < |gaps| ==> Break(gaps[k]) >= 0)
  }

  // ----- every text is woven from its paragraphs -----

  /** What a line adds to the paragraphs. */
  function Kept(line: string): seq<string> { if Strip(line) != "" then [Strip(line)] else [] }

  lemma OneMoreKept(lines: seq<string>, line: string)
    ensures Paragraphs(lines + [line]) == Paragraphs(lines) + Kept(line)
  {
    ParagraphsLast(lines, line, Strip(line));
  }

  lemma ParagraphsNone(lines: seq<string>)
    requires lines == []
    ensures Paragraphs(lines) == []
  {
  }

  lemma ParagraphsOne(line: string)
    ensures Paragraphs([line]) == Kept(line)
  {
    var none: seq<string> := [];
    ParagraphsNone(none);
    OneMoreKept(none, line);
    assert none + [line] == [line];
  }

  lemma {:induction false} ParagraphsFirst(line: string, lines: seq<string>)
    ensures Paragraphs([line] + lines) == Kept(line) + Paragraphs(lines)
  {
    if lines == [] {
      ParagraphsOne(line);
      ParagraphsNone(lines);
      assert [line] + lines == [line];
    } else {
      var n := |lines| - 1;
      ParagraphsFirst(line, lines[..n]);
      ParagraphsFirstLater(line, lines[..n], lines[n]);
      OneMore(lines, n);
    }
  }

  lemma ParagraphsFirstLater(line: string, front: seq<string>, last: string)
    requires Paragraphs([line] + front) == Kept(line) + Paragraphs(front)
    ensures Paragraphs([line] + (front + [last])) == Kept(line) + Paragraphs(front + [last])
  {
    OneMoreKept([line] + front, last);
    OneMoreKept(front, last);
    ConcatGrouped([line], front, [last]);
    ConcatGrouped(Kept(line), Paragraphs(front), Kept(last));
  }

  lemma ConcatGrouped<T>(x: seq<T>, y: seq<T>, z: seq<T>)
    ensures (x + y) + z == x + (y + z)
  {
  }

  /** White space in front of a text joins its first gap. */
  lemma WeavesPadded(space: string, s: string, gaps: seq<string>, ps: seq<string>, post: string)
    returns (gaps1: seq<string>, post1: string)
    requires Weaves(s, gaps, ps, post) && AllSpace(space)
    ensures Weaves(space + s, gaps1, ps, post1) && (ps != [] ==> gaps1[0] == space + gaps[0])
  {
    if ps == [] {
      gaps1, post1 := [], space + post;
      assert s == post && space + s == Woven(gaps1, ps) + post1;
    } else {
      gaps1, post1 := gaps[0 := space + gaps[0]], post;
      assert gaps1[1..] == gaps[1..];
      WeavesRest(s, gaps, ps, post);
      var rest := Woven(gaps[1..], ps[1..]);
      Regrouped4(space + gaps[0], ps[0], rest, post);
      assert space + (gaps[0] + ps[0] + (rest + post)) == (space + gaps[0]) + ps[0] + (rest + post);
    }
  }

  /** A paragraph in front of a text whose first gap holds a blank line. */
  lemma WeavesOneMore(lead: string, p: string, s: string, gaps: seq<string>, ps: seq<string>, post: string)
    requires Weaves(s, gaps, ps, post) && AllSpace(lead) && (ps != [] ==> Break(gaps[0]) >= 0)
    ensures Weaves(lead + p + s, [lead] + gaps, [p] + ps, post)
  {
    assert ([lead] + gaps)[1..] == gaps && ([p] + ps)[1..] == ps;
    Regrouped4(lead, p, Woven(gaps, ps), post);
    forall k | 0 < k < |gaps| + 1 ensures AllSpace(([lead] + gaps)[k]) && Break(([lead] + gaps)[k]) >= 0 {
      assert ([lead] + gaps)[k] == gaps[k - 1];
    }
  }

  lemma HoldsBlankLine(a: string, b: string)
    ensures Break(a + BLANK_LINE + b) >= 0
  {
    assert Occurs(a + BLANK_LINE + b, BLANK_LINE, |a|);
  }

  lemma LineIsWoven(line: string) returns (gaps: seq<string>, post: string)
    ensures Weaves(line, gaps, Kept(line), post)
  {
    var lead, trail := StripParts(line);
    if Strip(line) == "" {
      gaps, post := [], line;
      WeavesNothing(line);
    } else {
      gaps, post := [lead], trail;
      WeavesOne(lead, Strip(line), trail);
    }
  }

  lemma WeavesNothing(space: string)
    requires AllSpace(space)
    ensures Weaves(space, [], [], space)
  {
    assert Woven([], []) + space == space;
  }

  lemma WeavesOne(gap: string, p: string, post: string)
    requires AllSpace(gap) && AllSpace(post)
    ensures Weaves(gap + p + post, [gap], [p], post)
  {
    assert [gap][1..] == [] && [p][1..] == [];
    assert Woven([], []) == "";
  }

  /** One more line and a blank line in front of a woven text. */
  lemma LineAndRest(line: string, rest: string, gaps: seq<string>, ps: seq<string>, post: string)
    returns (gaps1: seq<string>, post1: string)
    requires Weaves(rest, gaps, ps, post)
    ensures Weaves(line + BLANK_LINE + rest, gaps1, Kept(line) + ps, post1)
  {
    var lead, trail := StripParts(line);
    BlankLineIsSpace();
    if Strip(line) == "" {
      assert line == lead + trail && Kept(line) + ps == ps;
      gaps1, post1 := WeavesPadded(line + BLANK_LINE, rest, gaps, ps, post);
    } else {
      gaps1, post1 := WeavesPadded(trail + BLANK_LINE, rest, gaps, ps, post);
      if ps != [] { HoldsBlankLine(trail, gaps[0]); }
      WeavesOneMore(lead, Strip(line), trail + BLANK_LINE + rest, gaps1, ps, post1);
      gaps1 := [lead] + gaps1;
      LineParts(lead, Strip(line), trail, rest);
    }
  }

  lemma LineParts(lead: string, p: string, trail: string, rest: string)
    ensures lead + p + trail + BLANK_LINE + rest == lead + p + (trail + BLANK_LINE + rest)
  {
  }

  lemma SplitNothing(s: string)
    requires Break(s) == -1
    ensures ParagraphsOf(s) == Kept(s)
  {
    ParagraphsOne(s);
  }

  lemma SplitFirst(s: string, n: nat)
    requires Break(s) == n
    ensures n + 2 <= |s| && s == s[..n] + BLANK_LINE + s[n + 2..]
    ensures ParagraphsOf(s) == Kept(s[..n]) + ParagraphsOf(s[n + 2..])
  {
    Parted(s, n);
    ParagraphsFirst(s[..n], Split(s[n + 2..]));
  }

  lemma {:induction false} SplitIsWoven(s: string) returns (gaps: seq<string>, post: string)
    ensures Weaves(s, gaps, ParagraphsOf(s), post)
    decreases |s|
  {
    var n := Break(s);
    if n == -1 {
      gaps, post := LineIsWoven(s);
      SplitNothing(s);
    } else {
      SplitFirst(s, n);
      gaps, post := SplitIsWoven(s[n + 2..]);
      gaps, post := LineAndRest(s[..n], s[n + 2..], gaps, ParagraphsOf(s[n + 2..]), post);
    }
  }

  /** Every text is its paragraphs, as the splitter lists them, each behind a gap. */
  lemma TextIsWoven(content: string) returns (gaps: seq<string>, post: string)
    ensures Weaves(content, gaps, ParagraphsOf(Strip(content)), post)
  {
    var lead, trail := StripParts(content);
    var stripped := Strip(content);
    gaps, post := SplitIsWoven(stripped);
    gaps, post := WeavesPadded(lead, stripped, gaps, ParagraphsOf(stripped), post);
    WeavesTrailed(lead + stripped, gaps, ParagraphsOf(stripped), post, trail);
    post := post + trail;
  }

  lemma WeavesTrailed(s: string, gaps: seq<string>, ps: seq<string>, post: string, space: string)
    requires Weaves(s, gaps, ps, post) && AllSpace(space)
    ensures Weaves(s + space, gaps, ps, post + space)
  {
    var woven := Woven(gaps, ps);
    assert (woven + post) + space == woven + (post + space);
  }

  lemma GapNoLonger(a: string, p: string, rest: string, b: string, q: string, other: string)
    requires a + p + rest == b + q + other && AllSpace(b) && p != "" && !IsSpace(p[0])
    ensures |b| <= |a|
  {
    assert forall i :: 0 <= i < |b| ==> IsSpace((b + q + other)[i]);
    assert (a + p + rest)[|a|] == p[0];
  }

  /** Where the first text stands after a gap, and what follows it. */
  lemma GapEnds(a: string, p: string, rest: string, b: string, other: string)
    requires a + p + rest == b + p + other && AllSpace(a) && AllSpace(b) && p != "" && !IsSpace(p[0])
    ensures a == b && rest == other
  {
    GapNoLonger(a, p, rest, b, p, other);
    GapNoLonger(b, p, other, a, p, rest);
    assert a == (a + p + rest)[..|a|] == (b + p + other)[..|b|] == b;
    assert rest == (a + p + rest)[|a| + |p|..] == (b + p + other)[|b| + |p|..] == other;
  }

  /** The gaps are those of the text: there is only one way to weave it. */
  lemma {:induction false} GapsAreUnique(text: string, ps: seq<string>, a: seq<string>, postA: string, b: seq<string>,
                                         postB: string)
    requires Weaves(text, a, ps, postA) && Weaves(text, b, ps, postB)
    requires AllParagraphs(ps)
    ensures a == b && postA == postB
    decreases |ps|
  {
    if ps != [] {
      var restA, restB := Woven(a[1..], ps[1..]) + postA, Woven(b[1..], ps[1..]) + postB;
      WeavesRest(text, a, ps, postA);
      WeavesRest(text, b, ps, postB);
      GapEnds(a[0], ps[0], restA, b[0], restB);
      GapsAreUnique(restA, ps[1..], a[1..], postA, b[1..], postB);
      assert a == [a[0]] + a[1..] && b == [b[0]] + b[1..];
    } else {
      assert "" + postA == postA && "" + postB == postB;
    }
  }

  lemma Regrouped4(a: string, b: string, c: string, d: string)
    ensures (a + b + c) + d == a + b + (c + d)
  {
  }

  lemma WeavesRest(text: string, gaps: seq<string>, ps: seq<string>, post: string)
    requires Weaves(text, gaps, ps, post) && ps != []
    ensures text == gaps[0] + ps[0] + (Woven(gaps[1..], ps[1..]) + post)
    ensures Weaves(Woven(gaps[1..], ps[1..]) + post, gaps[1..], ps[1..], post)
  {
    Regrouped4(gaps[0], ps[0], Woven(gaps[1..], ps[1..]), post);
  }

  // ----- the text of a group -----

  /** Between two paragraphs there is exactly one blank line. */
  ghost predicate SingleSpaced(gaps: seq<string>) { forall k :: 0 < k < |gaps| ==> gaps[k] == BLANK_LINE }

  lemma {:induction false} WovenConcat(gaps: seq<string>, a: seq<string>, b: seq<string>)
    requires |gaps| == |a| + |b|
    ensures Woven(gaps, a + b) == Woven(gaps[..|a|], a) + Woven(gaps[|a|..], b)
    decreases |a|
  {
    if a == [] {
      assert a + b == b && gaps[|a|..] == gaps;
    } else {
      var n := |a| - 1;
      WovenConcat(gaps[1..], a[1..], b);
      assert (a + b)[1..] == a[1..] + b && (a + b)[0] == a[0];
      assert gaps[..|a|][1..] == gaps[1..][..n] && gaps[|a|..] == gaps[1..][n..];
      Regrouped4(gaps[0], a[0], Woven(gaps[1..][..n], a[1..]), Woven(gaps[1..][n..], b));
    }
  }

  lemma GapIsLong(gap: string)
    requires Break(gap) >= 0
    ensures |gap| >= 2 && (|gap| == 2 ==> gap == BLANK_LINE)
  {
    var n := Break(gap);
    assert |gap| == 2 ==> gap[n..n + 2] == gap;
  }

  lemma JoinTwo(g: seq<string>)
    requires |g| > 1
    ensures Join(g) == g[0] + BLANK_LINE + Join(g[1..]) && |Join(g)| == |g[0]| + 2 + |Join(g[1..])|
  {
  }

  /** A group covers as much text as its chunk exactly when it is single spaced, and then it is that text. */
  lemma {:induction false} GroupLength(gaps: seq<string>, g: seq<string>)
    requires |gaps| == |g| > 0 && forall k :: 0 < k < |gaps| ==> Break(gaps[k]) >= 0
    ensures |Woven(gaps, g)| >= |gaps[0]| + |Join(g)|
    ensures |Woven(gaps, g)| == |gaps[0]| + |Join(g)| <==> SingleSpaced(gaps)
    ensures SingleSpaced(gaps) ==> Woven(gaps, g) == gaps[0] + Join(g)
    decreases |g|
  {
    if |g| > 1 {
      GroupLength(gaps[1..], g[1..]);
      GapIsLong(gaps[1]);
      JoinTwo(g);
      assert SingleSpaced(gaps) <==> gaps[1] == BLANK_LINE && SingleSpaced(gaps[1..]) by {
        assert forall k :: 0 < k < |gaps| - 1 ==> gaps[1..][k] == gaps[k + 1];
        assert forall k :: 1 < k < |gaps| ==> gaps[k] == gaps[1..][k - 1];
      }
    } else {
      assert Woven(gaps, g) == gaps[0] + g[0] + "";
    }
  }

  lemma SingleSpacedJoins(gaps: seq<string>, g: seq<string>)
    requires |gaps| == |g| > 0 && SingleSpaced(gaps)
    ensures Woven(gaps, g) == gaps[0] + Join(g)
  {
    HoldsBlankLine("", "");
    assert "" + BLANK_LINE + "" == BLANK_LINE;
    GroupLength(gaps, g);
  }

  lemma JoinStarts(g: seq<string>)
    requires g != [] && AllParagraphs(g)
    ensures Join(g) != "" && !IsSpace(Join(g)[0])
  {
    JoinEnds(g);
  }

  /** The chunk of a single-spaced group is found in its place. */
  lemma GroupLocated(content: string, start: nat, gaps: seq<string>, g: seq<string>, rest: string)
    requires start <= |content| && |gaps| == |g| > 0 && content[start..] == Woven(gaps, g) + rest
    requires AllSpace(gaps[0]) && SingleSpaced(gaps) && AllParagraphs(g)
    ensures OffsetOf(content, Join(g), start) == start + |gaps[0]| && Occurs(content, Join(g), start + |gaps[0]|)
    ensures |Woven(gaps, g)| == |gaps[0]| + |Join(g)|
  {
    SingleSpacedJoins(gaps, g);
    JoinStarts(g);
    PieceLocated(content, start, gaps[0], Join(g), rest);
  }
}
