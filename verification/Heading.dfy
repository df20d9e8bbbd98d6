/** The heading of a chunk. */
module Heading {
  import opened OrderedDict
  import opened Text

  const HASH := '#'

  predicate IsHeading(line: string) { Strip(line) != "" && Strip(line)[0] == HASH }

  function WithoutHashes(s: string): string { if s == "" || s[0] != HASH then s else WithoutHashes(s[1..]) }

  function ChunkHeading(text: string): Option<string> { HeadingOf(Lines(text)) }

  /** A heading line without its leading hashes; nothing if that leaves no text. */
  function Title(line: string): (h: Option<string>)
    ensures h.Some? ==> h.value != "" && Stripped(h.value)
  {
    var text := Strip(WithoutHashes(Strip(line)));
    if text == "" then None else Some(text)
  }

  function HeadingTest(): string -> bool { (line: string) => IsHeading(line) }

  function Titling(): string -> Option<string> { (line: string) => Title(line) }

  /** What `f` makes of the first line that passes. */
  function FirstOf(lines: seq<string>, p: string -> bool, f: string -> Option<string>): Option<string> {
    if lines == [] then None else if p(lines[0]) then f(lines[0]) else FirstOf(lines[1..], p, f)
  }

  function HeadingOf(lines: seq<string>): Option<string> { FirstOf(lines, HeadingTest(), Titling()) }

  ghost predicate IsFirstLine(lines: seq<string>, p: string -> bool, i: int) {
    0 <= i < |lines| && p(lines[i]) && forall j :: 0 <= j < i ==> !p(lines[j])
  }

  /** The first line that passes decides; without one there is nothing. */
  lemma {:induction false} FirstDecides(lines: seq<string>, p: string -> bool, f: string -> Option<string>)
    ensures forall i :: IsFirstLine(lines, p, i) ==> FirstOf(lines, p, f) == f(lines[i])
    ensures (forall i :: 0 <= i < |lines| ==> !p(lines[i])) ==> FirstOf(lines, p, f) == None
  {
    if lines != [] {
      FirstDecides(lines[1..], p, f);
      forall i | IsFirstLine(lines, p, i) && i > 0 ensures IsFirstLine(lines[1..], p, i - 1) {
        assert forall j :: 0 <= j < i ==> lines[1..][j] == lines[j + 1];
      }
    }
  }

  // ----- the lines of a text, in plain terms -----

  /** What may end a line: one break, or a carriage return and a line feed together. */
  ghost predicate IsLineEnd(end: string) { end == "\r\n" || (|end| == 1 && IsLineBreak(end[0])) }

  ghost function WithEnds(lines: seq<string>, ends: seq<string>): string
    requires |lines| == |ends|
  {
    if lines == [] then "" else lines[0] + ends[0] + WithEnds(lines[1..], ends[1..])
  }

  /** The text is these lines, each with its end; only the last one may have none, and no carriage return and line feed
      are taken apart. */
  ghost predicate AreLines(text: string, lines: seq<string>, ends: seq<string>) {
    && |lines| == |ends| && text == WithEnds(lines, ends)
    && (forall i, j :: 0 <= i < |lines| && 0 <= j < |lines[i]| ==> !IsLineBreak(lines[i][j]))
    && (forall i :: 0 <= i < |ends| ==> IsLineEnd(ends[i]) || (i == |ends| - 1 && ends[i] == "" && lines[i] != ""))
    && (forall i :: 0 < i < |ends| ==> !(ends[i - 1] == "\r" && lines[i] == "" && ends[i] == "\n"))
  }

  lemma EndsLine(text: string)
    requires LineEnd(text) < |text|
    ensures IsLineEnd(text[LineEnd(text)..NextLine(text)])
    ensures text[LineEnd(text)..NextLine(text)] == "\r" && NextLine(text) < |text| ==> text[NextLine(text)] != '\n'
  {
    var n := LineEnd(text);
    if NextLine(text) == n + 2 {
      assert text[n..n + 2] == [text[n], text[n + 1]] == "\r\n";
    }
  }

  lemma CutTwice(text: string, n: nat, next: nat)
    requires n <= next <= |text|
    ensures text == text[..n] + text[n..next] + text[next..]
  {
  }

  lemma {:induction false} TextHasLines(text: string) returns (ends: seq<string>)
    ensures AreLines(text, Lines(text), ends)
    decreases |text|
  {
    if text == "" {
      ends := [];
    } else if LineEnd(text) == |text| {
      ends := [""];
      OneLine(text);
    } else {
      var n, next := LineEnd(text), NextLine(text);
      var rest := TextHasLines(text[next..]);
      EndsLine(text);
      CutTwice(text, n, next);
      LineAndOthers(text[..n], text[n..next], text[next..], Lines(text[next..]), rest);
      ends := [text[n..next]] + rest;
    }
  }

  lemma OneLine(text: string)
    requires text != "" && LineEnd(text) == |text|
    ensures AreLines(text, [text], [""])
  {
    assert [text][1..] == [] && [""][1..] == [];
    assert WithEnds([], []) == "";
  }

  lemma LineAndOthers(line: string, end: string, rest: string, lines: seq<string>, ends: seq<string>)
    requires end == "\r" && rest != "" ==> rest[0] != '\n'
    requires AreLines(rest, lines, ends) && IsLineEnd(end) && forall j :: 0 <= j < |line| ==> !IsLineBreak(line[j])
    ensures AreLines(line + end + rest, [line] + lines, [end] + ends)
  {
    assert ([line] + lines)[1..] == lines && ([end] + ends)[1..] == ends;
    forall i, j | 0 <= i < |lines| + 1 && 0 <= j < |([line] + lines)[i]| ensures !IsLineBreak(([line] + lines)[i][j]) {
      if i > 0 { assert ([line] + lines)[i] == lines[i - 1]; }
    }
    forall i | 0 < i < |ends| + 1 ensures ([end] + ends)[i] == ends[i - 1] && ([line] + lines)[i] == lines[i - 1] {
    }
    if ends != [] && lines[0] == "" && ends[0] == "\n" { assert rest == "" + "\n" + WithEnds(lines[1..], ends[1..]); }
  }

  // ----- the title of a line, in plain terms -----

  /** Behind white space the line has a hash. */
  ghost predicate HashLine(line: string) {
    exists k :: 0 <= k < |line| && line[k] == '#' && forall j :: 0 <= j < k ==> IsSpace(line[j])
  }

  ghost predicate AllHashes(s: string) { forall i :: 0 <= i < |s| ==> s[i] == '#' }

  /** The line is white space, hashes, white space, the text, and white space; the hashes are all that stand there. */
  ghost predicate IsTitled(line: string, lead: string, hashes: string, gap: string, text: string, trail: string) {
    && line == lead + hashes + gap + text + trail
    && AllSpace(lead) && AllHashes(hashes) && AllSpace(gap) && AllSpace(trail) && Stripped(text)
    && (gap == "" && text != "" ==> text[0] != '#') && (hashes == "" ==> gap == "")
  }

  ghost predicate HasTitle(line: string, h: Option<string>) {
    exists lead, hashes, gap, text, trail :: IsTitled(line, lead, hashes, gap, text, trail)
      && h == if text == "" then None else Some(text)
  }

  /** The first line with a hash gives its title; without one there is no heading. */
  ghost predicate SaysHeading(text: string, h: Option<string>) {
    exists lines, ends :: AreLines(text, lines, ends)
      && ((forall i :: 0 <= i < |lines| ==> !HashLine(lines[i])) ==> h == None)
      && (forall i :: 0 <= i < |lines| && HashLine(lines[i]) && (forall j :: 0 <= j < i ==> !HashLine(lines[j]))
            ==> HasTitle(lines[i], h))
  }

  lemma {:induction false} HashesOff(s: string) returns (hashes: string)
    ensures s == hashes + WithoutHashes(s) && AllHashes(hashes)
    ensures WithoutHashes(s) != "" ==> WithoutHashes(s)[0] != '#'
  {
    if s == "" || s[0] != HASH {
      hashes := "";
    } else {
      hashes := HashesOff(s[1..]);
      hashes := [s[0]] + hashes;
    }
  }

  lemma StripKeeps(s: string)
    ensures Stripped(Strip(s))
  {
  }

  /** The first character that is no white space. */
  lemma FirstText(lead: string, text: string, trail: string, k: nat)
    requires AllSpace(lead) && AllSpace(trail) && Stripped(text) && k < |lead + text + trail|
    requires !IsSpace((lead + text + trail)[k]) && forall j :: 0 <= j < k ==> IsSpace((lead + text + trail)[j])
    ensures text != "" && (lead + text + trail)[k] == text[0]
  {
    var s := lead + text + trail;
    assert forall j :: 0 <= j < |lead| ==> s[j] == lead[j];
    assert forall j :: |lead| + |text| <= j < |s| ==> s[j] == trail[j - |lead| - |text|];
    assert |lead| <= k < |lead| + |text| && s[|lead|] == text[0];
  }

  lemma HeadingIff(line: string)
    ensures IsHeading(line) <==> HashLine(line)
  {
    var lead, trail := StripParts(line);
    var text := Strip(line);
    StripKeeps(line);
    if text != "" && text[0] == HASH {
      assert line[|lead|] == '#' && forall j :: 0 <= j < |lead| ==> line[j] == lead[j];
    }
    if k: nat :| k < |line| && line[k] == '#' && forall j :: 0 <= j < k ==> IsSpace(line[j]) {
      assert !IsSpace('#');
      FirstText(lead, text, trail, k);
    }
  }

  lemma HashedTitle(line: string, lead: string, hashes: string, gap: string, text: string, trail1: string,
                    trail: string)
    requires line == lead + (hashes + (gap + text + trail1)) + trail
    requires AllSpace(lead) && AllHashes(hashes) && AllSpace(gap) && AllSpace(trail1) && AllSpace(trail)
    requires Stripped(text) && (gap + text + trail1 != "" ==> (gap + text + trail1)[0] != '#')
    requires hashes == "" ==> gap == ""
    ensures HasTitle(line, if text == "" then None else Some(text))
  {
    if gap == "" && text != "" { assert (gap + text + trail1)[0] == text[0]; }
    TitleParts(lead, hashes, gap, text, trail1, trail);
    assert IsTitled(line, lead, hashes, gap, text, trail1 + trail);
  }

  lemma NoGap(s: string, rest: string, gap: string, text: string, trail: string)
    requires Stripped(s) && s == "" + rest && rest == gap + text + trail && AllSpace(gap)
    ensures gap == ""
  {
    assert s == gap + (text + trail);
  }

  /** The hashes, and what stands behind them. */
  lemma BehindHashes(stripped: string) returns (hashes: string, gap: string, trail: string)
    requires Stripped(stripped)
    ensures var text := Strip(WithoutHashes(stripped));
            && stripped == hashes + (gap + text + trail) && WithoutHashes(stripped) == gap + text + trail
            && AllHashes(hashes) && AllSpace(gap) && AllSpace(trail) && Stripped(text)
    ensures hashes == "" ==> gap == ""
    ensures WithoutHashes(stripped) != "" ==> WithoutHashes(stripped)[0] != '#'
  {
    var rest := WithoutHashes(stripped);
    hashes := HashesOff(stripped);
    gap, trail := StripParts(rest);
    StripKeeps(rest);
    if hashes == "" { NoGap(stripped, rest, gap, Strip(rest), trail); }
  }

  lemma TitleInPlainTerms(line: string)
    ensures HasTitle(line, Title(line))
  {
    var lead, trail := StripParts(line);
    StripKeeps(line);
    var stripped := Strip(line);
    var text := Strip(WithoutHashes(stripped));
    var hashes, gap, trail1 := BehindHashes(stripped);
    HashedTitle(line, lead, hashes, gap, text, trail1, trail);
    assert Title(line) == if text == "" then None else Some(text);
  }

  lemma TitleParts(lead: string, hashes: string, gap: string, text: string, trail1: string, trail: string)
    ensures lead + (hashes + (gap + text + trail1)) + trail == lead + hashes + gap + text + (trail1 + trail)
  {
  }

  lemma HeadingBy(text: string, lines: seq<string>, ends: seq<string>, p: string -> bool, f: string -> Option<string>)
    requires AreLines(text, lines, ends)
    requires forall i :: 0 <= i < |lines| ==> (p(lines[i]) <==> HashLine(lines[i])) && HasTitle(lines[i], f(lines[i]))
    ensures SaysHeading(text, FirstOf(lines, p, f))
  {
    FirstDecides(lines, p, f);
    forall i | 0 <= i < |lines| && HashLine(lines[i]) && forall j :: 0 <= j < i ==> !HashLine(lines[j])
      ensures HasTitle(lines[i], FirstOf(lines, p, f))
    {
      assert IsFirstLine(lines, p, i);
    }
  }

  lemma LineInPlainTerms(line: string)
    ensures (HeadingTest()(line) <==> HashLine(line)) && HasTitle(line, Titling()(line))
  {
    HeadingIff(line);
    TitleInPlainTerms(line);
  }

  /** What the heading of a chunk is, in plain terms. */
  lemma HeadingInPlainTerms(text: string)
    ensures SaysHeading(text, ChunkHeading(text))
  {
    var lines, p, f := Lines(text), HeadingTest(), Titling();
    var ends := TextHasLines(text);
    forall i | 0 <= i < |lines| ensures (p(lines[i]) <==> HashLine(lines[i])) && HasTitle(lines[i], f(lines[i])) {
      LineInPlainTerms(lines[i]);
    }
    HeadingBy(text, lines, ends, p, f);
  }
}
