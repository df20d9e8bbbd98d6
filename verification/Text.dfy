/** The Python string operations that chunking and anchoring rely on. */
module Text {

  /** `str.isspace` on one character. */
  predicate IsSpace(c: char) {
    var n := c as int;
    || 0x09 <= n <= 0x0d || 0x1c <= n <= 0x20 || n == 0x85 || n == 0xa0 || n == 0x1680
    || 0x2000 <= n <= 0x200a || n == 0x2028 || n == 0x2029 || n == 0x202f || n == 0x205f || n == 0x3000
  }

  predicate AllSpace(s: string) { forall i :: 0 <= i < |s| ==> IsSpace(s[i]) }

  function StripLeft(s: string): (r: string)
    ensures |r| <= |s| && r == s[|s| - |r|..] && AllSpace(s[..|s| - |r|])
    ensures r != "" ==> !IsSpace(r[0])
  {
    if s == "" || !IsSpace(s[0]) then s else StripLeft(s[1..])
  }

  function StripRight(s: string): (r: string)
    ensures |r| <= |s| && r == s[..|r|] && AllSpace(s[|r|..])
    ensures r != "" ==> !IsSpace(r[|r| - 1])
  {
    if s == "" || !IsSpace(s[|s| - 1]) then s else StripRight(s[..|s| - 1])
  }

  function Strip(s: string): (r: string)
    ensures r != "" ==> !IsSpace(r[0]) && !IsSpace(r[|r| - 1])
  {
    var t := StripLeft(s);
    var r := StripRight(t);
    assert r != "" ==> r[0] == t[0];
    r
  }

  lemma ThreeParts(s: string, n: nat, m: nat)
    requires n + m <= |s|
    ensures s == s[..n] + s[n..][..m] + s[n..][m..]
  {
  }

  lemma StripParts(s: string) returns (lead: string, trail: string)
    ensures s == lead + Strip(s) + trail && AllSpace(lead) && AllSpace(trail)
  {
    var t := StripLeft(s);
    var r := StripRight(t);
    lead, trail := s[..|s| - |t|], t[|r|..];
    assert Strip(s) == r;
    ThreeParts(s, |s| - |t|, |r|);
  }

  /** Nothing to strip at either end. */
  predicate Stripped(s: string) { s != "" ==> !IsSpace(s[0]) && !IsSpace(s[|s| - 1]) }

  lemma {:induction false} StripLeftPadded(pre: string, s: string)
    requires AllSpace(pre) && (s != "" ==> !IsSpace(s[0]))
    ensures StripLeft(pre + s) == s
  {
    if pre == "" {
      assert pre + s == s;
    } else {
      assert (pre + s)[0] == pre[0] && (pre + s)[1..] == pre[1..] + s;
      StripLeftPadded(pre[1..], s);
    }
  }

  lemma {:induction false} StripRightPadded(s: string, post: string)
    requires AllSpace(post) && (s != "" ==> !IsSpace(s[|s| - 1]))
    ensures StripRight(s + post) == s
  {
    if post == "" {
      assert s + post == s;
    } else {
      var n := |post| - 1;
      assert (s + post)[|s| + n] == post[n] && (s + post)[..|s| + n] == s + post[..n];
      StripRightPadded(s, post[..n]);
    }
  }

  lemma StripPadded(pre: string, s: string, post: string)
    requires AllSpace(pre) && AllSpace(post) && s != "" && Stripped(s)
    ensures Strip(pre + s + post) == s
  {
    assert pre + s + post == pre + (s + post);
    StripLeftPadded(pre, s + post);
    StripRightPadded(s, post);
  }

  /** The characters that end a line for `str.splitlines`. */
  predicate IsLineBreak(c: char) {
    var n := c as int;
    0x0a <= n <= 0x0d || 0x1c <= n <= 0x1e || n == 0x85 || n == 0x2028 || n == 0x2029
  }

  function LineEnd(s: string): (n: nat)
    ensures n <= |s| && (forall i :: 0 <= i < n ==> !IsLineBreak(s[i])) && (n < |s| ==> IsLineBreak(s[n]))
  {
    if s == "" || IsLineBreak(s[0]) then 0 else 1 + LineEnd(s[1..])
  }

  /** Where the next line begins: a carriage return and a line feed end one line together. */
  function NextLine(s: string): (n: nat)
    requires LineEnd(s) < |s|
    ensures LineEnd(s) < n <= |s|
  {
    var n := LineEnd(s);
    if n + 1 < |s| && s[n] == '\r' && s[n + 1] == '\n' then n + 2 else n + 1
  }

  /** `str.splitlines`: a final break ends the last line. */
  function Lines(s: string): seq<string>
    decreases |s|
  {
    if s == "" then []
    else if LineEnd(s) == |s| then [s]
    else [s[..LineEnd(s)]] + Lines(s[NextLine(s)..])
  }

  predicate Occurs(text: string, part: string, at: int) {
    0 <= at && at + |part| <= |text| && text[at..at + |part|] == part
  }

  /** `text.find(part, start)`: the first occurrence at or after `start`, overlapping ones included, or -1. */
  function Find(text: string, part: string, start: nat): (r: int)
    ensures r == -1 || (r >= start && Occurs(text, part, r))
    ensures forall i :: start <= i && (r == -1 || i < r) ==> !Occurs(text, part, i)
    decreases |text| - start
  {
    if start + |part| > |text| then -1
    else if text[start..start + |part|] == part then start
    else Find(text, part, start + 1)
  }

  /** Python's `s[a:b]` for non-negative bounds: both are clamped to the length. */
  function Slice(s: string, a: nat, b: nat): string {
    var hi := if b <= |s| then b else |s|;
    if a <= hi then s[a..hi] else ""
  }
}
