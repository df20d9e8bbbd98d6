/** Where the chunks of a text belong: each in the place of the paragraphs it was packed from. */
module ChunkPlaces {
  import opened ChunkSpacing
  import opened Chunking
  import opened Text

  /** The paragraphs of one chunk, each behind its gap. */
  datatype Block = Block(gaps: seq<string>, ps: seq<string>)

  ghost predicate IsBlock(b: Block) {
    && |b.gaps| == |b.ps| > 0 && AllParagraphs(b.ps) && AllSpace(b.gaps[0])
    && forall k :: 0 < k < |b.gaps| ==> Break(b.gaps[k]) >= 0
  }

  ghost predicate AllBlocks(bs: seq<Block>) { forall i :: 0 <= i < |bs| ==> IsBlock(bs[i]) }

  ghost function BlockText(b: Block): string
    requires IsBlock(b)
  {
    Woven(b.gaps, b.ps)
  }

  ghost function BlocksText(bs: seq<Block>): string
    requires AllBlocks(bs)
  {
    if bs == [] then "" else BlockText(bs[0]) + BlocksText(bs[1..])
  }

  function BlockChunks(bs: seq<Block>): (r: seq<string>)
    ensures |r| == |bs|
  {
    if bs == [] then [] else [Join(bs[0].ps)] + BlockChunks(bs[1..])
  }

  /** From the start of each block's first paragraph to the end of its last. */
  ghost function OwnSpans(bs: seq<Block>, start: nat): seq<(nat, nat)>
    requires AllBlocks(bs)
  {
    if bs == [] then []
    else
      var end := start + |BlockText(bs[0])|;
      [(start + |bs[0].gaps[0]|, end)] + OwnSpans(bs[1..], end)
  }

  ghost predicate Tight(bs: seq<Block>) { forall i :: 0 <= i < |bs| ==> SingleSpaced(bs[i].gaps) }

  function Spans(cs: seq<Chunk>): seq<(nat, nat)> { seq(|cs|, i requires 0 <= i < |cs| => (cs[i].start, cs[i].end)) }

  lemma BlocksFirst(b: Block, bs: seq<Block>, start: nat)
    requires AllBlocks([b] + bs)
    ensures AllBlocks(bs) && IsBlock(b) && BlocksText([b] + bs) == BlockText(b) + BlocksText(bs)
    ensures BlockChunks([b] + bs) == [Join(b.ps)] + BlockChunks(bs)
    ensures OwnSpans([b] + bs, start)
            == [(start + |b.gaps[0]|, start + |BlockText(b)|)] + OwnSpans(bs, start + |BlockText(b)|)
    ensures Tight([b] + bs) <==> SingleSpaced(b.gaps) && Tight(bs)
  {
    var all := [b] + bs;
    assert all[0] == b && all[1..] == bs;
    forall i | 0 <= i < |bs| ensures IsBlock(bs[i]) { assert all[i + 1] == bs[i]; }
    assert Tight(all) ==> Tight(bs) by {
      assert forall i :: 0 <= i < |bs| ==> bs[i] == all[i + 1];
    }
  }

  lemma LocateFirst(content: string, piece: string, pieces: seq<string>, index: nat, start: nat)
    ensures var offset := OffsetOf(content, piece, start);
            var cs := Locate(content, [piece] + pieces, index, start);
            var tail := Locate(content, pieces, index + 1, offset + |piece|);
            && Spans(cs) == [(offset, offset + |piece|)] + Spans(tail)
            && (AllExact(content, tail) && Occurs(content, piece, offset) ==> AllExact(content, cs))
  {
    var offset := OffsetOf(content, piece, start);
    var c := Chunk(index, piece, offset, offset + |piece|);
    assert ([piece] + pieces)[1..] == pieces;
    assert Locate(content, [piece] + pieces, index, start)
           == [c] + Locate(content, pieces, index + 1, offset + |piece|);
  }

  lemma ConsEqual<T>(x: T, xs: seq<T>, y: T, ys: seq<T>)
    ensures [x] + xs == [y] + ys <==> x == y && xs == ys
  {
    assert ([x] + xs)[0] == x && ([x] + xs)[1..] == xs && ([y] + ys)[0] == y && ([y] + ys)[1..] == ys;
  }

  /** The chunks located from `start` on have these spans exactly if `tight`, and then they are exact. */
  ghost predicate InPlaceIff(content: string, pieces: seq<string>, index: nat, start: nat, own: seq<(nat, nat)>,
                             tight: bool) {
    var cs := Locate(content, pieces, index, start);
    (Spans(cs) == own <==> tight) && (tight ==> AllExact(content, cs))
  }

  /** A chunk that is found at its place is followed by the others. */
  lemma FoundInPlace(content: string, piece: string, pieces: seq<string>, index: nat, start: nat, at: nat, end: nat,
                     own: seq<(nat, nat)>, tight: bool)
    requires OffsetOf(content, piece, start) == at && Occurs(content, piece, at) && end == at + |piece|
    requires InPlaceIff(content, pieces, index + 1, end, own, tight)
    ensures InPlaceIff(content, [piece] + pieces, index, start, [(at, end)] + own, tight)
  {
    LocateFirst(content, piece, pieces, index, start);
    ConsEqual((at, end), Spans(Locate(content, pieces, index + 1, end)), (at, end), own);
  }

  /** A chunk shorter than its place is not given it. */
  lemma NotInPlace(content: string, piece: string, pieces: seq<string>, index: nat, start: nat, at: nat, end: nat,
                   own: seq<(nat, nat)>)
    requires end - at != |piece|
    ensures InPlaceIff(content, [piece] + pieces, index, start, [(at, end)] + own, false)
  {
    LocateFirst(content, piece, pieces, index, start);
    var offset := OffsetOf(content, piece, start);
    ConsEqual((offset, offset + |piece|), Spans(Locate(content, pieces, index + 1, offset + |piece|)), (at, end), own);
  }

  lemma SuffixOf(content: string, start: nat, head: string, rest: string)
    requires start <= |content| && content[start..] == head + rest
    ensures start + |head| <= |content| && content[start + |head|..] == rest
  {
    assert content[start + |head|..] == content[start..][|head|..];
  }

  /** The chunk of a single-spaced block is found in its place, and the rest of the text comes next. */
  lemma BlockLocated(content: string, b: Block, rest: string, start: nat, end: nat)
    requires IsBlock(b) && SingleSpaced(b.gaps) && start <= |content| && content[start..] == BlockText(b) + rest
    requires end == start + |BlockText(b)|
    ensures OffsetOf(content, Join(b.ps), start) == start + |b.gaps[0]|
    ensures Occurs(content, Join(b.ps), start + |b.gaps[0]|) && end == start + |b.gaps[0]| + |Join(b.ps)|
    ensures end <= |content| && content[end..] == rest
  {
    GroupLocated(content, start, b.gaps, b.ps, rest);
    SuffixOf(content, start, BlockText(b), rest);
  }

  /** Every chunk is given its own place exactly when its block is single spaced, whatever the blocks are separated by;
      and then every interval slices out its chunk. */
  lemma {:induction false} ChunksInPlaceIff(content: string, bs: seq<Block>, post: string, index: nat, start: nat)
    requires AllBlocks(bs) && start <= |content| && content[start..] == BlocksText(bs) + post
    ensures InPlaceIff(content, BlockChunks(bs), index, start, OwnSpans(bs, start), Tight(bs))
    decreases |bs|, 0
  {
    if bs != [] {
      var b, rest := bs[0], bs[1..];
      assert bs == [b] + rest;
      BlocksFirst(b, rest, start);
      ConcatGrouped(BlockText(b), BlocksText(rest), post);
      if SingleSpaced(b.gaps) {
        TightInPlace(content, b, rest, post, index, start, start + |BlockText(b)|);
      } else {
        LooseInPlace(content, b, rest, index, start, start + |BlockText(b)|);
      }
    }
  }

  lemma LooseInPlace(content: string, b: Block, bs: seq<Block>, index: nat, start: nat, end: nat)
    requires AllBlocks(bs) && IsBlock(b) && end == start + |BlockText(b)| && !SingleSpaced(b.gaps)
    ensures InPlaceIff(content, [Join(b.ps)] + BlockChunks(bs), index, start,
                       [(start + |b.gaps[0]|, end)] + OwnSpans(bs, end), false)
  {
    GroupLength(b.gaps, b.ps);
    NotInPlace(content, Join(b.ps), BlockChunks(bs), index, start, start + |b.gaps[0]|, end, OwnSpans(bs, end));
  }

  lemma {:induction false} TightInPlace(content: string, b: Block, bs: seq<Block>, post: string, index: nat, start: nat,
                                        end: nat)
    requires AllBlocks(bs) && IsBlock(b) && end == start + |BlockText(b)| && SingleSpaced(b.gaps)
    requires start <= |content| && content[start..] == BlockText(b) + (BlocksText(bs) + post)
    ensures InPlaceIff(content, [Join(b.ps)] + BlockChunks(bs), index, start,
                       [(start + |b.gaps[0]|, end)] + OwnSpans(bs, end), Tight(bs))
    decreases |bs|, 1
  {
    BlockLocated(content, b, BlocksText(bs) + post, start, end);
    ChunksInPlaceIff(content, bs, post, index + 1, end);
    FoundInPlace(content, Join(b.ps), BlockChunks(bs), index, start, start + |b.gaps[0]|, end, OwnSpans(bs, end),
                 Tight(bs));
  }

  // ----- the blocks of a document -----

  /** The gaps of the text, dealt out to the groups. */
  function Blocks(gs: seq<seq<string>>, gaps: seq<string>): (bs: seq<Block>)
    requires |gaps| == |Flatten(gs)|
    ensures |bs| == |gs| && forall i :: 0 <= i < |gs| ==> bs[i].ps == gs[i] && |bs[i].gaps| == |gs[i]|
  {
    if gs == [] then [] else [Block(gaps[..|gs[0]|], gs[0])] + Blocks(gs[1..], gaps[|gs[0]|..])
  }

  ghost predicate AreGroups(gs: seq<seq<string>>) { forall i :: 0 <= i < |gs| ==> gs[i] != [] && AllParagraphs(gs[i]) }

  ghost predicate AreGaps(gaps: seq<string>) {
    && (forall k :: 0 <= k < |gaps| ==> AllSpace(gaps[k])) && (forall k :: 0 < k < |gaps| ==> Break(gaps[k]) >= 0)
  }

  lemma GapsOf(gaps: seq<string>, m: nat)
    requires AreGaps(gaps) && m <= |gaps|
    ensures AreGaps(gaps[..m]) && AreGaps(gaps[m..])
  {
    forall k | 0 <= k < |gaps| - m ensures gaps[m..][k] == gaps[m + k] {
    }
  }

  /** Dealing the gaps out keeps the text and the chunks. */
  lemma {:induction false} BlocksOfGroups(gs: seq<seq<string>>, gaps: seq<string>)
    requires AreGroups(gs) && |gaps| == |Flatten(gs)| && AreGaps(gaps)
    ensures AllBlocks(Blocks(gs, gaps)) && BlocksText(Blocks(gs, gaps)) == Woven(gaps, Flatten(gs))
    ensures BlockChunks(Blocks(gs, gaps)) == JoinEach(gs)
    decreases |gs|
  {
    if gs != [] {
      var m, g, later := |gs[0]|, gs[0], gs[1..];
      GapsOf(gaps, m);
      BlocksOfGroups(later, gaps[m..]);
      var b, bs := Block(gaps[..m], g), Blocks(later, gaps[m..]);
      assert IsBlock(b);
      assert AllBlocks([b] + bs);
      BlocksFirst(b, bs, 0);
      WovenConcat(gaps, g, Flatten(later));
    }
  }

  lemma GroupsOfText(ps: seq<string>, maxChars: int)
    requires AllParagraphs(ps)
    ensures AreGroups(GreedyGroups(ps, maxChars)) && Flatten(GreedyGroups(ps, maxChars)) == ps
    ensures PackFrom("", ps, maxChars) == JoinEach(GreedyGroups(ps, maxChars))
  {
    var gs := GreedyGroups(ps, maxChars);
    PackingIsOptimal(ps, maxChars);
    forall i, k | 0 <= i < |gs| && 0 <= k < |gs[i]| ensures gs[i][k] != "" && Stripped(gs[i][k]) {
      GroupMembers(gs, i);
      assert gs[i][k] in ps;
    }
  }

  /** The blocks that greedy packing makes of a text. */
  function BlocksOf(ps: seq<string>, maxChars: int, gaps: seq<string>): (bs: seq<Block>)
    requires AllParagraphs(ps) && |gaps| == |ps| && AreGaps(gaps)
    ensures AllBlocks(bs) && BlocksText(bs) == Woven(gaps, ps) && BlockChunks(bs) == PackFrom("", ps, maxChars)
  {
    GroupsOfText(ps, maxChars);
    BlocksOfGroups(GreedyGroups(ps, maxChars), gaps);
    Blocks(GreedyGroups(ps, maxChars), gaps)
  }

  lemma TextInPlaceIff(content: string, ps: seq<string>, maxChars: int, gaps: seq<string>, post: string)
    requires AllParagraphs(ps) && Weaves(content, gaps, ps, post)
    ensures InPlaceIff(content, PackFrom("", ps, maxChars), 0, 0, OwnSpans(BlocksOf(ps, maxChars, gaps), 0),
                       Tight(BlocksOf(ps, maxChars, gaps)))
  {
    FromTheStart(content, BlocksOf(ps, maxChars, gaps), post);
  }

  lemma PiecesArePacked(content: string, ps: seq<string>, maxChars: int)
    requires ps == ParagraphsOf(Strip(content))
    ensures AllParagraphs(ps) && Pieces(content, maxChars) == PackFrom("", ps, maxChars)
  {
  }

  /** For a whole document: the intervals are the places of the chunks' own paragraphs exactly when every group that is
      packed into one chunk is single spaced in the text, and then they slice out the chunks. */
  lemma DocumentInPlaceIff(content: string, maxChars: int) returns (gaps: seq<string>, post: string)
    ensures Weaves(content, gaps, ParagraphsOf(Strip(content)), post)
    ensures InPlaceIff(content, Pieces(content, maxChars), 0, 0,
                       OwnSpans(BlocksOf(ParagraphsOf(Strip(content)), maxChars, gaps), 0),
                       Tight(BlocksOf(ParagraphsOf(Strip(content)), maxChars, gaps)))
  {
    var ps := ParagraphsOf(Strip(content));
    PiecesArePacked(content, ps, maxChars);
    gaps, post := TextIsWoven(content);
    TextInPlaceIff(content, ps, maxChars, gaps, post);
  }

  lemma FromTheStart(content: string, bs: seq<Block>, post: string)
    requires AllBlocks(bs) && content == BlocksText(bs) + post
    ensures InPlaceIff(content, BlockChunks(bs), 0, 0, OwnSpans(bs, 0), Tight(bs))
  {
    assert content[0..] == content;
    ChunksInPlaceIff(content, bs, post, 0, 0);
  }
}
