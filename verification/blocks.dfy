/** Cutting a document into blocks (`markdown_to_blocks`) and telling the
    kind of a block (`block_to_block_type`). */
module Blocks {
  import opened Strings

  // ---------------------------------------------------------------------
  // Blocks
  // ---------------------------------------------------------------------

  /** The blank-line separator between blocks. */
  const BlankLine := "\n\n"

  /** Each piece stripped, empty results dropped, order kept. */
  function StripPieces(ps: seq<string>): (r: seq<string>)
    ensures |r| <= |ps|
    ensures forall i :: 0 <= i < |r| ==> r[i] != "" && Stripped(r[i])
    ensures r == [] <==> forall k :: 0 <= k < |ps| ==> AllSpace(ps[k])
  {
    if ps == [] then []
    else
      var head := Strip(ps[0]);
      assert forall k :: 1 <= k < |ps| ==> ps[k] == ps[1..][k - 1];
      (if head == "" then [] else [head]) + StripPieces(ps[1..])
  }

  /** One piece: dropped when blank, kept stripped otherwise. */
  lemma {:induction false} StripPiecesOne(p: string)
    ensures StripPieces([p]) == if AllSpace(p) then [] else [Strip(p)]
  {
    assert [p][1..] == [];
    assert StripPieces([p]) == (if Strip(p) == "" then [] else [Strip(p)]) + [];
  }

  /** The pieces are handled one at a time, in order. */
  lemma {:induction false} StripPiecesAppend(xs: seq<string>, ys: seq<string>)
    ensures StripPieces(xs + ys) == StripPieces(xs) + StripPieces(ys)
    decreases |xs|
  {
    if xs == [] {
      assert xs + ys == ys;
    } else {
      assert (xs + ys)[0] == xs[0];
      assert (xs + ys)[1..] == xs[1..] + ys;
      StripPiecesAppend(xs[1..], ys);
    }
  }

  /** A string absent from every piece is absent from every block. */
  lemma {:induction false} StripPiecesFree(ps: seq<string>, x: string)
    requires |x| > 0 && forall k :: 0 <= k < |ps| ==> !Contains(ps[k], x)
    ensures forall i :: 0 <= i < |StripPieces(ps)| ==> !Contains(StripPieces(ps)[i], x)
    decreases |ps|
  {
    if ps != [] {
      NotContainsSlice(ps[0], StripStart(ps[0]), StripEnd(ps[0]), x);
      assert forall k :: 0 <= k < |ps| - 1 ==> ps[1..][k] == ps[k + 1];
      StripPiecesFree(ps[1..], x);
    }
  }

  /** `markdown_to_blocks`: the document split at blank lines, each piece
      stripped, empty pieces dropped. */
  function MarkdownToBlocks(md: string): (r: seq<string>)
    ensures forall i :: 0 <= i < |r| ==> r[i] != "" && Stripped(r[i]) && !Contains(r[i], BlankLine)
  {
    SplitFree(md, BlankLine);
    StripPiecesFree(Split(md, BlankLine), BlankLine);
    StripPieces(Split(md, BlankLine))
  }

  /** The pieces of a blank text are blank. */
  lemma {:induction false} SplitSpace(s: string, d: string)
    requires |d| > 0 && AllSpace(s)
    ensures forall k :: 0 <= k < |Split(s, d)| ==> AllSpace(Split(s, d)[k])
    decreases |s|
  {
    match FindFrom(s, d, 0)
    case None =>
    case Some(i) =>
      var rest := s[i + |d|..];
      assert forall k :: 0 <= k < |rest| ==> rest[k] == s[i + |d| + k];
      SplitSpace(rest, d);
      assert forall k :: 1 <= k < |Split(s, d)| ==> Split(s, d)[k] == Split(rest, d)[k - 1];
  }

  /** Blank pieces joined by a blank separator make a blank text. */
  lemma {:induction false} JoinSpace(d: string, xs: seq<string>)
    requires AllSpace(d) && forall k :: 0 <= k < |xs| ==> AllSpace(xs[k])
    ensures AllSpace(Join(d, xs))
    decreases |xs|
  {
    if |xs| > 1 {
      assert forall k :: 0 <= k < |xs| - 1 ==> xs[1..][k] == xs[k + 1];
      JoinSpace(d, xs[1..]);
    }
  }

  /** A document has no blocks exactly when it is blank. */
  lemma {:induction false} MarkdownToBlocksEmpty(md: string)
    ensures MarkdownToBlocks(md) == [] <==> AllSpace(md)
  {
    var ps := Split(md, BlankLine);
    if AllSpace(md) {
      SplitSpace(md, BlankLine);
    }
    if forall k :: 0 <= k < |ps| ==> AllSpace(ps[k]) {
      JoinSpace(BlankLine, ps);
    }
  }

  /** Splitting at the first blank line, when the text before it holds no
      blank line and does not end in a line feed (so no blank line starts
      inside it). */
  lemma {:induction false} SplitAtBlock(x: string, rest: string)
    requires !Contains(x, BlankLine) && (x == [] || x[|x| - 1] != '\n')
    ensures Split(x + BlankLine + rest, BlankLine) == [x] + Split(rest, BlankLine)
  {
    var s := x + BlankLine + rest;
    forall j: nat | j < |x| ensures !OccursAt(s, BlankLine, j) {
      if j + 1 < |x| {
        assert s[j..j + 2] == x[j..j + 2];
        assert !OccursAt(x, BlankLine, j);
      } else {
        assert s[j] == x[|x| - 1];
        assert s[j..j + 2][0] == s[j];
      }
    }
    assert s[|x|..|x| + 2] == BlankLine;
    FindFirst(s, BlankLine, 0, |x|);
    assert s[..|x|] == x;
    assert s[|x| + 2..] == rest;
  }

  /** Well-formed blocks: non-empty, stripped, without a blank line. */
  predicate IsBlock(b: string) {
    b != "" && Stripped(b) && !Contains(b, BlankLine)
  }

  lemma {:induction false} SplitJoinBlocks(bs: seq<string>)
    requires |bs| >= 1 && forall i :: 0 <= i < |bs| ==> IsBlock(bs[i])
    ensures Split(Join(BlankLine, bs), BlankLine) == bs
    decreases |bs|
  {
    if |bs| == 1 {
      SplitAbsent(bs[0], BlankLine);
    } else {
      var rest := bs[1..];
      assert forall k :: 0 <= k < |rest| ==> rest[k] == bs[k + 1];
      JoinCons(BlankLine, bs[0], rest);
      assert bs == [bs[0]] + rest;
      SplitAtBlock(bs[0], Join(BlankLine, rest));
      SplitJoinBlocks(rest);
    }
  }

  /** Stripping keeps well-formed blocks as they are. */
  lemma {:induction false} StripPiecesBlocks(bs: seq<string>)
    requires forall i :: 0 <= i < |bs| ==> IsBlock(bs[i])
    ensures StripPieces(bs) == bs
    decreases |bs|
  {
    if bs != [] {
      var b := bs[0];
      assert b[..0] == [] && b[|b|..] == [] && b[0..|b|] == b;
      StripUnique(b, 0, |b|);
      assert forall k :: 0 <= k < |bs| - 1 ==> bs[1..][k] == bs[k + 1];
      StripPiecesBlocks(bs[1..]);
      assert bs == [b] + bs[1..];
    }
  }

  /** Blocks written out with blank lines between them are read back as
      the same blocks. */
  lemma {:induction false} MarkdownToBlocksJoin(bs: seq<string>)
    requires forall i :: 0 <= i < |bs| ==> IsBlock(bs[i])
    ensures MarkdownToBlocks(Join(BlankLine, bs)) == bs
  {
    if bs == [] {
      assert Split("", BlankLine) == [""];
    } else {
      SplitJoinBlocks(bs);
      StripPiecesBlocks(bs);
    }
  }

  /** Any document, written as its pieces between the leftmost blank lines:
      its blocks are those pieces, stripped, the blank ones dropped, in
      order (see `StripPiecesOne` and `StripPiecesAppend`). */
  lemma {:induction false} MarkdownToBlocksPieces(ps: seq<string>)
    requires |ps| >= 1 && LeftmostCuts(BlankLine, ps) && !Contains(ps[|ps| - 1], BlankLine)
    ensures MarkdownToBlocks(Join(BlankLine, ps)) == StripPieces(ps)
  {
    SplitJoin(BlankLine, ps);
  }

  /** Every document has such pieces: those of its split. */
  lemma {:induction false} MarkdownToBlocksSplit(md: string)
    ensures var ps := Split(md, BlankLine);
            && |ps| >= 1 && LeftmostCuts(BlankLine, ps) && !Contains(ps[|ps| - 1], BlankLine)
            && Join(BlankLine, ps) == md
  {
    SplitCuts(md, BlankLine);
    SplitFree(md, BlankLine);
  }

  // ---------------------------------------------------------------------
  // Block kinds
  // ---------------------------------------------------------------------

  datatype BlockType = Paragraph | Heading | Code | Quote | UnorderedList | OrderedList

  /** The number of `#` that open `s`. */
  function LeadingHashes(s: string): (n: nat)
    ensures n <= |s|
    ensures forall k :: 0 <= k < n ==> s[k] == '#'
    ensures n == |s| || s[n] != '#'
  {
    if s == [] || s[0] != '#' then 0 else 1 + LeadingHashes(s[1..])
  }

  /** The heading pattern `^#+ `: one or more `#` at the very start, then a
      space. */
  predicate HeadingMarker(s: string) {
    var n := LeadingHashes(s);
    1 <= n < |s| && s[n] == ' '
  }

  /** `block_to_block_type`: the first rule that matches, in the order
      heading, code fence at both ends, quote, `- `, `1. `, paragraph. */
  function BlockToBlockType(block: string): (r: BlockType)
    ensures r == Heading <==> HeadingMarker(block)
    ensures r == Heading ==> |block| >= 2 && block[0] == '#'
    ensures r == Code ==> |block| >= 3 && block[..3] == "```" && block[|block| - 3..] == "```"
    ensures r == Quote ==> |block| >= 1 && block[0] == '>'
    ensures r == UnorderedList ==> |block| >= 2 && block[..2] == "- "
    ensures r == OrderedList ==> |block| >= 3 && block[..3] == "1. "
    ensures block == [] || block[0] !in "#`>-1" ==> r == Paragraph
  {
    if HeadingMarker(block) then Heading
    else if StartsWith(block, "```") && EndsWith(block, "```") then Code
    else if StartsWith(block, ">") then Quote
    else if StartsWith(block, "- ") then UnorderedList
    else if StartsWith(block, "1. ") then OrderedList
    else Paragraph
  }

  /** The rules do not overlap: each kind is recognised by its own test
      alone, so their order does not matter. */
  lemma {:induction false} BlockTypeIff(block: string)
    ensures BlockToBlockType(block) == Code <==> StartsWith(block, "```") && EndsWith(block, "```")
    ensures BlockToBlockType(block) == Quote <==> StartsWith(block, ">")
    ensures BlockToBlockType(block) == UnorderedList <==> StartsWith(block, "- ")
    ensures BlockToBlockType(block) == OrderedList <==> StartsWith(block, "1. ")
  {
    if StartsWith(block, "```") || StartsWith(block, ">") || StartsWith(block, "- ") || StartsWith(block, "1. ") {
      assert block[0] != '#';
    }
  }

  /** A heading line: `level` times `#`, a space and the title. */
  function HeadingLine(level: nat, title: string): string {
    Repeat('#', level) + " " + title
  }

  lemma {:induction false} LeadingHashesOf(level: nat, rest: string)
    requires rest == [] || rest[0] != '#'
    ensures LeadingHashes(Repeat('#', level) + rest) == level
    decreases level
  {
    if level > 0 {
      assert (Repeat('#', level) + rest)[1..] == Repeat('#', level - 1) + rest;
      LeadingHashesOf(level - 1, rest);
    }
  }

  /** Headings are exactly the heading lines with at least one `#`: any
      number of them, seven and more included. */
  lemma {:induction false} HeadingLineType(level: nat, title: string)
    requires level >= 1
    ensures LeadingHashes(HeadingLine(level, title)) == level
    ensures BlockToBlockType(HeadingLine(level, title)) == Heading
  {
    LeadingHashesOf(level, " " + title);
    assert HeadingLine(level, title) == Repeat('#', level) + (" " + title);
  }

  lemma {:induction false} HeadingMarkerLine(block: string)
    requires HeadingMarker(block)
    ensures block == HeadingLine(LeadingHashes(block), block[LeadingHashes(block) + 1..])
  {
    var n := LeadingHashes(block);
    assert block[..n] == Repeat('#', n);
    assert block == block[..n] + [block[n]] + block[n + 1..];
  }

  /** Text between two fences is a code block; so is a lone fence, whose
      opening and closing fences overlap. */
  lemma {:induction false} CodeBlockType(body: string)
    ensures BlockToBlockType("```" + body + "```") == Code
    ensures BlockToBlockType("```") == Code
  {
    var s := "```" + body + "```";
    assert s[..3] == "```" && s[|s| - 3..] == "```";
    BlockTypeIff(s);
    BlockTypeIff("```");
  }
}
