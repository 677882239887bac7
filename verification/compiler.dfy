/** The block compilers of the Markdown-to-HTML core and the document
    compiler (`markdown_to_html_node`). */
module Compiler {
  import opened Wrappers
  import opened Strings
  import opened Errors
  import opened HtmlNodes
  import opened Inline
  import opened Blocks
  import opened Fences
  import opened Results

  // ---------------------------------------------------------------------
  // Code
  // ---------------------------------------------------------------------

  /** A `pre` element around one `code` leaf. */
  function CodeHtml(content: string): HtmlNode {
    Parent(Some("pre"), [Leaf(Some("code"), Some(content), [])], [])
  }

  /** `code_block_to_html`: the text after the first fence, up to the next
      one, with a line feed added. A block without any fence has no such
      piece. */
  function CodeBlockToHtml(block: string): (r: Result<HtmlNode, Error>)
    ensures r.Err? <==> forall p: nat :: FenceAt(block, p).None?
    ensures r.Err? ==> r.error == MissingCodeFence(block)
    ensures r.Ok? ==> Valid(r.value) && r.value.Parent? && r.value.tag == Some("pre") && r.value.props == []
  {
    match FencedText(block)
    case None => Err(MissingCodeFence(block))
    case Some(t) => Ok(CodeHtml(t + "\n"))
  }

  /** The body between an opening and a closing fence, each on its own
      line, is the code, ending in a line feed. */
  lemma {:induction false} CodeBlockBody(body: string)
    requires NoTicks(body)
    ensures BlockToBlockType("```\n" + body + "\n```") == Code
    ensures CodeBlockToHtml("```\n" + body + "\n```") == Ok(CodeHtml(body + "\n"))
  {
    var s := "```\n" + body + "\n```";
    FencedBody(body);
    assert s[..3] == "```" && s[|s| - 3..] == "```";
    BlockTypeIff(s);
  }

  /** Any text between two fences is the code, less the line feed after the
      opening backticks and the one before the closing backticks. */
  lemma {:induction false} CodeBlockFenced(x: string)
    requires Unfenced(x)
    ensures CodeBlockToHtml("```" + x + "```") == Ok(CodeHtml(TrimNewlines(x) + "\n"))
  {
    FencedAround(x);
  }

  /** A language name after the opening backticks is not taken off: it
      becomes the code's first line. */
  lemma {:induction false} CodeBlockInfoString(tag: string, body: string)
    requires tag != [] && tag[0] != '\n' && Unfenced(tag + "\n" + body + "\n")
    ensures CodeBlockToHtml("```" + tag + "\n" + body + "\n```")
            == Ok(CodeHtml(tag + "\n" + body + "\n"))
  {
    var x := tag + "\n" + body + "\n";
    assert "```" + tag + "\n" + body + "\n```" == "```" + x + "```";
    CodeBlockFenced(x);
    assert x[0] == tag[0];
    assert x[..|x| - 1] == tag + "\n" + body;
  }

  /** Code on the fences' own line: ```` ```x``` ```` is the code `x`. */
  lemma {:induction false} CodeBlockInline()
    ensures CodeBlockToHtml("```x```") == Ok(CodeHtml("x\n"))
  {
    var x := "x";
    assert "```x```" == "```" + x + "```";
    assert Unfenced(x) by {
      assert ("x" + "```")[0] == 'x';
    }
    CodeBlockFenced(x);
    assert TrimNewlines(x) + "\n" == "x\n";
  }

  /** A block that is a lone fence counts as code, the opening and closing
      fences being the same three backticks, and gives just a line feed. */
  lemma {:induction false} CodeBlockLone()
    ensures BlockToBlockType("```") == Code
    ensures CodeBlockToHtml("```") == Ok(CodeHtml("\n"))
  {
    CodeBlockType("");
    FencedLone();
    assert "" + "\n" == "\n";
  }

  /** Every block classified as code compiles. */
  lemma {:induction false} CodeBlockOk(block: string)
    requires BlockToBlockType(block) == Code
    ensures CodeBlockToHtml(block).Ok?
  {
    assert Ticks(block, 0);
    FencedStart(block);
  }

  // ---------------------------------------------------------------------
  // Headings
  // ---------------------------------------------------------------------

  /** A heading element's tag: `h` and a digit from 1 to 6. */
  predicate IsHeadingTag(t: string) {
    |t| == 2 && t[0] == 'h' && '1' <= t[1] <= '6'
  }

  /** `h1` to `h6`. */
  function HeadingTag(level: nat): (t: string)
    requires 1 <= level <= 6
    ensures IsHeadingTag(t) && t[1] as int - '0' as int == level
  {
    "h" + [('0' as int + level) as char]
  }

  /** `heading_block_to_html`: the first word's `#` count is the level and
      the rest the heading's text. The text is lexed before the level is
      checked, so a lexer error wins over a bad level. */
  function HeadingBlockToHtml(block: string): (r: Result<HtmlNode, Error>)
    ensures |SplitFirstWord(block)| < 2 ==> r == Err(MissingHeadingText(block))
    ensures r.Ok? ==> r.value.Parent? && r.value.props == []
    ensures r.Ok? ==> r.value.tag.Some? && IsHeadingTag(r.value.tag.value)
  {
    var words := SplitFirstWord(block);
    if |words| < 2 then Err(MissingHeadingText(block))
    else
      var level := CountChar(words[0], '#');
      var children :- TextToChildren(words[1]);
      if 1 <= level <= 6 then Ok(Parent(Some(HeadingTag(level)), children, []))
      else Err(HeadingLevel(level))
  }

  /** The heading of a block whose first word is `w` and whose text is
      `text`. */
  lemma {:induction false} HeadingFromWords(block: string, w: string, text: string)
    requires SplitFirstWord(block) == [w, text]
    ensures HeadingBlockToHtml(block)
            == match TextToChildren(text)
               case Err(e) => Err(e)
               case Ok(children) =>
                 var level := CountChar(w, '#');
                 if 1 <= level <= 6 then Ok(Parent(Some(HeadingTag(level)), children, []))
                 else Err(HeadingLevel(level))
  {
  }

  /** The heading of a block whose marker word has one to six `#` and whose
      text lexes to `cs`. */
  lemma {:induction false} HeadingFromText(block: string, w: string, text: string, cs: seq<HtmlNode>)
    requires SplitFirstWord(block) == [w, text] && TextToChildren(text) == Ok(cs)
    requires 1 <= CountChar(w, '#') <= 6
    ensures HeadingBlockToHtml(block) == Ok(Parent(Some(HeadingTag(CountChar(w, '#'))), cs, []))
  {
  }

  /** The words of a heading line: the `#` run and the title without its
      leading whitespace. */
  lemma {:induction false} HeadingLineWords(level: nat, title: string)
    requires level >= 1 && !AllSpace(title)
    ensures SplitFirstWord(HeadingLine(level, title)) == [Repeat('#', level), title[StripStart(title)..]]
    ensures CountChar(Repeat('#', level), '#') == level
  {
    assert HeadingLine(level, title) == Repeat('#', level) + " " + title;
    SplitFirstWordOf(Repeat('#', level), " ", title);
  }

  /** A heading line compiles to the heading of its level over its text,
      for one to six `#`; the classifier takes more, which the compiler
      rejects. */
  lemma {:induction false} HeadingLineHtml(level: nat, title: string)
    requires level >= 1 && !AllSpace(title)
    ensures BlockToBlockType(HeadingLine(level, title)) == Heading
    ensures HeadingBlockToHtml(HeadingLine(level, title))
            == match TextToChildren(title[StripStart(title)..])
               case Err(e) => Err(e)
               case Ok(children) =>
                 if level <= 6 then Ok(Parent(Some(HeadingTag(level)), children, []))
                 else Err(HeadingLevel(level))
  {
    HeadingLineType(level, title);
    HeadingLineWords(level, title);
    HeadingFromWords(HeadingLine(level, title), Repeat('#', level), title[StripStart(title)..]);
  }

  /** Seven or more `#` make a heading for the classifier and an error for
      the compiler. */
  lemma {:induction false} HeadingTooDeep(level: nat, title: string)
    requires level >= 7 && !AllSpace(title)
    requires TextToChildren(title[StripStart(title)..]).Ok?
    ensures BlockToBlockType(HeadingLine(level, title)) == Heading
    ensures HeadingBlockToHtml(HeadingLine(level, title)) == Err(HeadingLevel(level))
  {
    HeadingLineHtml(level, title);
  }

  /** Blocks from the splitter always have text after a heading marker. */
  lemma {:induction false} HeadingHasText(block: string)
    requires HeadingMarker(block) && Stripped(block)
    ensures |SplitFirstWord(block)| == 2
  {
    var n := LeadingHashes(block);
    var title := block[n + 1..];
    HeadingMarkerLine(block);
    assert title[|title| - 1] == block[|block| - 1];
    HeadingLineWords(n, title);
  }

  // ---------------------------------------------------------------------
  // Quotes
  // ---------------------------------------------------------------------

  /** `after` is what follows the first `>` of `line`. */
  predicate AfterFirstMarker(line: string, after: string) {
    var k := |line| - |after| - 1;
    && 0 <= k && line[k] == '>' && '>' !in line[..k] && line[k + 1..] == after
  }

  /** `line.split(">", maxsplit=1)[1]`: the line after its first `>`. */
  function AfterMarker(line: string): (r: Option<string>)
    ensures r.Some? <==> '>' in line
    ensures r.Some? ==> AfterFirstMarker(line, r.value)
  {
    var parts := SplitOnce(line, ">");
    ContainsChar(line, '>');
    if |parts| == 1 then None
    else
      ContainsChar(parts[0], '>');
      assert line == parts[0] + ">" + parts[1];
      assert line[..|parts[0]|] == parts[0];
      Some(parts[1])
  }

  /** One quote line's text after its first `>`; a line without one is an
      error. */
  function QuoteContent(line: string): (r: Result<string, Error>)
    ensures r.Ok? <==> '>' in line
    ensures r.Ok? ==> AfterFirstMarker(line, r.value)
    ensures r.Err? ==> r.error == MissingQuoteMarker(line)
  {
    match AfterMarker(line)
    case None => Err(MissingQuoteMarker(line))
    case Some(after) => Ok(after)
  }

  /** The text after a leading `>` is the rest of the line. */
  lemma {:induction false} QuoteContentMarked(x: string)
    ensures QuoteContent(">" + x) == Ok(x)
  {
    var line := ">" + x;
    var after := QuoteContent(line).value;
    assert line[0] == '>';
    assert |line| - |after| - 1 == 0;
  }

  /** Each line after its first `>`; the first line without one is an
      error. */
  function QuoteContents(lines: seq<string>): (r: Result<seq<string>, Error>)
    ensures r.Ok? <==> forall i :: 0 <= i < |lines| ==> '>' in lines[i]
    ensures r.Ok? ==> |r.value| == |lines|
    ensures r.Ok? ==> forall i :: 0 <= i < |lines| ==> AfterFirstMarker(lines[i], r.value[i])
  {
    MapResult(lines, QuoteContent)
  }

  /** The first line without `>` decides the error. */
  lemma {:induction false} QuoteContentsError(lines: seq<string>, k: nat)
    requires k < |lines| && '>' !in lines[k]
    requires forall j :: 0 <= j < k ==> '>' in lines[j]
    ensures QuoteContents(lines) == Err(MissingQuoteMarker(lines[k]))
  {
    MapResultFirstError(lines, QuoteContent, k);
  }

  /** `quote_block_to_html`: the lines' contents joined by spaces, lexed,
      in a `blockquote`. */
  function QuoteBlockToHtml(block: string): (r: Result<HtmlNode, Error>)
    ensures r.Ok? ==> r.value.Parent? && r.value.tag == Some("blockquote") && r.value.props == []
  {
    var contents :- QuoteContents(SplitLines(block));
    var children :- TextToChildren(Join(" ", contents));
    Ok(Parent(Some("blockquote"), children, []))
  }

  /** Each line with a `>` in front. */
  function QuoteLines(xs: seq<string>): (r: seq<string>)
    ensures |r| == |xs|
    ensures forall i :: 0 <= i < |xs| ==> r[i] == ">" + xs[i]
  {
    if xs == [] then [] else [">" + xs[0]] + QuoteLines(xs[1..])
  }

  lemma {:induction false} QuoteContentsLines(xs: seq<string>)
    ensures QuoteContents(QuoteLines(xs)) == Ok(xs)
  {
    var ls := QuoteLines(xs);
    forall i | 0 <= i < |xs| ensures QuoteContent(ls[i]) == Ok(xs[i]) {
      QuoteContentMarked(xs[i]);
    }
    var r := MapResult(ls, QuoteContent);
    assert r.Ok?;
    assert r.value == xs;
  }

  /** The quote of a block whose lines' contents are `cs`. */
  lemma {:induction false} QuoteFromContents(block: string, cs: seq<string>)
    requires QuoteContents(SplitLines(block)) == Ok(cs)
    ensures QuoteBlockToHtml(block)
            == match TextToChildren(Join(" ", cs))
               case Err(e) => Err(e)
               case Ok(children) => Ok(Parent(Some("blockquote"), children, []))
  {
  }

  /** A block whose first line starts with `>` is a quote. */
  lemma {:induction false} MarkedLinesType(ls: seq<string>)
    requires |ls| >= 1 && ls[0] != [] && ls[0][0] == '>'
    ensures BlockToBlockType(Join("\n", ls)) == Quote
  {
    JoinStart("\n", ls);
    BlockTypeIff(Join("\n", ls));
  }

  /** Quote lines read back: each line's text after its `>`, joined by
      spaces, is the quote's text. */
  lemma {:induction false} QuoteBlockLines(xs: seq<string>)
    requires |xs| >= 1 && forall i :: 0 <= i < |xs| ==> '\n' !in xs[i]
    ensures BlockToBlockType(Join("\n", QuoteLines(xs))) == Quote
    ensures QuoteBlockToHtml(Join("\n", QuoteLines(xs)))
            == match TextToChildren(Join(" ", xs))
               case Err(e) => Err(e)
               case Ok(children) => Ok(Parent(Some("blockquote"), children, []))
  {
    var ls := QuoteLines(xs);
    SplitLinesJoin(ls);
    QuoteContentsLines(xs);
    QuoteFromContents(Join("\n", ls), xs);
    MarkedLinesType(ls);
  }

  /** A quote whose second line has no `>`: the classifier looks only at
      the first character and takes it, the compiler rejects the line. */
  lemma {:induction false} QuoteMissingMarker(first: string, line: string)
    requires '\n' !in first && '\n' !in line && '>' !in line && line != ""
    ensures BlockToBlockType(">" + first + "\n" + line) == Quote
    ensures QuoteBlockToHtml(">" + first + "\n" + line) == Err(MissingQuoteMarker(line))
  {
    var ls := [">" + first, line];
    assert Join("\n", ls) == ">" + first + "\n" + line by {
      assert ls[1..] == [line];
    }
    SplitLinesJoin(ls);
    QuoteContentsError(ls, 1);
    MarkedLinesType(ls);
  }

  // ---------------------------------------------------------------------
  // Lists
  // ---------------------------------------------------------------------

  /** A list line without its first word (the marker); a line with fewer
      than two words is an error. */
  function ItemText(line: string): (r: Result<string, Error>)
    ensures r.Ok? <==> |SplitFirstWord(line)| == 2
    ensures r.Ok? ==> r.value != [] && !IsSpace(r.value[0])
    ensures r.Err? ==> r.error == MissingItemText(line)
  {
    var words := SplitFirstWord(line);
    if |words| < 2 then Err(MissingItemText(line)) else Ok(words[1])
  }

  /** `markdown_list_to_text`: each line without its first word; the first
      line with fewer than two words is an error. */
  function ListItems(lines: seq<string>): (r: Result<seq<string>, Error>)
    ensures r.Ok? <==> forall i :: 0 <= i < |lines| ==> |SplitFirstWord(lines[i])| == 2
    ensures r.Ok? ==> |r.value| == |lines|
    ensures r.Ok? ==> forall i :: 0 <= i < |lines| ==> ItemText(lines[i]) == Ok(r.value[i])
  {
    MapResult(lines, ItemText)
  }

  /** An `li` holding the children of `item`. */
  function ItemHtml(item: string): (r: Result<HtmlNode, Error>)
    ensures r.Ok? <==> TextToChildren(item).Ok?
    ensures r.Ok? ==> r.value.Parent? && r.value.tag == Some("li") && r.value.props == []
  {
    var children :- TextToChildren(item);
    Ok(Parent(Some("li"), children, []))
  }

  /** Each item's text as the children of an `li`; the first item whose
      text fails to lex stops. */
  function ListItemsToHtml(items: seq<string>): (r: Result<seq<HtmlNode>, Error>)
    ensures r.Ok? <==> forall i :: 0 <= i < |items| ==> TextToChildren(items[i]).Ok?
    ensures r.Ok? ==> |r.value| == |items|
    ensures r.Ok? ==> forall i :: 0 <= i < |items| ==> ItemHtml(items[i]) == Ok(r.value[i])
  {
    MapResult(items, ItemHtml)
  }

  /** `list_block_to_html`: the items in `li` elements under `tag`. */
  function ListBlockToHtml(block: string, tag: string): (r: Result<HtmlNode, Error>)
    ensures r.Ok? ==> r.value.Parent? && r.value.tag == Some(tag) && r.value.props == []
    ensures r.Ok? ==> |r.value.children| == |SplitLines(block)|
  {
    var items :- ListItems(SplitLines(block));
    var lis :- ListItemsToHtml(items);
    Ok(Parent(Some(tag), lis, []))
  }

  /** Each item behind `marker` and a space. */
  function ListLines(marker: string, xs: seq<string>): (r: seq<string>)
    ensures |r| == |xs|
    ensures forall i :: 0 <= i < |xs| ==> r[i] == marker + " " + xs[i]
  {
    if xs == [] then [] else [marker + " " + xs[0]] + ListLines(marker, xs[1..])
  }

  lemma {:induction false} ItemWords(marker: string, x: string)
    requires marker != [] && NoSpace(marker) && x != [] && !IsSpace(x[0])
    ensures SplitFirstWord(marker + " " + x) == [marker, x]
  {
    SplitFirstWordOf(marker, " ", x);
    assert StripStart(x) == 0;
    assert x[0..] == x;
  }

  /** Items that start with a non-blank character are read back from their
      lines, whatever the marker word. */
  lemma {:induction false} ListItemsLines(marker: string, xs: seq<string>)
    requires marker != [] && NoSpace(marker)
    requires forall i :: 0 <= i < |xs| ==> xs[i] != [] && !IsSpace(xs[i][0])
    ensures ListItems(ListLines(marker, xs)) == Ok(xs)
  {
    var ls := ListLines(marker, xs);
    forall i | 0 <= i < |xs| ensures SplitFirstWord(ls[i]) == [marker, xs[i]] {
      ItemWords(marker, xs[i]);
    }
    var r := ListItems(ls);
    assert r.Ok?;
    assert r.value == xs;
  }

  /** The list of a block whose items are `items`. */
  lemma {:induction false} ListFromItems(block: string, tag: string, items: seq<string>)
    requires ListItems(SplitLines(block)) == Ok(items)
    ensures ListBlockToHtml(block, tag)
            == match ListItemsToHtml(items)
               case Err(e) => Err(e)
               case Ok(lis) => Ok(Parent(Some(tag), lis, []))
  {
  }

  lemma {:induction false} ListLinesType(marker: string, xs: seq<string>)
    requires |xs| >= 1 && (marker == "-" || marker == "1.")
    ensures BlockToBlockType(Join("\n", ListLines(marker, xs)))
            == if marker == "-" then UnorderedList else OrderedList
  {
    var ls := ListLines(marker, xs);
    JoinStart("\n", ls);
    assert StartsWith(ls[0], marker + " ");
    BlockTypeIff(Join("\n", ls));
  }

  lemma {:induction false} ListLinesSplit(marker: string, xs: seq<string>)
    requires |xs| >= 1 && '\n' !in marker
    requires forall i :: 0 <= i < |xs| ==> '\n' !in xs[i]
    ensures SplitLines(Join("\n", ListLines(marker, xs))) == ListLines(marker, xs)
  {
    var ls := ListLines(marker, xs);
    forall i | 0 <= i < |ls| ensures '\n' !in ls[i] {
      assert ls[i] == marker + " " + xs[i];
    }
    SplitLinesJoin(ls);
  }

  /** A list written one item per line behind `marker`. */
  lemma {:induction false} ListBlockLines(marker: string, tag: string, xs: seq<string>)
    requires |xs| >= 1 && marker != [] && NoSpace(marker)
    requires forall i :: 0 <= i < |xs| ==> xs[i] != [] && !IsSpace(xs[i][0]) && '\n' !in xs[i]
    ensures ListBlockToHtml(Join("\n", ListLines(marker, xs)), tag)
            == match ListItemsToHtml(xs)
               case Err(e) => Err(e)
               case Ok(lis) => Ok(Parent(Some(tag), lis, []))
  {
    assert '\n' !in marker;
    ListLinesSplit(marker, xs);
    ListItemsLines(marker, xs);
    ListFromItems(Join("\n", ListLines(marker, xs)), tag, xs);
  }

  /** An unordered list written with `- ` markers, one item per line. */
  lemma {:induction false} UnorderedListLines(xs: seq<string>)
    requires |xs| >= 1
    requires forall i :: 0 <= i < |xs| ==> xs[i] != [] && !IsSpace(xs[i][0]) && '\n' !in xs[i]
    ensures BlockToBlockType(Join("\n", ListLines("-", xs))) == UnorderedList
    ensures ListBlockToHtml(Join("\n", ListLines("-", xs)), "ul")
            == match ListItemsToHtml(xs)
               case Err(e) => Err(e)
               case Ok(lis) => Ok(Parent(Some("ul"), lis, []))
  {
    ListBlockLines("-", "ul", xs);
    ListLinesType("-", xs);
  }

  /** An ordered list written with `1. ` in front of every line; only the
      first line's marker matters to the classifier. */
  lemma {:induction false} OrderedListLines(xs: seq<string>)
    requires |xs| >= 1
    requires forall i :: 0 <= i < |xs| ==> xs[i] != [] && !IsSpace(xs[i][0]) && '\n' !in xs[i]
    ensures BlockToBlockType(Join("\n", ListLines("1.", xs))) == OrderedList
    ensures ListBlockToHtml(Join("\n", ListLines("1.", xs)), "ol")
            == match ListItemsToHtml(xs)
               case Err(e) => Err(e)
               case Ok(lis) => Ok(Parent(Some("ol"), lis, []))
  {
    ListBlockLines("1.", "ol", xs);
    ListLinesType("1.", xs);
  }

  // ---------------------------------------------------------------------
  // Paragraphs
  // ---------------------------------------------------------------------

  /** `paragraph_block_to_html`: the lines joined by spaces, lexed, in a
      `p`. */
  function ParagraphBlockToHtml(block: string): (r: Result<HtmlNode, Error>)
    ensures r.Ok? ==> r.value.Parent? && r.value.tag == Some("p") && r.value.props == []
  {
    var children :- TextToChildren(Join(" ", SplitLines(block)));
    Ok(Parent(Some("p"), children, []))
  }

  /** A paragraph's lines are read back and joined by spaces. */
  lemma {:induction false} ParagraphLines(xs: seq<string>)
    requires |xs| >= 1 && xs[|xs| - 1] != [] && forall i :: 0 <= i < |xs| ==> '\n' !in xs[i]
    ensures ParagraphBlockToHtml(Join("\n", xs))
            == match TextToChildren(Join(" ", xs))
               case Err(e) => Err(e)
               case Ok(children) => Ok(Parent(Some("p"), children, []))
  {
    SplitLinesJoin(xs);
  }

  // ---------------------------------------------------------------------
  // Dispatch and documents
  // ---------------------------------------------------------------------

  /** The block kind an element's tag stands for. */
  function KindOfTag(tag: Option<string>): Option<BlockType> {
    match tag
    case None => None
    case Some(t) =>
      if t == "pre" then Some(Code)
      else if IsHeadingTag(t) then Some(Heading)
      else if t == "blockquote" then Some(Quote)
      else if t == "ul" then Some(UnorderedList)
      else if t == "ol" then Some(OrderedList)
      else if t == "p" then Some(Paragraph)
      else None
  }

  /** The tags each kind of block compiles to. */
  predicate FitsKind(t: BlockType, tag: Option<string>) {
    match t
    case Code => tag == Some("pre")
    case Heading => tag.Some? && IsHeadingTag(tag.value)
    case Quote => tag == Some("blockquote")
    case UnorderedList => tag == Some("ul")
    case OrderedList => tag == Some("ol")
    case Paragraph => tag == Some("p")
  }

  /** The element's tag tells the block kind back. */
  lemma {:induction false} KindOfTagFits(t: BlockType, tag: Option<string>)
    requires FitsKind(t, tag)
    ensures KindOfTag(tag) == Some(t)
  {
    match t
    case Code =>
    case Heading =>
      assert tag.value != "pre";
    case Quote =>
      assert !IsHeadingTag("blockquote");
    case UnorderedList =>
      assert !IsHeadingTag("ul");
    case OrderedList =>
      assert !IsHeadingTag("ol");
    case Paragraph =>
      assert !IsHeadingTag("p");
  }

  /** `block_to_html_parent_node`: the compiler for the block's kind. */
  function BlockToHtml(t: BlockType, block: string): (r: Result<HtmlNode, Error>)
    ensures r.Ok? ==> r.value.Parent? && r.value.props == [] && FitsKind(t, r.value.tag)
  {
    match t
    case Code => CodeBlockToHtml(block)
    case Heading => HeadingBlockToHtml(block)
    case Quote => QuoteBlockToHtml(block)
    case UnorderedList => ListBlockToHtml(block, "ul")
    case OrderedList => ListBlockToHtml(block, "ol")
    case Paragraph => ParagraphBlockToHtml(block)
  }

  /** A block compiled by the compiler for its own kind: a parent element,
      without attributes, whose tag is one that kind produces. */
  function CompileBlock(block: string): (r: Result<HtmlNode, Error>)
    ensures r.Ok? ==> r.value.Parent? && r.value.props == []
    ensures r.Ok? ==> FitsKind(BlockToBlockType(block), r.value.tag)
  {
    BlockToHtml(BlockToBlockType(block), block)
  }

  /** The kind read back from a compiled block's tag is the kind the
      classifier gave the block. */
  lemma {:induction false} CompileBlockKind(block: string)
    ensures CompileBlock(block).Ok? ==>
              KindOfTag(CompileBlock(block).value.tag) == Some(BlockToBlockType(block))
  {
    var r := CompileBlock(block);
    if r.Ok? {
      KindOfTagFits(BlockToBlockType(block), r.value.tag);
    }
  }

  /** The blocks compiled in order; the first failing block stops. */
  function BlocksToHtml(blocks: seq<string>): (r: Result<seq<HtmlNode>, Error>)
    ensures r.Ok? <==> forall i :: 0 <= i < |blocks| ==> CompileBlock(blocks[i]).Ok?
    ensures r.Ok? ==> |r.value| == |blocks|
    ensures r.Ok? ==> forall i :: 0 <= i < |blocks| ==> CompileBlock(blocks[i]) == Ok(r.value[i])
  {
    MapResult(blocks, CompileBlock)
  }

  /** The first block that fails to compile decides the document's error. */
  lemma {:induction false} BlocksFirstError(blocks: seq<string>, k: nat)
    requires k < |blocks| && CompileBlock(blocks[k]).Err?
    requires forall j :: 0 <= j < k ==> CompileBlock(blocks[j]).Ok?
    ensures BlocksToHtml(blocks) == Err(CompileBlock(blocks[k]).error)
  {
    MapResultFirstError(blocks, CompileBlock, k);
  }

  /** `markdown_to_html_node`: the document's blocks, each compiled by its
      kind, under one `div`. */
  function MarkdownToHtmlNode(md: string): (r: Result<HtmlNode, Error>)
    ensures r.Ok? <==> forall i :: 0 <= i < |MarkdownToBlocks(md)| ==> CompileBlock(MarkdownToBlocks(md)[i]).Ok?
    ensures r.Ok? ==> r.value.Parent? && r.value.tag == Some("div") && r.value.props == []
    ensures r.Ok? ==> |r.value.children| == |MarkdownToBlocks(md)|
  {
    var children :- BlocksToHtml(MarkdownToBlocks(md));
    Ok(Parent(Some("div"), children, []))
  }

  /** A blank document gives an empty `div`, which the serialiser rejects:
      a parent needs children. */
  lemma {:induction false} BlankDocument(md: string)
    requires AllSpace(md)
    ensures MarkdownToHtmlNode(md) == Ok(Parent(Some("div"), [], []))
    ensures ToHtml(MarkdownToHtmlNode(md).value) == Err(ParentWithoutChildren)
  {
    MarkdownToBlocksEmpty(md);
  }

  /** Blocks written out with blank lines between them compile block by
      block. */
  lemma {:induction false} DocumentBlocks(bs: seq<string>)
    requires forall i :: 0 <= i < |bs| ==> IsBlock(bs[i])
    ensures MarkdownToHtmlNode(Join(BlankLine, bs))
            == match BlocksToHtml(bs)
               case Err(e) => Err(e)
               case Ok(children) => Ok(Parent(Some("div"), children, []))
  {
    MarkdownToBlocksJoin(bs);
  }
}
