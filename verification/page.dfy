/** The pure part of the page generator (`extract_title`, `generate_page`):
    the title read from the Markdown's level-one heading, and the template
    filled with the title and the document's HTML. */
module Pages {
  import opened Wrappers
  import opened Strings
  import opened Errors
  import opened HtmlNodes
  import opened Compiler
  import opened Inline
  import opened Blocks

  /** The template's placeholder for the page title. */
  const TitleSlot := "{{ Title }}"

  /** The template's placeholder for the page's HTML. */
  const ContentSlot := "{{ Content }}"

  // ---------------------------------------------------------------------
  // The title
  // ---------------------------------------------------------------------

  /** `extract_title`: the stripped Markdown must begin with `# `; the title
      is the rest of its first line after the first space, stripped. */
  function ExtractTitle(md: string): (r: Result<string, Error>)
    ensures r.Err? <==> !StartsWith(Strip(md), "# ")
    ensures r.Err? ==> r.error == MissingTitle
    ensures r.Ok? ==> Stripped(r.value) && '\n' !in r.value
    ensures r.Ok? ==> forall line :: IsFirstLine(Strip(md), line)
                       ==> |line| >= 2 && r.value == Strip(line[2..])
  {
    var s := Strip(md);
    if !StartsWith(s, "# ") then Err(MissingTitle)
    else
      var line := SplitLines(s)[0];
      HeadingFirstLine(s, line);
      var parts := SplitOnce(line, " ");
      assert parts == ["#", line[2..]] by {
        MarkerSplit(line);
      }
      NoNewlineStrip(parts[1]);
      Ok(Strip(parts[1]))
  }

  /** The first line of a text that begins with `# ` begins with it too. */
  lemma {:induction false} HeadingFirstLine(s: string, line: string)
    requires s != [] && StartsWith(s, "# ") && line == SplitLines(s)[0]
    ensures StartsWith(line, "# ")
    ensures forall other :: IsFirstLine(s, other) ==> other == line
  {
    SplitLinesHead(s);
    FirstLineStarts(s, line, "# ");
    FirstLineOnly(s, line);
  }

  /** `line.split(" ", maxsplit=1)` for a line that begins with `# `. */
  lemma {:induction false} MarkerSplit(line: string)
    requires StartsWith(line, "# ")
    ensures SplitOnce(line, " ") == ["#", line[2..]]
  {
    assert line == "#" + " " + line[2..];
    ContainsChar(line, ' ');
    assert line[1] == ' ';
    var parts := SplitOnce(line, " ");
    ContainsChar(parts[0], ' ');
    assert |parts[0]| == 1 by {
      assert (parts[0] + " " + parts[1])[|parts[0]|] == ' ';
    }
  }

  /** Stripping a piece of a line keeps it a piece of a line. */
  lemma {:induction false} NoNewlineStrip(s: string)
    requires '\n' !in s
    ensures '\n' !in Strip(s)
  {
    var r := Strip(s);
    forall k | 0 <= k < |r| ensures r[k] != '\n' {
      assert r[k] == s[StripStart(s) + k];
    }
  }

  /** The first line of a stripped document that opens with a heading
      line. */
  lemma {:induction false} StripHeadingLine(title: string, rest: string)
    requires title != [] && Stripped(title) && '\n' !in title
    requires rest == [] || rest[0] == '\n'
    ensures IsFirstLine(Strip("# " + title + rest), "# " + title)
  {
    var md := "# " + title + rest;
    var n := |title| + 2;
    assert md[0] == '#';
    assert md[n - 1] == title[|title| - 1];
    var e := StripEnd(md);
    assert StripStart(md) == 0;
    assert e >= n;
    var s := Strip(md);
    assert s == md[..e];
    assert s[..n] == "# " + title;
    assert n < |s| ==> s[n] == rest[0];
  }

  /** A document that opens with `# ` and a title on a line of its own has
      that title, whatever follows. */
  lemma {:induction false} TitleLine(title: string, rest: string)
    requires title != [] && Stripped(title) && '\n' !in title
    requires rest == [] || rest[0] == '\n'
    ensures ExtractTitle("# " + title + rest) == Ok(title)
  {
    var md, line := "# " + title + rest, "# " + title;
    StripHeadingLine(title, rest);
    assert StartsWith(Strip(md), "# ") by {
      assert Strip(md)[..2] == line[..2];
    }
    var r := ExtractTitle(md);
    assert r.value == Strip(line[2..]);
    assert line[2..] == title;
    StripStripped(title);
  }

  // ---------------------------------------------------------------------
  // The template
  // ---------------------------------------------------------------------

  /** The template with every title placeholder replaced by the title, and
      then every content placeholder replaced by the HTML. */
  function FillTemplate(template: string, title: string, html: string): (r: string)
    ensures !Contains(template, TitleSlot) && !Contains(template, ContentSlot) ==> r == template
  {
    ReplaceAll(ReplaceAll(template, TitleSlot, title), ContentSlot, html)
  }

  /** Any template: cut at its title placeholders it gets the title at each
      cut, and the result, cut at its content placeholders, gets the HTML at
      each of those. */
  lemma {:induction false} FillTemplateJoin(ts: seq<string>, cs: seq<string>, title: string, html: string)
    requires |ts| >= 1 && LeftmostCuts(TitleSlot, ts) && !Contains(ts[|ts| - 1], TitleSlot)
    requires |cs| >= 1 && LeftmostCuts(ContentSlot, cs) && !Contains(cs[|cs| - 1], ContentSlot)
    requires Join(title, ts) == Join(ContentSlot, cs)
    ensures FillTemplate(Join(TitleSlot, ts), title, html) == Join(html, cs)
  {
    ReplaceJoin(ts, TitleSlot, title);
    ReplaceJoin(cs, ContentSlot, html);
  }

  /** Text around the content placeholder holds no title placeholder when it
      has no brace of its own. */
  lemma {:induction false} NoTitleAroundContent(b: string, c: string)
    requires '{' !in b && '{' !in c
    ensures !Contains(b + ContentSlot + c, TitleSlot)
  {
    var s := b + ContentSlot + c;
    var m := |b|;
    forall j: nat | j + |TitleSlot| <= |s| ensures !OccursAt(s, TitleSlot, j) {
      var w := s[j..j + |TitleSlot|];
      assert |TitleSlot| == 11 && |ContentSlot| == 13;
      assert w[0] == s[j];
      if j < m {
        assert s[j] == b[j];
      } else if j == m {
        assert w[3] == s[m + 3] == ContentSlot[3];
      } else if j == m + 1 {
        assert w[1] == s[m + 2] == ContentSlot[2];
      } else if j < m + |ContentSlot| {
        assert s[j] == ContentSlot[j - m];
      } else {
        assert s[j] == c[j - m - |ContentSlot|];
      }
    }
  }

  /** A template with one title placeholder before one content placeholder,
      and no other braces, is filled in place. */
  lemma {:induction false} FillSlots(a: string, b: string, c: string, title: string, html: string)
    requires '{' !in a && '{' !in b && '{' !in c && '{' !in title
    ensures FillTemplate(a + TitleSlot + b + ContentSlot + c, title, html)
            == a + title + b + html + c
  {
    var tail := b + ContentSlot + c;
    var front := a + title + b;
    TitleFilled(a, b, c, title);
    assert a + title + tail == front + ContentSlot + c;
    assert '{' !in front;
    ContentFilled(front, c, html);
  }

  /** The title placeholder of such a template is replaced in place. */
  lemma {:induction false} TitleFilled(a: string, b: string, c: string, title: string)
    requires '{' !in a && '{' !in b && '{' !in c
    ensures ReplaceAll(a + TitleSlot + b + ContentSlot + c, TitleSlot, title)
            == a + title + (b + ContentSlot + c)
  {
    var tail := b + ContentSlot + c;
    assert a + TitleSlot + b + ContentSlot + c == a + TitleSlot + tail;
    NoTitleAroundContent(b, c);
    ReplaceFirstPlain(a, TitleSlot, tail, title);
  }

  /** The content placeholder of what is left is replaced in place. */
  lemma {:induction false} ContentFilled(front: string, c: string, html: string)
    requires '{' !in front && '{' !in c
    ensures ReplaceAll(front + ContentSlot + c, ContentSlot, html) == front + html + c
  {
    ReplaceFirstPlain(front, ContentSlot, c, html);
    FirstCharNotContained(c, ContentSlot);
  }

  // ---------------------------------------------------------------------
  // The page
  // ---------------------------------------------------------------------

  /** `generate_page` without its file I/O: the title, then the document's
      HTML, then the filled template. The title is read first, so a
      document that does not open with a level-one heading fails on that
      whatever its blocks are. */
  function GeneratePage(md: string, template: string): (r: Result<string, Error>)
    ensures !StartsWith(Strip(md), "# ") ==> r == Err(MissingTitle)
    ensures r.Ok? <==> ExtractTitle(md).Ok? && MarkdownToHtmlNode(md).Ok?
                       && ToHtml(MarkdownToHtmlNode(md).value).Ok?
    ensures ExtractTitle(md).Ok? && MarkdownToHtmlNode(md).Err? ==> r == Err(MarkdownToHtmlNode(md).error)
  {
    var title :- ExtractTitle(md);
    var node :- MarkdownToHtmlNode(md);
    var html :- ToHtml(node);
    Ok(FillTemplate(template, title, html))
  }

  /** Plain title text: nothing the inline lexer would take as markup, and
      a single line. */
  predicate PlainTitle(t: string) {
    t != [] && Stripped(t) && '\n' !in t && Unmarked(t)
  }

  /** The one block of a document that is a single heading line. */
  lemma {:induction false} HeadingOnlyBlocks(t: string)
    requires PlainTitle(t)
    ensures MarkdownToHtmlNode("# " + t)
            == match BlocksToHtml(["# " + t])
               case Err(e) => Err(e)
               case Ok(children) => Ok(Parent(Some("div"), children, []))
  {
    var blk := "# " + t;
    assert blk[0] == '#' && blk[|blk| - 1] == t[|t| - 1];
    assert '\n' !in blk;
    FirstCharNotContained(blk, BlankLine);
    assert IsBlock(blk);
    assert Join(BlankLine, [blk]) == blk;
    DocumentBlocks([blk]);
  }

  /** A `# ` line is a heading block. */
  lemma {:induction false} LevelOneBlock(t: string)
    requires t != [] && !IsSpace(t[0])
    ensures CompileBlock("# " + t) == HeadingBlockToHtml(HeadingLine(1, t))
  {
    assert HeadingLine(1, t) == "# " + t;
    HeadingLineType(1, t);
  }

  /** The words of a `# ` line: the marker and the text. */
  lemma {:induction false} LevelOneWords(t: string)
    requires t != [] && !IsSpace(t[0])
    ensures SplitFirstWord(HeadingLine(1, t)) == ["#", t] && CountChar("#", '#') == 1
  {
    HeadingLineWords(1, t);
    assert StripStart(t) == 0 && t[0..] == t;
    assert Repeat('#', 1) == "#";
  }

  /** The heading of a `# ` line whose text lexes to `cs`. */
  lemma {:induction false} LevelOneHeading(t: string, cs: seq<HtmlNode>)
    requires t != [] && !IsSpace(t[0]) && TextToChildren(t) == Ok(cs)
    ensures HeadingBlockToHtml(HeadingLine(1, t)) == Ok(Parent(Some("h1"), cs, []))
  {
    LevelOneWords(t);
    HeadingFromText(HeadingLine(1, t), "#", t, cs);
    LevelOneTag();
  }

  lemma {:induction false} LevelOneTag()
    ensures HeadingTag(1) == "h1"
  {
  }

  /** A `# ` line whose text lexes to `cs` compiles to an `h1` over `cs`. */
  lemma {:induction false} LevelOneLine(t: string, cs: seq<HtmlNode>)
    requires t != [] && !IsSpace(t[0]) && TextToChildren(t) == Ok(cs)
    ensures CompileBlock("# " + t) == Ok(Parent(Some("h1"), cs, []))
  {
    LevelOneBlock(t);
    LevelOneHeading(t, cs);
  }

  /** A heading line of plain text compiles to an `h1` around one text leaf. */
  lemma {:induction false} HeadingOnlyCompiles(t: string)
    requires PlainTitle(t)
    ensures CompileBlock("# " + t) == Ok(Parent(Some("h1"), [Leaf(None, Some(t), [])], []))
  {
    FirstCharNotContained(t, "**");
    TextToChildrenPlain(t);
    LevelOneLine(t, [Leaf(None, Some(t), [])]);
  }

  /** The document node of a single plain heading line. */
  lemma {:induction false} HeadingOnlyNode(t: string)
    requires PlainTitle(t)
    ensures MarkdownToHtmlNode("# " + t)
            == Ok(Parent(Some("div"), [Parent(Some("h1"), [Leaf(None, Some(t), [])], [])], []))
  {
    var h1 := Parent(Some("h1"), [Leaf(None, Some(t), [])], []);
    HeadingOnlyBlocks(t);
    HeadingOnlyCompiles(t);
    var r := BlocksToHtml(["# " + t]);
    assert r.Ok? && r.value == [h1];
  }

  /** A parent without attributes serialises to its children between its
      opening and closing tags. */
  lemma {:induction false} BareParentHtml(tag: string, cs: seq<HtmlNode>)
    requires tag != "" && tag != "img" && cs != [] && ChildrenToHtml(cs).Ok?
    ensures ToHtml(Parent(Some(tag), cs, []))
            == Ok(("<" + tag + ">") + ChildrenToHtml(cs).value + ("</" + tag + ">"))
  {
    ParentToHtml(tag, cs, []);
    var inner := ChildrenToHtml(cs).value;
    assert PropsToHtml([]) == "";
    assert "<" + tag + "" == "<" + tag;
    assert "<" + tag + ">" + inner + "</" + tag + ">" == ("<" + tag + ">") + inner + ("</" + tag + ">");
  }

  /** A parent without attributes around a single child. */
  lemma {:induction false} WrapOne(tag: string, child: HtmlNode, inner: string)
    requires tag != "" && tag != "img" && ToHtml(child) == Ok(inner)
    ensures ToHtml(Parent(Some(tag), [child], [])) == Ok(("<" + tag + ">") + inner + ("</" + tag + ">"))
  {
    assert ChildrenToHtml([child]) == Ok(inner) by {
      assert [child][1..] == [];
      assert inner + "" == inner;
    }
    BareParentHtml(tag, [child]);
  }

  /** An `h1` around one text leaf, serialised. */
  lemma {:induction false} HeadingOnlyH1(t: string)
    ensures ToHtml(Parent(Some("h1"), [Leaf(None, Some(t), [])], [])) == Ok("<h1>" + t + "</h1>")
  {
    WrapOne("h1", Leaf(None, Some(t), []), t);
    assert "<" + "h1" + ">" == "<h1>" && "</" + "h1" + ">" == "</h1>";
  }

  /** An `h1` around one text leaf inside a `div`, serialised. */
  lemma {:induction false} HeadingOnlySerialised(t: string)
    ensures ToHtml(Parent(Some("div"), [Parent(Some("h1"), [Leaf(None, Some(t), [])], [])], []))
            == Ok("<div><h1>" + t + "</h1></div>")
  {
    var inner := "<h1>" + t + "</h1>";
    HeadingOnlyH1(t);
    WrapOne("div", Parent(Some("h1"), [Leaf(None, Some(t), [])], []), inner);
    assert "<" + "div" + ">" == "<div>" && "</" + "div" + ">" == "</div>";
    assert "<div>" + inner + "</div>" == "<div><h1>" + t + "</h1></div>";
  }

  /** The document node of a single plain heading line and its HTML. */
  lemma {:induction false} HeadingOnlyHtml(t: string)
    requires PlainTitle(t)
    ensures MarkdownToHtmlNode("# " + t).Ok?
    ensures ToHtml(MarkdownToHtmlNode("# " + t).value) == Ok("<div><h1>" + t + "</h1></div>")
  {
    HeadingOnlyNode(t);
    HeadingOnlySerialised(t);
  }

  /** A page from a template with one title placeholder before one content
      placeholder and no other braces: the title and the document's HTML
      land in place. */
  lemma {:induction false} GeneratePageSlots(md: string, a: string, b: string, c: string, title: string, html: string)
    requires ExtractTitle(md) == Ok(title) && '{' !in title
    requires MarkdownToHtmlNode(md).Ok? && ToHtml(MarkdownToHtmlNode(md).value) == Ok(html)
    requires '{' !in a && '{' !in b && '{' !in c
    ensures GeneratePage(md, a + TitleSlot + b + ContentSlot + c) == Ok(a + title + b + html + c)
  {
    FillSlots(a, b, c, title, html);
  }

  /** A page whose Markdown is a single plain heading line: the title goes
      into the title placeholder and the heading's HTML into the content
      placeholder. */
  lemma {:induction false} HeadingOnlyPage(t: string, a: string, b: string, c: string)
    requires PlainTitle(t)
    requires '{' !in a && '{' !in b && '{' !in c && '{' !in t
    ensures GeneratePage("# " + t, a + TitleSlot + b + ContentSlot + c)
            == Ok(a + t + b + ("<div><h1>" + t + "</h1></div>") + c)
  {
    var md, html := "# " + t, "<div><h1>" + t + "</h1></div>";
    assert md + [] == md;
    TitleLine(t, []);
    HeadingOnlyHtml(t);
    GeneratePageSlots(md, a, b, c, t, html);
  }
}
