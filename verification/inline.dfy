/** The inline lexer (`text_to_textnodes`) and the conversion of its
    segments into leaf elements (`text_node_to_html_node`,
    `text_to_children`). */
module Inline {
  import opened Wrappers
  import opened Strings
  import opened TextNodes
  import opened Errors
  import opened HtmlNodes
  import opened Delimiters
  import opened References
  import opened Results

  // ---------------------------------------------------------------------
  // Segments to leaf elements
  // ---------------------------------------------------------------------

  /** Python's `not text_node.url`: an absent or empty URL. */
  predicate NoUrl(url: Option<string>) {
    url.None? || url.value == ""
  }

  /** `text_node_to_html_node`: plain text becomes a tagless leaf, the three
      emphasis kinds `b`, `i` and `code`, a link an `a` with `href`, an
      image an empty `img` with `src` and then `alt`. A link or image
      without URL is an error. */
  function TextNodeToHtml(n: TextNode): (r: Result<HtmlNode, Error>)
    ensures r.Err? <==> HasUrlKind(n.kind) && NoUrl(n.url)
    ensures r.Err? ==> r.error == MissingUrl(n.kind)
    ensures r.Ok? ==> r.value.Leaf? && Valid(r.value)
  {
    match n.kind
    case Text => Ok(Leaf(None, Some(n.text), []))
    case Bold => Ok(Leaf(Some("b"), Some(n.text), []))
    case Italic => Ok(Leaf(Some("i"), Some(n.text), []))
    case Code => Ok(Leaf(Some("code"), Some(n.text), []))
    case Link =>
      if NoUrl(n.url) then Err(MissingUrl(Link))
      else Ok(Leaf(Some("a"), Some(n.text), [("href", n.url.value)]))
    case Image =>
      if NoUrl(n.url) then Err(MissingUrl(Image))
      else Ok(Leaf(Some("img"), Some(""), [("src", n.url.value), ("alt", n.text)]))
  }

  /** The segment a leaf element stands for, if it has the shape
      `TextNodeToHtml` gives. */
  function LeafToTextNode(h: HtmlNode): Option<TextNode> {
    if !h.Leaf? || h.value.None? then None
    else
      var v, ps := h.value.value, h.props;
      match h.tag
      case None => if ps == [] then Some(Plain(v)) else None
      case Some(t) =>
        if t == "b" && ps == [] then Some(TextNode(v, Bold, None))
        else if t == "i" && ps == [] then Some(TextNode(v, Italic, None))
        else if t == "code" && ps == [] then Some(TextNode(v, Code, None))
        else if t == "a" && |ps| == 1 && ps[0].0 == "href" then Some(TextNode(v, Link, Some(ps[0].1)))
        else if t == "img" && v == "" && |ps| == 2 && ps[0].0 == "src" && ps[1].0 == "alt" then
          Some(TextNode(ps[1].1, Image, Some(ps[0].1)))
        else None
  }

  /** No information is lost: a well-formed segment is recovered from its
      leaf element. */
  lemma {:induction false} TextNodeToHtmlInverse(n: TextNode)
    requires WellFormed(n) && TextNodeToHtml(n).Ok?
    ensures LeafToTextNode(TextNodeToHtml(n).value) == Some(n)
  {
  }

  /** Two well-formed segments with the same leaf element are equal. */
  lemma {:induction false} TextNodeToHtmlInjective(m: TextNode, n: TextNode)
    requires WellFormed(m) && WellFormed(n)
    requires TextNodeToHtml(m).Ok? && TextNodeToHtml(m) == TextNodeToHtml(n)
    ensures m == n
  {
    TextNodeToHtmlInverse(m);
    TextNodeToHtmlInverse(n);
  }

  /** The HTML a segment renders as. */
  function SegmentHtml(n: TextNode): string
    requires HasUrlKind(n.kind) ==> n.url.Some?
  {
    match n.kind
    case Text => n.text
    case Bold => "<b>" + n.text + "</b>"
    case Italic => "<i>" + n.text + "</i>"
    case Code => "<code>" + n.text + "</code>"
    case Link => "<a href=\"" + n.url.value + "\">" + n.text + "</a>"
    case Image => "<img src=\"" + n.url.value + "\" alt=\"" + n.text + "\" />"
  }

  lemma {:induction false} TagLeafHtml(tag: string, t: string)
    requires tag != "" && tag != "img"
    ensures ToHtml(Leaf(Some(tag), Some(t), [])) == Ok(("<" + tag + ">") + t + ("</" + tag + ">"))
  {
    assert PropsToHtml([]) == "";
    assert "<" + tag + "" == "<" + tag;
    assert "<" + tag + ">" + t + "</" + tag + ">" == ("<" + tag + ">") + t + ("</" + tag + ">");
  }

  lemma {:induction false} LinkLeafHtml(u: string, t: string)
    ensures ToHtml(Leaf(Some("a"), Some(t), [("href", u)])) == Ok("<a href=\"" + u + "\">" + t + "</a>")
  {
    var ps := [("href", u)];
    var a := "href=\"" + u + "\"";
    assert "href" + "=\"" == "href=\"";
    assert Attr(ps[0]) == a;
    assert AttrList(ps) == [a];
    assert PropsToHtml(ps) == " " + a;
    var r := "<" + "a" + PropsToHtml(ps) + ">" + t + "</" + "a" + ">";
    assert ToHtml(Leaf(Some("a"), Some(t), ps)) == Ok(r);
    assert "<a href=\"" == "<" + "a" + " " + "href=\"";
    assert "\">" == "\"" + ">" && "</a>" == "</" + "a" + ">";
    assert r == "<a href=\"" + u + "\">" + t + "</a>";
  }

  lemma {:induction false} ImageLeafHtml(u: string, t: string)
    ensures ToHtml(Leaf(Some("img"), Some(""), [("src", u), ("alt", t)]))
         == Ok("<img src=\"" + u + "\" alt=\"" + t + "\" />")
  {
    var ps := [("src", u), ("alt", t)];
    var a, b := "src=\"" + u + "\"", "alt=\"" + t + "\"";
    assert "src" + "=\"" == "src=\"" && "alt" + "=\"" == "alt=\"";
    assert Attr(ps[0]) == a && Attr(ps[1]) == b;
    assert AttrList(ps) == [a, b];
    assert [a, b][1..] == [b];
    assert Join(" ", [b]) == b;
    assert PropsToHtml(ps) == " " + a + " " + b;
    assert "<img src=\"" == "<img" + " " + "src=\"";
    assert "\" alt=\"" == "\"" + " " + "alt=\"";
    assert "\" />" == "\"" + " />";
    var r := "<img" + PropsToHtml(ps) + " />";
    assert ToHtml(Leaf(Some("img"), Some(""), ps)) == Ok(r);
    assert r == "<img src=\"" + u + "\" alt=\"" + t + "\" />";
  }

  /** Each segment renders as its tag around its text; a link or image
      carries its URL as the first attribute. */
  lemma {:induction false} TextNodeRendering(n: TextNode)
    requires TextNodeToHtml(n).Ok?
    ensures ToHtml(TextNodeToHtml(n).value) == Ok(SegmentHtml(n))
  {
    match n.kind
    case Text =>
      assert TextNodeToHtml(n).value == Leaf(None, Some(n.text), []);
    case Bold =>
      TagLeafHtml("b", n.text);
      assert "<" + "b" + ">" == "<b>" && "</" + "b" + ">" == "</b>";
    case Italic =>
      TagLeafHtml("i", n.text);
      assert "<" + "i" + ">" == "<i>" && "</" + "i" + ">" == "</i>";
    case Code =>
      TagLeafHtml("code", n.text);
      assert "<" + "code" + ">" == "<code>" && "</" + "code" + ">" == "</code>";
    case Link => LinkLeafHtml(n.url.value, n.text);
    case Image => ImageLeafHtml(n.url.value, n.text);
  }

  /** `map(text_node_to_html_node, ...)`: the segments' leaves in order; the
      first segment that fails decides the error. */
  function TextNodesToHtml(ns: seq<TextNode>): (r: Result<seq<HtmlNode>, Error>)
    ensures r.Ok? <==> forall i :: 0 <= i < |ns| ==> TextNodeToHtml(ns[i]).Ok?
    ensures r.Ok? ==> |r.value| == |ns|
    ensures r.Ok? ==> forall i :: 0 <= i < |ns| ==> TextNodeToHtml(ns[i]) == Ok(r.value[i])
    ensures r.Err? ==> exists i :: 0 <= i < |ns| && TextNodeToHtml(ns[i]) == Err(r.error)
  {
    MapResult(ns, TextNodeToHtml)
  }

  /** The HTML of a run of segments: each segment's HTML, in order. */
  function SegmentsHtml(ns: seq<TextNode>): string
    requires forall i :: 0 <= i < |ns| ==> HasUrlKind(ns[i].kind) ==> ns[i].url.Some?
  {
    if ns == [] then "" else SegmentHtml(ns[0]) + SegmentsHtml(ns[1..])
  }

  /** The leaves of a run of segments serialise to the segments' HTML. */
  lemma {:induction false} TextNodesRendering(ns: seq<TextNode>)
    requires TextNodesToHtml(ns).Ok?
    ensures forall i :: 0 <= i < |ns| ==> HasUrlKind(ns[i].kind) ==> ns[i].url.Some?
    ensures ChildrenToHtml(TextNodesToHtml(ns).value) == Ok(SegmentsHtml(ns))
    decreases |ns|
  {
    var cs := TextNodesToHtml(ns).value;
    assert forall i :: 0 <= i < |ns| ==> TextNodeToHtml(ns[i]).Ok?;
    if ns != [] {
      assert forall i :: 0 <= i < |ns| - 1 ==> ns[1..][i] == ns[i + 1];
      TextNodeRendering(ns[0]);
      TextNodesRendering(ns[1..]);
      assert cs[1..] == TextNodesToHtml(ns[1..]).value;
    }
  }

  // ---------------------------------------------------------------------
  // The lexer
  // ---------------------------------------------------------------------

  /** The link pass, then the image pass, over the whole text as one plain
      segment. */
  function RefPasses(text: string): (r: seq<TextNode>)
    ensures Unlex(r) == text
  {
    UnlexCons(Plain(text), []);
    SplitRefs(SplitRefs([Plain(text)], false), true)
  }

  /** The bold, italic and code passes, in that order; the first unclosed
      delimiter stops the lexer. */
  function DelimiterPasses(ns: seq<TextNode>): (r: Result<seq<TextNode>, Error>)
    ensures r.Err? ==> r.error.UnclosedDelimiter?
  {
    var bold :- SplitDelimiter(ns, "**", Bold);
    var italic :- SplitDelimiter(bold, "_", Italic);
    SplitDelimiter(italic, "`", Code)
  }

  /** `text_to_textnodes`. */
  function TextToTextNodes(text: string): (r: Result<seq<TextNode>, Error>)
    ensures r.Err? ==> r.error.UnclosedDelimiter?
  {
    DelimiterPasses(RefPasses(text))
  }

  lemma {:induction false} RefPassesWellFormed(text: string)
    ensures AllWellFormed(RefPasses(text))
  {
    SplitRefsWellFormed([Plain(text)], false);
    SplitRefsWellFormed(SplitRefs([Plain(text)], false), true);
  }

  lemma {:induction false} DelimiterPassesWellFormed(ns: seq<TextNode>)
    requires AllWellFormed(ns) && DelimiterPasses(ns).Ok?
    ensures AllWellFormed(DelimiterPasses(ns).value)
  {
    SplitDelimiterWellFormed(ns, "**", Bold);
    var bold := SplitDelimiter(ns, "**", Bold).value;
    SplitDelimiterWellFormed(bold, "_", Italic);
    var italic := SplitDelimiter(bold, "_", Italic).value;
    SplitDelimiterWellFormed(italic, "`", Code);
  }

  /** Every segment the lexer produces is well-formed. */
  lemma {:induction false} TextToTextNodesWellFormed(text: string)
    requires TextToTextNodes(text).Ok?
    ensures AllWellFormed(TextToTextNodes(text).value)
  {
    RefPassesWellFormed(text);
    DelimiterPassesWellFormed(RefPasses(text));
  }

  /** The reference passes leave no link and no image in plain text. */
  lemma {:induction false} RefPassesRefFree(text: string)
    ensures RefFree(RefPasses(text), false) && RefFree(RefPasses(text), true)
  {
    var links := SplitRefs([Plain(text)], false);
    SplitRefsRefFree([Plain(text)], false, false);
    SplitRefsRefFree(links, true, false);
    SplitRefsRefFree(links, true, true);
  }

  /** A text the lexer accepts leaves no delimiter in plain text: each pass
      consumes its own delimiter, and the later passes bring none back. */
  lemma {:induction false} TextToTextNodesConsumes(text: string)
    requires TextToTextNodes(text).Ok?
    ensures var r := TextToTextNodes(text).value;
            PlainFree(r, "**") && PlainFree(r, "_") && PlainFree(r, "`")
  {
    var ns := RefPasses(text);
    var bold := SplitDelimiter(ns, "**", Bold).value;
    var italic := SplitDelimiter(bold, "_", Italic).value;
    var code := SplitDelimiter(italic, "`", Code).value;
    SplitDelimiterConsumes(ns, "**", Bold);
    SplitDelimiterPlainFree(bold, "_", Italic, "**");
    SplitDelimiterPlainFree(italic, "`", Code, "**");
    SplitDelimiterConsumes(bold, "_", Italic);
    SplitDelimiterPlainFree(italic, "`", Code, "_");
    SplitDelimiterConsumes(italic, "`", Code);
    DelimiterPassesSteps(ns, bold, italic, code);
  }

  /** The lexer fails exactly when, after the reference passes, some plain
      segment holds `**` neither zero nor two times, or after the bold pass
      some plain segment holds `_` so, or after the italic pass some plain
      segment holds a backtick so. */
  lemma {:induction false} TextToTextNodesErr(text: string)
    ensures var ns := RefPasses(text);
            var bold := SplitDelimiter(ns, "**", Bold);
            var italic := if bold.Ok? then SplitDelimiter(bold.value, "_", Italic) else bold;
            TextToTextNodes(text).Err?
            <==> || Unbalanced(ns, "**")
                 || (bold.Ok? && Unbalanced(bold.value, "_"))
                 || (italic.Ok? && Unbalanced(italic.value, "`"))
  {
    var ns := RefPasses(text);
    SplitDelimiterErr(ns, "**", Bold);
    var bold := SplitDelimiter(ns, "**", Bold);
    if bold.Ok? {
      SplitDelimiterErr(bold.value, "_", Italic);
      var italic := SplitDelimiter(bold.value, "_", Italic);
      if italic.Ok? {
        SplitDelimiterErr(italic.value, "`", Code);
      }
    }
  }

  lemma {:induction false} PlainFreeOne(t: string, x: string)
    requires |x| > 0 && !Contains(t, x)
    ensures PlainFree([Plain(t)], x)
  {
    assert [Plain(t)][0] == Plain(t);
  }

  /** The reference passes create no plain text that was not in the text. */
  lemma {:induction false} RefPassesPlainFree(text: string, x: string)
    requires |x| > 0 && !Contains(text, x)
    ensures PlainFree(RefPasses(text), x)
  {
    PlainFreeOne(text, x);
    SplitRefsPlainFree([Plain(text)], false, x);
    SplitRefsPlainFree(SplitRefs([Plain(text)], false), true, x);
  }

  /** The delimiter passes lose nothing when no plain segment holds an
      empty span. */
  lemma {:induction false} DelimiterPassesUnlex(ns: seq<TextNode>)
    requires PlainFree(ns, "****") && PlainFree(ns, "__") && PlainFree(ns, "``")
    requires DelimiterPasses(ns).Ok?
    ensures Unlex(DelimiterPasses(ns).value) == Unlex(ns)
  {
    assert "**" + "**" == "****" && "_" + "_" == "__" && "`" + "`" == "``";
    SplitDelimiterUnlex(ns, "**", Bold);
    SplitDelimiterPlainFree(ns, "**", Bold, "__");
    SplitDelimiterPlainFree(ns, "**", Bold, "``");
    var bold := SplitDelimiter(ns, "**", Bold).value;
    SplitDelimiterUnlex(bold, "_", Italic);
    SplitDelimiterPlainFree(bold, "_", Italic, "``");
    var italic := SplitDelimiter(bold, "_", Italic).value;
    SplitDelimiterUnlex(italic, "`", Code);
  }

  /** The lexer loses nothing: the segments stand for the text, provided
      the text holds no empty span `****`, `__` or two backticks in a row. */
  lemma {:induction false} TextToTextNodesUnlex(text: string)
    requires !Contains(text, "****") && !Contains(text, "__") && !Contains(text, "``")
    requires TextToTextNodes(text).Ok?
    ensures Unlex(TextToTextNodes(text).value) == text
  {
    RefPassesPlainFree(text, "****");
    RefPassesPlainFree(text, "__");
    RefPassesPlainFree(text, "``");
    DelimiterPassesUnlex(RefPasses(text));
  }

  // ---------------------------------------------------------------------
  // The lexer on characteristic inputs
  // ---------------------------------------------------------------------

  /** Text holding none of the characters the lexer reacts to. */
  predicate Unmarked(s: string) {
    '[' !in s && '*' !in s && '_' !in s && '`' !in s
  }

  lemma {:induction false} RefPassesNoBracket(text: string)
    requires '[' !in text
    ensures RefPasses(text) == [Plain(text)]
  {
    SplitRefsNoBracket([Plain(text)], false);
    SplitRefsNoBracket([Plain(text)], true);
  }

  /** The delimiter passes keep segments whose plain text holds none of the
      three delimiters. */
  lemma {:induction false} DelimiterPassesNoOp(ns: seq<TextNode>)
    requires PlainFree(ns, "**") && PlainFree(ns, "_") && PlainFree(ns, "`")
    ensures DelimiterPasses(ns) == Ok(ns)
  {
    SplitDelimiterNoOp(ns, "**", Bold);
    SplitDelimiterNoOp(ns, "_", Italic);
    SplitDelimiterNoOp(ns, "`", Code);
  }

  lemma {:induction false} UnmarkedFree(s: string)
    requires Unmarked(s)
    ensures !Contains(s, "**") && !Contains(s, "_") && !Contains(s, "`")
  {
    FirstCharNotContained(s, "**");
    FirstCharNotContained(s, "_");
    FirstCharNotContained(s, "`");
  }

  /** Text without `[`, `**`, `_` or a backtick is one plain segment. */
  lemma {:induction false} TextToTextNodesPlain(text: string)
    requires '[' !in text && !Contains(text, "**") && '_' !in text && '`' !in text
    ensures TextToTextNodes(text) == Ok([Plain(text)])
  {
    RefPassesNoBracket(text);
    FirstCharNotContained(text, "_");
    FirstCharNotContained(text, "`");
    PlainFreeOne(text, "**");
    PlainFreeOne(text, "_");
    PlainFreeOne(text, "`");
    DelimiterPassesNoOp([Plain(text)]);
  }

  /** The pieces around a span, with the span itself not plain. */
  lemma {:induction false} ThreeFree(a: string, m: TextNode, c: string, x: string)
    requires |x| > 0 && m.kind != Text && !Contains(a, x) && !Contains(c, x)
    ensures PlainFree(DropEmpty([Plain(a), m, Plain(c)]), x)
    ensures PlainFree(NonEmptyPlain(a) + [m] + NonEmptyPlain(c), x)
  {
    var three := [Plain(a), m, Plain(c)];
    var r := DropEmpty(three);
    assert forall i :: 0 <= i < |r| ==> r[i] in three;
    var q := NonEmptyPlain(a) + [m] + NonEmptyPlain(c);
    assert forall i :: 0 <= i < |q| ==> q[i] in three;
  }

  /** The three delimiter passes, one step at a time. */
  lemma {:induction false} DelimiterPassesSteps(ns: seq<TextNode>, bold: seq<TextNode>, italic: seq<TextNode>, code: seq<TextNode>)
    requires SplitDelimiter(ns, "**", Bold) == Ok(bold)
    requires SplitDelimiter(bold, "_", Italic) == Ok(italic)
    requires SplitDelimiter(italic, "`", Code) == Ok(code)
    ensures DelimiterPasses(ns) == Ok(code)
  {
  }

  /** A pass over one plain segment without the delimiter's first
      character. */
  lemma {:induction false} PassOverPlain(s: string, d: string, k: TextKind)
    requires |d| > 0 && d[0] !in s
    ensures SplitDelimiter([Plain(s)], d, k) == Ok([Plain(s)])
  {
    FirstCharNotContained(s, d);
    PlainFreeOne(s, d);
    SplitDelimiterNoOp([Plain(s)], d, k);
  }

  /** A pass over a span and unmarked text around it. */
  lemma {:induction false} PassOverSpan(a: string, m: TextNode, c: string, d: string, k: TextKind)
    requires DelimiterOf(d, k) && Unmarked(a) && Unmarked(c) && m.kind != Text
    ensures SplitDelimiter(DropEmpty([Plain(a), m, Plain(c)]), d, k)
         == Ok(DropEmpty([Plain(a), m, Plain(c)]))
    ensures SplitDelimiter(NonEmptyPlain(a) + [m] + NonEmptyPlain(c), d, k)
         == Ok(NonEmptyPlain(a) + [m] + NonEmptyPlain(c))
  {
    FirstCharNotContained(a, d);
    FirstCharNotContained(c, d);
    ThreeFree(a, m, c, d);
    SplitDelimiterNoOp(DropEmpty([Plain(a), m, Plain(c)]), d, k);
    SplitDelimiterNoOp(NonEmptyPlain(a) + [m] + NonEmptyPlain(c), d, k);
  }

  /** The pass of the span's own delimiter. */
  lemma {:induction false} PassOfSpan(a: string, b: string, c: string, d: string, k: TextKind)
    requires DelimiterOf(d, k) && Unmarked(a) && Unmarked(b) && Unmarked(c)
    ensures SplitDelimiter([Plain(a + d + b + d + c)], d, k)
         == Ok(DropEmpty([Plain(a), TextNode(b, k, None), Plain(c)]))
  {
    FirstCharNotContained(c, d);
    SplitDelimiterOne(Plain(a + d + b + d + c), d, k);
    SplitNodeDelimiterPairPlain(a, b, c, d, k);
  }

  lemma {:induction false} SpanBold(a: string, b: string, c: string)
    requires Unmarked(a) && Unmarked(b) && Unmarked(c)
    ensures DelimiterPasses([Plain(a + "**" + b + "**" + c)])
         == Ok(DropEmpty([Plain(a), TextNode(b, Bold, None), Plain(c)]))
  {
    var m := TextNode(b, Bold, None);
    var three := DropEmpty([Plain(a), m, Plain(c)]);
    PassOfSpan(a, b, c, "**", Bold);
    PassOverSpan(a, m, c, "_", Italic);
    PassOverSpan(a, m, c, "`", Code);
    DelimiterPassesSteps([Plain(a + "**" + b + "**" + c)], three, three, three);
  }

  lemma {:induction false} SpanItalic(a: string, b: string, c: string)
    requires Unmarked(a) && Unmarked(b) && Unmarked(c)
    ensures DelimiterPasses([Plain(a + "_" + b + "_" + c)])
         == Ok(DropEmpty([Plain(a), TextNode(b, Italic, None), Plain(c)]))
  {
    var s := a + "_" + b + "_" + c;
    var m := TextNode(b, Italic, None);
    var three := DropEmpty([Plain(a), m, Plain(c)]);
    assert '*' !in s;
    PassOverPlain(s, "**", Bold);
    PassOfSpan(a, b, c, "_", Italic);
    PassOverSpan(a, m, c, "`", Code);
    DelimiterPassesSteps([Plain(s)], [Plain(s)], three, three);
  }

  lemma {:induction false} SpanCode(a: string, b: string, c: string)
    requires Unmarked(a) && Unmarked(b) && Unmarked(c)
    ensures DelimiterPasses([Plain(a + "`" + b + "`" + c)])
         == Ok(DropEmpty([Plain(a), TextNode(b, Code, None), Plain(c)]))
  {
    var s := a + "`" + b + "`" + c;
    var three := DropEmpty([Plain(a), TextNode(b, Code, None), Plain(c)]);
    assert '*' !in s && '_' !in s;
    PassOverPlain(s, "**", Bold);
    PassOverPlain(s, "_", Italic);
    PassOfSpan(a, b, c, "`", Code);
    DelimiterPassesSteps([Plain(s)], [Plain(s)], [Plain(s)], three);
  }

  /** One span: `a`, the delimiter, `b`, the delimiter, `c`, none of them
      holding a character the lexer reacts to, lexes into the plain text
      `a`, a segment of the delimiter's kind holding `b` and the plain text
      `c`, empty text left out. */
  lemma {:induction false} TextToTextNodesSpan(a: string, b: string, c: string, d: string, k: TextKind)
    requires DelimiterOf(d, k) && Unmarked(a) && Unmarked(b) && Unmarked(c)
    ensures TextToTextNodes(a + d + b + d + c)
         == Ok(DropEmpty([Plain(a), TextNode(b, k, None), Plain(c)]))
  {
    RefPassesNoBracket(a + d + b + d + c);
    if d == "**" {
      SpanBold(a, b, c);
    } else if d == "_" {
      SpanItalic(a, b, c);
    } else {
      SpanCode(a, b, c);
    }
  }

  /** An opening delimiter without its closing pair stops the lexer, which
      reports the text after it. */
  lemma {:induction false} TextToTextNodesUnclosed(a: string, b: string, d: string, k: TextKind)
    requires DelimiterOf(d, k) && Unmarked(a) && Unmarked(b)
    ensures TextToTextNodes(a + d + b) == Err(UnclosedDelimiter(d, b))
  {
    var s := a + d + b;
    RefPassesNoBracket(s);
    UnmarkedFree(b);
    SplitDelimiterOne(Plain(s), d, k);
    SplitNodeDelimiterUnclosedPlain(a, b, d, k);
    if d != "**" {
      FirstCharNotContained(s, "**");
      PlainFreeOne(s, "**");
      SplitDelimiterNoOp([Plain(s)], "**", Bold);
      if d != "_" {
        FirstCharNotContained(s, "_");
        PlainFreeOne(s, "_");
        SplitDelimiterNoOp([Plain(s)], "_", Italic);
      }
    }
  }

  /** The reference passes over one link: the image pass finds nothing
      more. */
  lemma {:induction false} RefPassesLink(a: string, t: string, u: string, b: string)
    requires '[' !in a && '[' !in b && (a == [] || a[|a| - 1] != '!')
    requires NoClose(t) && ')' !in u && '\n' !in t && '\n' !in u
    ensures RefPasses(a + RefMarkup(false, t, u) + b)
         == NonEmptyPlain(a) + [TextNode(t, Link, Some(u))] + NonEmptyPlain(b)
  {
    var s := a + RefMarkup(false, t, u) + b;
    var m := TextNode(t, Link, Some(u));
    var r := NonEmptyPlain(a) + [m] + NonEmptyPlain(b);
    SplitNodeRefsSingle(a, t, u, b, false);
    SplitRefsOne(Plain(s), false);
    assert forall i :: 0 <= i < |r| ==> r[i] in [Plain(a), m, Plain(b)];
    SplitRefsNoBracket(r, true);
  }

  /** The reference passes over one image: the link pass finds nothing, the
      `[` being preceded by `!`. */
  lemma {:induction false} RefPassesImage(a: string, t: string, u: string, b: string)
    requires '[' !in a && '[' !in b && '[' !in t && '[' !in u
    requires NoClose(t) && ')' !in u && '\n' !in t && '\n' !in u
    ensures RefPasses(a + RefMarkup(true, t, u) + b)
         == NonEmptyPlain(a) + [TextNode(t, Image, Some(u))] + NonEmptyPlain(b)
  {
    var s := a + RefMarkup(true, t, u) + b;
    ImageBrackets(a, t, u, b);
    BangBracketNoLink(s);
    SplitRefsOne(Plain(s), false);
    SplitRefsOne(Plain(s), true);
    SplitNodeRefsSingle(a, t, u, b, true);
  }

  /** One link or image between unmarked texts lexes into the text before
      it, the reference segment with its anchor and URL, and the text after
      it. A link must not follow a `!`, which would make it an image. */
  lemma {:induction false} TextToTextNodesRef(a: string, t: string, u: string, b: string, image: bool)
    requires Unmarked(a) && Unmarked(b) && '[' !in t && '[' !in u
    requires !image ==> a == [] || a[|a| - 1] != '!'
    requires NoClose(t) && ')' !in u && '\n' !in t && '\n' !in u
    ensures TextToTextNodes(a + RefMarkup(image, t, u) + b)
         == Ok(NonEmptyPlain(a) + [TextNode(t, KindOf(image), Some(u))] + NonEmptyPlain(b))
  {
    var m := TextNode(t, KindOf(image), Some(u));
    var r := NonEmptyPlain(a) + [m] + NonEmptyPlain(b);
    if image {
      RefPassesImage(a, t, u, b);
    } else {
      RefPassesLink(a, t, u, b);
    }
    PassOverSpan(a, m, b, "**", Bold);
    PassOverSpan(a, m, b, "_", Italic);
    PassOverSpan(a, m, b, "`", Code);
    DelimiterPassesSteps(r, r, r, r);
  }

  lemma {:induction false} SplitRefsOne(n: TextNode, image: bool)
    ensures SplitRefs([n], image) == SplitNodeRefs(n, image)
  {
    assert [n][1..] == [];
  }

  // ---------------------------------------------------------------------
  // Text to leaf elements
  // ---------------------------------------------------------------------

  /** `text_to_children`: the lexer's segments as leaf elements. The lexer's
      error, or else the first segment without URL, stops it. */
  function TextToChildren(text: string): (r: Result<seq<HtmlNode>, Error>)
    ensures r.Ok? ==> forall i :: 0 <= i < |r.value| ==> r.value[i].Leaf? && Valid(r.value[i])
    ensures r.Err? <==> TextToTextNodes(text).Err?
                        || exists n :: n in TextToTextNodes(text).value && HasUrlKind(n.kind) && NoUrl(n.url)
    ensures r.Err? ==> r.error.UnclosedDelimiter? || r.error.MissingUrl?
  {
    var ns :- TextToTextNodes(text);
    TextNodesOutcome(ns);
    TextNodesToHtml(ns)
  }

  /** The segments' leaves are valid leaves, and converting them fails
      exactly when some segment needs a URL and has none. */
  lemma {:induction false} TextNodesOutcome(ns: seq<TextNode>)
    ensures TextNodesToHtml(ns).Ok? ==>
              forall i :: 0 <= i < |ns| ==> TextNodesToHtml(ns).value[i].Leaf? && Valid(TextNodesToHtml(ns).value[i])
    ensures TextNodesToHtml(ns).Err? <==> exists n :: n in ns && HasUrlKind(n.kind) && NoUrl(n.url)
    ensures TextNodesToHtml(ns).Err? ==> TextNodesToHtml(ns).error.MissingUrl?
  {
    var r := TextNodesToHtml(ns);
    if r.Err? {
      var i :| 0 <= i < |ns| && TextNodeToHtml(ns[i]) == Err(r.error);
      assert ns[i] in ns;
    } else {
      assert forall n :: n in ns ==> TextNodeToHtml(n).Ok?;
    }
  }

  /** The children of a text serialise to the HTML of its segments. */
  lemma {:induction false} TextToChildrenRendering(text: string)
    requires TextToChildren(text).Ok?
    ensures forall n :: n in TextToTextNodes(text).value ==> HasUrlKind(n.kind) ==> n.url.Some?
    ensures ChildrenToHtml(TextToChildren(text).value) == Ok(SegmentsHtml(TextToTextNodes(text).value))
  {
    TextNodesRendering(TextToTextNodes(text).value);
  }

  /** Unmarked text gives one leaf with the text and no tag, and serialises
      to itself. */
  lemma {:induction false} TextToChildrenPlain(text: string)
    requires '[' !in text && !Contains(text, "**") && '_' !in text && '`' !in text
    ensures TextToChildren(text) == Ok([Leaf(None, Some(text), [])])
    ensures ChildrenToHtml(TextToChildren(text).value) == Ok(text)
  {
    TextToTextNodesPlain(text);
    PlainLeaves(text);
    TextToChildrenRendering(text);
  }

  lemma {:induction false} PlainLeaves(text: string)
    ensures TextNodesToHtml([Plain(text)]) == Ok([Leaf(None, Some(text), [])])
    ensures SegmentsHtml([Plain(text)]) == text
  {
    var ns := [Plain(text)];
    assert ns[1..] == [];
    assert TextNodeToHtml(ns[0]) == Ok(Leaf(None, Some(text), []));
    assert [Leaf(None, Some(text), [])] + [] == [Leaf(None, Some(text), [])];
    assert SegmentsHtml(ns) == text + "";
  }
}
