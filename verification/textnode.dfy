/** Inline segments: a run of text with a markup kind and an optional URL. */
module TextNodes {
  import opened Wrappers
  import opened Strings

  /** The markup kind of a segment (`TextType`). */
  datatype TextKind = Text | Bold | Italic | Code | Link | Image

  /** An inline segment (`TextNode`). Equality is structural: two segments
      are equal exactly when text, kind and URL all are. */
  datatype TextNode = TextNode(text: string, kind: TextKind, url: Option<string>)

  /** A plain-text segment without URL, as every lexer pass builds them. */
  function Plain(t: string): TextNode {
    TextNode(t, Text, None)
  }

  predicate HasUrlKind(k: TextKind) {
    k == Link || k == Image
  }

  /** The segment invariant: the URL is present exactly for links and images. */
  predicate WellFormed(n: TextNode) {
    n.url.Some? <==> HasUrlKind(n.kind)
  }

  predicate AllWellFormed(ns: seq<TextNode>) {
    forall i :: 0 <= i < |ns| ==> WellFormed(ns[i])
  }

  /** Every plain segment of `ns` is free of the non-empty string `x`. */
  predicate PlainFree(ns: seq<TextNode>, x: string)
    requires |x| > 0
  {
    forall i :: 0 <= i < |ns| ==> ns[i].kind == Text ==> !Contains(ns[i].text, x)
  }

  lemma {:induction false} PlainFreeAppend(xs: seq<TextNode>, ys: seq<TextNode>, x: string)
    requires |x| > 0
    ensures PlainFree(xs + ys, x) <==> PlainFree(xs, x) && PlainFree(ys, x)
  {
    assert forall i :: 0 <= i < |xs| ==> (xs + ys)[i] == xs[i];
    assert forall i :: 0 <= i < |ys| ==> (xs + ys)[|xs| + i] == ys[i];
  }

  lemma {:induction false} AllWellFormedAppend(xs: seq<TextNode>, ys: seq<TextNode>)
    ensures AllWellFormed(xs + ys) <==> AllWellFormed(xs) && AllWellFormed(ys)
  {
    assert forall i :: 0 <= i < |xs| ==> (xs + ys)[i] == xs[i];
    assert forall i :: 0 <= i < |ys| ==> (xs + ys)[|xs| + i] == ys[i];
  }

  /** The Markdown source a segment stands for. */
  function Markup(n: TextNode): string {
    match n.kind
    case Text => n.text
    case Bold => "**" + n.text + "**"
    case Italic => "_" + n.text + "_"
    case Code => "`" + n.text + "`"
    case Link => "[" + n.text + "](" + n.url.GetOr("") + ")"
    case Image => "![" + n.text + "](" + n.url.GetOr("") + ")"
  }

  /** The Markdown source a sequence of segments stands for. */
  function Unlex(ns: seq<TextNode>): string {
    if ns == [] then "" else Markup(ns[0]) + Unlex(ns[1..])
  }

  lemma {:induction false} UnlexCons(n: TextNode, ns: seq<TextNode>)
    ensures Unlex([n] + ns) == Markup(n) + Unlex(ns)
    ensures Unlex([n]) == Markup(n)
  {
    assert ([n] + ns)[1..] == ns;
    assert [n][1..] == [];
  }

  lemma {:induction false} UnlexAppend(xs: seq<TextNode>, ys: seq<TextNode>)
    ensures Unlex(xs + ys) == Unlex(xs) + Unlex(ys)
    decreases |xs|
  {
    if xs == [] {
      assert xs + ys == ys;
    } else {
      assert (xs + ys)[0] == xs[0];
      assert (xs + ys)[1..] == xs[1..] + ys;
      UnlexAppend(xs[1..], ys);
    }
  }
}

/** The failures of the Markdown core. The Python code raises an exception
    (or crashes on an index) in each of these situations; the payload keeps
    what its message reports. */
module Errors {
  import opened TextNodes

  datatype Error =
    /** A link or image segment whose URL is absent or empty. */
    | MissingUrl(kind: TextKind)
      /** A delimiter without a closing partner; `text` is the text after its
          first occurrence, up to the next one. */
    | UnclosedDelimiter(delimiter: string, text: string)
      /** A heading whose first word holds a number of '#' outside 1..6. */
    | HeadingLevel(level: nat)
      /** A heading block with fewer than two words. */
    | MissingHeadingText(block: string)
      /** A quote line without any '>'. */
    | MissingQuoteMarker(line: string)
      /** A list line with fewer than two words. */
    | MissingItemText(line: string)
      /** A code block without any fence. */
    | MissingCodeFence(block: string)
      /** A leaf with no value. */
    | LeafWithoutValue
      /** An `img` element with inner text. */
    | ImageWithValue
      /** A parent element with an absent or empty tag. */
    | ParentWithoutTag
      /** A parent element with no children. */
    | ParentWithoutChildren
      /** A document that does not start with a level-1 heading. */
    | MissingTitle
}
