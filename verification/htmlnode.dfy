/** The HTML element tree and its serialiser. `LeafNode` and `ParentNode`
    become the two cases of one datatype and their `to_html` methods one
    recursive function. Absent props and the empty dict render alike, so
    props are an ordered sequence of pairs (empty for "absent"); the same
    holds for absent and empty children. */
module HtmlNodes {
  import opened Wrappers
  import opened Strings
  import opened Errors

  /** Attributes in insertion order. */
  type Props = seq<(string, string)>

  datatype HtmlNode =
    | Leaf(tag: Option<string>, value: Option<string>, props: Props)
    | Parent(tag: Option<string>, children: seq<HtmlNode>, props: Props)

  /** Python's `not tag`: an absent or empty tag. */
  predicate NoTag(tag: Option<string>) {
    tag.None? || tag.value == ""
  }

  predicate IsImg(tag: Option<string>) {
    tag == Some("img")
  }

  /** One attribute, `key="value"`. */
  function Attr(kv: (string, string)): string {
    kv.0 + "=\"" + kv.1 + "\""
  }

  function AttrList(props: Props): (r: seq<string>)
    ensures |r| == |props|
    ensures forall i :: 0 <= i < |props| ==> r[i] == Attr(props[i])
  {
    if props == [] then [] else [Attr(props[0])] + AttrList(props[1..])
  }

  /** `props_to_html`: nothing for no props, otherwise one space and the
      attributes joined by single spaces. */
  function PropsToHtml(props: Props): (r: string)
    ensures props == [] <==> r == ""
    ensures props != [] ==> r[0] == ' '
  {
    if props == [] then "" else " " + Join(" ", AttrList(props))
  }

  /** Reference rendering of the attributes: each one preceded by a space. */
  function SpacedAttrs(props: Props): string {
    if props == [] then "" else " " + Attr(props[0]) + SpacedAttrs(props[1..])
  }

  lemma {:induction false} PropsToHtmlIsSpacedAttrs(props: Props)
    ensures PropsToHtml(props) == SpacedAttrs(props)
    decreases |props|
  {
    if |props| > 1 {
      PropsToHtmlIsSpacedAttrs(props[1..]);
      assert AttrList(props) == [Attr(props[0])] + AttrList(props[1..]);
      JoinCons(" ", Attr(props[0]), AttrList(props[1..]));
    } else if |props| == 1 {
      assert props[1..] == [];
    }
  }

  /** `LeafNode.to_html`, also used by `ParentNode.to_html` on the
      concatenated children. */
  function LeafToHtml(tag: Option<string>, value: Option<string>, props: Props): (r: Result<string, Error>)
    ensures value.None? ==> r == Err(LeafWithoutValue)
    ensures value.Some? && NoTag(tag) ==> r == Ok(value.value)
    ensures value.Some? && IsImg(tag) ==>
              r == if value.value == "" then Ok("<img" + PropsToHtml(props) + " />") else Err(ImageWithValue)
    ensures value.Some? && !NoTag(tag) && !IsImg(tag) ==>
              r == Ok("<" + tag.value + PropsToHtml(props) + ">" + value.value + "</" + tag.value + ">")
  {
    if value.None? then Err(LeafWithoutValue)
    else if NoTag(tag) then Ok(value.value)
    else if tag.value == "img" then
      if value.value != "" then Err(ImageWithValue) else Ok("<img" + PropsToHtml(props) + " />")
    else Ok("<" + tag.value + PropsToHtml(props) + ">" + value.value + "</" + tag.value + ">")
  }

  /** The serialiser (`to_html`). */
  function ToHtml(n: HtmlNode): Result<string, Error>
    decreases n, 1
  {
    match n
    case Leaf(tag, value, props) => LeafToHtml(tag, value, props)
    case Parent(tag, children, props) =>
      if NoTag(tag) then Err(ParentWithoutTag)
      else if children == [] then Err(ParentWithoutChildren)
      else
        var inner :- ChildrenToHtml(children);
        LeafToHtml(tag, Some(inner), props)
  }

  /** The children's serialisations concatenated in order; the first
      failing child decides the error. */
  function ChildrenToHtml(cs: seq<HtmlNode>): Result<string, Error>
    decreases cs, 0
  {
    if cs == [] then Ok("")
    else
      var head :- ToHtml(cs[0]);
      var tail :- ChildrenToHtml(cs[1..]);
      Ok(head + tail)
  }

  /** A node that serialises to nothing: a text leaf with empty value. */
  predicate Silent(n: HtmlNode) {
    n.Leaf? && NoTag(n.tag) && n.value == Some("")
  }

  /** The element-tree invariants: a leaf has a value, an `img` has no
      inner text, and a parent has a tag and at least one child. */
  predicate Valid(n: HtmlNode)
    decreases n
  {
    match n
    case Leaf(tag, value, _) =>
      value.Some? && (IsImg(tag) ==> value.value == "")
    case Parent(tag, children, _) =>
      && !NoTag(tag)
      && children != []
      && (forall i :: 0 <= i < |children| ==> Valid(children[i]))
      && (IsImg(tag) ==> forall i :: 0 <= i < |children| ==> Silent(children[i]))
  }

  /** Serialisation succeeds exactly on valid trees, and yields the empty
      string exactly for silent nodes. */
  lemma {:induction false} ToHtmlOkIffValid(n: HtmlNode)
    ensures ToHtml(n).Ok? <==> Valid(n)
    ensures ToHtml(n).Ok? ==> (ToHtml(n).value == "" <==> Silent(n))
    decreases n, 1
  {
    match n
    case Leaf(tag, value, props) =>
    case Parent(tag, children, props) =>
      if !NoTag(tag) && children != [] {
        ChildrenOkIffValid(children);
      }
  }

  lemma {:induction false} ChildrenOkIffValid(cs: seq<HtmlNode>)
    ensures ChildrenToHtml(cs).Ok? <==> forall i :: 0 <= i < |cs| ==> Valid(cs[i])
    ensures ChildrenToHtml(cs).Ok? ==>
              (ChildrenToHtml(cs).value == "" <==> forall i :: 0 <= i < |cs| ==> Silent(cs[i]))
    decreases cs, 0
  {
    if cs != [] {
      ToHtmlOkIffValid(cs[0]);
      ChildrenOkIffValid(cs[1..]);
      assert forall i :: 1 <= i < |cs| ==> cs[i] == cs[1..][i - 1];
    }
  }

  /** Children serialise to the concatenation of their serialisations, in order. */
  lemma {:induction false} ChildrenConcat(cs: seq<HtmlNode>, c: HtmlNode)
    requires ChildrenToHtml(cs).Ok? && ToHtml(c).Ok?
    ensures ChildrenToHtml(cs + [c]) == Ok(ChildrenToHtml(cs).value + ToHtml(c).value)
    decreases |cs|
  {
    if cs == [] {
      assert cs + [c] == [c] && [c][1..] == [];
      assert ChildrenToHtml([c]) == Ok(ToHtml(c).value + "");
      assert ToHtml(c).value + "" == ToHtml(c).value;
      assert ChildrenToHtml(cs) == Ok("");
      assert "" + ToHtml(c).value == ToHtml(c).value;
    } else {
      assert (cs + [c])[0] == cs[0];
      assert (cs + [c])[1..] == cs[1..] + [c];
      var head, tail := ToHtml(cs[0]).value, ChildrenToHtml(cs[1..]).value;
      ChildrenConcat(cs[1..], c);
      assert ChildrenToHtml(cs[1..] + [c]) == Ok(tail + ToHtml(c).value);
      assert ChildrenToHtml(cs + [c]) == Ok(head + (tail + ToHtml(c).value));
      assert ChildrenToHtml(cs).value == head + tail;
      assert head + (tail + ToHtml(c).value) == (head + tail) + ToHtml(c).value;
    }
  }

  /** The first failing child's error is the parent's error. */
  lemma {:induction false} ChildrenFirstError(cs: seq<HtmlNode>, k: nat)
    requires k < |cs|
    requires forall i :: 0 <= i < k ==> ToHtml(cs[i]).Ok?
    requires ToHtml(cs[k]).Err?
    ensures ChildrenToHtml(cs) == Err(ToHtml(cs[k]).error)
    decreases k
  {
    if k > 0 {
      ChildrenFirstError(cs[1..], k - 1);
    }
  }

  /** A parent with a tag other than `img` serialises to its open tag with
      props, its children's serialisation, and its close tag. */
  lemma {:induction false} ParentToHtml(tag: string, cs: seq<HtmlNode>, props: Props)
    requires tag != "" && tag != "img" && cs != []
    ensures ChildrenToHtml(cs).Ok? ==>
              ToHtml(Parent(Some(tag), cs, props))
              == Ok("<" + tag + PropsToHtml(props) + ">" + ChildrenToHtml(cs).value + "</" + tag + ">")
    ensures ChildrenToHtml(cs).Err? ==> ToHtml(Parent(Some(tag), cs, props)) == Err(ChildrenToHtml(cs).error)
  {
  }

  /** A parent tagged `img` goes through the leaf rule for `img`: it fails as
      soon as its children produce any text. */
  lemma {:induction false} ImgParentToHtml(cs: seq<HtmlNode>, props: Props)
    requires cs != [] && ChildrenToHtml(cs).Ok?
    ensures ToHtml(Parent(Some("img"), cs, props))
            == if ChildrenToHtml(cs).value == "" then Ok("<img" + PropsToHtml(props) + " />") else Err(ImageWithValue)
  {
  }
}
