/** The link and image passes of the inline lexer (`split_nodes_link`,
    `split_nodes_image`). Python finds the references with the regular
    expressions `(?<!!)\[.*?\]\(.*?\)` and `!\[.*?\]\(.*?\)`; here a scanner
    does the same: at the leftmost opener that starts a match, the anchor runs
    to the first `](` and the URL to the next `)`, and neither may cross a
    line feed (Python's `.` does not match one). */
module References {
  import opened Wrappers
  import opened Strings
  import opened TextNodes

  /** A reference found in a text: it spans `s[start..end]`. */
  datatype Ref = Ref(start: nat, end: nat, anchor: string, url: string)

  function Opener(image: bool): string {
    if image then "![" else "["
  }

  function KindOf(image: bool): TextKind {
    if image then Image else Link
  }

  /** The Markdown text of a reference. */
  function RefMarkup(image: bool, anchor: string, url: string): string {
    Opener(image) + anchor + "](" + url + ")"
  }

  /** A reference segment stands for its Markdown text. */
  lemma {:induction false} MarkupRef(image: bool, anchor: string, url: string)
    ensures Markup(TextNode(anchor, KindOf(image), Some(url))) == RefMarkup(image, anchor, url)
  {
  }

  /** The opener `[` (or `![` for an image) at `i`. */
  predicate OpensAt(s: string, i: nat, image: bool) {
    if image then i + 1 < |s| && s[i] == '!' && s[i + 1] == '['
    else i < |s| && s[i] == '['
  }

  lemma {:induction false} OpensAtOpener(s: string, i: nat, image: bool)
    ensures OpensAt(s, i, image) <==> i + |Opener(image)| <= |s| && s[i..i + |Opener(image)|] == Opener(image)
  {
    if i + |Opener(image)| <= |s| && s[i..i + |Opener(image)|] == Opener(image) {
      assert s[i] == s[i..i + |Opener(image)|][0];
      assert image ==> s[i + 1] == s[i..i + |Opener(image)|][1];
    }
  }

  /** `](` at `j`: the end of an anchor. */
  predicate CloseAt(s: string, j: nat) {
    j + 1 < |s| && s[j] == ']' && s[j + 1] == '('
  }

  /** No `](` anywhere in `t`. */
  predicate NoClose(t: string) {
    forall j: nat :: j < |t| ==> !CloseAt(t, j)
  }

  /** The first `](` at or after `from`. */
  function FindClose(s: string, from: nat): (r: Option<nat>)
    ensures r.Some? ==> from <= r.value && CloseAt(s, r.value)
    ensures forall j: nat :: from <= j && (r.None? || j < r.value) ==> !CloseAt(s, j)
    decreases |s| - from
  {
    if from + 1 >= |s| then None
    else if CloseAt(s, from) then Some(from)
    else FindClose(s, from + 1)
  }

  /** The first `c` at or after `from`. */
  function FindChar(s: string, c: char, from: nat): (r: Option<nat>)
    ensures r.Some? ==> from <= r.value < |s| && s[r.value] == c
    ensures forall j :: from <= j < |s| && (r.None? || j < r.value) ==> s[j] != c
    decreases |s| - from
  {
    if from >= |s| then None
    else if s[from] == c then Some(from)
    else FindChar(s, c, from + 1)
  }

  lemma {:induction false} FindCloseFirst(s: string, from: nat, p: nat)
    requires from <= p && CloseAt(s, p)
    requires forall j: nat :: from <= j < p ==> !CloseAt(s, j)
    ensures FindClose(s, from) == Some(p)
    decreases p - from
  {
    if from < p {
      FindCloseFirst(s, from + 1, p);
    }
  }

  lemma {:induction false} FindCharFirst(s: string, c: char, from: nat, q: nat)
    requires from <= q < |s| && s[q] == c
    requires forall j :: from <= j < q ==> s[j] != c
    ensures FindChar(s, c, from) == Some(q)
    decreases q - from
  {
    if from < q {
      FindCharFirst(s, c, from + 1, q);
    }
  }

  /** The rest of a match after the opener at `i`: the anchor up to the
      first `](`, the URL up to the next `)`, no line feed in either. */
  function MatchAfter(s: string, i: nat, image: bool): (r: Option<Ref>)
    requires OpensAt(s, i, image)
    ensures r.Some? ==> r.value.start == i && i < r.value.end <= |s|
  {
    var n := |Opener(image)|;
    match FindClose(s, i + n)
    case None => None
    case Some(p) =>
      match FindChar(s, ')', p + 2)
      case None => None
      case Some(q) =>
        var anchor, url := s[i + n..p], s[p + 2..q];
        if '\n' in anchor || '\n' in url then None
        else Some(Ref(i, q + 1, anchor, url))
  }

  /** The match of the reference pattern starting at `i`, if any. A link
      must not follow a `!` (the look-behind `(?<!!)`). */
  function RefAt(s: string, i: nat, image: bool): (r: Option<Ref>)
    ensures r.Some? ==> r.value.start == i && i < r.value.end <= |s|
    ensures r.Some? && !image ==> i == 0 || s[i - 1] != '!'
    ensures !OpensAt(s, i, image) ==> r.None?
  {
    if !OpensAt(s, i, image) then None
    else if !image && i > 0 && s[i - 1] == '!' then None
    else MatchAfter(s, i, image)
  }

  /** The text of a match from its parts: the opener at `i`, the `](` at
      `p` and the `)` at `q`. */
  lemma {:induction false} RefText(s: string, i: nat, image: bool, p: nat, q: nat)
    requires i + |Opener(image)| <= p && p + 2 <= q < |s|
    requires OpensAt(s, i, image) && CloseAt(s, p) && s[q] == ')'
    ensures s[i..q + 1] == RefMarkup(image, s[i + |Opener(image)|..p], s[p + 2..q])
  {
    var o := Opener(image);
    OpensAtOpener(s, i, image);
    assert s[p..p + 2] == "](";
    assert s[q..q + 1] == ")";
    assert s[i..q + 1] == s[i..i + |o|] + s[i + |o|..p] + s[p..p + 2] + s[p + 2..q] + s[q..q + 1];
  }

  /** A match is the Markdown text of a reference whose anchor holds no
      `](` and whose URL holds no `)`, neither of them a line feed. */
  lemma {:induction false} RefAtMarkup(s: string, i: nat, image: bool)
    requires RefAt(s, i, image).Some?
    ensures var m := RefAt(s, i, image).value;
            && s[i..m.end] == RefMarkup(image, m.anchor, m.url)
            && NoClose(m.anchor) && ')' !in m.url
            && '\n' !in m.anchor && '\n' !in m.url
  {
    assert RefAt(s, i, image) == MatchAfter(s, i, image);
    MatchAfterMarkup(s, i, image);
  }

  lemma {:induction false} MatchAfterMarkup(s: string, i: nat, image: bool)
    requires OpensAt(s, i, image) && MatchAfter(s, i, image).Some?
    ensures var m := MatchAfter(s, i, image).value;
            && s[i..m.end] == RefMarkup(image, m.anchor, m.url)
            && NoClose(m.anchor) && ')' !in m.url
            && '\n' !in m.anchor && '\n' !in m.url
  {
    var n := |Opener(image)|;
    var p := FindClose(s, i + n).value;
    var q := FindChar(s, ')', p + 2).value;
    MatchAfterAt(s, i, image, p, q);
    PartsFree(s, i, image, p, q);
  }

  lemma {:induction false} PartsFree(s: string, i: nat, image: bool, p: nat, q: nat)
    requires OpensAt(s, i, image) && i + |Opener(image)| <= p && p + 2 <= q < |s|
    requires FindClose(s, i + |Opener(image)|) == Some(p) && FindChar(s, ')', p + 2) == Some(q)
    ensures s[i..q + 1] == RefMarkup(image, s[i + |Opener(image)|..p], s[p + 2..q])
    ensures NoClose(s[i + |Opener(image)|..p]) && ')' !in s[p + 2..q]
  {
    RefText(s, i, image, p, q);
    AnchorFree(s, i + |Opener(image)|, p);
    UrlFree(s, p + 2, q);
  }

  /** Text before the first `](` holds no `](`. */
  lemma {:induction false} AnchorFree(s: string, a: nat, p: nat)
    requires a <= p <= |s|
    requires forall j: nat :: a <= j < p ==> !CloseAt(s, j)
    ensures NoClose(s[a..p])
  {
    var t := s[a..p];
    forall j: nat | j < |t| ensures !CloseAt(t, j) {
      if j + 1 < |t| {
        assert !CloseAt(s, a + j);
        assert t[j] == s[a + j] && t[j + 1] == s[a + j + 1];
      }
    }
  }

  /** Text before the first `)` holds no `)`. */
  lemma {:induction false} UrlFree(s: string, a: nat, q: nat)
    requires a <= q <= |s|
    requires forall j :: a <= j < q ==> s[j] != ')'
    ensures ')' !in s[a..q]
  {
    forall k | 0 <= k < q - a ensures s[a..q][k] != ')' {
      assert s[a..q][k] == s[a + k];
    }
  }

  /** The leftmost match at or after `from`. */
  function FindRef(s: string, from: nat, image: bool): (r: Option<Ref>)
    requires from <= |s|
    ensures r.Some? ==> from <= r.value.start <= |s| && RefAt(s, r.value.start, image) == r
    ensures r.Some? ==> forall j: nat :: from <= j < r.value.start ==> RefAt(s, j, image).None?
    ensures r.None? ==> forall j: nat :: from <= j <= |s| ==> RefAt(s, j, image).None?
    decreases |s| - from
  {
    match RefAt(s, from, image)
    case Some(m) => Some(m)
    case None => if from == |s| then None else FindRef(s, from + 1, image)
  }

  /** The text the pieces and references stand for, taken in turn. */
  function Weave(ps: seq<string>, rs: seq<Ref>, image: bool): string
    requires |ps| == |rs| + 1
  {
    if rs == [] then ps[0]
    else ps[0] + RefMarkup(image, rs[0].anchor, rs[0].url) + Weave(ps[1..], rs[1..], image)
  }

  /** Python's `re.split` and `re.findall` together: the text between the
      leftmost, non-overlapping matches, and the matches. */
  function Scan(s: string, from: nat, image: bool): (r: (seq<string>, seq<Ref>))
    requires from <= |s|
    ensures |r.0| == |r.1| + 1
    ensures Weave(r.0, r.1, image) == s[from..]
    ensures r.1 == [] <==> FindRef(s, from, image).None?
    decreases |s| - from
  {
    match FindRef(s, from, image)
    case None => ([s[from..]], [])
    case Some(m) =>
      var rest := Scan(s, m.end, image);
      var ps, rs := [s[from..m.start]] + rest.0, [m] + rest.1;
      assert ps[1..] == rest.0 && rs[1..] == rest.1;
      RefAtMarkup(s, m.start, image);
      SliceAround(s, from, m.start, m.end);
      (ps, rs)
  }

  /** `ps` and `rs` read `s` left to right from `e`: each match is the
      leftmost one from where the previous one ended (from `e` for the
      first), each piece is the text in between, and the last piece is the
      rest of the text, which holds no match. */
  predicate Chain(s: string, e: nat, image: bool, ps: seq<string>, rs: seq<Ref>)
    decreases |rs|
  {
    && e <= |s| && |ps| == |rs| + 1
    && if rs == [] then FindRef(s, e, image).None? && ps[0] == s[e..]
       else
         && FindRef(s, e, image) == Some(rs[0])
         && ps[0] == s[e..rs[0].start]
         && Chain(s, rs[0].end, image, ps[1..], rs[1..])
  }

  /** The scan is such a chain. */
  lemma {:induction false} ScanChain(s: string, from: nat, image: bool)
    requires from <= |s|
    ensures Chain(s, from, image, Scan(s, from, image).0, Scan(s, from, image).1)
    decreases |s| - from
  {
    match FindRef(s, from, image)
    case None =>
      assert Scan(s, from, image) == ([s[from..]], []);
    case Some(m) =>
      ScanChain(s, m.end, image);
      var rest := Scan(s, m.end, image);
      assert Scan(s, from, image) == ([s[from..m.start]] + rest.0, [m] + rest.1);
      assert ([s[from..m.start]] + rest.0)[1..] == rest.0;
      assert ([m] + rest.1)[1..] == rest.1;
  }

  /** and the only one: the chain from `e` is the scan from `e`. */
  lemma {:induction false} ChainScan(s: string, e: nat, image: bool, ps: seq<string>, rs: seq<Ref>)
    requires Chain(s, e, image, ps, rs)
    ensures Scan(s, e, image) == (ps, rs)
    decreases |rs|
  {
    if rs == [] {
      LastPiece(s, e, image);
      assert ps == [ps[0]];
    } else {
      var m := rs[0];
      ChainScan(s, m.end, image, ps[1..], rs[1..]);
      ScanStep(s, e, image, m);
      HeadTail(ps);
      HeadTail(rs);
    }
  }

  lemma {:induction false} HeadTail<T>(xs: seq<T>)
    requires xs != []
    ensures [xs[0]] + xs[1..] == xs
  {
  }

  /** One step of the scan. */
  lemma {:induction false} ScanStep(s: string, from: nat, image: bool, m: Ref)
    requires from <= |s| && FindRef(s, from, image) == Some(m)
    ensures m.end <= |s|
    ensures Scan(s, from, image)
            == ([s[from..m.start]] + Scan(s, m.end, image).0, [m] + Scan(s, m.end, image).1)
  {
  }

  /** Every piece of a scan is part of the text, so the text's absence of
      `x` carries over to the pieces. */
  lemma {:induction false} ScanFree(s: string, from: nat, image: bool, x: string)
    requires from <= |s| && |x| > 0
    requires !Contains(s, x)
    ensures forall k :: 0 <= k < |Scan(s, from, image).0| ==> !Contains(Scan(s, from, image).0[k], x)
    decreases |s| - from
  {
    match FindRef(s, from, image)
    case None =>
      NotContainsSlice(s, from, |s|, x);
      assert s[from..|s|] == s[from..];
      LastPiece(s, from, image);
      FreeCons(s[from..], [], x);
    case Some(m) =>
      NotContainsSlice(s, from, m.start, x);
      ScanFree(s, m.end, image, x);
      ScanHead(s, from, image);
      FreeCons(s[from..m.start], Scan(s, m.end, image).0, x);
  }

  /** A free piece in front of free pieces. */
  lemma {:induction false} FreeCons(p: string, ps: seq<string>, x: string)
    requires |x| > 0 && !Contains(p, x)
    requires forall k :: 0 <= k < |ps| ==> !Contains(ps[k], x)
    ensures forall k :: 0 <= k < |[p] + ps| ==> !Contains(([p] + ps)[k], x)
  {
    forall k | 0 <= k < |[p] + ps| ensures !Contains(([p] + ps)[k], x) {
      if k > 0 {
        assert ([p] + ps)[k] == ps[k - 1];
      }
    }
  }

  /** The `zip_longest` of pieces and matches with empty pieces dropped: a
      plain segment per non-empty piece, a reference segment per match. */
  function RefNodes(ps: seq<string>, rs: seq<Ref>, image: bool): seq<TextNode>
    requires |ps| == |rs| + 1
  {
    (if ps[0] == "" then [] else [Plain(ps[0])])
    + (if rs == [] then []
       else [TextNode(rs[0].anchor, KindOf(image), Some(rs[0].url))] + RefNodes(ps[1..], rs[1..], image))
  }

  lemma {:induction false} UnlexRefNodes(ps: seq<string>, rs: seq<Ref>, image: bool)
    requires |ps| == |rs| + 1
    ensures Unlex(RefNodes(ps, rs, image)) == Weave(ps, rs, image)
    decreases |rs|
  {
    var head := if ps[0] == "" then [] else [Plain(ps[0])];
    UnlexPiece(ps[0]);
    if rs == [] {
      assert RefNodes(ps, rs, image) == head + [];
      assert head + [] == head;
    } else {
      var m := TextNode(rs[0].anchor, KindOf(image), Some(rs[0].url));
      var tail := RefNodes(ps[1..], rs[1..], image);
      var mark := RefMarkup(image, rs[0].anchor, rs[0].url);
      var w := Weave(ps[1..], rs[1..], image);
      UnlexRefNodes(ps[1..], rs[1..], image);
      UnlexCons(m, tail);
      MarkupRef(image, rs[0].anchor, rs[0].url);
      UnlexAppend(head, [m] + tail);
      assert RefNodes(ps, rs, image) == head + ([m] + tail);
      assert Unlex(head + ([m] + tail)) == ps[0] + (mark + w);
      assert Weave(ps, rs, image) == ps[0] + mark + w;
      SeqAssoc(ps[0], mark, w);
    }
  }

  /** The plain segment of a piece, if any, writes back to the piece. */
  lemma {:induction false} UnlexPiece(p: string)
    ensures Unlex(if p == "" then [] else [Plain(p)]) == p
  {
    if p != "" {
      UnlexCons(Plain(p), []);
    }
  }

  lemma {:induction false} RefNodesShape(ps: seq<string>, rs: seq<Ref>, image: bool)
    requires |ps| == |rs| + 1
    ensures AllWellFormed(RefNodes(ps, rs, image))
    ensures forall i :: 0 <= i < |RefNodes(ps, rs, image)| ==>
              RefNodes(ps, rs, image)[i].kind == Text || RefNodes(ps, rs, image)[i].kind == KindOf(image)
    decreases |rs|
  {
    if rs != [] {
      RefNodesShape(ps[1..], rs[1..], image);
    }
  }

  /** One segment through a reference pass. A segment that is not plain
      text, or holds no match, is kept as it is. */
  function SplitNodeRefs(n: TextNode, image: bool): (r: seq<TextNode>)
    ensures n.kind != Text ==> r == [n]
    ensures n.kind == Text && FindRef(n.text, 0, image).None? ==> r == [n]
    ensures Unlex(r) == Markup(n)
    ensures WellFormed(n) ==> AllWellFormed(r)
    ensures n.kind == Text ==> forall i :: 0 <= i < |r| ==> r[i].kind == Text || r[i].kind == KindOf(image)
  {
    assert [n][1..] == [];
    assert Unlex([n]) == Markup(n) + "" == Markup(n);
    if n.kind != Text then [n]
    else
      var sc := Scan(n.text, 0, image);
      if sc.1 == [] then [n]
      else
        UnlexRefNodes(sc.0, sc.1, image);
        RefNodesShape(sc.0, sc.1, image);
        assert n.text[0..] == n.text;
        RefNodes(sc.0, sc.1, image)
  }

  /** `split_nodes_link` (`image` false) or `split_nodes_image` (`image`
      true) over a list of segments. */
  function SplitRefs(ns: seq<TextNode>, image: bool): (r: seq<TextNode>)
    ensures Unlex(r) == Unlex(ns)
    ensures (forall i :: 0 <= i < |ns| ==> ns[i].kind != Text) ==> r == ns
    decreases |ns|
  {
    if ns == [] then []
    else
      var head, tail := SplitNodeRefs(ns[0], image), SplitRefs(ns[1..], image);
      UnlexAppend(head, tail);
      UnlexCons(ns[0], ns[1..]);
      NoTextTail(ns);
      head + tail
  }

  lemma {:induction false} NoTextTail(ns: seq<TextNode>)
    requires ns != []
    ensures ns == [ns[0]] + ns[1..]
    ensures (forall i :: 0 <= i < |ns| ==> ns[i].kind != Text)
            ==> ns[0].kind != Text && forall i :: 0 <= i < |ns| - 1 ==> ns[1..][i].kind != Text
  {
  }

  lemma {:induction false} RefNodesPlainFree(ps: seq<string>, rs: seq<Ref>, image: bool, x: string)
    requires |ps| == |rs| + 1 && |x| > 0
    requires forall k :: 0 <= k < |ps| ==> !Contains(ps[k], x)
    ensures PlainFree(RefNodes(ps, rs, image), x)
    decreases |rs|
  {
    var head := if ps[0] == "" then [] else [Plain(ps[0])];
    if rs == [] {
      assert RefNodes(ps, rs, image) == head + [];
    } else {
      var m := TextNode(rs[0].anchor, KindOf(image), Some(rs[0].url));
      var tail := RefNodes(ps[1..], rs[1..], image);
      assert forall k :: 0 <= k < |ps| - 1 ==> ps[1..][k] == ps[k + 1];
      RefNodesPlainFree(ps[1..], rs[1..], image, x);
      PlainFreeAppend([m], tail, x);
      PlainFreeAppend(head, [m] + tail, x);
      assert RefNodes(ps, rs, image) == head + ([m] + tail);
    }
  }

  /** The pass creates no plain text that was not in its input: a string
      absent from every plain segment stays absent. */
  lemma {:induction false} SplitNodeRefsPlainFree(n: TextNode, image: bool, x: string)
    requires |x| > 0 && PlainFree([n], x)
    ensures PlainFree(SplitNodeRefs(n, image), x)
  {
    if n.kind == Text {
      assert [n][0] == n;
      var sc := Scan(n.text, 0, image);
      if sc.1 != [] {
        ScanFree(n.text, 0, image, x);
        RefNodesPlainFree(sc.0, sc.1, image, x);
      }
    }
  }

  lemma {:induction false} SplitRefsPlainFree(ns: seq<TextNode>, image: bool, x: string)
    requires |x| > 0 && PlainFree(ns, x)
    ensures PlainFree(SplitRefs(ns, image), x)
    decreases |ns|
  {
    if ns != [] {
      PlainFreeAppend([ns[0]], ns[1..], x);
      assert ns == [ns[0]] + ns[1..];
      SplitNodeRefsPlainFree(ns[0], image, x);
      SplitRefsPlainFree(ns[1..], image, x);
      PlainFreeAppend(SplitNodeRefs(ns[0], image), SplitRefs(ns[1..], image), x);
    }
  }

  /** The pass keeps well-formed segments well-formed. */
  lemma {:induction false} SplitRefsWellFormed(ns: seq<TextNode>, image: bool)
    requires AllWellFormed(ns)
    ensures AllWellFormed(SplitRefs(ns, image))
    decreases |ns|
  {
    if ns != [] {
      assert ns == [ns[0]] + ns[1..];
      AllWellFormedAppend([ns[0]], ns[1..]);
      SplitRefsWellFormed(ns[1..], image);
      AllWellFormedAppend(SplitNodeRefs(ns[0], image), SplitRefs(ns[1..], image));
    }
  }

  /** No match in a text without `[`. */
  lemma {:induction false} NoBracketNoRef(s: string, from: nat, image: bool)
    requires from <= |s| && '[' !in s[from..]
    ensures FindRef(s, from, image).None?
  {
    forall j: nat | from <= j <= |s| ensures !OpensAt(s, j, image) {
      var c := j + |Opener(image)| - 1;
      if c < |s| {
        assert s[from..][c - from] == s[c];
      }
    }
  }

  /** A plain segment without `[` goes through the pass unchanged. */
  lemma {:induction false} SplitNodeRefsNoBracket(n: TextNode, image: bool)
    requires '[' !in n.text
    ensures SplitNodeRefs(n, image) == [n]
  {
    assert n.text[0..] == n.text;
    NoBracketNoRef(n.text, 0, image);
  }

  /** The pass leaves segments alone when no plain one holds `[`. */
  lemma {:induction false} SplitRefsNoBracket(ns: seq<TextNode>, image: bool)
    requires forall i :: 0 <= i < |ns| ==> ns[i].kind == Text ==> '[' !in ns[i].text
    ensures SplitRefs(ns, image) == ns
    decreases |ns|
  {
    if ns != [] {
      if ns[0].kind == Text {
        SplitNodeRefsNoBracket(ns[0], image);
      }
      assert forall i :: 0 <= i < |ns| - 1 ==> ns[1..][i] == ns[i + 1];
      SplitRefsNoBracket(ns[1..], image);
      assert ns == [ns[0]] + ns[1..];
    }
  }

  /** The link pass finds no link in a text whose every `[` follows a `!`:
      those are image openers, which the look-behind rejects. */
  lemma {:induction false} BangBracketNoLink(s: string)
    requires forall j: nat :: j < |s| && s[j] == '[' ==> j > 0 && s[j - 1] == '!'
    ensures SplitNodeRefs(Plain(s), false) == [Plain(s)]
  {
    assert s[0..] == s;
    forall j: nat | j <= |s| ensures RefAt(s, j, false).None? {
      if OpensAt(s, j, false) {
        assert s[j] == '[';
      }
    }
  }

  /** In the text of one image between texts without `[`, the only `[` is
      the one that follows the image's `!`. */
  lemma {:induction false} ImageBrackets(a: string, t: string, u: string, b: string)
    requires '[' !in a && '[' !in t && '[' !in u && '[' !in b
    ensures var s := a + RefMarkup(true, t, u) + b;
            forall j: nat :: j < |s| && s[j] == '[' ==> j > 0 && s[j - 1] == '!'
  {
    var x := RefMarkup(true, t, u);
    var s := a + x + b;
    assert x == "![" + (t + "](" + u + ")");
    forall j: nat | j < |s| && s[j] == '[' ensures j > 0 && s[j - 1] == '!' {
      if |a| <= j < |a| + 2 {
        assert s[j] == x[j - |a|];
        assert s[|a|] == x[0];
      }
    }
  }

  /** The leftmost match is the first position that matches. */
  lemma {:induction false} FindRefAt(s: string, from: nat, i: nat, image: bool)
    requires from <= i <= |s| && RefAt(s, i, image).Some?
    requires forall j: nat :: from <= j < i ==> RefAt(s, j, image).None?
    ensures FindRef(s, from, image) == RefAt(s, i, image)
  {
    var r := FindRef(s, from, image);
    if r.None? {
      assert false;
    } else if r.value.start != i {
      assert false;
    }
  }

  /** A plain segment for non-empty text, nothing for empty text. */
  function NonEmptyPlain(t: string): (r: seq<TextNode>)
    ensures t == "" <==> r == []
  {
    if t == "" then [] else [Plain(t)]
  }

  /** A plain segment holding text without `[`, one reference and text
      without `[` after it: the pass cuts it into the text before, the
      reference and the text after, leaving out empty text. A link must not
      follow a `!`. */
  lemma {:induction false} SplitNodeRefsSingle(a: string, t: string, u: string, b: string, image: bool)
    requires '[' !in a && '[' !in b
    requires !image ==> a == [] || a[|a| - 1] != '!'
    requires NoClose(t) && ')' !in u && '\n' !in t && '\n' !in u
    ensures SplitNodeRefs(Plain(a + RefMarkup(image, t, u) + b), image)
            == NonEmptyPlain(a) + [TextNode(t, KindOf(image), Some(u))] + NonEmptyPlain(b)
  {
    var m := Ref(|a|, |a| + |RefMarkup(image, t, u)|, t, u);
    FindRefSingle(a, t, u, b, image);
    ScanSingle(a, RefMarkup(image, t, u), b, m, image);
    RefNodesSingle(a, b, m, image);
  }

  /** Any number of references: plain text read as a chain of pieces and
      matches becomes the non-empty pieces with a link or image node for
      each match between them. */
  lemma {:induction false} SplitNodeRefsChain(s: string, image: bool, ps: seq<string>, rs: seq<Ref>)
    requires Chain(s, 0, image, ps, rs)
    ensures rs == [] ==> SplitNodeRefs(Plain(s), image) == [Plain(s)]
    ensures rs != [] ==> SplitNodeRefs(Plain(s), image) == RefNodes(ps, rs, image)
  {
    ChainScan(s, 0, image, ps, rs);
  }

  lemma {:induction false} FindRefSingle(a: string, t: string, u: string, b: string, image: bool)
    requires '[' !in a
    requires !image ==> a == [] || a[|a| - 1] != '!'
    requires NoClose(t) && ')' !in u && '\n' !in t && '\n' !in u
    ensures FindRef(a + RefMarkup(image, t, u) + b, 0, image)
            == Some(Ref(|a|, |a| + |RefMarkup(image, t, u)|, t, u))
  {
    var s := a + RefMarkup(image, t, u) + b;
    SingleRefAt(a, t, u, b, image);
    forall j: nat | 0 <= j < |a| ensures RefAt(s, j, image).None? {
      BeforeRef(a, t, u, b, image, j);
    }
    FindRefAt(s, 0, |a|, image);
  }

  lemma {:induction false} ScanSingle(a: string, x: string, b: string, m: Ref, image: bool)
    requires '[' !in b
    requires FindRef(a + x + b, 0, image) == Some(m) && m.start == |a| && m.end == |a| + |x|
    ensures Scan(a + x + b, 0, image) == ([a, b], [m])
  {
    Around(a, x, b);
    ScanOne(a + x + b, image, m, a, b);
  }

  lemma {:induction false} Around(a: string, x: string, b: string)
    ensures (a + x + b)[0..|a|] == a && (a + x + b)[|a| + |x|..] == b
  {
  }

  /** A scan that finds exactly one match. */
  lemma {:induction false} ScanOne(s: string, image: bool, m: Ref, a: string, b: string)
    requires FindRef(s, 0, image) == Some(m)
    requires m.end <= |s| && s[0..m.start] == a && s[m.end..] == b && '[' !in b
    ensures Scan(s, 0, image) == ([a, b], [m])
  {
    NoBracketNoRef(s, m.end, image);
    var rest := Scan(s, m.end, image);
    assert rest == ([s[m.end..]], []);
    assert Scan(s, 0, image) == ([s[0..m.start]] + rest.0, [m] + rest.1);
    assert [s[0..m.start]] + rest.0 == [s[0..m.start], s[m.end..]];
    assert [m] + rest.1 == [m];
  }

  lemma {:induction false} RefNodesSingle(a: string, b: string, m: Ref, image: bool)
    ensures RefNodes([a, b], [m], image)
            == NonEmptyPlain(a) + [TextNode(m.anchor, KindOf(image), Some(m.url))] + NonEmptyPlain(b)
  {
    assert [a, b][1..] == [b];
    assert [m][1..] == [];
    assert RefNodes([b], [], image) == NonEmptyPlain(b) + [];
  }

  /** The layout of the parts of a match: opener, anchor, `](`, URL, `)`. */
  predicate PartsAt(s: string, i: nat, image: bool, t: string, u: string) {
    var p := i + |Opener(image)| + |t|;
    && p + 2 + |u| < |s|
    && OpensAt(s, i, image)
    && s[i + |Opener(image)|..p] == t
    && CloseAt(s, p)
    && s[p + 2..p + 2 + |u|] == u
    && s[p + 2 + |u|] == ')'
  }

  /** Where the parts of `a`, a reference and `b` sit in their concatenation. */
  lemma {:induction false} RefLayout(a: string, t: string, u: string, b: string, image: bool)
    ensures PartsAt(a + RefMarkup(image, t, u) + b, |a|, image, t, u)
    ensures |a| > 0 ==> (a + RefMarkup(image, t, u) + b)[|a| - 1] == a[|a| - 1]
  {
    var m := RefMarkup(image, t, u);
    Middle(a, m, b);
    MarkupParts(image, t, u);
    PartsLayout(a + m + b, |a|, m, image, t, u);
  }

  /** The parts of a reference's Markdown found wherever it sits. */
  lemma {:induction false} PartsLayout(s: string, off: nat, m: string, image: bool, t: string, u: string)
    requires off + |m| <= |s| && s[off..off + |m|] == m
    requires var o := Opener(image);
             var q := |o| + |t|;
             && |m| == q + 3 + |u|
             && m[0..|o|] == o && m[|o|..q] == t && m[q] == ']' && m[q + 1] == '('
             && m[q + 2..q + 2 + |u|] == u && m[q + 2 + |u|] == ')'
    ensures PartsAt(s, off, image, t, u)
  {
    var o := Opener(image);
    var q := |o| + |t|;
    var p := off + q;
    SliceWithin(s, off, m, 0, |o|);
    OpensAtOpener(s, off, image);
    SliceWithin(s, off, m, |o|, q);
    CharWithin(s, off, m, q);
    CharWithin(s, off, m, q + 1);
    SliceWithin(s, off, m, q + 2, q + 2 + |u|);
    CharWithin(s, off, m, q + 2 + |u|);
  }

  lemma {:induction false} Middle(w: string, x: string, y: string)
    ensures (w + x + y)[|w|..|w| + |x|] == x
  {
  }

  /** A slice of a part that sits at `off` is the same slice of the whole, moved. */
  lemma {:induction false} SliceWithin(s: string, off: nat, m: string, i: nat, j: nat)
    requires off + |m| <= |s| && s[off..off + |m|] == m && i <= j <= |m|
    ensures s[off + i..off + j] == m[i..j]
  {
    forall k | 0 <= k < j - i ensures s[off + i..off + j][k] == m[i..j][k] {
      assert s[off + i + k] == s[off..off + |m|][i + k];
    }
  }

  lemma {:induction false} CharWithin(s: string, off: nat, m: string, k: nat)
    requires off + |m| <= |s| && s[off..off + |m|] == m && k < |m|
    ensures s[off + k] == m[k]
  {
    assert s[off + k] == s[off..off + |m|][k];
  }

  /** The parts of a reference's Markdown, by position. */
  lemma {:induction false} MarkupParts(image: bool, t: string, u: string)
    ensures var m, o := RefMarkup(image, t, u), Opener(image);
            var q := |o| + |t|;
            && |m| == q + 3 + |u|
            && m[0..|o|] == o && m[|o|..q] == t && m[q] == ']' && m[q + 1] == '('
            && m[q + 2..q + 2 + |u|] == u && m[q + 2 + |u|] == ')'
  {
    var o := Opener(image);
    var m := o + t + "](" + u + ")";
    var q := |o| + |t|;
    assert m == RefMarkup(image, t, u);
    Middle([], o, t + "](" + u + ")");
    assert m == [] + o + (t + "](" + u + ")");
    Middle(o, t, "](" + u + ")");
    assert m == o + t + ("](" + u + ")");
    Middle(o + t, "](", u + ")");
    assert m == (o + t) + "](" + (u + ")");
    assert m[q] == m[q..q + 2][0] && m[q + 1] == m[q..q + 2][1];
    Middle(o + t + "](", u, ")");
  }


  /** The first `](` after the opener ends the anchor. */
  lemma {:induction false} AnchorEnd(s: string, start: nat, t: string)
    requires start + |t| <= |s| && s[start..start + |t|] == t && CloseAt(s, start + |t|)
    requires NoClose(t)
    ensures FindClose(s, start) == Some(start + |t|)
  {
    var p := start + |t|;
    forall j: nat | start <= j < p ensures !CloseAt(s, j) {
      var k := j - start;
      assert s[j] == t[k];
      if j + 1 < p {
        assert s[j + 1] == t[k + 1];
        assert !CloseAt(t, k);
      }
    }
    FindCloseFirst(s, start, p);
  }

  /** The first `)` after the anchor ends the URL. */
  lemma {:induction false} UrlEnd(s: string, start: nat, u: string)
    requires start + |u| < |s| && s[start..start + |u|] == u && s[start + |u|] == ')'
    requires ')' !in u
    ensures FindChar(s, ')', start) == Some(start + |u|)
  {
    forall j | start <= j < start + |u| ensures s[j] != ')' {
      assert s[j] == u[j - start];
    }
    FindCharFirst(s, ')', start, start + |u|);
  }

  /** A match at `i` from the positions of its parts. */
  lemma {:induction false} RefAtParts(s: string, i: nat, image: bool, t: string, u: string)
    requires PartsAt(s, i, image, t, u)
    requires !image ==> i == 0 || s[i - 1] != '!'
    requires NoClose(t) && ')' !in u && '\n' !in t && '\n' !in u
    ensures RefAt(s, i, image) == Some(Ref(i, i + |Opener(image)| + |t| + 3 + |u|, t, u))
  {
    var n := |Opener(image)|;
    var p := i + n + |t|;
    var q := p + 2 + |u|;
    assert s[i + n..p] == t && s[p + 2..q] == u;
    AnchorEnd(s, i + n, t);
    UrlEnd(s, p + 2, u);
    MatchAfterAt(s, i, image, p, q);
    assert MatchAfter(s, i, image) == Some(Ref(i, q + 1, t, u));
    assert RefAt(s, i, image) == MatchAfter(s, i, image);
  }

  lemma {:induction false} MatchAfterAt(s: string, i: nat, image: bool, p: nat, q: nat)
    requires OpensAt(s, i, image) && i + |Opener(image)| <= p && p + 2 <= q < |s|
    requires FindClose(s, i + |Opener(image)|) == Some(p) && FindChar(s, ')', p + 2) == Some(q)
    requires '\n' !in s[i + |Opener(image)|..p] && '\n' !in s[p + 2..q]
    ensures MatchAfter(s, i, image) == Some(Ref(i, q + 1, s[i + |Opener(image)|..p], s[p + 2..q]))
  {
  }

  lemma {:induction false} SingleRefAt(a: string, t: string, u: string, b: string, image: bool)
    requires NoClose(t) && ')' !in u && '\n' !in t && '\n' !in u
    requires !image ==> a == [] || a[|a| - 1] != '!'
    ensures RefAt(a + RefMarkup(image, t, u) + b, |a|, image)
            == Some(Ref(|a|, |a| + |RefMarkup(image, t, u)|, t, u))
  {
    RefLayout(a, t, u, b, image);
    RefAtParts(a + RefMarkup(image, t, u) + b, |a|, image, t, u);
  }

  /** No match starts inside text without `[` before a reference. */
  lemma {:induction false} BeforeRef(a: string, t: string, u: string, b: string, image: bool, j: nat)
    requires '[' !in a && j < |a|
    ensures RefAt(a + RefMarkup(image, t, u) + b, j, image).None?
  {
    var s := a + RefMarkup(image, t, u) + b;
    var c := j + |Opener(image)| - 1;
    if c < |a| {
      assert s[c] == a[c];
    } else {
      assert s[c] == '!';
    }
  }
  // ---------------------------------------------------------------------
  // Progress: no match is left in plain text
  // ---------------------------------------------------------------------

  /** Every plain segment of `ns` holds no match of the pass `image`. */
  predicate RefFree(ns: seq<TextNode>, image: bool) {
    forall i :: 0 <= i < |ns| ==> ns[i].kind == Text ==> FindRef(ns[i].text, 0, image).None?
  }

  /** What a match at `i` is made of, position by position: the opener and
      the look-behind of a link, a `](` at `p` with none before it after the
      opener, a `)` at `q` with none before it after the `](`, and no line
      feed in between. */
  predicate MatchShape(s: string, i: nat, image: bool, p: nat, q: nat) {
    && OpensAt(s, i, image)
    && (!image ==> i == 0 || s[i - 1] != '!')
    && i + |Opener(image)| <= p && p + 2 <= q < |s|
    && CloseAt(s, p) && s[q] == ')'
    && (forall k: nat :: i + |Opener(image)| <= k < p ==> !CloseAt(s, k) && s[k] != '\n')
    && (forall k: nat :: p + 2 <= k < q ==> s[k] != ')' && s[k] != '\n')
  }

  /** Every match has that shape. */
  lemma {:induction false} ShapeOfRef(t: string, j: nat, image: bool) returns (c: nat, q: nat)
    requires RefAt(t, j, image).Some?
    ensures MatchShape(t, j, image, c, q)
  {
    var n := |Opener(image)|;
    assert RefAt(t, j, image) == MatchAfter(t, j, image);
    c := FindClose(t, j + n).value;
    q := FindChar(t, ')', c + 2).value;
    var anchor, url := t[j + n..c], t[c + 2..q];
    assert MatchAfter(t, j, image)
        == if '\n' in anchor || '\n' in url then None else Some(Ref(j, q + 1, anchor, url));
    NoCharInSlice(t, j + n, c, '\n');
    NoCharInSlice(t, c + 2, q, '\n');
  }

  /** A character absent from a slice is absent at each of its positions. */
  lemma {:induction false} NoCharInSlice(t: string, a: nat, b: nat, x: char)
    requires a <= b <= |t| && x !in t[a..b]
    ensures forall k: nat :: a <= k < b ==> t[k] != x
  {
    forall k: nat | a <= k < b ensures t[k] != x {
      assert t[k] == t[a..b][k - a];
    }
  }

  /** Every position of that shape is a match. */
  lemma {:induction false} RefOfShape(s: string, i: nat, image: bool, p: nat, q: nat)
    requires MatchShape(s, i, image, p, q)
    ensures RefAt(s, i, image).Some?
  {
    var n := |Opener(image)|;
    FindCloseFirst(s, i + n, p);
    FindCharFirst(s, ')', p + 2, q);
    var anchor, url := s[i + n..p], s[p + 2..q];
    forall k | 0 <= k < |anchor| ensures anchor[k] != '\n' {
      assert anchor[k] == s[i + n + k];
    }
    forall k | 0 <= k < |url| ensures url[k] != '\n' {
      assert url[k] == s[p + 2 + k];
    }
    MatchAfterAt(s, i, image, p, q);
  }

  /** The shape of a match in a slice is a shape in the text, provided the
      look-behind of a link holds at the slice's start. */
  lemma {:induction false} ShiftShape(s: string, a: nat, b: nat, j: nat, image: bool, c: nat, r: nat)
    requires a <= b <= |s| && MatchShape(s[a..b], j, image, c, r)
    requires !image && j == 0 && a > 0 ==> s[a - 1] != '!'
    ensures MatchShape(s, a + j, image, a + c, a + r)
  {
    var t := s[a..b];
    var n := |Opener(image)|;
    assert t[j] == s[a + j];
    if image {
      assert t[j + 1] == s[a + j + 1];
    }
    if !image && j > 0 {
      assert t[j - 1] == s[a + j - 1];
    }
    assert t[c] == s[a + c] && t[c + 1] == s[a + c + 1] && t[r] == s[a + r];
    forall k: nat | a + j + n <= k < a + c ensures !CloseAt(s, k) && s[k] != '\n' {
      assert !CloseAt(t, k - a) && t[k - a] != '\n';
      assert s[k] == t[k - a] && s[k + 1] == t[k - a + 1];
    }
    forall k: nat | a + c + 2 <= k < a + r ensures s[k] != ')' && s[k] != '\n' {
      assert s[k] == t[k - a];
    }
  }

  /** A slice of a text with no match in it holds no match either. */
  lemma {:induction false} SliceNoRef(s: string, a: nat, b: nat, image: bool)
    requires a <= b <= |s|
    requires !image && a > 0 ==> s[a - 1] != '!'
    requires forall j: nat :: a <= j < b ==> RefAt(s, j, image).None?
    ensures FindRef(s[a..b], 0, image).None?
  {
    var t := s[a..b];
    if FindRef(t, 0, image).Some? {
      var j := FindRef(t, 0, image).value.start;
      var c, r := ShapeOfRef(t, j, image);
      ShiftShape(s, a, b, j, image, c, r);
      RefOfShape(s, a + j, image, a + c, a + r);
      assert false;
    }
  }

  /** The pieces of a scan hold no match of either pass: none of the pass
      scanned for, as each piece ends where the leftmost match begins, and
      none of the other pass if the text held none. Each piece after the
      first follows a `)`, so the look-behind of a link holds there. */
  lemma {:induction false} ScanPiecesNoRef(s: string, from: nat, image: bool, other: bool)
    requires from <= |s|
    requires from > 0 ==> s[from - 1] == ')'
    requires other != image ==> FindRef(s, from, other).None?
    ensures PiecesFree(Scan(s, from, image).0, other)
    decreases |s| - from
  {
    match FindRef(s, from, image)
    case None =>
      LastPieceNoRef(s, from, image, other);
    case Some(m) =>
      EndsWithParen(s, m.start, image, m);
      if other != image {
        NoRefLater(s, from, m.end, other);
      }
      ScanPiecesNoRef(s, m.end, image, other);
      ScanStepNoRef(s, from, image, other, m);
  }

  /** The scan's last step: the rest of the text, which holds no match. */
  lemma {:induction false} LastPieceNoRef(s: string, from: nat, image: bool, other: bool)
    requires from <= |s| && FindRef(s, from, image).None?
    requires from > 0 ==> s[from - 1] == ')'
    requires other != image ==> FindRef(s, from, other).None?
    ensures PiecesFree(Scan(s, from, image).0, other)
  {
    SliceNoRef(s, from, |s|, other);
    LastPiece(s, from, image);
    PiecesFreeCons(s[from..], [], other);
  }

  /** One step of the scan keeps its pieces free of matches. */
  lemma {:induction false} ScanStepNoRef(s: string, from: nat, image: bool, other: bool, m: Ref)
    requires from <= |s| && FindRef(s, from, image) == Some(m)
    requires from > 0 ==> s[from - 1] == ')'
    requires other != image ==> FindRef(s, from, other).None?
    requires m.end <= |s| && PiecesFree(Scan(s, m.end, image).0, other)
    ensures PiecesFree(Scan(s, from, image).0, other)
  {
    ScanHead(s, from, image);
    HeadNoRef(s, from, image, other);
    PiecesFreeCons(s[from..m.start], Scan(s, m.end, image).0, other);
  }

  /** No piece holds a match of the pass `image`. */
  predicate PiecesFree(ps: seq<string>, image: bool) {
    ps == [] || (FindRef(ps[0], 0, image).None? && PiecesFree(ps[1..], image))
  }

  lemma {:induction false} PiecesFreeCons(p: string, ps: seq<string>, image: bool)
    requires FindRef(p, 0, image).None? && PiecesFree(ps, image)
    ensures PiecesFree([p] + ps, image)
  {
    assert ([p] + ps)[1..] == ps;
  }

  /** A scan that finds no match leaves the rest of the text whole. */
  lemma {:induction false} LastPiece(s: string, from: nat, image: bool)
    requires from <= |s| && FindRef(s, from, image).None?
    ensures Scan(s, from, image).0 == [s[from..]] + [] && s[from..|s|] == s[from..]
  {
  }

  /** A scan that finds a match cuts the text before it and goes on after it. */
  lemma {:induction false} ScanHead(s: string, from: nat, image: bool)
    requires from <= |s| && FindRef(s, from, image).Some?
    ensures var m := FindRef(s, from, image).value;
            Scan(s, from, image).0 == [s[from..m.start]] + Scan(s, m.end, image).0
  {
  }

  /** The piece before the leftmost match holds no match of either pass. */
  lemma {:induction false} HeadNoRef(s: string, from: nat, image: bool, other: bool)
    requires from <= |s| && FindRef(s, from, image).Some?
    requires from > 0 ==> s[from - 1] == ')'
    requires other != image ==> FindRef(s, from, other).None?
    ensures FindRef(s[from..FindRef(s, from, image).value.start], 0, other).None?
  {
    var m := FindRef(s, from, image).value;
    SliceNoRef(s, from, m.start, other);
  }

  /** A match ends with `)`. */
  lemma {:induction false} EndsWithParen(s: string, i: nat, image: bool, m: Ref)
    requires RefAt(s, i, image) == Some(m)
    ensures i < m.end <= |s| && s[m.end - 1] == ')'
  {
    RefAtMarkup(s, i, image);
    MarkupEnds(image, m.anchor, m.url);
    assert s[m.end - 1] == s[i..m.end][m.end - 1 - i];
  }

  lemma {:induction false} MarkupEnds(image: bool, anchor: string, url: string)
    ensures var t := RefMarkup(image, anchor, url); |t| > 0 && t[|t| - 1] == ')'
  {
  }

  /** No match from a position means none from any later one. */
  lemma {:induction false} NoRefLater(s: string, from: nat, to: nat, image: bool)
    requires from <= to <= |s| && FindRef(s, from, image).None?
    ensures FindRef(s, to, image).None?
  {
    if FindRef(s, to, image).Some? {
      assert false;
    }
  }

  lemma {:induction false} RefNodesRefFree(ps: seq<string>, rs: seq<Ref>, image: bool, other: bool)
    requires |ps| == |rs| + 1
    requires PiecesFree(ps, other)
    ensures RefFree(RefNodes(ps, rs, image), other)
    decreases |rs|
  {
    var head := if ps[0] == "" then [] else [Plain(ps[0])];
    if rs == [] {
      assert RefNodes(ps, rs, image) == head + [];
    } else {
      var m := TextNode(rs[0].anchor, KindOf(image), Some(rs[0].url));
      var tail := RefNodes(ps[1..], rs[1..], image);
      RefNodesRefFree(ps[1..], rs[1..], image, other);
      var r := head + ([m] + tail);
      assert RefNodes(ps, rs, image) == r;
      forall i | 0 <= i < |r| && r[i].kind == Text ensures FindRef(r[i].text, 0, other).None? {
        if i >= |head| + 1 {
          assert r[i] == tail[i - |head| - 1];
        }
      }
    }
  }

  /** After a segment goes through the pass, no plain segment holds a match
      of it, and a plain text that held no match of the other pass still
      holds none. */
  lemma {:induction false} SplitNodeRefsRefFree(n: TextNode, image: bool, other: bool)
    requires other != image ==> RefFree([n], other)
    ensures RefFree(SplitNodeRefs(n, image), other)
  {
    assert [n][0] == n;
    if n.kind == Text {
      var sc := Scan(n.text, 0, image);
      if sc.1 == [] {
        assert FindRef(n.text, 0, image).None?;
      } else {
        ScanPiecesNoRef(n.text, 0, image, other);
        RefNodesRefFree(sc.0, sc.1, image, other);
      }
    }
  }

  /** The pass leaves no match of its own in plain text, and creates none
      of the other pass. */
  lemma {:induction false} SplitRefsRefFree(ns: seq<TextNode>, image: bool, other: bool)
    requires other != image ==> RefFree(ns, other)
    ensures RefFree(SplitRefs(ns, image), other)
    decreases |ns|
  {
    if ns != [] {
      assert ns == [ns[0]] + ns[1..];
      assert forall i :: 0 <= i < |ns| - 1 ==> ns[1..][i] == ns[i + 1];
      SplitNodeRefsRefFree(ns[0], image, other);
      SplitRefsRefFree(ns[1..], image, other);
      var h: seq<TextNode> := SplitNodeRefs(ns[0], image);
      var t: seq<TextNode> := SplitRefs(ns[1..], image);
      var r: seq<TextNode> := h + t;
      forall i | 0 <= i < |r| && r[i].kind == Text ensures FindRef(r[i].text, 0, other).None? {
        if i < |h| {
          assert r[i] == h[i];
        } else {
          assert r[i] == t[i - |h|];
        }
      }
    }
  }
}
