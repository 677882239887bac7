/** The delimiter pass of the inline lexer (`split_node_delimiter`): every
    plain segment holding a delimiter pair is cut into the text before it,
    a segment of the new kind between the two delimiters, and the text
    after it. */
module Delimiters {
  import opened Wrappers
  import opened Strings
  import opened TextNodes
  import opened Errors

  /** The segments of `ns` with non-empty text, in order. */
  function DropEmpty(ns: seq<TextNode>): (r: seq<TextNode>)
    ensures |r| <= |ns|
    ensures forall i :: 0 <= i < |r| ==> r[i].text != ""
    ensures forall n :: n in r <==> n in ns && n.text != ""
    ensures (forall i :: 0 <= i < |ns| ==> ns[i].text != "") ==> r == ns
  {
    if ns == [] then []
    else (if ns[0].text == "" then [] else [ns[0]]) + DropEmpty(ns[1..])
  }

  /** Dropping works segment by segment, so the kept segments stay in
      their order: a one-segment list loses its segment exactly when it is
      empty, and a concatenation is dropped piecewise. */
  lemma {:induction false} DropEmptyAppend(xs: seq<TextNode>, ys: seq<TextNode>)
    ensures DropEmpty(xs + ys) == DropEmpty(xs) + DropEmpty(ys)
    ensures |xs| == 1 ==> DropEmpty(xs) == if xs[0].text == "" then [] else xs
    decreases |xs|
  {
    if xs == [] {
      assert xs + ys == ys;
    } else {
      var zs := xs + ys;
      assert zs[0] == xs[0];
      assert zs[1..] == xs[1..] + ys;
      DropEmptyAppend(xs[1..], ys);
      var head := if xs[0].text == "" then [] else [xs[0]];
      assert DropEmpty(zs) == head + DropEmpty(xs[1..] + ys);
      assert DropEmpty(xs) == head + DropEmpty(xs[1..]);
      SeqAssoc(head, DropEmpty(xs[1..]), DropEmpty(ys));
      if |xs| == 1 {
        assert xs[1..] == [];
        assert xs == [xs[0]];
      }
    }
  }

  /** One segment through the delimiter pass. A segment that is not plain
      text, or does not contain `d`, is kept as it is; a plain segment with
      exactly two occurrences is cut in three, empty pieces dropped; any
      other number of occurrences is an unclosed delimiter, reported with
      the text after the first occurrence, up to the second if there is
      one. */
  function SplitNodeDelimiter(n: TextNode, d: string, k: TextKind): (r: Result<seq<TextNode>, Error>)
    requires |d| > 0
    ensures n.kind != Text ==> r == Ok([n])
    ensures n.kind == Text && !Contains(n.text, d) ==> r == Ok([n])
    ensures r.Err? <==> n.kind == Text && Count(n.text, d) != 0 && Count(n.text, d) != 2
    ensures r.Err? ==> r.error.UnclosedDelimiter? && r.error.delimiter == d
    ensures r.Ok? && n.kind == Text && Contains(n.text, d) ==>
              forall i :: 0 <= i < |r.value| ==>
                && r.value[i].text != ""
                && r.value[i].url == None
                && (r.value[i].kind == Text || r.value[i].kind == k)
  {
    if n.kind != Text then Ok([n])
    else
      var sections := Split(n.text, d);
      if |sections| == 1 then Ok([n])
      else if |sections| != 3 then Err(UnclosedDelimiter(d, sections[1]))
      else
        var three := [Plain(sections[0]), TextNode(sections[1], k, None), Plain(sections[2])];
        var r := DropEmpty(three);
        assert forall i :: 0 <= i < |r| ==> r[i] in three;
        Ok(r)
  }

  /** `split_node_delimiter` over a list: segments in order, the first
      failing segment decides the error. */
  function SplitDelimiter(ns: seq<TextNode>, d: string, k: TextKind): (r: Result<seq<TextNode>, Error>)
    requires |d| > 0
    ensures (forall i :: 0 <= i < |ns| ==> ns[i].kind != Text) ==> r == Ok(ns)
    ensures r.Err? ==> r.error.UnclosedDelimiter? && r.error.delimiter == d
    decreases |ns|
  {
    if ns == [] then Ok([])
    else
      var head :- SplitNodeDelimiter(ns[0], d, k);
      var tail :- SplitDelimiter(ns[1..], d, k);
      assert (forall i :: 0 <= i < |ns| ==> ns[i].kind != Text) ==> [ns[0]] + ns[1..] == ns;
      Ok(head + tail)
  }

  /** The list pass succeeds exactly when every segment does. */
  lemma {:induction false} SplitDelimiterOk(ns: seq<TextNode>, d: string, k: TextKind)
    requires |d| > 0
    ensures SplitDelimiter(ns, d, k).Ok? <==> forall i :: 0 <= i < |ns| ==> SplitNodeDelimiter(ns[i], d, k).Ok?
    decreases |ns|
  {
    if ns != [] {
      SplitDelimiterOk(ns[1..], d, k);
      var h := SplitNodeDelimiter(ns[0], d, k);
      var t := SplitDelimiter(ns[1..], d, k);
      SplitDelimiterStep(ns, h, t, d, k);
      assert forall i :: 1 <= i < |ns| ==> ns[i] == ns[1..][i - 1];
      if h.Ok? && t.Err? {
        var j :| 0 <= j < |ns| - 1 && SplitNodeDelimiter(ns[1..][j], d, k).Err?;
        assert ns[j + 1] == ns[1..][j];
      }
    }
  }

  /** Some plain segment holds `d` a number of times other than zero or
      two. */
  predicate Unbalanced(ns: seq<TextNode>, d: string)
    requires |d| > 0
  {
    exists i :: 0 <= i < |ns| && ns[i].kind == Text && Count(ns[i].text, d) != 0 && Count(ns[i].text, d) != 2
  }

  /** A pass fails exactly when some plain segment holds its delimiter
      neither zero nor two times. */
  lemma {:induction false} SplitDelimiterErr(ns: seq<TextNode>, d: string, k: TextKind)
    requires |d| > 0
    ensures SplitDelimiter(ns, d, k).Err? <==> Unbalanced(ns, d)
  {
    SplitDelimiterOk(ns, d, k);
    if Unbalanced(ns, d) {
      var i :| 0 <= i < |ns| && ns[i].kind == Text && Count(ns[i].text, d) != 0 && Count(ns[i].text, d) != 2;
      assert SplitNodeDelimiter(ns[i], d, k).Err?;
    }
  }

  /** After a successful segment pass, no plain text holds the delimiter. */
  lemma {:induction false} SplitNodeDelimiterConsumes(n: TextNode, d: string, k: TextKind)
    requires |d| > 0 && SplitNodeDelimiter(n, d, k).Ok?
    ensures PlainFree(SplitNodeDelimiter(n, d, k).value, d)
  {
    var r := SplitNodeDelimiter(n, d, k).value;
    if n.kind == Text && Contains(n.text, d) {
      var sections := Split(n.text, d);
      var three := [Plain(sections[0]), TextNode(sections[1], k, None), Plain(sections[2])];
      SplitFree(n.text, d);
      assert forall i :: 0 <= i < |r| ==> r[i] in three;
    } else {
      assert r == [n];
    }
  }

  /** After a successful list pass, no plain text holds the delimiter. */
  lemma {:induction false} SplitDelimiterConsumes(ns: seq<TextNode>, d: string, k: TextKind)
    requires |d| > 0 && SplitDelimiter(ns, d, k).Ok?
    ensures PlainFree(SplitDelimiter(ns, d, k).value, d)
    decreases |ns|
  {
    if ns != [] {
      SplitNodeDelimiterConsumes(ns[0], d, k);
      SplitDelimiterConsumes(ns[1..], d, k);
      PlainFreeAppend(SplitNodeDelimiter(ns[0], d, k).value, SplitDelimiter(ns[1..], d, k).value, d);
    }
  }

  /** A list of one segment gives what that segment gives. */
  lemma {:induction false} SplitDelimiterOne(n: TextNode, d: string, k: TextKind)
    requires |d| > 0
    ensures SplitDelimiter([n], d, k) == SplitNodeDelimiter(n, d, k)
  {
    assert [n][1..] == [];
    if SplitNodeDelimiter(n, d, k).Ok? {
      assert SplitNodeDelimiter(n, d, k).value + [] == SplitNodeDelimiter(n, d, k).value;
    }
  }

  /** The list pass is the segment pass applied to each segment and the
      results concatenated: a concatenation is split piecewise, and the
      error of the left part comes first. */
  lemma {:induction false} SplitDelimiterAppend(xs: seq<TextNode>, ys: seq<TextNode>, d: string, k: TextKind)
    requires |d| > 0
    ensures SplitDelimiter(xs + ys, d, k).Ok?
            <==> SplitDelimiter(xs, d, k).Ok? && SplitDelimiter(ys, d, k).Ok?
    ensures SplitDelimiter(xs + ys, d, k).Ok? ==>
              SplitDelimiter(xs + ys, d, k).value
              == SplitDelimiter(xs, d, k).value + SplitDelimiter(ys, d, k).value
    ensures SplitDelimiter(xs, d, k).Err? ==> SplitDelimiter(xs + ys, d, k) == SplitDelimiter(xs, d, k)
    ensures SplitDelimiter(xs, d, k).Ok? && SplitDelimiter(ys, d, k).Err? ==>
              SplitDelimiter(xs + ys, d, k) == SplitDelimiter(ys, d, k)
    decreases |xs|
  {
    if xs == [] {
      assert xs + ys == ys;
    } else {
      var zs := xs + ys;
      assert zs[0] == xs[0];
      assert zs[1..] == xs[1..] + ys;
      SplitDelimiterAppend(xs[1..], ys, d, k);
      var h := SplitNodeDelimiter(xs[0], d, k);
      var t := SplitDelimiter(xs[1..], d, k);
      var b := SplitDelimiter(ys, d, k);
      var tb := SplitDelimiter(xs[1..] + ys, d, k);
      SplitDelimiterStep(zs, h, tb, d, k);
      SplitDelimiterStep(xs, h, t, d, k);
      if h.Err? {
        assert SplitDelimiter(zs, d, k) == SplitDelimiter(xs, d, k);
      } else if t.Err? {
        assert tb == t;
        assert SplitDelimiter(zs, d, k) == SplitDelimiter(xs, d, k);
      } else if b.Err? {
        assert tb == b;
        assert SplitDelimiter(zs, d, k) == b;
      } else {
        var hv, tv, bv := h.value, t.value, b.value;
        assert tb.value == tv + bv;
        assert SplitDelimiter(xs, d, k).value == hv + tv;
        assert SplitDelimiter(zs, d, k).value == hv + (tv + bv);
        SeqAssoc(hv, tv, bv);
      }
    }
  }

  /** One step of the list pass, with the results of its two parts named. */
  lemma {:induction false} SplitDelimiterStep(ns: seq<TextNode>, h: Result<seq<TextNode>, Error>, t: Result<seq<TextNode>, Error>, d: string, k: TextKind)
    requires |d| > 0 && ns != []
    requires h == SplitNodeDelimiter(ns[0], d, k) && t == SplitDelimiter(ns[1..], d, k)
    ensures h.Err? ==> SplitDelimiter(ns, d, k) == Err(h.error)
    ensures h.Ok? && t.Err? ==> SplitDelimiter(ns, d, k) == Err(t.error)
    ensures h.Ok? && t.Ok? ==> SplitDelimiter(ns, d, k) == Ok(h.value + t.value)
  {
  }

  /** A span: `a`, `d`, `b`, `d`, `c`, where the two occurrences shown are
      the leftmost ones and `c` holds no further `d`, splits into the plain
      text `a`, the new-kind segment `b` and the plain text `c`, with empty
      pieces left out. */
  lemma {:induction false} SplitNodeDelimiterPair(a: string, b: string, c: string, d: string, k: TextKind)
    requires |d| > 0
    requires FindFrom(a + d + b + d + c, d, 0) == Some(|a|)
    requires FindFrom(b + d + c, d, 0) == Some(|b|)
    requires !Contains(c, d)
    ensures SplitNodeDelimiter(Plain(a + d + b + d + c), d, k)
            == Ok(DropEmpty([Plain(a), TextNode(b, k, None), Plain(c)]))
  {
    SplitSpan(a, b, c, d);
    SplitAbsent(c, d);
    SectionsOfThree(Plain(a + d + b + d + c), d, k, [a, b, c]);
  }

  /** A string cut at its two leftmost occurrences of `d`. */
  lemma {:induction false} SplitSpan(a: string, b: string, c: string, d: string)
    requires |d| > 0
    requires FindFrom(a + d + b + d + c, d, 0) == Some(|a|)
    requires FindFrom(b + d + c, d, 0) == Some(|b|)
    ensures Split(a + d + b + d + c, d) == [a, b] + Split(c, d)
  {
    var rest := b + d + c;
    SeqAssoc(a + d + b, d, c);
    SeqAssoc(a + d, b, d + c);
    SeqAssoc(b, d, c);
    SplitLeft(a, d, rest);
    SplitLeft(b, d, c);
  }

  lemma {:induction false} SectionsOfThree(n: TextNode, d: string, k: TextKind, sections: seq<string>)
    requires |d| > 0 && n.kind == Text && Split(n.text, d) == sections && |sections| == 3
    ensures SplitNodeDelimiter(n, d, k)
            == Ok(DropEmpty([Plain(sections[0]), TextNode(sections[1], k, None), Plain(sections[2])]))
  {
  }

  lemma {:induction false} SectionsOfMore(n: TextNode, d: string, k: TextKind, sections: seq<string>)
    requires |d| > 0 && n.kind == Text && Split(n.text, d) == sections && |sections| >= 2 && |sections| != 3
    ensures SplitNodeDelimiter(n, d, k) == Err(UnclosedDelimiter(d, sections[1]))
  {
  }

  /** The same, when `a` and `b` do not hold the first character of `d`. */
  lemma {:induction false} SplitNodeDelimiterPairPlain(a: string, b: string, c: string, d: string, k: TextKind)
    requires |d| > 0
    requires d[0] !in a && d[0] !in b && !Contains(c, d)
    ensures SplitNodeDelimiter(Plain(a + d + b + d + c), d, k)
            == Ok(DropEmpty([Plain(a), TextNode(b, k, None), Plain(c)]))
  {
    assert a + d + b + d + c == a + d + (b + d + c);
    LeadingFirst(a, d, b + d + c);
    LeadingFirst(b, d, c);
    SplitNodeDelimiterPair(a, b, c, d, k);
  }

  /** A single delimiter: the error carries the delimiter and the text after it. */
  lemma {:induction false} SplitNodeDelimiterUnclosed(a: string, b: string, d: string, k: TextKind)
    requires |d| > 0
    requires FindFrom(a + d + b, d, 0) == Some(|a|) && !Contains(b, d)
    ensures SplitNodeDelimiter(Plain(a + d + b), d, k) == Err(UnclosedDelimiter(d, b))
  {
    SplitLeft(a, d, b);
    SplitAbsent(b, d);
    SectionsOfMore(Plain(a + d + b), d, k, [a, b]);
  }

  /** Three or more delimiters: the error carries the delimiter and the
      text between the first two. */
  lemma {:induction false} SplitNodeDelimiterMany(a: string, b: string, c: string, d: string, k: TextKind)
    requires |d| > 0
    requires FindFrom(a + d + b + d + c, d, 0) == Some(|a|)
    requires FindFrom(b + d + c, d, 0) == Some(|b|)
    requires Contains(c, d)
    ensures SplitNodeDelimiter(Plain(a + d + b + d + c), d, k) == Err(UnclosedDelimiter(d, b))
  {
    SplitSpan(a, b, c, d);
    var sections := [a, b] + Split(c, d);
    SplitFirstCut(c, d);
    SectionsOfMore(Plain(a + d + b + d + c), d, k, sections);
  }

  /** The single-delimiter case when `a` does not hold the first character
      of `d`. */
  lemma {:induction false} SplitNodeDelimiterUnclosedPlain(a: string, b: string, d: string, k: TextKind)
    requires |d| > 0
    requires d[0] !in a && !Contains(b, d)
    ensures SplitNodeDelimiter(Plain(a + d + b), d, k) == Err(UnclosedDelimiter(d, b))
  {
    LeadingFirst(a, d, b);
    SplitNodeDelimiterUnclosed(a, b, d, k);
  }

  /** A delimiter with the kind the Markdown source marks with it. */
  predicate DelimiterOf(d: string, k: TextKind) {
    || (d == "**" && k == Bold)
    || (d == "_" && k == Italic)
    || (d == "`" && k == Code)
  }

  lemma {:induction false} DelimiterMarkup(d: string, k: TextKind, t: string)
    requires DelimiterOf(d, k)
    ensures Markup(TextNode(t, k, None)) == d + t + d
  {
  }

  /** Dropping empty plain pieces does not change the source text. */
  lemma {:induction false} UnlexDropEmpty(ns: seq<TextNode>)
    requires forall i :: 0 <= i < |ns| ==> ns[i].text == "" ==> ns[i].kind == Text
    ensures Unlex(DropEmpty(ns)) == Unlex(ns)
    decreases |ns|
  {
    if ns != [] {
      var tail := ns[1..];
      assert forall i :: 0 <= i < |tail| ==> tail[i] == ns[i + 1];
      UnlexDropEmpty(tail);
      assert Unlex(ns) == Markup(ns[0]) + Unlex(tail);
      if ns[0].text != "" {
        assert DropEmpty(ns) == [ns[0]] + DropEmpty(tail);
        UnlexAppend([ns[0]], DropEmpty(tail));
        assert [ns[0]][1..] == [];
        assert Unlex([ns[0]]) == Markup(ns[0]) + "" == Markup(ns[0]);
      } else {
        assert DropEmpty(ns) == [] + DropEmpty(tail) == DropEmpty(tail);
        assert Markup(ns[0]) == "";
      }
    }
  }

  lemma {:induction false} UnlexThree(a: string, m: TextNode, c: string)
    ensures Unlex([Plain(a), m, Plain(c)]) == a + (Markup(m) + (c + ""))
  {
    var ns := [Plain(a), m, Plain(c)];
    assert ns[1..] == [m, Plain(c)];
    assert ns[1..][1..] == [Plain(c)];
    assert ns[1..][1..][1..] == [];
    assert Unlex([Plain(c)]) == c + "";
    assert Unlex([m, Plain(c)]) == Markup(m) + (c + "");
  }

  lemma {:induction false} Regroup(a: string, d: string, b: string, c: string)
    ensures a + ((d + b + d) + (c + "")) == a + d + b + d + c
  {
  }

  /** The three pieces of a split span stand for the span. */
  lemma {:induction false} UnlexSpan(a: string, b: string, c: string, d: string, k: TextKind)
    requires DelimiterOf(d, k) && b != ""
    ensures Unlex(DropEmpty([Plain(a), TextNode(b, k, None), Plain(c)])) == a + d + b + d + c
  {
    var m := TextNode(b, k, None);
    UnlexThree(a, m, c);
    DelimiterMarkup(d, k, b);
    Regroup(a, d, b, c);
    UnlexDropEmpty([Plain(a), m, Plain(c)]);
  }

  lemma {:induction false} JoinThree(d: string, xs: seq<string>)
    requires |xs| == 3
    ensures Join(d, xs) == xs[0] + d + xs[1] + d + xs[2]
  {
    var ys := xs[1..];
    assert ys[1..] == [xs[2]];
    assert Join(d, ys) == xs[1] + d + xs[2];
    assert Join(d, xs) == xs[0] + d + Join(d, ys);
    assert xs[0] + d + (xs[1] + d + xs[2]) == xs[0] + d + xs[1] + d + xs[2];
  }

  /** A string built around an empty span `d d` contains `d d`. */
  lemma {:induction false} EmptySpan(a: string, c: string, d: string)
    requires |d| > 0
    ensures Contains(a + d + d + c, d + d)
  {
    var s := a + d + d + c;
    assert s[|a|..|a| + |d + d|] == d + d;
    assert OccursAt(s, d + d, |a|);
  }

  /** A text with exactly two occurrences of `d` and no `d d` has a
      non-empty span between them. */
  lemma {:induction false} SpanNonEmpty(s: string, d: string)
    requires |d| > 0 && |Split(s, d)| == 3 && !Contains(s, d + d)
    ensures Split(s, d)[1] != ""
    ensures s == Split(s, d)[0] + d + Split(s, d)[1] + d + Split(s, d)[2]
  {
    var sections := Split(s, d);
    var a, b, c := sections[0], sections[1], sections[2];
    JoinThree(d, sections);
    if b == "" {
      assert s == a + d + d + c;
      EmptySpan(a, c, d);
      assert false;
    }
  }

  /** The pass loses nothing: a successfully split segment stands for the
      same source text, provided it holds no empty span `d d`. */
  lemma {:induction false} SplitNodeDelimiterUnlex(n: TextNode, d: string, k: TextKind)
    requires DelimiterOf(d, k)
    requires SplitNodeDelimiter(n, d, k).Ok?
    requires n.kind == Text ==> !Contains(n.text, d + d)
    ensures Unlex(SplitNodeDelimiter(n, d, k).value) == Markup(n)
  {
    assert [n][1..] == [];
    if n.kind == Text && Contains(n.text, d) {
      var sections := Split(n.text, d);
      SpanNonEmpty(n.text, d);
      UnlexSpan(sections[0], sections[1], sections[2], d, k);
    }
  }

  lemma {:induction false} SplitDelimiterUnlex(ns: seq<TextNode>, d: string, k: TextKind)
    requires DelimiterOf(d, k)
    requires SplitDelimiter(ns, d, k).Ok?
    requires PlainFree(ns, d + d)
    ensures Unlex(SplitDelimiter(ns, d, k).value) == Unlex(ns)
    decreases |ns|
  {
    if ns != [] {
      SplitNodeDelimiterUnlex(ns[0], d, k);
      assert PlainFree(ns[1..], d + d) by {
        forall i | 0 <= i < |ns| - 1 ensures ns[1..][i] == ns[i + 1] { }
      }
      SplitDelimiterUnlex(ns[1..], d, k);
      UnlexAppend(SplitNodeDelimiter(ns[0], d, k).value, SplitDelimiter(ns[1..], d, k).value);
    }
  }

  /** The pass keeps segments well-formed: the new segments carry no URL
      and have a kind without one. */
  lemma {:induction false} SplitNodeDelimiterWellFormed(n: TextNode, d: string, k: TextKind)
    requires |d| > 0 && !HasUrlKind(k) && WellFormed(n)
    requires SplitNodeDelimiter(n, d, k).Ok?
    ensures AllWellFormed(SplitNodeDelimiter(n, d, k).value)
  {
  }

  lemma {:induction false} SplitDelimiterWellFormed(ns: seq<TextNode>, d: string, k: TextKind)
    requires |d| > 0 && !HasUrlKind(k) && AllWellFormed(ns)
    requires SplitDelimiter(ns, d, k).Ok?
    ensures AllWellFormed(SplitDelimiter(ns, d, k).value)
    decreases |ns|
  {
    if ns != [] {
      assert ns == [ns[0]] + ns[1..];
      AllWellFormedAppend([ns[0]], ns[1..]);
      SplitNodeDelimiterWellFormed(ns[0], d, k);
      SplitDelimiterWellFormed(ns[1..], d, k);
      AllWellFormedAppend(SplitNodeDelimiter(ns[0], d, k).value, SplitDelimiter(ns[1..], d, k).value);
    }
  }

  /** The pass creates no plain text that was not in its input: a string
      absent from every plain segment stays absent. */
  lemma {:induction false} SplitNodeDelimiterPlainFree(n: TextNode, d: string, k: TextKind, x: string)
    requires |d| > 0 && |x| > 0 && k != Text && PlainFree([n], x)
    requires SplitNodeDelimiter(n, d, k).Ok?
    ensures PlainFree(SplitNodeDelimiter(n, d, k).value, x)
  {
    assert [n][0] == n;
    if n.kind == Text && Contains(n.text, d) {
      var sections := Split(n.text, d);
      SplitPiecesFree(n.text, d, x);
      var r := SplitNodeDelimiter(n, d, k).value;
      var three := [Plain(sections[0]), TextNode(sections[1], k, None), Plain(sections[2])];
      assert r == DropEmpty(three);
      forall i | 0 <= i < |r| && r[i].kind == Text ensures !Contains(r[i].text, x) {
        assert r[i] in three;
      }
    }
  }

  lemma {:induction false} SplitDelimiterPlainFree(ns: seq<TextNode>, d: string, k: TextKind, x: string)
    requires |d| > 0 && |x| > 0 && k != Text && PlainFree(ns, x)
    requires SplitDelimiter(ns, d, k).Ok?
    ensures PlainFree(SplitDelimiter(ns, d, k).value, x)
    decreases |ns|
  {
    if ns != [] {
      assert ns == [ns[0]] + ns[1..];
      PlainFreeAppend([ns[0]], ns[1..], x);
      SplitNodeDelimiterPlainFree(ns[0], d, k, x);
      SplitDelimiterPlainFree(ns[1..], d, k, x);
      PlainFreeAppend(SplitNodeDelimiter(ns[0], d, k).value, SplitDelimiter(ns[1..], d, k).value, x);
    }
  }

  /** Segments whose plain text holds no delimiter go through unchanged. */
  lemma {:induction false} SplitDelimiterNoOp(ns: seq<TextNode>, d: string, k: TextKind)
    requires |d| > 0 && PlainFree(ns, d)
    ensures SplitDelimiter(ns, d, k) == Ok(ns)
    decreases |ns|
  {
    if ns != [] {
      assert ns == [ns[0]] + ns[1..];
      PlainFreeAppend([ns[0]], ns[1..], d);
      assert [ns[0]][0] == ns[0];
      SplitDelimiterNoOp(ns[1..], d, k);
    }
  }
}
