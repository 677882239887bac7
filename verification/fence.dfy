/** The code-fence split of `code_block_to_html`: the pieces of a block
    between matches of the pattern `\n?```\n?` (an optional line feed,
    three backticks, an optional line feed), found leftmost first. */
module Fences {
  import opened Wrappers

  /** Three backticks at `i`. */
  predicate Ticks(s: string, i: nat) {
    i + 3 <= |s| && s[i] == '`' && s[i + 1] == '`' && s[i + 2] == '`'
  }

  /** Position `i`, moved past one line feed if there is one there. */
  function SkipNewline(s: string, i: nat): (j: nat)
    requires i <= |s|
    ensures i <= j <= |s| && j <= i + 1
  {
    if i < |s| && s[i] == '\n' then i + 1 else i
  }

  /** The end of a match of the pattern starting at `p`, if one starts
      there: with its leading line feed when the backticks follow one, and
      with the line feed after the backticks when there is one. */
  function FenceAt(s: string, p: nat): (r: Option<nat>)
    ensures r.Some? ==> p + 3 <= r.value <= |s|
    ensures r.Some? <==> Ticks(s, p) || (p < |s| && s[p] == '\n' && Ticks(s, p + 1))
  {
    if p < |s| && s[p] == '\n' && Ticks(s, p + 1) then Some(SkipNewline(s, p + 4))
    else if Ticks(s, p) then Some(SkipNewline(s, p + 3))
    else None
  }

  /** A match: where it starts and where it ends. */
  datatype Fence = Fence(start: nat, end: nat)

  /** The leftmost match at or after `from`. */
  function FindFence(s: string, from: nat): (r: Option<Fence>)
    requires from <= |s|
    ensures r.Some? ==> from <= r.value.start && FenceAt(s, r.value.start) == Some(r.value.end)
    ensures r.Some? ==> forall p: nat :: from <= p < r.value.start ==> FenceAt(s, p).None?
    ensures r.None? <==> forall p: nat :: from <= p ==> FenceAt(s, p).None?
    decreases |s| - from
  {
    match FenceAt(s, from)
    case Some(e) => Some(Fence(from, e))
    case None =>
      if from == |s| then
        assert forall p: nat :: from <= p ==> FenceAt(s, p).None?;
        None
      else FindFence(s, from + 1)
  }

  /** `re.split(r"\n?```\n?", text)[1]`: the text between the first match
      and the next one, or the end. No match leaves one piece, and no
      second piece to take. */
  function FencedText(s: string): (r: Option<string>)
    ensures r.None? <==> forall p: nat :: FenceAt(s, p).None?
  {
    match FindFence(s, 0)
    case None => None
    case Some(f) =>
      match FindFence(s, f.end)
      case None => Some(s[f.end..])
      case Some(g) => Some(s[f.end..g.start])
  }

  /** The leftmost match is the first position where one starts. */
  lemma {:induction false} FindFenceAt(s: string, from: nat, p: nat)
    requires from <= p <= |s| && FenceAt(s, p).Some?
    requires forall q: nat :: from <= q < p ==> FenceAt(s, q).None?
    ensures FindFence(s, from) == Some(Fence(p, FenceAt(s, p).value))
    decreases p - from
  {
    if from < p {
      FindFenceAt(s, from + 1, p);
    }
  }

  /** Text holding three backticks nowhere. */
  predicate NoTicks(t: string) {
    forall i: nat :: i < |t| ==> !Ticks(t, i)
  }

  /** A block made of a fence, a line feed, the body, a line feed and a
      fence gives back the body. */
  lemma {:induction false} FencedBody(body: string)
    requires NoTicks(body)
    ensures FencedText("```\n" + body + "\n```") == Some(body)
  {
    var s := "```\n" + body + "\n```";
    var n := 4 + |body|;
    assert s[3] == '\n';
    assert FenceAt(s, 0) == Some(4);
    FindFenceAt(s, 0, 0);
    forall q: nat | 4 <= q < n ensures FenceAt(s, q).None? {
      BodyNoTicks(body, q);
    }
    assert s[n] == '\n' && s[n + 1..] == "```";
    assert FenceAt(s, n).Some?;
    FindFenceAt(s, 4, n);
    assert s[4..n] == body;
  }

  lemma {:induction false} BodyNoTicks(body: string, q: nat)
    requires NoTicks(body) && 4 <= q < 4 + |body|
    ensures !Ticks("```\n" + body + "\n```", q)
    ensures !Ticks("```\n" + body + "\n```", q + 1)
  {
    var s := "```\n" + body + "\n```";
    var n := 4 + |body|;
    assert s[n] == '\n';
    assert forall k :: 4 <= k < n ==> s[k] == body[k - 4];
    assert !Ticks(body, q - 4);
    if q + 1 < n {
      assert !Ticks(body, q - 3);
    }
  }

  /** Text that starts no three backticks before a closing fence put after
      it. */
  predicate Unfenced(x: string) {
    forall q: nat :: q < |x| ==> !Ticks(x + "```", q)
  }

  /** `x` without one leading line feed and then one trailing line feed:
      what the optional line feeds of the pattern take away. */
  function TrimNewlines(x: string): (r: string)
    ensures |r| <= |x|
  {
    var y := if x != [] && x[0] == '\n' then x[1..] else x;
    if y != [] && y[|y| - 1] == '\n' then y[..|y| - 1] else y
  }

  /** Any text between an opening fence and a closing fence comes back with
      the line feed after the opening backticks and the one before the
      closing backticks taken off, and with anything else kept: an info
      string after the opening backticks stays part of the code. */
  lemma {:induction false} FencedAround(x: string)
    requires Unfenced(x)
    ensures FencedText("```" + x + "```") == Some(TrimNewlines(x))
  {
    var s := "```" + x + "```";
    var n := 3 + |x|;
    var e := SkipNewline(s, 3);
    assert s[0] == '`' && s[1] == '`' && s[2] == '`';
    assert FenceAt(s, 0) == Some(e);
    FindFenceAt(s, 0, 0);
    var g := if |x| > 0 && x[|x| - 1] == '\n' && n - 1 >= e then n - 1 else n;
    assert s[n] == '`' && s[n + 1] == '`' && s[n + 2] == '`';
    assert x != [] ==> s[n - 1] == x[|x| - 1];
    assert FenceAt(s, g).Some?;
    forall q: nat | e <= q < g ensures FenceAt(s, q).None? {
      InsideFences(x, q);
      if q + 1 < n {
        InsideFences(x, q + 1);
      }
    }
    FindFenceAt(s, e, g);
    TrimmedSlice(x, e, g);
  }

  /** The slice between the fences' matches is the trimmed text. */
  lemma {:induction false} TrimmedSlice(x: string, e: nat, g: nat)
    requires e == SkipNewline("```" + x + "```", 3)
    requires g == if |x| > 0 && x[|x| - 1] == '\n' && 3 + |x| - 1 >= e then 3 + |x| - 1 else 3 + |x|
    ensures e <= g && ("```" + x + "```")[e..g] == TrimNewlines(x)
  {
    var s, n := "```" + x + "```", 3 + |x|;
    assert s[3..n] == x;
    var y := if x != [] && x[0] == '\n' then x[1..] else x;
    assert x != [] ==> s[3] == x[0];
    assert s[e..n] == y;
    if y != [] && y[|y| - 1] == '\n' {
      assert g == n - 1;
      assert s[e..g] == y[..|y| - 1];
    } else {
      assert g == n;
    }
  }

  /** Inside the fences the backticks are those of `x` and the closing
      fence. */
  lemma {:induction false} InsideFences(x: string, q: nat)
    requires Unfenced(x) && 3 <= q < 3 + |x|
    ensures !Ticks("```" + x + "```", q)
  {
    var s, t := "```" + x + "```", x + "```";
    assert !Ticks(t, q - 3);
    assert forall k :: 0 <= k < |t| ==> s[k + 3] == t[k];
  }

  /** A lone fence gives an empty piece: its backticks are the first match
      and nothing follows them. */
  lemma {:induction false} FencedLone()
    ensures FencedText("```") == Some("")
  {
    var s := "```";
    assert FenceAt(s, 0) == Some(3);
    FindFenceAt(s, 0, 0);
    assert FenceAt(s, 3).None?;
    assert FindFence(s, 3).None?;
    assert s[3..] == "";
  }

  /** A block that starts with three backticks always has a first match. */
  lemma {:induction false} FencedStart(s: string)
    requires Ticks(s, 0)
    ensures FencedText(s).Some?
  {
    assert FenceAt(s, 0).Some?;
  }
}
