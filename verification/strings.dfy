/** The Python `str` operations the Markdown core relies on, over `seq<char>`:
    `strip`, `startswith`/`endswith`, `find`, `split(sep)`, `sep.join`,
    `splitlines`, `split(maxsplit=1)`, `split(sep, maxsplit=1)`, `count`
    and `replace`.

    Whitespace is space, tab, line feed and carriage return; the line break
    is the line feed alone. */
module Strings {
  import opened Wrappers

  predicate IsSpace(c: char) {
    c == ' ' || c == '\t' || c == '\n' || c == '\r'
  }

  predicate AllSpace(s: string) {
    forall i :: 0 <= i < |s| ==> IsSpace(s[i])
  }

  predicate NoSpace(s: string) {
    forall i :: 0 <= i < |s| ==> !IsSpace(s[i])
  }

  /** Neither end of `s` is whitespace. */
  predicate Stripped(s: string) {
    s == [] || (!IsSpace(s[0]) && !IsSpace(s[|s| - 1]))
  }

  predicate StartsWith(s: string, p: string) {
    |p| <= |s| && s[..|p|] == p
  }

  predicate EndsWith(s: string, p: string) {
    |p| <= |s| && s[|s| - |p|..] == p
  }

  /** `n` copies of `c`. */
  function Repeat(c: char, n: nat): (r: string)
    ensures |r| == n
    ensures forall i :: 0 <= i < n ==> r[i] == c
  {
    if n == 0 then [] else [c] + Repeat(c, n - 1)
  }

  /** Python's `s.count(c)` for a one-character argument. */
  function CountChar(s: string, c: char): (n: nat)
    ensures n <= |s|
    ensures n == 0 <==> c !in s
    ensures n == |s| <==> forall i :: 0 <= i < |s| ==> s[i] == c
  {
    if s == [] then 0
    else (if s[0] == c then 1 else 0) + CountChar(s[1..], c)
  }

  /** A single character counts once exactly when it is the one asked for. */
  lemma {:induction false} CountCharOne(x: char, c: char)
    ensures CountChar([x], c) == if x == c then 1 else 0
  {
    assert [x][1..] == [];
  }

  /** Counting distributes over concatenation; with `CountCharOne` this pins
      the count down to the number of positions holding `c`. */
  lemma {:induction false} CountCharAppend(s: string, t: string, c: char)
    ensures CountChar(s + t, c) == CountChar(s, c) + CountChar(t, c)
    decreases |s|
  {
    if s == [] {
      assert s + t == t;
    } else {
      assert (s + t)[0] == s[0];
      assert (s + t)[1..] == s[1..] + t;
      CountCharAppend(s[1..], t, c);
    }
  }

  // ---------------------------------------------------------------------
  // Whitespace scanning and strip
  // ---------------------------------------------------------------------

  /** The first index at or after `i` that is not whitespace, or |s|. */
  function SkipSpace(s: string, i: nat): (j: nat)
    requires i <= |s|
    ensures i <= j <= |s|
    ensures forall k :: i <= k < j ==> IsSpace(s[k])
    ensures j == |s| || !IsSpace(s[j])
    decreases |s| - i
  {
    if i < |s| && IsSpace(s[i]) then SkipSpace(s, i + 1) else i
  }

  /** The first index at or after `i` that is whitespace, or |s|. */
  function SkipWord(s: string, i: nat): (j: nat)
    requires i <= |s|
    ensures i <= j <= |s|
    ensures forall k :: i <= k < j ==> !IsSpace(s[k])
    ensures j == |s| || IsSpace(s[j])
    decreases |s| - i
  {
    if i < |s| && !IsSpace(s[i]) then SkipWord(s, i + 1) else i
  }

  /** The least index `j <= i` such that `s[j..i]` is all whitespace. */
  function SkipSpaceBack(s: string, i: nat): (j: nat)
    requires i <= |s|
    ensures j <= i
    ensures forall k :: j <= k < i ==> IsSpace(s[k])
    ensures j == 0 || !IsSpace(s[j - 1])
  {
    if i > 0 && IsSpace(s[i - 1]) then SkipSpaceBack(s, i - 1) else i
  }

  /** Where `Strip(s)` begins in `s`. */
  function StripStart(s: string): (a: nat)
    ensures a <= |s|
    ensures AllSpace(s[..a])
    ensures a == |s| || !IsSpace(s[a])
  {
    SkipSpace(s, 0)
  }

  /** Where `Strip(s)` ends in `s`. */
  function StripEnd(s: string): (b: nat)
    ensures StripStart(s) <= b <= |s|
    ensures AllSpace(s[b..])
    ensures b == StripStart(s) ==> b == |s|
    ensures b > StripStart(s) ==> !IsSpace(s[b - 1])
  {
    var a := StripStart(s);
    if a == |s| then a else SkipSpaceBack(s, |s|)
  }

  /** Python's `s.strip()`: `s` without its leading and trailing whitespace. */
  function Strip(s: string): (r: string)
    ensures Stripped(r)
    ensures |r| <= |s|
    ensures r == [] <==> AllSpace(s)
  {
    s[StripStart(s)..StripEnd(s)]
  }

  /** Strip is determined by its contract: any slice of `s` with only
      whitespace around it and no whitespace at its ends is `Strip(s)`. */
  lemma {:induction false} StripUnique(s: string, a: nat, b: nat)
    requires a <= b <= |s|
    requires AllSpace(s[..a]) && AllSpace(s[b..])
    requires Stripped(s[a..b])
    ensures Strip(s) == s[a..b]
  {
    var a', b' := StripStart(s), StripEnd(s);
    if a == b {
      assert AllSpace(s) by {
        forall k | 0 <= k < |s| ensures IsSpace(s[k]) {
          if k < a { assert s[..a][k] == s[k]; } else { assert s[b..][k - b] == s[k]; }
        }
      }
    } else {
      assert !IsSpace(s[a]) && !IsSpace(s[b - 1]) by {
        assert s[a..b][0] == s[a];
        assert s[a..b][b - a - 1] == s[b - 1];
      }
      assert forall k :: 0 <= k < a ==> IsSpace(s[k]) by {
        forall k | 0 <= k < a ensures IsSpace(s[k]) { assert s[..a][k] == s[k]; }
      }
      assert forall k :: b <= k < |s| ==> IsSpace(s[k]) by {
        forall k | b <= k < |s| ensures IsSpace(s[k]) { assert s[b..][k - b] == s[k]; }
      }
      assert forall k :: 0 <= k < a' ==> IsSpace(s[k]) by {
        forall k | 0 <= k < a' ensures IsSpace(s[k]) { assert s[..a'][k] == s[k]; }
      }
      assert forall k :: b' <= k < |s| ==> IsSpace(s[k]) by {
        forall k | b' <= k < |s| ensures IsSpace(s[k]) { assert s[b'..][k - b'] == s[k]; }
      }
    }
  }

  /** Stripping a stripped text leaves it as it is. */
  lemma {:induction false} StripStripped(s: string)
    requires Stripped(s)
    ensures Strip(s) == s
  {
    assert s[..0] == [] && s[|s|..] == [] && s[0..|s|] == s;
    StripUnique(s, 0, |s|);
  }

  lemma {:induction false} StripIdempotent(s: string)
    ensures Strip(Strip(s)) == Strip(s)
  {
    var r := Strip(s);
    assert r[..0] == [] && r[|r|..] == [];
    assert r[0..|r|] == r;
    StripUnique(r, 0, |r|);
  }

  /** Whitespace in front of a string does not change its strip. */
  lemma {:induction false} StripSpacePrefix(ws: string, s: string)
    requires AllSpace(ws)
    ensures Strip(ws + s) == Strip(s)
  {
    var t := ws + s;
    var a, b := StripStart(s), StripEnd(s);
    assert t[..|ws| + a] == ws + s[..a];
    AllSpaceAppend(ws, s[..a]);
    assert t[|ws| + b..] == s[b..];
    assert t[|ws| + a..|ws| + b] == s[a..b];
    StripUnique(t, |ws| + a, |ws| + b);
  }

  lemma {:induction false} AllSpaceAppend(x: string, y: string)
    requires AllSpace(x) && AllSpace(y)
    ensures AllSpace(x + y)
  {
    forall k | 0 <= k < |x| + |y| ensures IsSpace((x + y)[k]) {
      if k < |x| { assert (x + y)[k] == x[k]; } else { assert (x + y)[k] == y[k - |x|]; }
    }
  }

  // ---------------------------------------------------------------------
  // Substring search
  // ---------------------------------------------------------------------

  predicate OccursAt(s: string, d: string, i: nat) {
    i + |d| <= |s| && s[i..i + |d|] == d
  }

  /** The leftmost occurrence of `d` in `s` at or after `from` (Python's
      `s.find(d, from)`, with `None` for -1). */
  function FindFrom(s: string, d: string, from: nat): (r: Option<nat>)
    requires |d| > 0 && from <= |s|
    ensures r.Some? ==> from <= r.value && OccursAt(s, d, r.value)
    ensures r.Some? ==> forall j: nat :: from <= j < r.value ==> !OccursAt(s, d, j)
    ensures r.None? ==> forall j: nat :: from <= j ==> !OccursAt(s, d, j)
    decreases |s| - from
  {
    if from + |d| > |s| then None
    else if OccursAt(s, d, from) then Some(from)
    else FindFrom(s, d, from + 1)
  }

  /** Python's `d in s`. */
  predicate Contains(s: string, d: string)
    requires |d| > 0
  {
    FindFrom(s, d, 0).Some?
  }

  /** The leftmost occurrence is the first index where `d` occurs. */
  lemma {:induction false} FindFirst(s: string, d: string, from: nat, i: nat)
    requires |d| > 0 && from <= i <= |s|
    requires OccursAt(s, d, i)
    requires forall j: nat :: from <= j < i ==> !OccursAt(s, d, j)
    ensures FindFrom(s, d, from) == Some(i)
  {
  }

  /** No occurrence starts where the first character of `d` does not appear. */
  lemma {:induction false} FirstCharAbsent(s: string, d: string, from: nat, i: nat)
    requires |d| > 0 && from <= i <= |s|
    requires forall k :: from <= k < i ==> s[k] != d[0]
    ensures forall j: nat :: from <= j < i ==> !OccursAt(s, d, j)
  {
    forall j: nat | from <= j < i ensures !OccursAt(s, d, j) {
      if j + |d| <= |s| {
        assert s[j..j + |d|][0] == s[j];
      }
    }
  }

  /** A slice in which no occurrence of `d` starts does not contain `d`. */
  lemma {:induction false} FreeSlice(s: string, d: string, a: nat, b: nat)
    requires |d| > 0 && a <= b <= |s|
    requires forall j: nat :: a <= j && j + |d| <= b ==> !OccursAt(s, d, j)
    ensures !Contains(s[a..b], d)
  {
    forall j: nat ensures !OccursAt(s[a..b], d, j) {
      if j + |d| <= b - a {
        assert !OccursAt(s, d, a + j);
        var window, whole := s[a..b][j..j + |d|], s[a + j..a + j + |d|];
        forall k | 0 <= k < |d| ensures window[k] == whole[k] {
          assert window[k] == s[a + j + k];
        }
        assert window == whole;
      }
    }
  }

  /** A slice of a string free of `d` is free of `d`. */
  lemma {:induction false} NotContainsSlice(s: string, a: nat, b: nat, d: string)
    requires |d| > 0 && a <= b <= |s|
    requires !Contains(s, d)
    ensures !Contains(s[a..b], d)
  {
    FreeSlice(s, d, a, b);
  }

  lemma {:induction false} ContainsChar(s: string, c: char)
    ensures Contains(s, [c]) <==> c in s
  {
    if c in s {
      var i :| 0 <= i < |s| && s[i] == c;
      assert OccursAt(s, [c], i);
    }
    if Contains(s, [c]) {
      var i := FindFrom(s, [c], 0).value;
      assert s[i..i + 1][0] == s[i];
    }
  }

  // ---------------------------------------------------------------------
  // Split and join
  // ---------------------------------------------------------------------

  /** Python's `sep.join(xs)`. */
  function Join(sep: string, xs: seq<string>): string
  {
    if |xs| == 0 then ""
    else if |xs| == 1 then xs[0]
    else xs[0] + sep + Join(sep, xs[1..])
  }

  lemma {:induction false} JoinCons(sep: string, x: string, xs: seq<string>)
    requires |xs| >= 1
    ensures Join(sep, [x] + xs) == x + sep + Join(sep, xs)
  {
    assert ([x] + xs)[1..] == xs;
  }

  /** Joining two non-empty lists: the joins of each, with one separator
      between them. */
  lemma {:induction false} JoinAppend(sep: string, xs: seq<string>, ys: seq<string>)
    requires |xs| >= 1 && |ys| >= 1
    ensures Join(sep, xs + ys) == Join(sep, xs) + sep + Join(sep, ys)
    decreases |xs|
  {
    if |xs| == 1 {
      assert xs + ys == [xs[0]] + ys;
      JoinCons(sep, xs[0], ys);
    } else {
      assert xs + ys == [xs[0]] + (xs[1..] + ys);
      JoinCons(sep, xs[0], xs[1..] + ys);
      JoinAppend(sep, xs[1..], ys);
      JoinCons(sep, xs[0], xs[1..]);
      assert [xs[0]] + xs[1..] == xs;
      SeqAssoc(xs[0] + sep, Join(sep, xs[1..]) + sep, Join(sep, ys));
      SeqAssoc(xs[0] + sep, Join(sep, xs[1..]), sep);
    }
  }

  lemma {:induction false} JoinSnoc(sep: string, xs: seq<string>, y: string)
    requires |xs| >= 1
    ensures Join(sep, xs + [y]) == Join(sep, xs) + sep + y
    decreases |xs|
  {
    if |xs| == 1 {
      assert xs + [y] == [xs[0]] + [y];
    } else {
      assert xs + [y] == [xs[0]] + (xs[1..] + [y]);
      JoinCons(sep, xs[0], xs[1..] + [y]);
      JoinSnoc(sep, xs[1..], y);
      JoinCons(sep, xs[0], xs[1..]);
      assert [xs[0]] + xs[1..] == xs;
    }
  }

  /** A suffix cut in three at two positions. */
  lemma {:induction false} SliceAround(s: string, a: nat, b: nat, c: nat)
    requires a <= b <= c <= |s|
    ensures s[a..] == s[a..b] + s[b..c] + s[c..]
  {
  }

  /** The number of leftmost, non-overlapping occurrences of `d` in `s`
      (Python's `s.count(d)`). */
  function Count(s: string, d: string): nat
    requires |d| > 0
    decreases |s|
  {
    match FindFrom(s, d, 0)
    case None => 0
    case Some(i) => 1 + Count(s[i + |d|..], d)
  }

  /** Python's `s.split(d)` for a non-empty separator: the pieces between
      the leftmost, non-overlapping occurrences of `d`. */
  function Split(s: string, d: string): (r: seq<string>)
    requires |d| > 0
    ensures |r| == Count(s, d) + 1
    ensures Join(d, r) == s
    decreases |s|
  {
    match FindFrom(s, d, 0)
    case None => [s]
    case Some(i) =>
      var rest := Split(s[i + |d|..], d);
      JoinCons(d, s[..i], rest);
      assert s == s[..i] + s[i..i + |d|] + s[i + |d|..];
      [s[..i]] + rest
  }

  /** No piece of a split holds the separator. */
  lemma {:induction false} SplitFree(s: string, d: string)
    requires |d| > 0
    ensures forall k :: 0 <= k < |Split(s, d)| ==> !Contains(Split(s, d)[k], d)
    decreases |s|
  {
    match FindFrom(s, d, 0)
    case None =>
    case Some(i) =>
      FreeSlice(s, d, 0, i);
      assert s[0..i] == s[..i];
      var rest := s[i + |d|..];
      SplitFree(rest, d);
      assert forall k :: 1 <= k < |Split(s, d)| ==> Split(s, d)[k] == Split(rest, d)[k - 1];
  }

  /** Every piece of a split is part of the string, so a string absent
      from the whole is absent from each piece. */
  lemma {:induction false} SplitPiecesFree(s: string, d: string, x: string)
    requires |d| > 0 && |x| > 0 && !Contains(s, x)
    ensures forall k :: 0 <= k < |Split(s, d)| ==> !Contains(Split(s, d)[k], x)
    decreases |s|
  {
    match FindFrom(s, d, 0)
    case None =>
    case Some(i) =>
      NotContainsSlice(s, 0, i, x);
      assert s[0..i] == s[..i];
      var rest := s[i + |d|..];
      NotContainsSlice(s, i + |d|, |s|, x);
      assert s[i + |d|..|s|] == rest;
      SplitPiecesFree(rest, d, x);
      assert forall k :: 1 <= k < |Split(s, d)| ==> Split(s, d)[k] == Split(rest, d)[k - 1];
  }

  /** A string without the first character of `d` does not contain `d`. */
  lemma {:induction false} FirstCharNotContained(s: string, d: string)
    requires |d| > 0 && d[0] !in s
    ensures !Contains(s, d)
  {
    FirstCharAbsent(s, d, 0, |s|);
  }

  /** Splitting a string without the separator gives the string. */
  lemma {:induction false} SplitAbsent(s: string, d: string)
    requires |d| > 0 && !Contains(s, d)
    ensures Split(s, d) == [s]
  {
  }

  /** Splitting after a leading piece that does not hold the first
      character of the separator. */
  lemma {:induction false} SplitCons(x: string, d: string, rest: string)
    requires |d| > 0 && d[0] !in x
    ensures Split(x + d + rest, d) == [x] + Split(rest, d)
  {
    LeadingFirst(x, d, rest);
    SplitLeft(x, d, rest);
  }

  /** A leading piece without the first character of `d`, then `d`: the
      leftmost occurrence of `d` is the one right after the piece. */
  lemma {:induction false} LeadingFirst(x: string, d: string, rest: string)
    requires |d| > 0 && d[0] !in x
    ensures FindFrom(x + d + rest, d, 0) == Some(|x|)
  {
    var s := x + d + rest;
    forall k | 0 <= k < |x| ensures s[k] != d[0] {
      assert s[k] == x[k];
    }
    FirstCharAbsent(s, d, 0, |x|);
    assert s[|x|..|x| + |d|] == d;
    FindFirst(s, d, 0, |x|);
  }

  /** A split has more than one piece exactly when the separator occurs,
      and then the first cut is at its leftmost occurrence. */
  lemma {:induction false} SplitFirstCut(s: string, d: string)
    requires |d| > 0
    ensures |Split(s, d)| == 1 <==> !Contains(s, d)
    ensures |Split(s, d)| > 1 ==> FindFrom(s, d, 0) == Some(|Split(s, d)[0]|)
  {
  }

  /** Splitting at the leftmost occurrence of the separator. */
  lemma {:induction false} SplitAt(s: string, d: string, i: nat)
    requires |d| > 0 && FindFrom(s, d, 0) == Some(i)
    ensures Split(s, d) == [s[..i]] + Split(s[i + |d|..], d)
  {
  }

  /** Concatenation regroups, for strings and node lists alike. */
  lemma {:induction false} SeqAssoc<T>(a: seq<T>, b: seq<T>, c: seq<T>)
    ensures a + (b + c) == a + b + c
  {
  }

  /** Splitting where the leftmost occurrence of the separator follows a
      leading piece: that piece, then the split of what follows. */
  lemma {:induction false} SplitLeft(x: string, d: string, rest: string)
    requires |d| > 0 && FindFrom(x + d + rest, d, 0) == Some(|x|)
    ensures Split(x + d + rest, d) == [x] + Split(rest, d)
  {
    var s := x + d + rest;
    assert s[..|x|] == x;
    assert s[|x| + |d|..] == rest;
  }

  /** Every cut of the join of `xs` falls at the leftmost occurrence of the
      separator in what is left of it. */
  predicate LeftmostCuts(d: string, xs: seq<string>)
    requires |d| > 0
  {
    forall k :: 0 <= k < |xs| - 1 ==> FindFrom(Join(d, xs[k..]), d, 0) == Some(|xs[k]|)
  }

  /** Splitting undoes joining exactly when every cut is leftmost and the
      last piece holds no separator. */
  lemma {:induction false} SplitJoin(d: string, xs: seq<string>)
    requires |d| > 0 && |xs| >= 1
    requires LeftmostCuts(d, xs)
    requires !Contains(xs[|xs| - 1], d)
    ensures Split(Join(d, xs), d) == xs
    decreases |xs|
  {
    if |xs| == 1 {
      SplitJoinOne(d, xs);
    } else {
      LeftmostCutsTail(d, xs);
      SplitJoin(d, xs[1..]);
      SplitJoinStep(d, xs);
    }
  }

  lemma {:induction false} SplitJoinOne(d: string, xs: seq<string>)
    requires |d| > 0 && |xs| == 1 && !Contains(xs[0], d)
    ensures Split(Join(d, xs), d) == xs
  {
    SplitAbsent(xs[0], d);
  }

  /** The first cut of a joined list, and the split of the rest. */
  lemma {:induction false} SplitJoinStep(d: string, xs: seq<string>)
    requires |d| > 0 && |xs| >= 2
    requires Join(d, xs) == xs[0] + d + Join(d, xs[1..])
    requires FindFrom(xs[0] + d + Join(d, xs[1..]), d, 0) == Some(|xs[0]|)
    requires Split(Join(d, xs[1..]), d) == xs[1..]
    requires xs == [xs[0]] + xs[1..]
    ensures Split(Join(d, xs), d) == xs
  {
    SplitLeft(xs[0], d, Join(d, xs[1..]));
  }

  lemma {:induction false} LeftmostCutsTail(d: string, xs: seq<string>)
    requires |d| > 0 && |xs| >= 2 && LeftmostCuts(d, xs)
    ensures LeftmostCuts(d, xs[1..])
    ensures Join(d, xs) == xs[0] + d + Join(d, xs[1..])
    ensures FindFrom(xs[0] + d + Join(d, xs[1..]), d, 0) == Some(|xs[0]|)
    ensures !Contains(xs[|xs| - 1], d) ==> !Contains(xs[1..][|xs[1..]| - 1], d)
    ensures xs == [xs[0]] + xs[1..]
  {
    assert xs[1..][|xs[1..]| - 1] == xs[|xs| - 1];
    assert xs[0..] == xs;
    var ys := xs[1..];
    forall k | 0 <= k < |ys| - 1 ensures FindFrom(Join(d, ys[k..]), d, 0) == Some(|ys[k]|) {
      assert ys[k..] == xs[k + 1..];
    }
  }

  /** The converse: the pieces of a split are cut leftmost. */
  lemma {:induction false} SplitCuts(s: string, d: string)
    requires |d| > 0
    ensures LeftmostCuts(d, Split(s, d))
    decreases |s|
  {
    var xs := Split(s, d);
    if |xs| > 1 {
      var rest := s[|xs[0]| + |d|..];
      SplitCuts(rest, d);
      assert xs[0..] == xs;
      forall k | 1 <= k < |xs| - 1 ensures FindFrom(Join(d, xs[k..]), d, 0) == Some(|xs[k]|) {
        assert xs[k..] == Split(rest, d)[k - 1..];
      }
    }
  }

  /** Splitting when no piece but the last holds the first character of
      the separator. */
  lemma {:induction false} SplitJoinPlain(d: string, xs: seq<string>)
    requires |d| > 0 && |xs| >= 1
    requires forall k :: 0 <= k < |xs| - 1 ==> d[0] !in xs[k]
    requires !Contains(xs[|xs| - 1], d)
    ensures Split(Join(d, xs), d) == xs
  {
    forall k | 0 <= k < |xs| - 1 ensures FindFrom(Join(d, xs[k..]), d, 0) == Some(|xs[k]|) {
      assert xs[k..] == [xs[k]] + xs[k + 1..];
      JoinCons(d, xs[k], xs[k + 1..]);
      LeadingFirst(xs[k], d, Join(d, xs[k + 1..]));
    }
    SplitJoin(d, xs);
  }

  /** Python's `s.replace(pattern, replacement)` for a non-empty `pattern`:
      the pieces between the occurrences, rejoined by the replacement. */
  function ReplaceAll(s: string, pattern: string, replacement: string): (r: string)
    requires |pattern| > 0
    ensures !Contains(s, pattern) ==> r == s
  {
    var parts := Split(s, pattern);
    assert !Contains(s, pattern) ==> parts == [s] by {
      if !Contains(s, pattern) {
        SplitAbsent(s, pattern);
      }
    }
    Join(replacement, parts)
  }

  /** Text before the first occurrence is kept, the occurrence becomes the
      replacement, and replacing goes on after it. */
  lemma {:induction false} ReplaceFirst(x: string, pattern: string, rest: string, replacement: string)
    requires |pattern| > 0 && FindFrom(x + pattern + rest, pattern, 0) == Some(|x|)
    ensures ReplaceAll(x + pattern + rest, pattern, replacement)
         == x + replacement + ReplaceAll(rest, pattern, replacement)
  {
    SplitLeft(x, pattern, rest);
    JoinCons(replacement, x, Split(rest, pattern));
  }

  /** Replacing, one leftmost occurrence at a time: nothing changes without
      an occurrence, and otherwise the text before the leftmost one is kept,
      that one becomes the replacement, and replacing goes on after it. */
  lemma {:induction false} ReplaceStep(s: string, pattern: string, replacement: string)
    requires |pattern| > 0
    ensures match FindFrom(s, pattern, 0)
            case None => ReplaceAll(s, pattern, replacement) == s
            case Some(i) => (ReplaceAll(s, pattern, replacement)
                 == s[..i] + replacement + ReplaceAll(s[i + |pattern|..], pattern, replacement))
  {
    match FindFrom(s, pattern, 0)
    case None =>
    case Some(i) =>
      assert s == s[..i] + pattern + s[i + |pattern|..];
      ReplaceFirst(s[..i], pattern, s[i + |pattern|..], replacement);
  }

  /** `replace` substitutes exactly the leftmost, non-overlapping
      occurrences: a text cut at such occurrences gets the replacement at
      each cut and nothing else changes. */
  lemma {:induction false} ReplaceJoin(xs: seq<string>, pattern: string, replacement: string)
    requires |pattern| > 0 && |xs| >= 1
    requires LeftmostCuts(pattern, xs) && !Contains(xs[|xs| - 1], pattern)
    ensures ReplaceAll(Join(pattern, xs), pattern, replacement) == Join(replacement, xs)
  {
    SplitJoin(pattern, xs);
  }

  /** The leftmost occurrence is the one right after a leading piece
      without the pattern's first character. */
  lemma {:induction false} ReplaceFirstPlain(x: string, pattern: string, rest: string, replacement: string)
    requires |pattern| > 0 && pattern[0] !in x
    ensures ReplaceAll(x + pattern + rest, pattern, replacement)
         == x + replacement + ReplaceAll(rest, pattern, replacement)
  {
    LeadingFirst(x, pattern, rest);
    ReplaceFirst(x, pattern, rest, replacement);
  }

  // ---------------------------------------------------------------------
  // Lines and words
  // ---------------------------------------------------------------------

  /** Python's `s.splitlines()` with the line feed as the only line break:
      the lines of `s`, with no empty line after a final line feed. */
  function SplitLines(s: string): (r: seq<string>)
    ensures forall k :: 0 <= k < |r| ==> '\n' !in r[k]
    ensures Join("\n", r) + (if EndsWith(s, "\n") then "\n" else "") == s
    ensures s == [] <==> r == []
  {
    if s == [] then []
    else
      var parts := Split(s, "\n");
      LinePieces(s);
      var n := |parts|;
      if parts[n - 1] == [] then
        LineFeedAtEnd(s, parts);
        parts[..n - 1]
      else
        NoLineFeedAtEnd(s, parts);
        parts
  }

  /** No piece between line feeds holds one. */
  lemma {:induction false} LinePieces(s: string)
    ensures forall k :: 0 <= k < |Split(s, "\n")| ==> '\n' !in Split(s, "\n")[k]
  {
    var parts := Split(s, "\n");
    SplitFree(s, "\n");
    forall k | 0 <= k < |parts| ensures '\n' !in parts[k] {
      ContainsChar(parts[k], '\n');
    }
  }

  /** Lines joined by line feeds whose last line is empty end with a line
      feed after the other lines. */
  lemma {:induction false} LineFeedAtEnd(s: string, parts: seq<string>)
    requires s != [] && |parts| >= 1 && Join("\n", parts) == s && parts[|parts| - 1] == []
    ensures |parts| >= 2 && EndsWith(s, "\n")
    ensures Join("\n", parts[..|parts| - 1]) + "\n" == s
  {
    var n := |parts|;
    assert parts == parts[..n - 1] + [parts[n - 1]];
    JoinSnoc("\n", parts[..n - 1], parts[n - 1]);
  }

  /** Lines without line feeds joined by line feeds, the last one not
      empty, do not end with a line feed. */
  lemma {:induction false} NoLineFeedAtEnd(s: string, parts: seq<string>)
    requires |parts| >= 1 && Join("\n", parts) == s && parts[|parts| - 1] != []
    requires forall k :: 0 <= k < |parts| ==> '\n' !in parts[k]
    ensures !EndsWith(s, "\n")
  {
    var n := |parts|;
    if n > 1 {
      assert parts == parts[..n - 1] + [parts[n - 1]];
      JoinSnoc("\n", parts[..n - 1], parts[n - 1]);
    }
    var last := parts[n - 1];
    assert s[|s| - 1] == last[|last| - 1];
    assert last[|last| - 1] in last;
  }

  /** Lines joined by line feeds are split back into the same lines,
      provided the last one is not empty. */
  lemma {:induction false} SplitLinesJoin(xs: seq<string>)
    requires |xs| >= 1 && xs[|xs| - 1] != []
    requires forall k :: 0 <= k < |xs| ==> '\n' !in xs[k]
    ensures SplitLines(Join("\n", xs)) == xs
  {
    var s := Join("\n", xs);
    FirstCharNotContained(xs[|xs| - 1], "\n");
    assert "\n"[0] == '\n';
    SplitJoinPlain("\n", xs);
    JoinNonEmpty("\n", xs);
    SplitLinesOf(s, xs);
  }

  /** A text whose pieces between line feeds end with a non-empty one has
      those pieces as its lines. */
  lemma {:induction false} SplitLinesOf(s: string, parts: seq<string>)
    requires s != [] && Split(s, "\n") == parts && parts[|parts| - 1] != []
    ensures SplitLines(s) == parts
  {
  }

  /** A join starts with its first piece. */
  lemma {:induction false} JoinStart(sep: string, xs: seq<string>)
    requires |xs| >= 1
    ensures StartsWith(Join(sep, xs), xs[0])
  {
    if |xs| > 1 {
      assert Join(sep, xs) == xs[0] + (sep + Join(sep, xs[1..]));
    }
  }

  lemma {:induction false} JoinNonEmpty(sep: string, xs: seq<string>)
    requires |xs| >= 1 && xs[|xs| - 1] != []
    ensures Join(sep, xs) != []
    decreases |xs|
  {
    if |xs| > 1 {
      JoinNonEmpty(sep, xs[1..]);
    }
  }

  /** `line` is the first line of `s`: a prefix without a line feed that
      runs to the end of `s` or to a line feed. */
  predicate IsFirstLine(s: string, line: string) {
    StartsWith(s, line) && '\n' !in line && (|line| == |s| || s[|line|] == '\n')
  }

  /** A text has one first line. */
  lemma {:induction false} FirstLineUnique(s: string, a: string, b: string)
    requires IsFirstLine(s, a) && IsFirstLine(s, b)
    ensures a == b
  {
  }

  /** Every first line of `s` is `line`. */
  lemma {:induction false} FirstLineOnly(s: string, line: string)
    requires IsFirstLine(s, line)
    ensures forall other :: IsFirstLine(s, other) ==> other == line
  {
    forall other | IsFirstLine(s, other) ensures other == line {
      FirstLineUnique(s, other, line);
    }
  }

  /** A first line begins with any prefix of the text that has no line
      feed. */
  lemma {:induction false} FirstLineStarts(s: string, line: string, p: string)
    requires IsFirstLine(s, line) && StartsWith(s, p) && '\n' !in p
    ensures StartsWith(line, p)
  {
    assert line[..|p|] == s[..|p|];
  }

  /** The first of the lines `splitlines` gives is the first line. */
  lemma {:induction false} SplitLinesHead(s: string)
    requires s != []
    ensures IsFirstLine(s, SplitLines(s)[0])
  {
    var r := SplitLines(s);
    if |r| > 1 {
      JoinCons("\n", r[0], r[1..]);
      assert r == [r[0]] + r[1..];
      assert s[|r[0]|] == '\n';
    }
    assert s[..|r[0]|] == r[0];
  }


  /** Python's `s.split(maxsplit=1)`: at most two whitespace-separated parts,
      the first word and the rest after the whitespace that follows it. */
  function SplitFirstWord(s: string): (r: seq<string>)
    ensures |r| <= 2
    ensures |r| == 0 <==> AllSpace(s)
    ensures |r| >= 1 ==> r[0] != [] && NoSpace(r[0])
    ensures |r| == 2 ==> r[1] != [] && !IsSpace(r[1][0])
  {
    var a := SkipSpace(s, 0);
    if a == |s| then []
    else
      var b := SkipWord(s, a);
      var c := SkipSpace(s, b);
      if c == |s| then [s[a..b]] else [s[a..b], s[c..]]
  }

  /** Where the parts of `SplitFirstWord` come from: the first part is the
      whole first word, right after the leading whitespace; with one part
      only whitespace follows it; with two, the second is the rest of `s`
      after a non-empty whitespace run. */
  lemma {:induction false} SplitFirstWordParts(s: string)
    ensures var r := SplitFirstWord(s);
            |r| >= 1 ==> var a := StripStart(s);
              a + |r[0]| <= |s| && s[a..a + |r[0]|] == r[0]
              && (a + |r[0]| == |s| || IsSpace(s[a + |r[0]|]))
    ensures var r := SplitFirstWord(s);
            |r| == 1 ==> AllSpace(s[StripStart(s) + |r[0]|..])
    ensures var r := SplitFirstWord(s);
            |r| == 2 ==> var b := StripStart(s) + |r[0]|;
              b < |s| - |r[1]| && s[|s| - |r[1]|..] == r[1] && AllSpace(s[b..|s| - |r[1]|])
  {
    var a := SkipSpace(s, 0);
    if a < |s| {
      var b := SkipWord(s, a);
      var c := SkipSpace(s, b);
      assert AllSpace(s[b..c]) by {
        forall k | 0 <= k < c - b ensures IsSpace(s[b..c][k]) {
          assert s[b..c][k] == s[b + k];
        }
      }
    }
  }

  /** A word, whitespace, and the rest: the first part is the word, the
      second the rest without its leading whitespace, if any is left. */
  lemma {:induction false} SplitFirstWordOf(w: string, sp: string, rest: string)
    requires w != [] && NoSpace(w) && sp != [] && AllSpace(sp)
    ensures SplitFirstWord(w + sp + rest)
         == if AllSpace(rest) then [w] else [w, rest[StripStart(rest)..]]
  {
    var s := w + sp + rest;
    assert s[0] == w[0];
    assert SkipSpace(s, 0) == 0;
    var b := SkipWord(s, 0);
    assert forall k :: 0 <= k < |w| ==> s[k] == w[k];
    assert s[|w|] == sp[0];
    assert b == |w|;
    var c := SkipSpace(s, b);
    var e := |w| + |sp| + StripStart(rest);
    forall k | b <= k < e ensures IsSpace(s[k]) {
      if k < |w| + |sp| {
        assert s[k] == sp[k - |w|];
      } else {
        assert s[k] == rest[..StripStart(rest)][k - |w| - |sp|];
      }
    }
    if e < |s| {
      assert s[e] == rest[StripStart(rest)];
    }
    assert c == e;
    assert s[0..b] == w;
    assert s[c..] == rest[StripStart(rest)..];
    if AllSpace(rest) {
      assert StripStart(rest) == |rest|;
    } else {
      assert StripStart(rest) < |rest|;
    }
  }

  /** Python's `s.split(sep, maxsplit=1)` for a non-empty separator. */
  function SplitOnce(s: string, d: string): (r: seq<string>)
    requires |d| > 0
    ensures 1 <= |r| <= 2
    ensures |r| == 1 <==> !Contains(s, d)
    ensures |r| == 1 ==> r[0] == s
    ensures |r| == 2 ==> r[0] + d + r[1] == s && !Contains(r[0], d)
  {
    match FindFrom(s, d, 0)
    case None => [s]
    case Some(i) =>
      assert s == s[..i] + s[i..i + |d|] + s[i + |d|..];
      FreeSlice(s, d, 0, i);
      assert s[0..i] == s[..i];
      [s[..i], s[i + |d|..]]
  }
}
