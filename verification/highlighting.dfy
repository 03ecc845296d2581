/** Highlighting: `line.replace(highlightRegex, match => chalk.bgYellow(match))`
    in grep-lite.js, with the global regex built from the escaped search text.

    The global replace scans left to right; each match found is wrapped in
    markers and the scan resumes at the end of that match (one character further
    when the match is empty, as JavaScript does for an empty search text). The
    colouring is abstracted into `Open`/`Close` marker tokens. */
module Highlighting {
  import opened Optional
  import opened Matching

  /** A piece of rendered output: a character of text, or a marker. */
  datatype Token = Char(c: char) | Open | Close

  /** Text with no markers: deleting the (absent) markers gives the text back. */
  function Plain(s: string): (r: seq<Token>)
    ensures Strip(r) == s
  {
    var r := seq(|s|, k requires 0 <= k < |s| => Char(s[k]));
    StripChars(s, r);
    r
  }

  /** The text of a token sequence with the markers deleted. */
  function Strip(t: seq<Token>): string {
    if t == [] then [] else (if t[0].Char? then [t[0].c] else []) + Strip(t[1..])
  }

  /** Adds `s` to the span being collected, if one is open. */
  function Extend(open: Option<string>, s: string): Option<string> {
    match open
    case None => None
    case Some(acc) => Some(acc + s)
  }

  /** The texts enclosed by Open ... Close pairs, left to right, where `open`
      holds the text of a span opened before `t`. */
  function SpansFrom(t: seq<Token>, open: Option<string>): seq<string>
    decreases |t|
  {
    if t == [] then []
    else match t[0]
      case Open => SpansFrom(t[1..], Some([]))
      case Close => (if open.Some? then [open.value] else []) + SpansFrom(t[1..], None)
      case Char(c) => SpansFrom(t[1..], Extend(open, [c]))
  }

  /** The marked spans of a rendered line, left to right. */
  function Spans(t: seq<Token>): seq<string> {
    SpansFrom(t, None)
  }

  /** The offsets in the stripped text at which the spans of `t` open, where
      `offset` is the stripped length of what precedes `t`. */
  function SpanStartsFrom(t: seq<Token>, offset: nat): seq<nat>
    decreases |t|
  {
    if t == [] then []
    else match t[0]
      case Open => [offset] + SpanStartsFrom(t[1..], offset)
      case Close => SpanStartsFrom(t[1..], offset)
      case Char(_) => SpanStartsFrom(t[1..], offset + 1)
  }

  /** Where the marked spans of a rendered line start, as positions in the line. */
  function SpanStarts(t: seq<Token>): seq<nat> {
    SpanStartsFrom(t, 0)
  }

  /** The markers of `t` pair up: every `Open` is closed by a `Close` before the
      next `Open`, and no `Close` appears without an open span. `open` says
      whether a span opened before `t` is still open. */
  predicate BracketedFrom(t: seq<Token>, open: bool)
    decreases |t|
  {
    if t == [] then !open
    else match t[0]
      case Open => !open && BracketedFrom(t[1..], true)
      case Close => open && BracketedFrom(t[1..], false)
      case Char(_) => BracketedFrom(t[1..], open)
  }

  /** Where the global regex resumes after a match at q: its end, or one
      character further for an empty match. */
  function Step(pat: string): nat {
    if |pat| == 0 then 1 else |pat|
  }

  /** Start positions of the matches the global replace finds, scanning from `p`. */
  function Scan(line: string, pat: string, ignoreCase: bool, p: nat): seq<nat>
    requires p <= |line| + 1
    decreases |line| + 1 - p
  {
    match FindFrom(line, pat, ignoreCase, p)
    case None => []
    case Some(q) => [q] + Scan(line, pat, ignoreCase, q + Step(pat))
  }

  /** The positions at which the search text matches the line. */
  ghost function Matches(line: string, pat: string, ignoreCase: bool): set<nat> {
    set j: nat | j <= |line| && MatchAt(line, pat, ignoreCase, j)
  }

  /** `j` is the first position of `M` at or after `from`. */
  ghost predicate Leftmost(M: set<nat>, from: nat, j: nat) {
    && from <= j
    && j in M
    && forall i :: from <= i < j ==> i !in M
  }

  /** No position of `M` lies at or after `from`. */
  ghost predicate NoneFrom(M: set<nat>, from: nat) {
    forall i :: from <= i ==> i !in M
  }

  /** `s` is what a left-to-right global search from `p` finds among the match
      positions `M`: nothing when no position lies at or after `p`; otherwise
      the leftmost one, followed by what the search finds from `step` past it. */
  ghost predicate Greedy(M: set<nat>, step: nat, p: nat, s: seq<nat>)
    decreases |s|
  {
    if |s| == 0 then NoneFrom(M, p)
    else Leftmost(M, p, s[0]) && Greedy(M, step, s[0] + step, s[1..])
  }

  /** The leftmost-match search in terms of match positions. */
  lemma FindLeftmost(line: string, pat: string, ignoreCase: bool, p: nat)
    ensures FindFrom(line, pat, ignoreCase, p).None? ==> NoneFrom(Matches(line, pat, ignoreCase), p)
    ensures FindFrom(line, pat, ignoreCase, p).Some? ==>
      Leftmost(Matches(line, pat, ignoreCase), p, FindFrom(line, pat, ignoreCase, p).value)
  {
  }

  /** One step of the scan: a match found at `q` comes first, and the scan
      goes on from where it ended. */
  lemma ScanStep(line: string, pat: string, ignoreCase: bool, p: nat, q: nat)
    requires p <= |line| + 1
    requires FindFrom(line, pat, ignoreCase, p) == Some(q)
    ensures q + Step(pat) <= |line| + 1
    ensures Scan(line, pat, ignoreCase, p) == [q] + Scan(line, pat, ignoreCase, q + Step(pat))
  {
  }

  /** The scan is the left-to-right global search over the match positions. */
  lemma {:induction false} ScanGreedy(line: string, pat: string, ignoreCase: bool, p: nat)
    requires p <= |line| + 1
    ensures Greedy(Matches(line, pat, ignoreCase), Step(pat), p, Scan(line, pat, ignoreCase, p))
    decreases |line| + 1 - p
  {
    FindLeftmost(line, pat, ignoreCase, p);
    var s := Scan(line, pat, ignoreCase, p);
    match FindFrom(line, pat, ignoreCase, p)
    case None =>
      assert s == [];
    case Some(q) =>
      ScanStep(line, pat, ignoreCase, p, q);
      ScanGreedy(line, pat, ignoreCase, q + Step(pat));
      assert s[0] == q && s[1..] == Scan(line, pat, ignoreCase, q + Step(pat));
  }

  /** The search has only one outcome: two greedy lists from the same point agree. */
  lemma {:induction false} GreedyUnique(M: set<nat>, step: nat, p: nat, s: seq<nat>, t: seq<nat>)
    requires Greedy(M, step, p, s)
    requires Greedy(M, step, p, t)
    ensures s == t
    decreases |s|
  {
    if |s| > 0 {
      assert |t| > 0 && t[0] == s[0];
      GreedyUnique(M, step, s[0] + step, s[1..], t[1..]);
      assert s == [s[0]] + s[1..] && t == [t[0]] + t[1..];
    }
  }

  /** Every entry of a greedy list is a match at or after its starting point. */
  lemma {:induction false} GreedyEntries(M: set<nat>, step: nat, p: nat, s: seq<nat>)
    requires Greedy(M, step, p, s)
    ensures forall k :: 0 <= k < |s| ==> p <= s[k] && s[k] in M
    decreases |s|
  {
    if |s| > 0 {
      var t := s[1..];
      GreedyEntries(M, step, s[0] + step, t);
      forall k | 0 < k < |s| ensures p <= s[k] && s[k] in M {
        assert s[k] == t[k - 1];
      }
    }
  }

  /** Entries of a greedy list increase, each at least `step` past the one
      before, so the matches reported never overlap. */
  lemma {:induction false} GreedyOrdered(M: set<nat>, step: nat, p: nat, s: seq<nat>)
    requires Greedy(M, step, p, s)
    ensures forall a, b :: 0 <= a < b < |s| ==> s[a] + step <= s[b]
    decreases |s|
  {
    if |s| > 0 {
      var t := s[1..];
      GreedyEntries(M, step, s[0] + step, t);
      GreedyOrdered(M, step, s[0] + step, t);
      forall a, b | 0 <= a < b < |s| ensures s[a] + step <= s[b] {
        assert s[b] == t[b - 1];
        if a > 0 {
          assert s[a] == t[a - 1];
        }
      }
    }
  }

  /** No match is skipped: every match at or after `p` starts inside the step
      of some entry, that is, it is reported or overlaps a reported one. */
  lemma {:induction false} GreedyComplete(M: set<nat>, step: nat, p: nat, s: seq<nat>, j: nat)
    requires Greedy(M, step, p, s)
    requires p <= j && j in M
    ensures exists k :: 0 <= k < |s| && s[k] <= j < s[k] + step
    decreases |s|
  {
    if j < s[0] + step {
      assert s[0] <= j;
    } else {
      var t := s[1..];
      GreedyComplete(M, step, s[0] + step, t, j);
      var i :| 0 <= i < |t| && t[i] <= j < t[i] + step;
      assert s[i + 1] == t[i];
    }
  }

  /** Span starts at or after `p`, each span of length `len` inside a line of
      length `n`, and no two spans overlapping. */
  predicate Placed(starts: seq<nat>, len: nat, p: nat, n: nat) {
    && (forall k :: 0 <= k < |starts| ==> p <= starts[k] && starts[k] + len <= n)
    && (forall a, b :: 0 <= a < b < |starts| ==> starts[a] + len <= starts[b])
  }

  /** The line texts at the given span positions. */
  function SpanTexts(line: string, starts: seq<nat>, len: nat): seq<string>
    requires forall k :: 0 <= k < |starts| ==> starts[k] + len <= |line|
  {
    seq(|starts|, k requires 0 <= k < |starts| => line[starts[k]..starts[k] + len])
  }

  lemma {:induction false} StripAppend(a: seq<Token>, b: seq<Token>)
    ensures Strip(a + b) == Strip(a) + Strip(b)
  {
    if a == [] {
      assert a + b == b;
    } else {
      assert (a + b)[0] == a[0];
      assert (a + b)[1..] == a[1..] + b;
      StripAppend(a[1..], b);
      assert Strip(a + b) == (if a[0].Char? then [a[0].c] else []) + Strip(a[1..] + b);
    }
  }

  /** Character tokens spelling `s` strip back to `s`. */
  lemma {:induction false} StripChars(s: string, t: seq<Token>)
    requires |t| == |s|
    requires forall k :: 0 <= k < |s| ==> t[k] == Char(s[k])
    ensures Strip(t) == s
  {
    if s != [] {
      StripChars(s[1..], t[1..]);
      assert [s[0]] + s[1..] == s;
    }
  }

  lemma {:induction false} SpansPlain(a: string, open: Option<string>, x: seq<Token>)
    ensures SpansFrom(Plain(a) + x, open) == SpansFrom(x, Extend(open, a))
  {
    if a == [] {
      assert Plain(a) + x == x;
      if open.Some? {
        assert open.value + a == open.value;
      }
    } else {
      assert (Plain(a) + x)[0] == Char(a[0]);
      assert (Plain(a) + x)[1..] == Plain(a[1..]) + x;
      SpansPlain(a[1..], Extend(open, [a[0]]), x);
      if open.Some? {
        assert open.value + [a[0]] + a[1..] == open.value + a;
      }
    }
  }

  /** One step of rendering: plain text, then a marked span, then the rest. */
  lemma RenderStep(a: string, b: string, rest: seq<Token>)
    ensures Strip(Plain(a) + [Open] + Plain(b) + [Close] + rest) == a + b + Strip(rest)
    ensures Spans(Plain(a) + [Open] + Plain(b) + [Close] + rest) == [b] + Spans(rest)
  {
    var t := Plain(a) + [Open] + Plain(b) + [Close] + rest;
    var u := [Open] + Plain(b) + [Close] + rest;
    var v := [Close] + rest;
    assert t == Plain(a) + u;
    assert u == [Open] + (Plain(b) + v);
    StripAppend(Plain(a), u);
    StripAppend([Open], Plain(b) + v);
    StripAppend(Plain(b), v);
    StripAppend([Close], rest);
    SpansPlain(a, None, u);
    assert u[1..] == Plain(b) + v;
    SpansPlain(b, Some([]), v);
    assert [] + b == b;
    assert v[1..] == rest;
  }

  lemma {:induction false} StartsPlain(a: string, x: seq<Token>, offset: nat)
    ensures SpanStartsFrom(Plain(a) + x, offset) == SpanStartsFrom(x, offset + |a|)
  {
    if a == [] {
      assert Plain(a) + x == x;
    } else {
      assert (Plain(a) + x)[0] == Char(a[0]);
      assert (Plain(a) + x)[1..] == Plain(a[1..]) + x;
      StartsPlain(a[1..], x, offset + 1);
    }
  }

  /** One step of rendering, seen through the span starts: the span opens after
      the plain text, and the rest continues after the span's text. */
  lemma RenderStepStarts(a: string, b: string, rest: seq<Token>, offset: nat)
    ensures SpanStartsFrom(Plain(a) + [Open] + Plain(b) + [Close] + rest, offset)
         == [offset + |a|] + SpanStartsFrom(rest, offset + |a| + |b|)
  {
    var u := [Open] + Plain(b) + [Close] + rest;
    var v := [Close] + rest;
    assert Plain(a) + [Open] + Plain(b) + [Close] + rest == Plain(a) + u;
    StartsPlain(a, u, offset);
    assert u[1..] == Plain(b) + v;
    StartsPlain(b, v, offset + |a|);
    assert v[1..] == rest;
  }

  /** Plain text leaves the pairing of markers as it is. */
  lemma {:induction false} BracketedPlain(a: string, x: seq<Token>, open: bool)
    ensures BracketedFrom(Plain(a) + x, open) == BracketedFrom(x, open)
  {
    if a == [] {
      assert Plain(a) + x == x;
    } else {
      assert (Plain(a) + x)[0] == Char(a[0]);
      assert (Plain(a) + x)[1..] == Plain(a[1..]) + x;
      BracketedPlain(a[1..], x, open);
    }
  }

  /** One step of rendering adds one closed span in front of the rest. */
  lemma RenderStepBracketed(a: string, b: string, rest: seq<Token>)
    ensures BracketedFrom(Plain(a) + [Open] + Plain(b) + [Close] + rest, false) == BracketedFrom(rest, false)
  {
    var u := [Open] + Plain(b) + [Close] + rest;
    var v := [Close] + rest;
    assert Plain(a) + [Open] + Plain(b) + [Close] + rest == Plain(a) + u;
    BracketedPlain(a, u, false);
    assert u[1..] == Plain(b) + v;
    BracketedPlain(b, v, true);
    assert v[1..] == rest;
  }

  lemma PlacedTail(starts: seq<nat>, len: nat, p: nat, n: nat)
    requires |starts| > 0 && Placed(starts, len, p, n)
    ensures p <= starts[0] && starts[0] + len <= n
    ensures Placed(starts[1..], len, starts[0] + len, n)
  {
    forall k | 0 <= k < |starts| - 1 ensures starts[0] + len <= starts[1..][k] {
      assert starts[1..][k] == starts[k + 1];
    }
  }

  lemma SliceSplit(line: string, p: nat, s: nat, e: nat)
    requires p <= s <= e <= |line|
    ensures line[p..s] + line[s..e] + line[e..] == line[p..]
  {
  }

  lemma SpanTextsTail(line: string, starts: seq<nat>, len: nat)
    requires |starts| > 0
    requires forall k :: 0 <= k < |starts| ==> starts[k] + len <= |line|
    ensures SpanTexts(line, starts, len)
         == [line[starts[0]..starts[0] + len]] + SpanTexts(line, starts[1..], len)
  {
  }

  /** The line from `p` on with each listed span wrapped in markers. */
  function Render(line: string, starts: seq<nat>, len: nat, p: nat): (r: seq<Token>)
    requires p <= |line| && Placed(starts, len, p, |line|)
    ensures Strip(r) == line[p..]
    ensures Spans(r) == SpanTexts(line, starts, len)
    ensures SpanStartsFrom(r, p) == starts
    ensures BracketedFrom(r, false)
    decreases |starts|
  {
    if starts == [] then
      RenderNone(line, p);
      Plain(line[p..])
    else
      var s := starts[0];
      PlacedTail(starts, len, p, |line|);
      var rest := Render(line, starts[1..], len, s + len);
      RenderCons(line, starts, len, p, rest);
      Plain(line[p..s]) + [Open] + Plain(line[s..s + len]) + [Close] + rest
  }

  /** Rendering with no spans: the plain text, with no span texts or starts. */
  lemma RenderNone(line: string, p: nat)
    requires p <= |line|
    ensures Strip(Plain(line[p..])) == line[p..]
    ensures Spans(Plain(line[p..])) == []
    ensures SpanStartsFrom(Plain(line[p..]), p) == []
    ensures BracketedFrom(Plain(line[p..]), false)
  {
    SpansPlain(line[p..], None, []);
    StartsPlain(line[p..], [], p);
    BracketedPlain(line[p..], [], false);
    assert Plain(line[p..]) + [] == Plain(line[p..]);
  }

  /** Rendering the first span in front of the rendering of the others. */
  lemma RenderCons(line: string, starts: seq<nat>, len: nat, p: nat, rest: seq<Token>)
    requires p <= |line| && |starts| > 0 && Placed(starts, len, p, |line|)
    requires Placed(starts[1..], len, starts[0] + len, |line|)
    requires p <= starts[0] && starts[0] + len <= |line|
    requires Strip(rest) == line[starts[0] + len..]
    requires Spans(rest) == SpanTexts(line, starts[1..], len)
    requires SpanStartsFrom(rest, starts[0] + len) == starts[1..]
    requires BracketedFrom(rest, false)
    ensures var t := Plain(line[p..starts[0]]) + [Open] + Plain(line[starts[0]..starts[0] + len]) + [Close] + rest;
      && Strip(t) == line[p..]
      && Spans(t) == SpanTexts(line, starts, len)
      && SpanStartsFrom(t, p) == starts
      && BracketedFrom(t, false)
  {
    RenderStepBracketed(line[p..starts[0]], line[starts[0]..starts[0] + len], rest);
    var s := starts[0];
    RenderStep(line[p..s], line[s..s + len], rest);
    RenderStepStarts(line[p..s], line[s..s + len], rest, p);
    SliceSplit(line, p, s, s + len);
    SpanTextsTail(line, starts, len);
    assert [s] + starts[1..] == starts;
  }

  /** Each span the scan marks is a match of the search text. */
  lemma SpanTextsMatch(line: string, pat: string, ignoreCase: bool, starts: seq<nat>)
    requires Greedy(Matches(line, pat, ignoreCase), Step(pat), 0, starts)
    ensures Placed(starts, |pat|, 0, |line|)
    ensures forall k :: 0 <= k < |starts| ==>
      Adjust(SpanTexts(line, starts, |pat|)[k], ignoreCase) == Adjust(pat, ignoreCase)
  {
    GreedyEntries(Matches(line, pat, ignoreCase), Step(pat), 0, starts);
    GreedyOrdered(Matches(line, pat, ignoreCase), Step(pat), 0, starts);
    forall k | 0 <= k < |starts| ensures starts[k] + |pat| <= |line| {
      assert starts[k] in Matches(line, pat, ignoreCase);
    }
    forall k | 0 <= k < |starts|
      ensures Adjust(SpanTexts(line, starts, |pat|)[k], ignoreCase) == Adjust(pat, ignoreCase)
    {
      var j := starts[k];
      assert j in Matches(line, pat, ignoreCase);
      MatchedText(line, pat, ignoreCase, j);
    }
  }

  /** The highlighted line: deleting the markers gives the line back, at least
      one span is marked iff the line is selected, and every marked span is an
      occurrence of the search text (up to case under ignore-case). */
  function Highlight(line: string, pat: string, ignoreCase: bool): (r: seq<Token>)
    ensures Strip(r) == line
    ensures |Spans(r)| > 0 <==> Selected(line, pat, ignoreCase)
    ensures forall k :: 0 <= k < |Spans(r)| ==> Adjust(Spans(r)[k], ignoreCase) == Adjust(pat, ignoreCase)
    ensures Greedy(Matches(line, pat, ignoreCase), Step(pat), 0, SpanStarts(r))
    ensures BracketedFrom(r, false)
  {
    var starts := Scan(line, pat, ignoreCase, 0);
    ScanGreedy(line, pat, ignoreCase, 0);
    SpanTextsMatch(line, pat, ignoreCase, starts);
    Render(line, starts, |pat|, 0)
  }

  /** The highlighted line is the line with markers around the leftmost,
      non-overlapping matches, whatever way that list of matches is found. */
  lemma HighlightIsGreedy(line: string, pat: string, ignoreCase: bool, starts: seq<nat>)
    requires Greedy(Matches(line, pat, ignoreCase), Step(pat), 0, starts)
    ensures && Placed(starts, |pat|, 0, |line|)
            && Highlight(line, pat, ignoreCase) == Render(line, starts, |pat|, 0)
  {
    SpanTextsMatch(line, pat, ignoreCase, starts);
    ScanGreedy(line, pat, ignoreCase, 0);
    GreedyUnique(Matches(line, pat, ignoreCase), Step(pat), 0, Scan(line, pat, ignoreCase, 0), starts);
  }

  /** Matches do not overlap: in `aaa` the search text `aa` is marked once. */
  lemma NonOverlapExample()
    ensures Highlight("aaa", "aa", false) == [Open, Char('a'), Char('a'), Close, Char('a')]
  {
    assert MatchAt("aaa", "aa", false, 0);
    assert FindFrom("aaa", "aa", false, 2) == None;
    assert Scan("aaa", "aa", false, 0) == [0];
  }

  /** An empty search text matches at every position, the end included. */
  lemma EmptyPatternScan()
    ensures Scan("ab", "", false, 0) == [0, 1, 2]
  {
    assert FindFrom("ab", "", false, 3) == None;
    assert Scan("ab", "", false, 2) == [2];
    assert Scan("ab", "", false, 1) == [1, 2];
  }

  /** Empty spans at 0, 1 and 2 of `ab` render as marker pairs between the characters. */
  lemma EmptySpansRender()
    ensures Render("ab", [0, 1, 2], 0, 0) == [Open, Close, Char('a'), Open, Close, Char('b'), Open, Close]
  {
    EmptySpansRenderFrom1();
    assert [0, 1, 2][1..] == [1, 2];
  }

  lemma EmptySpansRenderFrom1()
    ensures Render("ab", [1, 2], 0, 1) == [Open, Close, Char('b'), Open, Close]
  {
    EmptySpansRenderFrom2();
    assert [1, 2][1..] == [2];
  }

  lemma EmptySpansRenderFrom2()
    ensures Render("ab", [2], 0, 2) == [Open, Close]
  {
    assert [2][1..] == [];
  }

  /** So an empty highlight is placed before every character and at the end. */
  lemma EmptyPatternExample()
    ensures Highlight("ab", "", false) == [Open, Close, Char('a'), Open, Close, Char('b'), Open, Close]
  {
    EmptyPatternScan();
    EmptySpansRender();
  }
}
