/** Line selection: the test regex of grep-lite.js, built from the escaped
    search text with the `i` flag when ignore-case is on.

    Because the regex is literal (see Escaping), it is specified here directly as
    a literal substring search. Under ignore-case both sides are compared after
    canonicalising each character; the canonical form is ASCII upper case, as the
    JavaScript regex `i` flag canonicalises with toUpperCase. */
module Matching {
  import opened Optional
  import Escaping

  /** ASCII case folding: a-z to A-Z, every other character unchanged. */
  function Fold(c: char): char {
    if 'a' <= c <= 'z' then (c as int - 32) as char else c
  }

  /** The character the regex compares, given the ignore-case setting. */
  function Canon(c: char, ignoreCase: bool): char {
    if ignoreCase then Fold(c) else c
  }

  /** Two characters match under the ignore-case setting. */
  predicate CharEq(a: char, b: char, ignoreCase: bool) {
    Canon(a, ignoreCase) == Canon(b, ignoreCase)
  }

  /** The text as the comparison sees it: case-folded when ignore-case is set. */
  function Adjust(s: string, ignoreCase: bool): (r: string)
    ensures |r| == |s|
    ensures forall k :: 0 <= k < |s| ==> r[k] == Canon(s[k], ignoreCase)
    ensures !ignoreCase ==> r == s
  {
    seq(|s|, k requires 0 <= k < |s| => Canon(s[k], ignoreCase))
  }

  /** The characters of `pat` from index `k` on match those of `line` from `j + k` on. */
  predicate AgreeFrom(line: string, pat: string, ignoreCase: bool, j: nat, k: nat)
    decreases |pat| - k
  {
    k >= |pat| || (j + k < |line| && CharEq(line[j + k], pat[k], ignoreCase) && AgreeFrom(line, pat, ignoreCase, j, k + 1))
  }

  /** The search text matches `line` at position `j`. */
  predicate MatchAt(line: string, pat: string, ignoreCase: bool, j: nat) {
    j + |pat| <= |line| && AgreeFrom(line, pat, ignoreCase, j, 0)
  }

  /** AgreeFrom compares the remaining characters one by one. */
  lemma {:induction false} AgreeFromAll(line: string, pat: string, ignoreCase: bool, j: nat, k: nat)
    requires j + |pat| <= |line|
    ensures AgreeFrom(line, pat, ignoreCase, j, k)
        <==> forall i :: k <= i < |pat| ==> CharEq(line[j + i], pat[i], ignoreCase)
    decreases |pat| - k
  {
    if k < |pat| {
      AgreeFromAll(line, pat, ignoreCase, j, k + 1);
    }
  }

  /** A match at `j`: every character of the search text equals, under the
      ignore-case setting, the line character it is laid over. */
  lemma MatchAtAll(line: string, pat: string, ignoreCase: bool, j: nat)
    ensures MatchAt(line, pat, ignoreCase, j)
        <==> j + |pat| <= |line| && forall i :: 0 <= i < |pat| ==> CharEq(line[j + i], pat[i], ignoreCase)
  {
    if j + |pat| <= |line| {
      AgreeFromAll(line, pat, ignoreCase, j, 0);
    }
  }

  /** `pat` occurs in `text` as a contiguous substring starting at `j`. */
  predicate IsSubstringAt(pat: string, text: string, j: nat) {
    j + |pat| <= |text| && text[j..j + |pat|] == pat
  }

  /** `pat` occurs somewhere in `text` as a contiguous substring. */
  ghost predicate Occurs(pat: string, text: string) {
    exists j: nat :: IsSubstringAt(pat, text, j)
  }

  /** Leftmost match at or after `p`, as the regex engine finds it. */
  function FindFrom(line: string, pat: string, ignoreCase: bool, p: nat): (r: Option<nat>)
    ensures r.Some? ==> p <= r.value && MatchAt(line, pat, ignoreCase, r.value)
    ensures forall j :: p <= j && (r.None? || j < r.value) ==> !MatchAt(line, pat, ignoreCase, j)
    decreases |line| + 1 - p
  {
    if p + |pat| > |line| then None
    else if MatchAt(line, pat, ignoreCase, p) then Some(p)
    else FindFrom(line, pat, ignoreCase, p + 1)
  }

  /** `testRegex.test(line)`: the line is reported. */
  predicate Selected(line: string, pat: string, ignoreCase: bool) {
    FindFrom(line, pat, ignoreCase, 0).Some?
  }

  /** A match at `j` is an occurrence of the adjusted search text in the adjusted line. */
  lemma MatchAtIff(line: string, pat: string, ignoreCase: bool, j: nat)
    ensures MatchAt(line, pat, ignoreCase, j)
        <==> IsSubstringAt(Adjust(pat, ignoreCase), Adjust(line, ignoreCase), j)
  {
    var L := Adjust(line, ignoreCase);
    var P := Adjust(pat, ignoreCase);
    MatchAtAll(line, pat, ignoreCase, j);
    if j + |pat| <= |line| {
      if MatchAt(line, pat, ignoreCase, j) {
        forall k | 0 <= k < |pat| ensures L[j..j + |pat|][k] == P[k] {
          assert CharEq(line[j + k], pat[k], ignoreCase);
        }
        assert L[j..j + |pat|] == P;
      }
      if IsSubstringAt(P, L, j) {
        forall k | 0 <= k < |pat| ensures CharEq(line[j + k], pat[k], ignoreCase) {
          assert L[j..j + |pat|][k] == P[k];
        }
      }
    }
  }

  /** The text matched at `j` equals the search text once both are adjusted. */
  lemma MatchedText(line: string, pat: string, ignoreCase: bool, j: nat)
    requires MatchAt(line, pat, ignoreCase, j)
    ensures Adjust(line[j..j + |pat|], ignoreCase) == Adjust(pat, ignoreCase)
  {
    MatchAtAll(line, pat, ignoreCase, j);
    var m := line[j..j + |pat|];
    forall k | 0 <= k < |pat| ensures Adjust(m, ignoreCase)[k] == Adjust(pat, ignoreCase)[k] {
      assert m[k] == line[j + k];
      assert CharEq(line[j + k], pat[k], ignoreCase);
    }
  }

  /** A line is reported iff the search text, case-folded when ignore-case is
      set, occurs as a contiguous substring of the line, folded the same way. */
  lemma SelectedIff(line: string, pat: string, ignoreCase: bool)
    ensures Selected(line, pat, ignoreCase)
        <==> Occurs(Adjust(pat, ignoreCase), Adjust(line, ignoreCase))
  {
    var L := Adjust(line, ignoreCase);
    var P := Adjust(pat, ignoreCase);
    if Selected(line, pat, ignoreCase) {
      var j := FindFrom(line, pat, ignoreCase, 0).value;
      MatchAtIff(line, pat, ignoreCase, j);
    }
    if Occurs(P, L) {
      var j: nat :| IsSubstringAt(P, L, j);
      MatchAtIff(line, pat, ignoreCase, j);
    }
  }

  /** A metacharacter of the search text matches only itself, also under ignore-case. */
  lemma MetaMatchesOnlyItself(x: char, c: char, ignoreCase: bool)
    requires Escaping.IsMeta(c)
    ensures CharEq(x, c, ignoreCase) <==> x == c
  {
  }

  /** `a.b` finds the literal text `a.b` but not `axb`. */
  lemma DotIsLiteralExample()
    ensures Selected("a.b", "a.b", false)
    ensures !Selected("axb", "a.b", false)
  {
    assert MatchAt("a.b", "a.b", false, 0);
    assert !CharEq("axb"[1], "a.b"[1], false);
    assert !MatchAt("axb", "a.b", false, 0);
    assert FindFrom("axb", "a.b", false, 1) == None;
  }

  /** Ignore-case finds `abc` in `ABC`; the default, case-sensitive, does not. */
  lemma IgnoreCaseExample()
    ensures Selected("ABC", "abc", true)
    ensures !Selected("ABC", "abc", false)
  {
    assert MatchAt("ABC", "abc", true, 0);
    assert !CharEq("ABC"[0], "abc"[0], false);
    assert !MatchAt("ABC", "abc", false, 0);
    assert FindFrom("ABC", "abc", false, 1) == None;
  }
}
