/** Literal-pattern escaping (escapeRegExp in grep-lite.js).

    The search text is turned into a regular expression by putting a backslash
    before every character of the fixed set  . * + ? ^ $ { } ( ) | [ ] \
    That set is exactly the SyntaxCharacter set of the ECMAScript pattern
    grammar, so every other character is a PatternCharacter that stands for
    itself. `Unescape` reads a pattern made only of such literal atoms back
    into the text it matches; the two are proved to be inverse bijections,
    which is why the regex built from `Escape(s)` is a search for `s` itself. */
module Escaping {
  import opened Optional

  /** The characters escapeRegExp prefixes with a backslash. */
  predicate IsMeta(c: char) {
    c in ".*+?^${}()|[]\\"
  }

  /** Number of metacharacters in `s`. */
  function MetaCount(s: string): nat {
    if s == [] then 0 else (if IsMeta(s[0]) then 1 else 0) + MetaCount(s[1..])
  }

  /** The escaped form of one character. */
  function EscapeChar(c: char): string {
    if IsMeta(c) then ['\\', c] else [c]
  }

  /** escapeRegExp: every metacharacter gets a backslash in front of it, every
      other character is copied; the output grows by one per metacharacter. */
  function Escape(s: string): (r: string)
    ensures |r| == |s| + MetaCount(s)
  {
    if s == [] then [] else EscapeChar(s[0]) + Escape(s[1..])
  }

  /** Prepends `c` to the text of a successful parse. */
  function Prepend(c: char, o: Option<string>): Option<string> {
    match o
    case None => None
    case Some(t) => Some([c] + t)
  }

  /** Reads `p` as a regular expression built only from literal atoms: a
      character outside the metacharacter set, or a backslash followed by a
      metacharacter. Returns the text such a pattern matches, and None when `p`
      uses any other regex syntax (a bare metacharacter, a dangling backslash, a
      backslash before an ordinary character, which may be a class escape). */
  function Unescape(p: string): (r: Option<string>)
    ensures r.Some? ==> |p| == |r.value| + MetaCount(r.value)
    decreases |p|
  {
    if p == [] then Some([])
    else if p[0] == '\\' then
      if |p| >= 2 && IsMeta(p[1]) then Prepend(p[1], Unescape(p[2..])) else None
    else if IsMeta(p[0]) then None
    else Prepend(p[0], Unescape(p[1..]))
  }

  /** Escaping works character by character: it distributes over concatenation. */
  lemma {:induction false} EscapeAppend(a: string, b: string)
    ensures Escape(a + b) == Escape(a) + Escape(b)
  {
    if a == [] {
      assert a + b == b;
    } else {
      assert (a + b)[0] == a[0];
      assert (a + b)[1..] == a[1..] + b;
      EscapeAppend(a[1..], b);
      assert Escape(a + b) == EscapeChar(a[0]) + Escape(a[1..] + b);
    }
  }

  /** Round trip: the escaped search text parses back to the search text. */
  lemma {:induction false} UnescapeEscape(s: string)
    ensures Unescape(Escape(s)) == Some(s)
  {
    if s != [] {
      UnescapeEscape(s[1..]);
      var e := Escape(s);
      if IsMeta(s[0]) {
        assert e[0] == '\\' && e[1] == s[0];
        assert e == ['\\', s[0]] + Escape(s[1..]);
        assert e[2..] == Escape(s[1..]);
        assert Unescape(e) == Prepend(s[0], Unescape(e[2..]));
        assert [s[0]] + s[1..] == s;
      } else {
        assert e == [s[0]] + Escape(s[1..]);
        assert e[0] == s[0] && e[0] != '\\';
        assert e[1..] == Escape(s[1..]);
        assert Unescape(e) == Prepend(s[0], Unescape(e[1..]));
        assert [s[0]] + s[1..] == s;
      }
    }
  }

  /** Every literal-only pattern is the escaped form of the text it matches. */
  lemma {:induction false} EscapeUnescape(p: string)
    ensures Unescape(p).Some? ==> Escape(Unescape(p).value) == p
    decreases |p|
  {
    if p != [] && Unescape(p).Some? {
      var t := Unescape(p).value;
      if p[0] == '\\' {
        EscapeUnescape(p[2..]);
        assert t == [p[1]] + Unescape(p[2..]).value;
        assert t[1..] == Unescape(p[2..]).value;
        assert p == ['\\', p[1]] + p[2..];
      } else {
        EscapeUnescape(p[1..]);
        assert t == [p[0]] + Unescape(p[1..]).value;
        assert t[1..] == Unescape(p[1..]).value;
        assert p == [p[0]] + p[1..];
      }
    }
  }

  /** A pattern denotes exactly the literal text `s` iff it is `Escape(s)`. */
  lemma EscapedPatternIsLiteral(p: string, s: string)
    ensures Unescape(p) == Some(s) <==> p == Escape(s)
  {
    UnescapeEscape(s);
    EscapeUnescape(p);
  }
}
