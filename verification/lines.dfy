/** Line splitting: `content.split('\n')` in grep-lite.js, with JavaScript's
    split semantics (no newline gives one piece, a trailing newline gives a
    final empty piece, empty content gives one empty piece). */
module Lines {

  /** Number of newline characters in `s`. */
  function NewlineCount(s: string): nat {
    if s == [] then 0 else (if s[0] == '\n' then 1 else 0) + NewlineCount(s[1..])
  }

  /** The pieces of `s` between newlines, in order. */
  function SplitLines(s: string): (r: seq<string>)
    ensures |r| == NewlineCount(s) + 1
    ensures forall k :: 0 <= k < |r| ==> '\n' !in r[k]
    decreases |s|
  {
    if s == [] then [[]]
    else
      var rest := SplitLines(s[1..]);
      if s[0] == '\n' then [[]] + rest
      else [[s[0]] + rest[0]] + rest[1..]
  }

  /** `lines.join('\n')`. */
  function JoinLines(ls: seq<string>): string {
    if |ls| == 0 then []
    else if |ls| == 1 then ls[0]
    else ls[0] + ['\n'] + JoinLines(ls[1..])
  }

  /** Joining the pieces with newlines gives back the content. */
  lemma {:induction false} JoinSplit(s: string)
    ensures JoinLines(SplitLines(s)) == s
    decreases |s|
  {
    if s != [] {
      var rest := SplitLines(s[1..]);
      JoinSplit(s[1..]);
      if s[0] == '\n' {
        assert SplitLines(s) == [[]] + rest;
        assert ([[]] + rest)[1..] == rest;
        assert s == ['\n'] + s[1..];
      } else {
        var ls := SplitLines(s);
        assert ls == [[s[0]] + rest[0]] + rest[1..];
        if |rest| == 1 {
          assert s == [s[0]] + s[1..];
        } else {
          assert ls[1..] == rest[1..];
          assert JoinLines(rest) == rest[0] + ['\n'] + JoinLines(rest[1..]);
          assert s == [s[0]] + s[1..];
        }
      }
    }
  }

  /** Splitting text whose first piece has no newline extends the first piece. */
  lemma {:induction false} SplitPrefix(a: string, b: string)
    requires '\n' !in a
    ensures SplitLines(a + b) == [a + SplitLines(b)[0]] + SplitLines(b)[1..]
    decreases |a|
  {
    if a == [] {
      assert a + b == b;
      assert SplitLines(b) == [SplitLines(b)[0]] + SplitLines(b)[1..];
      assert a + SplitLines(b)[0] == SplitLines(b)[0];
    } else {
      assert (a + b)[0] == a[0];
      assert (a + b)[1..] == a[1..] + b;
      SplitPrefix(a[1..], b);
      assert a + SplitLines(b)[0] == [a[0]] + (a[1..] + SplitLines(b)[0]);
    }
  }

  /** Splitting newline-free pieces joined with newlines gives back the pieces. */
  lemma {:induction false} SplitJoin(ls: seq<string>)
    requires |ls| >= 1
    requires forall k :: 0 <= k < |ls| ==> '\n' !in ls[k]
    ensures SplitLines(JoinLines(ls)) == ls
    decreases |ls|
  {
    if |ls| == 1 {
      SplitPrefix(ls[0], []);
      assert ls[0] + [] == ls[0];
    } else {
      var tail := JoinLines(ls[1..]);
      SplitJoin(ls[1..]);
      SplitPrefix(ls[0], ['\n'] + tail);
      assert ls[0] + ['\n'] + tail == ls[0] + (['\n'] + tail);
      assert (['\n'] + tail)[1..] == tail;
      assert SplitLines(['\n'] + tail) == [[]] + ls[1..];
      assert ls[0] + [] == ls[0];
    }
  }

  /** A trailing newline yields one extra, empty, last line. */
  lemma {:induction false} TrailingNewline(s: string)
    ensures SplitLines(s + "\n") == SplitLines(s) + [""]
    decreases |s|
  {
    if s != [] {
      assert (s + "\n")[0] == s[0];
      assert (s + "\n")[1..] == s[1..] + "\n";
      TrailingNewline(s[1..]);
    }
  }
}
