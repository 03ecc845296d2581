/** Worked examples, proved as lemmas, on small inputs: case-sensitive and
    case-insensitive selection, a missing file, and labels with two files. */
module Scenarios {
  import opened Optional
  import opened Lines
  import opened Matching
  import opened GrepLite

  /** The three lines of the sample file. */
  lemma SampleLines()
    ensures SplitLines("hi\nfoo\nHi") == ["hi", "foo", "Hi"]
  {
    var ls := ["hi", "foo", "Hi"];
    assert JoinLines(ls[2..]) == "Hi";
    assert JoinLines(ls[1..]) == "foo\nHi";
    assert JoinLines(ls) == "hi\nfoo\nHi";
    SplitJoin(ls);
  }

  /** Which of the sample lines contain "hi", with and without ignore-case. */
  lemma SampleSelection(ignoreCase: bool)
    ensures Selected("hi", "hi", ignoreCase)
    ensures !Selected("foo", "hi", ignoreCase)
    ensures Selected("Hi", "hi", ignoreCase) <==> ignoreCase
  {
    MatchAtAll("hi", "hi", ignoreCase, 0);
    MatchAtAll("Hi", "hi", ignoreCase, 0);
    if !ignoreCase {
      assert !MatchAt("Hi", "hi", ignoreCase, 0);
    }
  }

  /** Case-sensitive search reports only the line spelled exactly as the search text. */
  lemma CaseSensitiveScenario(n: nat)
    ensures n in Numbers(FileMatches("hi\nfoo\nHi", "hi", false)) <==> n == 1
  {
    SampleLines();
    SampleSelection(false);
    ReportedIff("hi\nfoo\nHi", "hi", false, n);
  }

  /** Ignore-case search also reports the capitalised spelling. */
  lemma IgnoreCaseScenario(n: nat)
    ensures n in Numbers(FileMatches("hi\nfoo\nHi", "hi", true)) <==> n == 1 || n == 3
  {
    SampleLines();
    SampleSelection(true);
    ReportedIff("hi\nfoo\nHi", "hi", true, n);
  }

  /** A missing file: exit status 1, its path reported, nothing printed. */
  lemma MissingFileScenario()
    ensures Run([("nope.txt", NotFound)], "hi", false) == RunResult([], 1, Some("nope.txt"))
  {
  }

  /** A missing second file keeps the first file's output and skips the third. */
  lemma StopAtMissingScenario(a: string, c: string)
    ensures Run([("a", Content(a)), ("b", NotFound), ("c", Content(c))], "hi", false)
         == RunResult(FileReport("a", a, 3, "hi", false), 1, Some("b"))
  {
    var files := [("a", Content(a)), ("b", NotFound), ("c", Content(c))];
    assert files[1..] == [("b", NotFound), ("c", Content(c))];
    assert RunFrom(files[1..], 3, "hi", false) == RunResult([], 1, Some("b"));
    assert FileReport("a", a, 3, "hi", false) + [] == FileReport("a", a, 3, "hi", false);
  }

  /** With two files each file's lines carry its own label, first file first. */
  lemma TwoFilesScenario(a: string, b: string)
    ensures Run([("a", Content(a)), ("b", Content(b))], "hi", false)
         == RunResult(FileReport("a", a, 2, "hi", false) + FileReport("b", b, 2, "hi", false), 0, None)
    ensures Reporting.Label("a", 2) == "File: a, "
  {
    var files := [("a", Content(a)), ("b", Content(b))];
    assert files[1..] == [("b", Content(b))];
    assert files[1..][1..] == [];
    assert RunFrom(files[1..][1..], 2, "hi", false) == RunResult([], 0, None);
    assert RunFrom(files[1..], 2, "hi", false) == RunResult(FileReport("b", b, 2, "hi", false), 0, None);
    assert FileReport("b", b, 2, "hi", false) + [] == FileReport("b", b, 2, "hi", false);
  }
}
