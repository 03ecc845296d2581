/** The per-file pipeline of grep-lite.js: for each file in the order given,
    split its content into lines, report every selected line with its 1-based
    number and highlighted text, and stop at the first file that does not
    exist, with exit status 1. Reading a file is abstracted into a
    `FileOutcome` supplied with each path. */
module GrepLite {
  import opened Optional
  import opened Lines
  import opened Matching
  import opened Highlighting
  import opened Reporting

  /** What reading a path yields: its text, or ENOENT. */
  datatype FileOutcome = Content(text: string) | NotFound

  /** One reported line: its 1-based number and its highlighted text. */
  datatype MatchResult = MatchResult(number: nat, rendered: seq<Token>)

  /** The printed lines, the exit status, and the missing file that stopped the run. */
  datatype RunResult = RunResult(output: seq<seq<Token>>, status: nat, missing: Option<string>)

  /** The line numbers of a list of results. */
  function Numbers(ms: seq<MatchResult>): seq<nat> {
    seq(|ms|, k requires 0 <= k < |ms| => ms[k].number)
  }

  /** The inner loop over lines from index `i` on: a result for every selected
      line, numbered `i + 1`, highlighted, in increasing order. */
  function MatchesFrom(lines: seq<string>, pat: string, ignoreCase: bool, i: nat): (r: seq<MatchResult>)
    requires i <= |lines|
    ensures forall k :: 0 <= k < |r| ==>
      && i < r[k].number <= |lines|
      && Selected(lines[r[k].number - 1], pat, ignoreCase)
      && r[k].rendered == Highlight(lines[r[k].number - 1], pat, ignoreCase)
    ensures forall a, b :: 0 <= a < b < |r| ==> r[a].number < r[b].number
    decreases |lines| - i
  {
    if i == |lines| then []
    else
      var rest := MatchesFrom(lines, pat, ignoreCase, i + 1);
      if Selected(lines[i], pat, ignoreCase)
      then [MatchResult(i + 1, Highlight(lines[i], pat, ignoreCase))] + rest
      else rest
  }

  /** The results for one file's content. */
  function FileMatches(content: string, pat: string, ignoreCase: bool): seq<MatchResult> {
    MatchesFrom(SplitLines(content), pat, ignoreCase, 0)
  }

  lemma NumbersAppend(a: seq<MatchResult>, b: seq<MatchResult>)
    ensures Numbers(a + b) == Numbers(a) + Numbers(b)
  {
  }

  /** A line number is reported from index `i` on iff it numbers a selected line. */
  lemma {:induction false} MatchesFromIff(lines: seq<string>, pat: string, ignoreCase: bool, i: nat, n: nat)
    requires i <= |lines|
    ensures n in Numbers(MatchesFrom(lines, pat, ignoreCase, i))
        <==> i < n <= |lines| && Selected(lines[n - 1], pat, ignoreCase)
    decreases |lines| - i
  {
    if i < |lines| {
      MatchesFromIff(lines, pat, ignoreCase, i + 1, n);
      var rest := MatchesFrom(lines, pat, ignoreCase, i + 1);
      if Selected(lines[i], pat, ignoreCase) {
        var m := MatchResult(i + 1, Highlight(lines[i], pat, ignoreCase));
        NumbersAppend([m], rest);
        assert Numbers([m]) == [i + 1];
      }
    }
  }

  /** Line `n` of a file is reported iff it exists and is selected. */
  lemma ReportedIff(content: string, pat: string, ignoreCase: bool, n: nat)
    ensures n in Numbers(FileMatches(content, pat, ignoreCase))
        <==> 1 <= n <= |SplitLines(content)| && Selected(SplitLines(content)[n - 1], pat, ignoreCase)
  {
    MatchesFromIff(SplitLines(content), pat, ignoreCase, 0, n);
  }

  /** The lines printed for one file. Read back with the file's prefix, each
      gives the number of a selected line of the file and that line's
      highlighting, and the numbers ascend. */
  function FileReport(path: string, content: string, fileCount: nat, pat: string, ignoreCase: bool): (r: seq<seq<Token>>)
    ensures forall k :: 0 <= k < |r| ==>
      PrintsSelectedLine(Label(path, fileCount), r[k], SplitLines(content), pat, ignoreCase)
    ensures forall a, b :: 0 <= a < b < |r| ==>
      var pa := ParseLine(Label(path, fileCount), r[a]);
      var pb := ParseLine(Label(path, fileCount), r[b]);
      pa.Some? && pb.Some? && pa.value.0 < pb.value.0
  {
    var lines := SplitLines(content);
    var ms := MatchesFrom(lines, pat, ignoreCase, 0);
    var r := seq(|ms|, k requires 0 <= k < |ms| => FormatLine(Label(path, fileCount), ms[k].number, ms[k].rendered));
    FormattedResults(Label(path, fileCount), lines, pat, ignoreCase, ms, r);
    r
  }

  /** Output line `t`, read back with `prefix`, gives some line number `n` of
      `lines` whose line is selected, followed by that line's highlighting. */
  predicate PrintsSelectedLine(prefix: string, t: seq<Token>, lines: seq<string>, pat: string, ignoreCase: bool) {
    match ParseLine(prefix, t)
    case None => false
    case Some(parsed) =>
      var n := parsed.0;
      && 1 <= n <= |lines|
      && Selected(lines[n - 1], pat, ignoreCase)
      && parsed.1 == Highlight(lines[n - 1], pat, ignoreCase)
  }

  /** The line number an output line reads back to with `prefix`, if any. */
  function PrintedNumber(prefix: string, t: seq<Token>): Option<nat> {
    match ParseLine(prefix, t)
    case None => None
    case Some(parsed) => Some(parsed.0)
  }

  /** Formatting the results of the line loop gives lines that read back to
      selected lines, in ascending order. */
  lemma FormattedResults(prefix: string, lines: seq<string>, pat: string, ignoreCase: bool,
                         ms: seq<MatchResult>, r: seq<seq<Token>>)
    requires ms == MatchesFrom(lines, pat, ignoreCase, 0)
    requires |r| == |ms|
    requires forall k :: 0 <= k < |r| ==> r[k] == FormatLine(prefix, ms[k].number, ms[k].rendered)
    ensures forall k :: 0 <= k < |r| ==> PrintsSelectedLine(prefix, r[k], lines, pat, ignoreCase)
    ensures forall a, b :: 0 <= a < b < |r| ==>
      var pa := ParseLine(prefix, r[a]);
      var pb := ParseLine(prefix, r[b]);
      pa.Some? && pb.Some? && pa.value.0 < pb.value.0
  {
    forall k | 0 <= k < |r|
      ensures ParseLine(prefix, r[k]) == Some((ms[k].number, ms[k].rendered))
    {
      FormatLineRoundTrip(prefix, ms[k].number, ms[k].rendered);
    }
  }

  /** Some printed line of a file reads back to line number `n` iff line `n`
      exists and is selected: no selected line is left out, and no other line
      is printed. */
  lemma FileReportIff(path: string, content: string, fileCount: nat, pat: string, ignoreCase: bool, n: nat)
    ensures var r := FileReport(path, content, fileCount, pat, ignoreCase);
      (exists k :: 0 <= k < |r| && PrintedNumber(Label(path, fileCount), r[k]) == Some(n))
      <==> 1 <= n <= |SplitLines(content)| && Selected(SplitLines(content)[n - 1], pat, ignoreCase)
  {
    PrintedNumbers(path, content, fileCount, pat, ignoreCase);
    NumberPrintedIff(Label(path, fileCount), FileReport(path, content, fileCount, pat, ignoreCase),
                     FileMatches(content, pat, ignoreCase), n);
    ReportedIff(content, pat, ignoreCase, n);
  }

  /** When the printed lines read back to the results' numbers, a number is
      printed iff it is the number of a result. */
  lemma NumberPrintedIff(prefix: string, r: seq<seq<Token>>, ms: seq<MatchResult>, n: nat)
    requires |r| == |ms|
    requires forall k :: 0 <= k < |r| ==> PrintedNumber(prefix, r[k]) == Some(ms[k].number)
    ensures (exists k :: 0 <= k < |r| && PrintedNumber(prefix, r[k]) == Some(n)) <==> n in Numbers(ms)
  {
    if n in Numbers(ms) {
      var k :| 0 <= k < |ms| && Numbers(ms)[k] == n;
      assert PrintedNumber(prefix, r[k]) == Some(n);
    }
    if exists k :: 0 <= k < |r| && PrintedNumber(prefix, r[k]) == Some(n) {
      var k :| 0 <= k < |r| && PrintedNumber(prefix, r[k]) == Some(n);
      assert Numbers(ms)[k] == n;
    }
  }

  /** The printed lines of a file read back to the numbers of its results, in order. */
  lemma PrintedNumbers(path: string, content: string, fileCount: nat, pat: string, ignoreCase: bool)
    ensures var r := FileReport(path, content, fileCount, pat, ignoreCase);
      var ms := FileMatches(content, pat, ignoreCase);
      && |r| == |ms|
      && forall k :: 0 <= k < |r| ==> PrintedNumber(Label(path, fileCount), r[k]) == Some(ms[k].number)
  {
    var prefix := Label(path, fileCount);
    var ms := FileMatches(content, pat, ignoreCase);
    var r := FileReport(path, content, fileCount, pat, ignoreCase);
    forall k | 0 <= k < |r| ensures PrintedNumber(prefix, r[k]) == Some(ms[k].number) {
      FormatLineRoundTrip(prefix, ms[k].number, ms[k].rendered);
    }
  }

  /** The file loop from the first remaining file; `fileCount` is the number of
      files given on the command line. */
  function RunFrom(files: seq<(string, FileOutcome)>, fileCount: nat, pat: string, ignoreCase: bool): (r: RunResult)
    ensures r.status == 0 || r.status == 1
    ensures r.status == 1 <==> r.missing.Some?
  {
    if files == [] then RunResult([], 0, None)
    else
      match files[0].1
      case NotFound => RunResult([], 1, Some(files[0].0))
      case Content(text) =>
        var rest := RunFrom(files[1..], fileCount, pat, ignoreCase);
        RunResult(FileReport(files[0].0, text, fileCount, pat, ignoreCase) + rest.output, rest.status, rest.missing)
  }

  /** The whole run over the files given on the command line. */
  function Run(files: seq<(string, FileOutcome)>, pat: string, ignoreCase: bool): RunResult {
    RunFrom(files, |files|, pat, ignoreCase)
  }

  /** Index of the first missing file, or the number of files when all exist. */
  function FirstMissing(files: seq<(string, FileOutcome)>): (k: nat)
    ensures k <= |files|
    ensures forall i :: 0 <= i < k ==> files[i].1.Content?
    ensures k < |files| ==> files[k].1.NotFound?
  {
    if files == [] || files[0].1.NotFound? then 0 else 1 + FirstMissing(files[1..])
  }

  /** What one file contributes to the output (nothing when missing). */
  function FileOutput(file: (string, FileOutcome), fileCount: nat, pat: string, ignoreCase: bool): seq<seq<Token>> {
    match file.1
    case Content(text) => FileReport(file.0, text, fileCount, pat, ignoreCase)
    case NotFound => []
  }

  /** Concatenation of a list of lists. */
  function Concat<T>(xss: seq<seq<T>>): seq<T> {
    if xss == [] then [] else xss[0] + Concat(xss[1..])
  }

  /** The outputs of the first `k` files, in order. */
  function Outputs(files: seq<(string, FileOutcome)>, k: nat, fileCount: nat, pat: string, ignoreCase: bool): seq<seq<seq<Token>>>
    requires k <= |files|
  {
    seq(k, i requires 0 <= i < k => FileOutput(files[i], fileCount, pat, ignoreCase))
  }

  /** The file loop, stated over the whole list: the output is the outputs of
      the files before the first missing one, file by file in the order given;
      the status is 1 and the missing path is reported iff some file is missing. */
  lemma {:induction false} RunFromSpec(files: seq<(string, FileOutcome)>, fileCount: nat, pat: string, ignoreCase: bool)
    ensures var k := FirstMissing(files);
      && RunFrom(files, fileCount, pat, ignoreCase).output == Concat(Outputs(files, k, fileCount, pat, ignoreCase))
      && RunFrom(files, fileCount, pat, ignoreCase).status == (if k < |files| then 1 else 0)
      && RunFrom(files, fileCount, pat, ignoreCase).missing == (if k < |files| then Some(files[k].0) else None)
  {
    if files != [] && files[0].1.Content? {
      var k := FirstMissing(files);
      RunFromSpec(files[1..], fileCount, pat, ignoreCase);
      var os := Outputs(files, k, fileCount, pat, ignoreCase);
      assert os[0] == FileOutput(files[0], fileCount, pat, ignoreCase);
      assert os[1..] == Outputs(files[1..], k - 1, fileCount, pat, ignoreCase);
    }
  }

  /** The whole run: output of the files before the first missing one, in
      order, with exit status 1 and the missing path iff some file is missing. */
  lemma RunSpec(files: seq<(string, FileOutcome)>, pat: string, ignoreCase: bool)
    ensures var k := FirstMissing(files);
      && Run(files, pat, ignoreCase).output == Concat(Outputs(files, k, |files|, pat, ignoreCase))
      && Run(files, pat, ignoreCase).status == (if k < |files| then 1 else 0)
      && Run(files, pat, ignoreCase).missing == (if k < |files| then Some(files[k].0) else None)
  {
    RunFromSpec(files, |files|, pat, ignoreCase);
  }
}
