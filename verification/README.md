# grep-lite, modelled in Dafny

grep-lite is a small command-line tool. It searches one or more text files
for a fixed search string, optionally ignoring case. It prints every matching
line as `[<prefix>Line <n>]: <text>`, with each occurrence of the search
string highlighted. `<n>` counts lines from 1. `<prefix>` is `File: <path>, `
when more than one file was given and empty otherwise. At the first file
that does not exist it stops with exit status 1.

This project models the pure core of `grep-lite.js` and proves properties
about it.

- `Escaping` turns the search string into a regular-expression source by
  putting a backslash before each metacharacter `.*+?^${}()|[]\`. `Unescape`
  is its inverse. `EscapedPatternIsLiteral` proves that an escaped pattern
  is a sequence of literal characters, and exactly the one produced by
  escaping the search string. Because of this, the rest of the model can
  replace the regular-expression engine with a literal search.
- `Lines` models JavaScript's `content.split('\n')` and the matching
  `join('\n')`. A trailing newline yields a final empty line. The empty file
  yields one empty line.
- `Matching` models the `test` of the non-global expression. It is a literal
  substring search in which ignore-case compares characters after
  upper-casing ASCII letters. An empty search string matches everywhere.
- `Highlighting` models `line.replace(globalRegex, m => highlight(m))`:
  - the matches are found left to right and do not overlap;
  - after an empty match the scan moves on one character;
  - each match is wrapped in abstract `Open`/`Close` marker tokens, which
    stand for the terminal colour codes (empty matches are discussed
    under "Left out").
- `Reporting` models the printed line: the decimal line number and the
  optional `File: <path>, ` prefix.
- `GrepLite` models the loop over lines and the loop over files, including
  the stop at the first missing file.
- `Scenarios` works a few concrete inputs through the whole model.

File reading is a parameter: each file is given as its path paired with
`Content(text)` or `NotFound`. The output is the sequence of printed lines.
The exit status and the missing path form the rest of the result.

## Model

| member | source | states |
|---|---|---|
| Escaping.Escape | grep-lite.js:8-10 | the escaped pattern is longer than the input by exactly the number of metacharacters |
| Escaping.EscapeAppend | grep-lite.js:8-10 | escaping works character by character: escaping a concatenation concatenates the escapes |
| Escaping.Unescape | grep-lite.js:8-10 | a pattern made only of literal atoms decodes to a text whose escape has the pattern's length |
| Escaping.UnescapeEscape | grep-lite.js:8-10 | decoding an escaped search string gives back the search string |
| Escaping.EscapeUnescape | grep-lite.js:8-10 | a pattern that decodes is the escape of what it decodes to |
| Escaping.EscapedPatternIsLiteral | grep-lite.js:47-50 | a pattern decodes to s if and only if it is the escape of s, so the expression built from the search string matches only the search string's characters |
| Matching.MetaMatchesOnlyItself | grep-lite.js:47-49 | after escaping, a metacharacter in the search string matches only itself, with or without ignore-case |
| Matching.DotIsLiteralExample | grep-lite.js:47-49 | the search string `a.b` finds `a.b` but not `axb` |
| Matching.IgnoreCaseExample | grep-lite.js:48-49 | with ignore-case, `abc` is found in `ABC`; without it, it is not |
| Lines.SplitLines | grep-lite.js:55 | splitting gives one more line than the content has newlines, and no line contains a newline |
| Lines.JoinSplit | grep-lite.js:55 | joining the lines with newlines gives back the content exactly |
| Lines.SplitJoin | grep-lite.js:55 | splitting the join of newline-free lines gives back those lines |
| Lines.TrailingNewline | grep-lite.js:55 | a trailing newline adds one empty last line |
| Matching.Adjust | grep-lite.js:48-49 | case adjustment keeps length and position and leaves the text unchanged without ignore-case |
| Matching.FindFrom | grep-lite.js:59-60 | the result is a match at or after the start position with no match before it; when absent, there is no match at or after the start |
| Matching.MatchAtIff | grep-lite.js:49 | a match at position j holds iff the case-adjusted search string occurs in the case-adjusted line at j |
| Matching.MatchedText | grep-lite.js:61-63 | the text under a match equals the search string after case adjustment |
| Matching.SelectedIff | grep-lite.js:58-60 | a line is printed iff the case-adjusted search string occurs somewhere in the case-adjusted line |
| Highlighting.FindLeftmost | grep-lite.js:61-62 | one step of the global search finds the leftmost match at or after the resume position |
| Highlighting.ScanGreedy | grep-lite.js:61-62 | the replace's match positions are the leftmost, non-overlapping list: each is the first match at or after the end of the previous one (one past it for an empty match), and no match remains after the last |
| Highlighting.GreedyUnique | grep-lite.js:61-62 | only one list of positions is leftmost and non-overlapping, so the scan is fully determined |
| Highlighting.GreedyOrdered | grep-lite.js:61-62 | the highlighted matches are in ascending order and do not overlap |
| Highlighting.GreedyComplete | grep-lite.js:61-62 | every match starts inside some highlighted match (within one step of its start), so any match that is not highlighted overlaps one that is |
| Highlighting.SpanTextsMatch | grep-lite.js:61-63 | the replaced pieces lie inside the line, in order, and each equals the search string up to case |
| Highlighting.Render | grep-lite.js:61-63 | removing the markers gives back the line; the marked spans are exactly the texts at the listed positions; each span opens at its listed position; and every opened span is closed, with no other markers |
| Highlighting.Highlight | grep-lite.js:58-64 | the highlighted line without its markers is the original line; it has a marked span iff the line is selected; every marked span equals the search string up to case; the spans open exactly at the leftmost, non-overlapping match positions the global replace visits; and each span is closed before the next opens, with no stray markers |
| Highlighting.HighlightIsGreedy | grep-lite.js:61-64 | for any list of leftmost, non-overlapping match positions, the highlighted line is exactly the line with markers around the matches at those positions |
| Highlighting.NonOverlapExample | grep-lite.js:61-62 | in `aaa`, the search string `aa` is highlighted once, at the start |
| Highlighting.EmptyPatternExample | grep-lite.js:61-62 | an empty search string puts an empty highlight before every character and at the end |
| Reporting.Decimal | grep-lite.js:65 | the line number is printed as a numeral: a non-empty run of digits with no leading zero unless the number is 0, and more than one digit iff the number is at least 10 |
| Reporting.DecimalRoundTrip | grep-lite.js:65 | reading the printed digits back gives the line number |
| Reporting.Label | grep-lite.js:56 | the file prefix is non-empty iff more than one file was given |
| Reporting.FormatLineRoundTrip | grep-lite.js:65 | the printed line can be parsed back into its line number and highlighted text |
| Reporting.NumeralRoundTrip | grep-lite.js:65 | a numeral is the printed form of its value, so each line number has exactly one printed spelling |
| Reporting.ParseLineIff | grep-lite.js:65 | an output line reads back to a line number and highlighted text iff it is exactly the line printed for them; any other spelling, such as a zero-padded number, is rejected |
| GrepLite.MatchesFrom | grep-lite.js:58-66 | the reported lines are selected lines, their numbers are 1-based and strictly ascending, and each carries that line's highlighting |
| GrepLite.MatchesFromIff | grep-lite.js:58-60 | a number is reported iff it lies in the scanned range and its line is selected |
| GrepLite.ReportedIff | grep-lite.js:55-60 | line n of a file is reported iff 1 <= n <= the number of lines and line n is selected |
| GrepLite.FileReport | grep-lite.js:56-65 | each printed line, read back with the file's prefix, gives the number of an existing, selected line of the file followed by that line's highlighting (so, by Reporting.ParseLineIff, it is exactly `[<prefix>Line <n>]: <highlighted line>`), and the printed numbers strictly ascend |
| GrepLite.FileReportIff | grep-lite.js:55-65 | some printed line of a file reads back to number n iff line n exists and is selected, so no selected line is left out and no other line is printed |
| GrepLite.RunFrom | grep-lite.js:52-75 | the exit status is 0 or 1, and it is 1 exactly when a missing path is reported |
| GrepLite.FirstMissing | grep-lite.js:52-71 | every file before the found index exists, and the file at it is missing |
| GrepLite.RunFromSpec | grep-lite.js:52-75 | the output is the outputs of the files before the first missing one, in the given order; the status is 1 and that file's path is reported iff one is missing |
| GrepLite.RunSpec | grep-lite.js:52-75 | the same for the whole run, with the file count taken from the command line |
| Scenarios.CaseSensitiveScenario | grep-lite.js:55-60 | in `hi\nfoo\nHi`, a case-sensitive search for `hi` reports only line 1 |
| Scenarios.IgnoreCaseScenario | grep-lite.js:48-60 | with ignore-case, the same search reports lines 1 and 3 |
| Scenarios.MissingFileScenario | grep-lite.js:69-71 | a single missing file prints nothing and exits with status 1, reporting its path |
| Scenarios.StopAtMissingScenario | grep-lite.js:52-71 | a missing second file keeps the first file's output and never reads the third |
| Scenarios.TwoFilesScenario | grep-lite.js:52-56 | with two files, both are searched in order and each line carries its file's prefix |

## Left out

- Argument parsing with yargs (lines 13-41) is left out. The model starts
  from the parsed file list, search string and ignore-case flag. When a
  required option is missing, the code prints a usage message and exits
  with status 1 (line 39). That path is not modelled.
- Reading files (line 54) is a parameter: each file is `Content(text)` or
  `NotFound`. Read errors other than a missing file are re-thrown (line 73),
  reported by the top-level handler (lines 78-81) and exit with status 1.
  They are not modelled.
- Console output, `process.exit` and the colour codes from chalk are left
  out. Printed lines are token sequences, and a highlight is an abstract
  `Open`/`Close` pair. The missing-file error message is represented by
  the missing path.
- Markers are placed around every match, empty ones included, but chalk
  returns an empty string unchanged and emits no codes at all when colour
  is off. So for an empty search string, or without colour, the program
  prints nothing where the model has an `Open`/`Close` pair.
- The regular-expression engine is not modelled. The search is a literal
  substring search. `Escaping.EscapedPatternIsLiteral` and
  `Matching.MetaMatchesOnlyItself` show why this is sound: after escaping,
  every atom of the pattern is one literal character.
- Matching.Adjust: ignore-case folds only the ASCII letters a-z. Without the
  `u` flag, JavaScript's case-insensitive matching upper-cases each UTF-16
  code unit, but it keeps a character whose upper case is longer than one
  unit (such as `ß`) or is ASCII when the character is not (such as `ſ`).
  So no non-ASCII character ever matches an ASCII one, and the metacharacters
  match only themselves in both. The non-ASCII folding and the code-unit
  view are left out.
- Reading with the `utf8` encoding (decoding bytes, replacing invalid
  sequences) is left out: contents are already strings.
