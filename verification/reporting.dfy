/** Result formatting in grep-lite.js: each reported line is printed as
    `[<prefix>Line <n>]: <highlighted line>`, where the prefix is `File: <path>, `
    when more than one file was given and empty otherwise, and <n> is the
    decimal form of the 1-based line number. */
module Reporting {
  import opened Optional
  import opened Highlighting

  predicate IsDigit(c: char) {
    '0' <= c <= '9'
  }

  /** The decimal digit for `d`. */
  function Digit(d: nat): (c: char)
    requires d < 10
    ensures IsDigit(c)
  {
    "0123456789"[d]
  }

  /** The value of a decimal digit. */
  function DigitValue(c: char): (d: nat)
    requires IsDigit(c)
    ensures d < 10
  {
    c as int - '0' as int
  }

  /** A decimal numeral as JavaScript prints one: a non-empty run of digits
      with no leading zero, except for `0` itself. */
  predicate IsNumeral(s: string) {
    && |s| > 0
    && (forall k :: 0 <= k < |s| ==> IsDigit(s[k]))
    && (s[0] == '0' ==> |s| == 1)
  }

  /** The decimal numeral JavaScript produces for a non-negative integer: digits
      only, and no leading zero except for zero itself. */
  function Decimal(n: nat): (r: string)
    ensures IsNumeral(r)
    ensures r[0] == '0' ==> n == 0
    ensures |r| > 1 <==> n >= 10
  {
    if n < 10 then [Digit(n)] else Decimal(n / 10) + [Digit(n % 10)]
  }

  /** The value of a numeral. */
  function ParseDecimal(s: string): nat
    requires forall k :: 0 <= k < |s| ==> IsDigit(s[k])
  {
    if s == [] then 0 else ParseDecimal(s[..|s| - 1]) * 10 + DigitValue(s[|s| - 1])
  }

  /** Printing a line number and reading it back gives the number. */
  lemma {:induction false} DecimalRoundTrip(n: nat)
    ensures ParseDecimal(Decimal(n)) == n
  {
    if n >= 10 {
      var r := Decimal(n);
      DecimalRoundTrip(n / 10);
      assert r[..|r| - 1] == Decimal(n / 10);
      assert "0123456789"[n % 10] as int - '0' as int == n % 10;
    } else {
      assert "0123456789"[n] as int - '0' as int == n;
    }
  }

  /** A digit reads back to itself. */
  lemma DigitOfValue(c: char)
    requires IsDigit(c)
    ensures Digit(DigitValue(c)) == c
  {
    var d := DigitValue(c);
    assert "0123456789"[d] as int - '0' as int == d;
  }

  /** Reading a numeral and printing the value gives the numeral back, so a
      numeral is the only spelling of its value. */
  lemma {:induction false} NumeralRoundTrip(ds: string)
    requires IsNumeral(ds)
    ensures Decimal(ParseDecimal(ds)) == ds
    decreases |ds|
  {
    var last := ds[|ds| - 1];
    DigitOfValue(last);
    if |ds| == 1 {
      assert ParseDecimal(ds) == ParseDecimal([]) * 10 + DigitValue(last);
      assert [last] == ds;
    } else {
      var init := ds[..|ds| - 1];
      assert init[0] == ds[0];
      NumeralRoundTrip(init);
      var m := ParseDecimal(init);
      var v := ParseDecimal(ds);
      assert v == m * 10 + DigitValue(last);
      assert m != 0;
      assert v / 10 == m && v % 10 == DigitValue(last);
      assert init + [last] == ds;
    }
  }

  /** The file prefix: `File: <path>, ` when several files are searched. */
  function Label(path: string, fileCount: nat): (r: string)
    ensures |r| > 0 <==> fileCount > 1
  {
    if fileCount > 1 then "File: " + path + ", " else ""
  }

  /** One output line: `[<prefix>Line <n>]: ` followed by the highlighted line. */
  function FormatLine(prefix: string, n: nat, highlighted: seq<Token>): seq<Token> {
    Plain("[" + prefix + "Line " + Decimal(n) + "]: ") + highlighted
  }

  /** The leading run of digit characters of a token sequence. */
  function LeadingDigits(t: seq<Token>): (r: string)
    ensures |r| <= |t|
    ensures forall k :: 0 <= k < |r| ==> IsDigit(r[k]) && t[k] == Char(r[k])
    ensures |r| < |t| ==> !(t[|r|].Char? && IsDigit(t[|r|].c))
  {
    if t != [] && t[0].Char? && IsDigit(t[0].c) then [t[0].c] + LeadingDigits(t[1..]) else []
  }

  /** Reads an output line back, given the prefix it was printed with: the line
      number and the highlighted line, or None when the line is not of the form
      FormatLine prints. */
  function ParseLine(prefix: string, t: seq<Token>): Option<(nat, seq<Token>)> {
    var head := Plain("[" + prefix + "Line ");
    if |t| < |head| || t[..|head|] != head then None
    else
      var rest := t[|head|..];
      var digits := LeadingDigits(rest);
      var tail := rest[|digits|..];
      if !IsNumeral(digits) || |tail| < 3 || tail[..3] != Plain("]: ") then None
      else Some((ParseDecimal(digits), tail[3..]))
  }

  lemma PlainAppend(a: string, b: string)
    ensures Plain(a + b) == Plain(a) + Plain(b)
  {
  }

  /** Digits followed by a non-digit: the digit run is exactly the digits. */
  lemma {:induction false} LeadingDigitsOf(ds: string, u: seq<Token>)
    requires forall k :: 0 <= k < |ds| ==> IsDigit(ds[k])
    requires u != [] && !(u[0].Char? && IsDigit(u[0].c))
    ensures LeadingDigits(Plain(ds) + u) == ds
  {
    if ds != [] {
      assert (Plain(ds) + u)[1..] == Plain(ds[1..]) + u;
      LeadingDigitsOf(ds[1..], u);
      assert [ds[0]] + ds[1..] == ds;
    } else {
      assert Plain(ds) + u == u;
    }
  }

  /** Every output line can be read back into the line number and the
      highlighted line it was printed from. */
  lemma FormatLineRoundTrip(prefix: string, n: nat, h: seq<Token>)
    ensures ParseLine(prefix, FormatLine(prefix, n, h)) == Some((n, h))
  {
    var headText := "[" + prefix + "Line ";
    var head := Plain(headText);
    var ds := Decimal(n);
    var sep := Plain("]: ");
    var t := FormatLine(prefix, n, h);
    PlainAppend(headText + ds, "]: ");
    PlainAppend(headText, ds);
    assert t == head + (Plain(ds) + (sep + h));
    assert t[..|head|] == head;
    var rest := t[|head|..];
    assert rest == Plain(ds) + (sep + h);
    LeadingDigitsOf(ds, sep + h);
    assert rest[|ds|..] == sep + h;
    assert (sep + h)[..3] == sep;
    assert (sep + h)[3..] == h;
    DecimalRoundTrip(n);
  }

  /** An output line reads back to (n, h) exactly when it is the line printed
      for n and h: the printed form is the only text that parses, so a line
      number spelled any other way (with a leading zero, say) is rejected. */
  lemma ParseLineIff(prefix: string, t: seq<Token>, n: nat, h: seq<Token>)
    ensures ParseLine(prefix, t) == Some((n, h)) <==> t == FormatLine(prefix, n, h)
  {
    FormatLineRoundTrip(prefix, n, h);
    if ParseLine(prefix, t) == Some((n, h)) {
      ParsedIsFormatted(prefix, t, n, h);
    }
  }

  lemma ParsedIsFormatted(prefix: string, t: seq<Token>, n: nat, h: seq<Token>)
    requires ParseLine(prefix, t) == Some((n, h))
    ensures t == FormatLine(prefix, n, h)
  {
    var head := Plain("[" + prefix + "Line ");
    var rest := t[|head|..];
    var digits := LeadingDigits(rest);
    LeadingDigitsPrefix(rest);
    ThreeParts(t, head, Plain(digits), Plain("]: "), h);
    NumeralRoundTrip(digits);
    FormatLineParts(prefix, n, h);
  }

  /** A sequence that starts with `a`, continues with `b` and then `c`, and
      ends with `d` is their concatenation. */
  lemma ThreeParts(t: seq<Token>, a: seq<Token>, b: seq<Token>, c: seq<Token>, d: seq<Token>)
    requires |a| <= |t| && t[..|a|] == a
    requires |b| <= |t| - |a| && t[|a|..][..|b|] == b
    requires |c| <= |t| - |a| - |b| && t[|a|..][|b|..][..|c|] == c
    requires t[|a|..][|b|..][|c|..] == d
    ensures t == a + (b + (c + d))
  {
    var rest := t[|a|..];
    var tail := rest[|b|..];
    assert tail == c + d by {
      assert tail[..|c|] + tail[|c|..] == tail;
    }
    assert rest == b + tail by {
      assert rest[..|b|] + rest[|b|..] == rest;
    }
    assert t[..|a|] + rest == t;
  }

  /** The tokens a digit run was read from spell that run. */
  lemma LeadingDigitsPrefix(t: seq<Token>)
    ensures t[..|LeadingDigits(t)|] == Plain(LeadingDigits(t))
  {
  }

  /** A printed line is its head, the numeral, the separator and the highlighted line. */
  lemma FormatLineParts(prefix: string, n: nat, h: seq<Token>)
    ensures FormatLine(prefix, n, h) == Plain("[" + prefix + "Line ") + (Plain(Decimal(n)) + (Plain("]: ") + h))
  {
    var headText := "[" + prefix + "Line ";
    PlainAppend(headText + Decimal(n), "]: ");
    PlainAppend(headText, Decimal(n));
  }
}
