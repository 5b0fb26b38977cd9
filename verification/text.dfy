/** The handful of Python `str` operations the pipeline relies on:
    `str.isspace` / the `\s` class of `re`, `str.strip()`, `s.split('\n')`,
    `'\n'.join(lines)` and `str(n)` for a non-negative integer. */
module Text {

  /** Python's whitespace test. `str.strip()` and the `\s` class of a `re`
      pattern on `str` use the same set of code points. */
  predicate IsSpace(c: char) {
    c == ' ' || ('\t' <= c <= '\r') || ('\U{1C}' <= c <= '\U{1F}')
    || c == '\U{85}' || c == '\U{A0}' || c == '\U{1680}'
    || ('\U{2000}' <= c <= '\U{200A}') || c == '\U{2028}' || c == '\U{2029}'
    || c == '\U{202F}' || c == '\U{205F}' || c == '\U{3000}'
  }

  /** Number of whitespace characters at the front of `s`. */
  function LeadingSpaces(s: string): (n: nat)
    ensures n <= |s|
    ensures forall i :: 0 <= i < n ==> IsSpace(s[i])
    ensures n < |s| ==> !IsSpace(s[n])
  {
    if |s| == 0 || !IsSpace(s[0]) then 0 else 1 + LeadingSpaces(s[1..])
  }

  /** Number of whitespace characters at the back of `s`. */
  function TrailingSpaces(s: string): (n: nat)
    ensures n <= |s|
    ensures forall i :: |s| - n <= i < |s| ==> IsSpace(s[i])
    ensures n < |s| ==> !IsSpace(s[|s| - n - 1])
  {
    if |s| == 0 || !IsSpace(s[|s| - 1]) then 0 else 1 + TrailingSpaces(s[..|s| - 1])
  }

  /** `s.strip()`: the slice of `s` left after dropping whitespace at both
      ends (see `StripShape`). */
  function Strip(s: string): (r: string)
    ensures |r| <= |s|
  {
    var a := LeadingSpaces(s);
    var rest := s[a..];
    rest[..|rest| - TrailingSpaces(rest)]
  }

  /** A string that neither starts nor ends with whitespace is its own strip. */
  lemma StripUnchanged(s: string)
    requires |s| > 0 && !IsSpace(s[0]) && !IsSpace(s[|s| - 1])
    ensures Strip(s) == s
  {
    assert LeadingSpaces(s) == 0;
    assert s[0..] == s;
    assert TrailingSpaces(s) == 0;
  }

  /** What `strip` keeps: a slice of `s` that starts and ends with a
      non-space, everything cut off at either end being whitespace; it is
      empty exactly when `s` is all whitespace. */
  lemma StripShape(s: string)
    ensures LeadingSpaces(s) + |Strip(s)| <= |s|
    ensures Strip(s) == s[LeadingSpaces(s)..LeadingSpaces(s) + |Strip(s)|]
    ensures forall i :: 0 <= i < LeadingSpaces(s) ==> IsSpace(s[i])
    ensures forall i :: LeadingSpaces(s) + |Strip(s)| <= i < |s| ==> IsSpace(s[i])
    ensures Strip(s) != "" ==> !IsSpace(Strip(s)[0]) && !IsSpace(Strip(s)[|Strip(s)| - 1])
    ensures Strip(s) == "" <==> forall i :: 0 <= i < |s| ==> IsSpace(s[i])
  {
    var a := LeadingSpaces(s);
    var rest := s[a..];
    var t := TrailingSpaces(rest);
    var r := rest[..|rest| - t];
    assert r == Strip(s);
    assert r == s[a..a + |r|];
    forall i | a + |r| <= i < |s| ensures IsSpace(s[i]) {
      assert s[i] == rest[i - a];
    }
    if r != "" {
      assert r[0] == rest[0] == s[a];
      assert r[|r| - 1] == rest[|rest| - t - 1];
    }
  }

  predicate NoNewline(line: string) {
    forall i :: 0 <= i < |line| ==> line[i] != '\n'
  }

  /** `'\n'.join(lines)`. */
  function JoinLines(lines: seq<string>): string {
    if |lines| == 0 then ""
    else if |lines| == 1 then lines[0]
    else lines[0] + "\n" + JoinLines(lines[1..])
  }

  /** `s.split('\n')`: the pieces between newline characters. Python returns
      `['']` for the empty string, so the result is never empty. */
  function SplitLines(s: string): (r: seq<string>)
    ensures |r| >= 1
    ensures forall i :: 0 <= i < |r| ==> NoNewline(r[i])
    ensures JoinLines(r) == s
    decreases |s|
  {
    if |s| == 0 then [""]
    else
      var rest := SplitLines(s[1..]);
      if s[0] == '\n' then
        assert ([""] + rest)[1..] == rest;
        [""] + rest
      else
        var r := [[s[0]] + rest[0]] + rest[1..];
        assert r[1..] == rest[1..];
        assert s == [s[0]] + s[1..];
        r
  }

  /** Splitting a line followed by a newline peels that line off. */
  lemma {:induction false} SplitLinesAfterLine(line: string, s: string)
    requires NoNewline(line)
    ensures SplitLines(line + "\n" + s) == [line] + SplitLines(s)
    decreases |line|
  {
    var t := line + "\n" + s;
    if |line| == 0 {
      assert t[1..] == s;
    } else {
      assert t[1..] == line[1..] + "\n" + s;
      SplitLinesAfterLine(line[1..], s);
      assert [t[0]] + line[1..] == line;
    }
  }

  /** A line without newlines splits to itself. */
  lemma {:induction false} SplitLinesOfLine(line: string)
    requires NoNewline(line)
    ensures SplitLines(line) == [line]
    decreases |line|
  {
    if |line| > 0 {
      SplitLinesOfLine(line[1..]);
      assert [line[0]] + line[1..] == line;
    }
  }

  /** `s.split('\n')` undoes `'\n'.join(lines)` on newline-free lines. */
  lemma {:induction false} SplitJoinLines(lines: seq<string>)
    requires |lines| >= 1
    requires forall i :: 0 <= i < |lines| ==> NoNewline(lines[i])
    ensures SplitLines(JoinLines(lines)) == lines
  {
    if |lines| == 1 {
      SplitLinesOfLine(lines[0]);
    } else {
      SplitJoinLines(lines[1..]);
      SplitLinesAfterLine(lines[0], JoinLines(lines[1..]));
      assert [lines[0]] + lines[1..] == lines;
    }
  }

  /** Joining two non-empty runs of lines puts one newline between them. */
  lemma {:induction false} JoinLinesAppend(a: seq<string>, b: seq<string>)
    requires |a| >= 1 && |b| >= 1
    ensures JoinLines(a + b) == JoinLines(a) + "\n" + JoinLines(b)
  {
    if |a| == 1 {
      assert (a + b)[1..] == b;
    } else {
      assert (a + b)[1..] == a[1..] + b;
      JoinLinesAppend(a[1..], b);
    }
  }

  function DigitChar(d: nat): (c: char)
    requires d < 10
    ensures '0' <= c <= '9'
  {
    (48 + d) as char
  }

  predicate IsDigits(s: string) {
    forall i :: 0 <= i < |s| ==> '0' <= s[i] <= '9'
  }

  /** `str(n)` for a non-negative integer: its decimal digits. */
  function NatToString(n: nat): (r: string)
    ensures |r| >= 1 && IsDigits(r)
    ensures |r| > 1 ==> r[0] != '0'
  {
    if n < 10 then [DigitChar(n)] else NatToString(n / 10) + [DigitChar(n % 10)]
  }

  /** `int(s)` for a string of decimal digits. */
  function ParseNat(s: string): nat
    requires IsDigits(s)
  {
    if |s| == 0 then 0 else ParseNat(s[..|s| - 1]) * 10 + ((s[|s| - 1] as int) - 48)
  }

  /** `int(str(n)) == n`. */
  lemma {:induction false} ParseNatToString(n: nat)
    ensures ParseNat(NatToString(n)) == n
  {
    var r := NatToString(n);
    if n >= 10 {
      ParseNatToString(n / 10);
      assert r[..|r| - 1] == NatToString(n / 10);
    }
  }

  /** Distinct integers print differently. */
  lemma NatToStringInjective(m: nat, n: nat)
    requires NatToString(m) == NatToString(n)
    ensures m == n
  {
    ParseNatToString(m);
    ParseNatToString(n);
  }
}
