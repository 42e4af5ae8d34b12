/** Plain-text helpers shared by the renderers: line splitting with the
    semantics of Rust's `str::lines`, joining rows with a newline, padding,
    repetition, trimming and decimal formatting, and the total and the
    maximum of a sequence of numbers (Rust's `iter().max().unwrap()`). Strings are ASCII. */
module Text {

  /** `n` copies of `c` (Rust's `c.repeat(n)` on a one-character string). */
  function Repeat(c: char, n: nat): (r: string)
    ensures |r| == n
    ensures forall i :: 0 <= i < n ==> r[i] == c
  {
    if n == 0 then [] else [c] + Repeat(c, n - 1)
  }

  /** `format!("{: <w$}", s)`: left-aligned, padded with spaces to width `w`;
      a longer string is left as it is. */
  function PadRight(s: string, w: nat): (r: string)
    ensures |r| == if |s| < w then w else |s|
    ensures r[..|s|] == s
    ensures forall i :: |s| <= i < |r| ==> r[i] == ' '
  {
    if |s| < w then s + Repeat(' ', w - |s|) else s
  }

  predicate NoNewline(s: string) {
    forall i :: 0 <= i < |s| ==> s[i] != '\n'
  }

  predicate NoNewlines(rows: seq<string>) {
    forall k :: 0 <= k < |rows| ==> NoNewline(rows[k])
  }

  /** Rows joined by a single newline, no newline after the last row. */
  function JoinLines(rows: seq<string>): (r: string)
  {
    if |rows| == 0 then []
    else if |rows| == 1 then rows[0]
    else rows[0] + "\n" + JoinLines(rows[1..])
  }

  /** Words joined by `sep` (Rust's `join` on a vector of strings). */
  function Join(words: seq<string>, sep: string): (r: string)
  {
    if |words| == 0 then []
    else if |words| == 1 then words[0]
    else words[0] + sep + Join(words[1..], sep)
  }

  /** Joining newline-free words with a newline-free separator gives a
      newline-free string. */
  lemma {:induction false} JoinNoNewline(words: seq<string>, sep: string)
    requires NoNewlines(words) && NoNewline(sep)
    ensures NoNewline(Join(words, sep))
  {
    if |words| > 1 {
      JoinNoNewline(words[1..], sep);
      var rest := Join(words[1..], sep);
      var r := words[0] + sep + rest;
      forall i | 0 <= i < |r| ensures r[i] != '\n' {
        if i < |words[0]| {
          assert r[i] == words[0][i];
        } else if i < |words[0]| + |sep| {
          assert r[i] == sep[i - |words[0]|];
        } else {
          assert r[i] == rest[i - |words[0]| - |sep|];
        }
      }
    }
  }

  /** The pieces between newlines; there is always at least one piece. */
  function Split(s: string): (r: seq<string>)
    ensures |r| >= 1
    ensures NoNewlines(r)
  {
    if s == [] then [[]]
    else
      var t := Split(s[1..]);
      if s[0] == '\n' then [[]] + t else [[s[0]] + t[0]] + t[1..]
  }

  /** Rust's `str::lines` (without its removal of a carriage return): the
      pieces between newlines, where a final newline ends the last line
      instead of starting an empty one, and the empty string has no lines. */
  function Lines(s: string): (r: seq<string>)
    ensures NoNewlines(r)
  {
    var p := Split(s);
    if p[|p| - 1] == [] then p[..|p| - 1] else p
  }

  lemma {:induction false} SplitNoNewline(r: string)
    requires NoNewline(r)
    ensures Split(r) == [r]
  {
    if r != [] {
      SplitNoNewline(r[1..]);
      assert [r[0]] + r[1..] == r;
    }
  }

  lemma {:induction false} SplitJoinStep(r: string, rest: string)
    requires NoNewline(r)
    ensures Split(r + "\n" + rest) == [r] + Split(rest)
  {
    if r == [] {
      assert r + "\n" + rest == ['\n'] + rest;
      assert (r + "\n" + rest)[1..] == rest;
    } else {
      var s := r + "\n" + rest;
      assert s[1..] == r[1..] + "\n" + rest;
      SplitJoinStep(r[1..], rest);
      assert [r[0]] + r[1..] == r;
    }
  }

  /** Splitting the joined rows gives the rows back: the text rendering of a
      grid loses nothing. */
  lemma {:induction false} SplitJoinLines(rows: seq<string>)
    requires |rows| >= 1 && NoNewlines(rows)
    ensures Split(JoinLines(rows)) == rows
  {
    if |rows| == 1 {
      SplitNoNewline(rows[0]);
    } else {
      SplitJoinLines(rows[1..]);
      SplitJoinStep(rows[0], JoinLines(rows[1..]));
      assert [rows[0]] + rows[1..] == rows;
    }
  }

  lemma LinesSplit(s: string, p: seq<string>)
    requires p == Split(s)
    ensures Lines(s) == if p[|p| - 1] == [] then p[..|p| - 1] else p
  {
  }

  /** What `str::lines` makes of joined rows: the rows themselves, except that
      a last row that is empty is lost (so an all-empty single row gives no
      line at all). */
  lemma LinesOfJoin(rows: seq<string>)
    requires NoNewlines(rows)
    ensures Lines(JoinLines(rows)) ==
      if |rows| == 0 then []
      else if rows[|rows| - 1] == [] then rows[..|rows| - 1]
      else rows
  {
    var p := Split(JoinLines(rows));
    LinesSplit(JoinLines(rows), p);
    if |rows| == 0 {
      assert JoinLines(rows) == [];
      assert p == [[]];
    } else {
      SplitJoinLines(rows);
    }
  }

  /** The total of a sequence of numbers. */
  function Sum(s: seq<nat>): nat {
    if s == [] then 0 else Sum(s[..|s| - 1]) + s[|s| - 1]
  }

  lemma SumPrefix(s: seq<nat>, k: nat)
    requires k < |s|
    ensures Sum(s[..k + 1]) == Sum(s[..k]) + s[k]
  {
    assert s[..k + 1][..k] == s[..k];
  }

  /** The largest element of a non-empty sequence. */
  function Largest(s: seq<nat>): (m: nat)
    requires |s| > 0
    ensures m in s
    ensures forall k :: 0 <= k < |s| ==> s[k] <= m
  {
    if |s| == 1 then s[0]
    else
      var r := Largest(s[1..]);
      if s[0] > r then s[0] else r
  }

  /** Length of the longest line: `size_biggest_line` (src/line_gh.rs). */
  function MaxLen(lines: seq<string>): (m: nat)
    ensures forall k :: 0 <= k < |lines| ==> |lines[k]| <= m
    ensures |lines| == 0 ==> m == 0
    ensures |lines| > 0 ==> exists k :: 0 <= k < |lines| && |lines[k]| == m
  {
    if |lines| == 0 then 0
    else
      var m := MaxLen(lines[..|lines| - 1]);
      var l := |lines[|lines| - 1]|;
      assert forall k :: 0 <= k < |lines| - 1 ==> lines[k] == lines[..|lines| - 1][k];
      if l > m then l else m
  }

  /** Whitespace as Rust's `char::is_whitespace` sees it, restricted to ASCII. */
  predicate IsSpace(c: char) {
    c == ' ' || c == '\t' || c == '\n' || c == '\r' || c == '\U{B}' || c == '\U{C}'
  }

  /** The number of whitespace characters `s` starts with. */
  function LeadingSpaces(s: string): (n: nat)
    ensures n <= |s| && (n == |s| || !IsSpace(s[n]))
    ensures forall i :: 0 <= i < n ==> IsSpace(s[i])
  {
    if s != [] && IsSpace(s[0]) then 1 + LeadingSpaces(s[1..]) else 0
  }

  /** The number of whitespace characters `s` ends with. */
  function TrailingSpaces(s: string): (n: nat)
    ensures n <= |s| && (n == |s| || !IsSpace(s[|s| - n - 1]))
    ensures forall i :: |s| - n <= i < |s| ==> IsSpace(s[i])
  {
    if s != [] && IsSpace(s[|s| - 1]) then 1 + TrailingSpaces(s[..|s| - 1]) else 0
  }

  function TrimStart(s: string): (r: string)
    ensures |r| <= |s| && r == s[|s| - |r|..]
    ensures r == [] || !IsSpace(r[0])
    ensures forall i :: 0 <= i < |s| - |r| ==> IsSpace(s[i])
  {
    s[LeadingSpaces(s)..]
  }

  function TrimEnd(s: string): (r: string)
    ensures |r| <= |s| && r == s[..|r|]
    ensures r == [] || !IsSpace(r[|r| - 1])
    ensures forall i :: |r| <= i < |s| ==> IsSpace(s[i])
  {
    s[..|s| - TrailingSpaces(s)]
  }

  /** Rust's `str::trim`. */
  function Trim(s: string): string {
    TrimEnd(TrimStart(s))
  }

  function DigitChar(d: nat): (c: char)
    requires d < 10
  {
    "0123456789"[d]
  }

  /** Decimal digits of `n`, as `format!("{}", n)` prints a `usize`. */
  function NatToString(n: nat): (r: string)
    ensures |r| >= 1
    ensures forall i :: 0 <= i < |r| ==> '0' <= r[i] <= '9'
    ensures n > 0 ==> r[0] != '0'
  {
    if n < 10 then [DigitChar(n)] else NatToString(n / 10) + [DigitChar(n % 10)]
  }

  /** The value of a string of decimal digits; the inverse of NatToString. */
  function DigitsValue(s: string): nat
    requires forall i :: 0 <= i < |s| ==> '0' <= s[i] <= '9'
  {
    if s == [] then 0 else DigitsValue(s[..|s| - 1]) * 10 + (s[|s| - 1] - '0') as nat
  }

  lemma {:induction false} NatToStringRoundTrip(n: nat)
    ensures DigitsValue(NatToString(n)) == n
  {
    if n < 10 {
      DigitsValueSnoc([], n);
    } else {
      NatToStringRoundTrip(n / 10);
      DigitsValueSnoc(NatToString(n / 10), n % 10);
    }
  }

  /** Appending one digit multiplies the value by ten and adds the digit. */
  lemma DigitsValueSnoc(s: string, d: nat)
    requires d < 10 && forall i :: 0 <= i < |s| ==> '0' <= s[i] <= '9'
    ensures forall i :: 0 <= i < |s + [DigitChar(d)]| ==> '0' <= (s + [DigitChar(d)])[i] <= '9'
    ensures DigitsValue(s + [DigitChar(d)]) == DigitsValue(s) * 10 + d
  {
    assert (s + [DigitChar(d)])[..|s|] == s;
  }
}
