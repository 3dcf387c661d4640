/**
 * String helpers with Python's meaning: code-point ordering of `str`,
 * `startswith`, ASCII `lower`/`strip`, and reading a text file line by line.
 */
module Strings {

  /** `a.startswith(p)` */
  predicate StartsWith(a: string, p: string)
  {
    |p| <= |a| && a[..|p|] == p
  }

  /** `a < b` on Python strings: lexicographic by code point, a proper prefix first. */
  predicate Less(a: string, b: string)
  {
    if |a| == 0 then |b| > 0
    else |b| > 0 && (a[0] < b[0] || (a[0] == b[0] && Less(a[1..], b[1..])))
  }

  lemma {:induction false} LessIrreflexive(a: string)
    ensures !Less(a, a)
  {
    if |a| > 0 {
      LessIrreflexive(a[1..]);
    }
  }

  lemma {:induction false} LessAsymmetric(a: string, b: string)
    ensures Less(a, b) ==> !Less(b, a)
  {
    if |a| > 0 && |b| > 0 && a[0] == b[0] {
      LessAsymmetric(a[1..], b[1..]);
    }
  }

  lemma {:induction false} LessTransitive(a: string, b: string, c: string)
    requires Less(a, b) && Less(b, c)
    ensures Less(a, c)
  {
    if |a| > 0 && a[0] == b[0] && b[0] == c[0] {
      LessTransitive(a[1..], b[1..], c[1..]);
    }
  }

  /** Python's string order is total: distinct strings are comparable. */
  lemma {:induction false} LessTotal(a: string, b: string)
    ensures a == b || Less(a, b) || Less(b, a)
  {
    if |a| > 0 && |b| > 0 && a[0] == b[0] {
      LessTotal(a[1..], b[1..]);
      if a[1..] == b[1..] {
        assert a == [a[0]] + a[1..] && b == [b[0]] + b[1..];
      }
    }
  }

  /** `c.lower()` restricted to ASCII letters. */
  function LowerChar(c: char): char
  {
    if 'A' <= c <= 'Z' then (c as int + 32) as char else c
  }

  /** `s.lower()` with ASCII case folding. */
  function Lower(s: string): (r: string)
    ensures |r| == |s|
    ensures forall i :: 0 <= i < |s| ==> r[i] == LowerChar(s[i])
  {
    if s == [] then [] else [LowerChar(s[0])] + Lower(s[1..])
  }

  /** Lower-casing is idempotent, so a lowered search term compares equal to itself lowered. */
  lemma LowerIdempotent(s: string)
    ensures Lower(Lower(s)) == Lower(s)
  {
  }

  /** The ASCII characters `str.strip()` removes; the other characters Python counts as whitespace are left out. */
  predicate IsSpace(c: char)
  {
    c == ' ' || c == '\t' || c == '\n' || c == '\r' || c == '\U{B}' || c == '\U{C}'
  }

  function StripLeft(s: string): (r: string)
    ensures |r| <= |s| && r == s[|s| - |r|..]
    ensures r == [] || !IsSpace(r[0])
    decreases |s|
  {
    if |s| > 0 && IsSpace(s[0]) then StripLeft(s[1..]) else s
  }

  function StripRight(s: string): (r: string)
    ensures |r| <= |s| && r == s[..|r|]
    ensures r == [] || !IsSpace(r[|r| - 1])
    decreases |s|
  {
    if |s| > 0 && IsSpace(s[|s| - 1]) then StripRight(s[..|s| - 1]) else s
  }

  /** `s.strip()` */
  function Strip(s: string): string
  {
    StripRight(StripLeft(s))
  }

  /** Leading whitespace never survives `strip()`: `"-e " + e` and `"-e" + e` name the same editable. */
  lemma StripIgnoresLeadingSpace(e: string)
    ensures Strip(" " + e) == Strip(e)
  {
    assert (" " + e)[1..] == e;
  }

  /** Length of the first line of `s`, its `'\n'` included. */
  function FirstLineLength(s: string): (k: nat)
    ensures s != [] ==> 1 <= k <= |s|
    ensures s == [] ==> k == 0
    ensures forall i :: 0 <= i < k - 1 ==> s[i] != '\n'
    ensures 0 < k < |s| ==> s[k - 1] == '\n'
  {
    if s == [] then 0 else if s[0] == '\n' then 1 else 1 + FirstLineLength(s[1..])
  }

  /** The lines `for line in f` yields on a text file holding `s`, with `'\n'` as the only line end: each keeps its `'\n'`. */
  function SplitLines(s: string): (lines: seq<string>)
    decreases |s|
  {
    if s == [] then []
    else
      var k := FirstLineLength(s);
      [s[..k]] + SplitLines(s[k..])
  }

  /** The file content made of the given lines. */
  function Concat(lines: seq<string>): string
  {
    if lines == [] then [] else lines[0] + Concat(lines[1..])
  }

  /** Writing two runs of lines one after the other writes their texts one after the other. */
  lemma {:induction false} ConcatAppend(a: seq<string>, b: seq<string>)
    ensures Concat(a + b) == Concat(a) + Concat(b)
  {
    if a == [] {
      assert a + b == b;
    } else {
      assert (a + b)[0] == a[0] && (a + b)[1..] == a[1..] + b;
      ConcatAppend(a[1..], b);
    }
  }

  /** A complete line: ends with its only `'\n'`. */
  predicate IsLine(l: string)
  {
    |l| > 0 && l[|l| - 1] == '\n' && forall i :: 0 <= i < |l| - 1 ==> l[i] != '\n'
  }

  /** Reading back what was written: the lines of the concatenation are the lines themselves. */
  lemma {:induction false} SplitConcat(lines: seq<string>)
    requires forall i :: 0 <= i < |lines| ==> IsLine(lines[i])
    ensures SplitLines(Concat(lines)) == lines
  {
    if lines != [] {
      var l := lines[0];
      var s := Concat(lines);
      assert s == l + Concat(lines[1..]);
      FirstLineOf(l, Concat(lines[1..]));
      assert s[..|l|] == l;
      assert s[|l|..] == Concat(lines[1..]);
      SplitConcat(lines[1..]);
    }
  }

  lemma {:induction false} FirstLineOf(l: string, rest: string)
    requires IsLine(l)
    ensures FirstLineLength(l + rest) == |l|
    decreases |l|
  {
    if |l| > 1 {
      assert (l + rest)[1..] == l[1..] + rest;
      FirstLineOf(l[1..], rest);
    }
  }

  /** Splitting loses nothing: joining the lines gives the text back. */
  lemma {:induction false} ConcatSplit(s: string)
    ensures Concat(SplitLines(s)) == s
    decreases |s|
  {
    if s != [] {
      var k := FirstLineLength(s);
      ConcatSplit(s[k..]);
      assert s == s[..k] + s[k..];
    }
  }
}
