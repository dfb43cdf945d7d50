/**
 * The few Python `str` operations the filter relies on: `isspace`/`strip`,
 * `splitlines`, `lower` and `startswith`. Whitespace and line boundaries are
 * Python's own character sets; lower-casing is ASCII only.
 */
module Text {

  /** The characters for which Python's `str.isspace` holds. */
  const Whitespace: set<char> := {
    '\t', '\n', '\U{0B}', '\U{0C}', '\r', '\U{1C}', '\U{1D}', '\U{1E}', '\U{1F}', ' ',
    '\U{85}', '\U{A0}', '\U{1680}',
    '\U{2000}', '\U{2001}', '\U{2002}', '\U{2003}', '\U{2004}', '\U{2005}',
    '\U{2006}', '\U{2007}', '\U{2008}', '\U{2009}', '\U{200A}',
    '\U{2028}', '\U{2029}', '\U{202F}', '\U{205F}', '\U{3000}'
  }

  /** Python's `str.isspace` for a single character, written as the ranges of `Whitespace`. */
  predicate IsSpace(c: char) {
    ('\t' <= c <= '\r') || ('\U{1C}' <= c <= ' ') || c == '\U{85}' || c == '\U{A0}' || c == '\U{1680}' ||
    ('\U{2000}' <= c <= '\U{200A}') || c == '\U{2028}' || c == '\U{2029}' || c == '\U{202F}' ||
    c == '\U{205F}' || c == '\U{3000}'
  }

  /** The ranges name exactly the characters of `Whitespace`. */
  lemma IsSpaceIsWhitespace(c: char)
    ensures IsSpace(c) <==> c in Whitespace
  {
  }

  /** A string whose every character is whitespace (the empty string included). */
  predicate IsBlank(s: string) {
    forall k :: 0 <= k < |s| ==> IsSpace(s[k])
  }

  /** A string with no whitespace at either end, as `Trim` leaves it. */
  predicate Tidy(s: string) {
    s == [] || (!IsSpace(s[0]) && !IsSpace(s[|s| - 1]))
  }

  /** The first position at or after `i` that holds no whitespace, or `|s|`. */
  function SkipSpaces(s: string, i: nat): (n: nat)
    requires i <= |s|
    ensures i <= n <= |s|
    ensures forall k :: i <= k < n ==> IsSpace(s[k])
    ensures n < |s| ==> !IsSpace(s[n])
    decreases |s| - i
  {
    if i < |s| && IsSpace(s[i]) then SkipSpaces(s, i + 1) else i
  }

  /** The position just after the last character before `j` that is not whitespace, or 0. */
  function BackSpaces(s: string, j: nat): (n: nat)
    requires j <= |s|
    ensures n <= j
    ensures forall k :: n <= k < j ==> IsSpace(s[k])
    ensures 0 < n ==> !IsSpace(s[n - 1])
    decreases j
  {
    if 0 < j && IsSpace(s[j - 1]) then BackSpaces(s, j - 1) else j
  }

  /** Python's `str.strip()` with no argument: no whitespace is left at either end. */
  function Trim(s: string): (r: string)
    ensures |r| <= |s|
    ensures Tidy(r)
  {
    var p := SkipSpaces(s, 0);
    var q := BackSpaces(s, |s|);
    if q <= p then [] else s[p..q]
  }

  /**
   * `Trim` removes whitespace and nothing else: its result sits in `s` at
   * offset `p`, with only whitespace before and after it.
   */
  lemma TrimRemovesOnlyBlank(s: string)
    ensures var r := Trim(s);
      var p := SkipSpaces(s, 0);
      p + |r| <= |s| &&
      (forall k :: 0 <= k < |r| ==> r[k] == s[p + k]) &&
      (forall k :: 0 <= k < p ==> IsSpace(s[k])) &&
      (forall k :: p + |r| <= k < |s| ==> IsSpace(s[k]))
  {
    var p := SkipSpaces(s, 0);
    var q := BackSpaces(s, |s|);
    assert p < |s| ==> p < q;
  }

  /**
   * The converse: whenever `s` is whitespace, then a non-empty `r` with no
   * whitespace at its ends, then whitespace, stripping `s` gives `r`.
   */
  lemma TrimUnique(s: string, p: nat, r: string)
    requires r != [] && Tidy(r) && p + |r| <= |s|
    requires forall k :: 0 <= k < |r| ==> r[k] == s[p + k]
    requires forall k :: 0 <= k < p ==> IsSpace(s[k])
    requires forall k :: p + |r| <= k < |s| ==> IsSpace(s[k])
    ensures Trim(s) == r
  {
    var q := p + |r|;
    assert s[p] == r[0] && s[q - 1] == r[|r| - 1];
    assert SkipSpaces(s, 0) == p;
    assert BackSpaces(s, |s|) == q;
    assert s[p..q] == r;
  }

  /** Stripping leaves nothing exactly when the string is all whitespace. */
  lemma TrimEmptyIffBlank(s: string)
    ensures Trim(s) == [] <==> IsBlank(s)
  {
    var p := SkipSpaces(s, 0);
    assert p < |s| ==> p < BackSpaces(s, |s|);
  }

  /** A string with no whitespace at either end is left alone by `Trim`. */
  lemma TrimFixed(s: string)
    requires Tidy(s)
    ensures Trim(s) == s
  {
    if s != [] {
      TrimUnique(s, 0, s);
    }
  }

  /** Stripping twice is stripping once. */
  lemma TrimIdempotent(s: string)
    ensures Trim(Trim(s)) == Trim(s)
  {
    TrimFixed(Trim(s));
  }

  /** Whitespace in front of a string does not survive stripping. */
  lemma TrimIgnoresLeadingBlank(ws: string, s: string)
    requires IsBlank(ws)
    ensures Trim(ws + s) == Trim(s)
  {
    var u := ws + s;
    TrimEmptyIffBlank(s);
    TrimEmptyIffBlank(u);
    var r := Trim(s);
    if r != [] {
      TrimRemovesOnlyBlank(s);
      var p := SkipSpaces(s, 0);
      forall k | 0 <= k < |r|
        ensures r[k] == u[|ws| + p + k]
      {
        assert u[|ws| + p + k] == s[p + k];
      }
      forall k | 0 <= k < |ws| + p
        ensures IsSpace(u[k])
      {
        if k >= |ws| {
          assert u[k] == s[k - |ws|];
        }
      }
      forall k | |ws| + p + |r| <= k < |u|
        ensures IsSpace(u[k])
      {
        assert u[k] == s[k - |ws|];
      }
      TrimUnique(u, |ws| + p, r);
    } else {
      assert IsBlank(u) by {
        forall k | 0 <= k < |u|
          ensures IsSpace(u[k])
        {
          if k >= |ws| {
            assert u[k] == s[k - |ws|];
          }
        }
      }
    }
  }

  /** ASCII lower-casing of one character; every other character is kept. */
  function LowerChar(c: char): char {
    if 'A' <= c <= 'Z' then (c as int + 32) as char else c
  }

  /** `s` lower-cased character by character. */
  function Lower(s: string): (r: string)
    ensures |r| == |s|
    ensures forall k :: 0 <= k < |s| ==> r[k] == LowerChar(s[k])
  {
    if s == [] then [] else [LowerChar(s[0])] + Lower(s[1..])
  }

  /** Python's `s.startswith(p)`. */
  predicate StartsWith(s: string, p: string) {
    |p| <= |s| && s[..|p|] == p
  }

  /** A line boundary as Python's `str.splitlines` recognises it. */
  predicate IsLineBreak(c: char) {
    || c == '\n' || c == '\r' || c == '\U{0B}' || c == '\U{0C}'
    || c == '\U{1C}' || c == '\U{1D}' || c == '\U{1E}'
    || c == '\U{85}' || c == '\U{2028}' || c == '\U{2029}'
  }

  /** The index of the first line boundary in `s`, or `|s|` if it has none. */
  function FirstBreak(s: string): (i: nat)
    ensures i <= |s|
    ensures i < |s| ==> IsLineBreak(s[i])
    ensures forall k :: 0 <= k < i ==> !IsLineBreak(s[k])
  {
    if s == [] || IsLineBreak(s[0]) then 0 else 1 + FirstBreak(s[1..])
  }

  /**
   * Python's `str.splitlines()`: the pieces between line boundaries, where
   * "\r\n" counts as one boundary and a final boundary opens no extra line.
   */
  function SplitLines(s: string): (lines: seq<string>)
    ensures forall n, k :: 0 <= n < |lines| && 0 <= k < |lines[n]| ==> !IsLineBreak(lines[n][k])
    ensures s == [] <==> lines == []
    decreases |s|
  {
    if s == [] then []
    else
      var i := FirstBreak(s);
      if i == |s| then [s]
      else
        var next := if s[i] == '\r' && i + 1 < |s| && s[i + 1] == '\n' then i + 2 else i + 1;
        [s[..i]] + SplitLines(s[next..])
  }

  /** The lines joined with a single "\n" between neighbours. */
  function JoinLines(lines: seq<string>): string {
    if lines == [] then []
    else if |lines| == 1 then lines[0]
    else lines[0] + "\n" + JoinLines(lines[1..])
  }

  /**
   * Splitting undoes joining, for lines free of boundaries whose last line is
   * not empty (Python drops a trailing empty line).
   */
  lemma {:induction false} SplitJoinLines(lines: seq<string>)
    requires lines != [] && lines[|lines| - 1] != []
    requires forall n, k :: 0 <= n < |lines| && 0 <= k < |lines[n]| ==> !IsLineBreak(lines[n][k])
    ensures SplitLines(JoinLines(lines)) == lines
    decreases |lines|
  {
    var s := JoinLines(lines);
    if |lines| == 1 {
      NoBreakMeansWhole(lines[0]);
    } else {
      var rest := JoinLines(lines[1..]);
      assert s == lines[0] + "\n" + rest;
      BreakAfterPrefix(lines[0], rest);
      var next := |lines[0]| + 1;
      assert s[next..] == rest;
      assert s[..|lines[0]|] == lines[0];
      SplitJoinLines(lines[1..]);
    }
  }

  lemma NoBreakMeansWhole(s: string)
    requires s != []
    requires forall k :: 0 <= k < |s| ==> !IsLineBreak(s[k])
    ensures FirstBreak(s) == |s|
  {
  }

  lemma BreakAfterPrefix(a: string, b: string)
    requires forall k :: 0 <= k < |a| ==> !IsLineBreak(a[k])
    ensures FirstBreak(a + "\n" + b) == |a|
  {
    var s := a + "\n" + b;
    assert forall k :: 0 <= k < |a| ==> s[k] == a[k];
    assert s[|a|] == '\n';
  }
}
