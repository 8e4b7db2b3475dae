/**
 * The three pieces of Go's standard library that main.go relies on to turn
 * file text into a version string: bufio.ScanLines (the default split
 * function of bufio.Scanner), strings.TrimSpace and strings.ReplaceAll with
 * an empty replacement. A Go string is modelled as its sequence of runes.
 */
module GoStrings {

  // ---------------------------------------------------------------------
  // Whitespace as strings.TrimSpace sees it (unicode.IsSpace)
  // ---------------------------------------------------------------------

  /** unicode.IsSpace: the Latin-1 spaces plus the Unicode White_Space runes. */
  predicate IsSpace(c: char) {
    var n := c as int;
    (0x09 <= n <= 0x0D) || n == 0x20 || n == 0x85 || n == 0xA0 || n == 0x1680
    || (0x2000 <= n <= 0x200A) || n == 0x2028 || n == 0x2029 || n == 0x202F
    || n == 0x205F || n == 0x3000
  }

  predicate AllSpace(s: string) {
    forall k :: 0 <= k < |s| ==> IsSpace(s[k])
  }

  /** Neither end of `s` is whitespace: what TrimSpace leaves behind. */
  predicate Trimmed(s: string) {
    s == [] || (!IsSpace(s[0]) && !IsSpace(s[|s| - 1]))
  }

  /** The first index from `i` on that is not whitespace, or |s|. */
  function SpanLeft(s: string, i: nat): (a: nat)
    requires i <= |s|
    ensures i <= a <= |s|
    ensures forall k :: i <= k < a ==> IsSpace(s[k])
    ensures a < |s| ==> !IsSpace(s[a])
    decreases |s| - i
  {
    if i < |s| && IsSpace(s[i]) then SpanLeft(s, i + 1) else i
  }

  /** The end of the last character before `j` and at or after `lo` that is not whitespace, or `lo`. */
  function SpanRight(s: string, lo: nat, j: nat): (b: nat)
    requires lo <= j <= |s|
    ensures lo <= b <= j
    ensures forall k :: b <= k < j ==> IsSpace(s[k])
    ensures b > lo ==> !IsSpace(s[b - 1])
    decreases j
  {
    if j > lo && IsSpace(s[j - 1]) then SpanRight(s, lo, j - 1) else j
  }

  /**
   * strings.TrimSpace: the result is a slice of `s` that leaves only
   * whitespace on either side of it and is itself trimmed at both ends.
   */
  function TrimSpace(s: string): (r: string)
    ensures |r| <= |s|
    ensures exists a :: 0 <= a <= a + |r| <= |s| && r == s[a..a + |r|]
                        && AllSpace(s[..a]) && AllSpace(s[a + |r|..])
    ensures Trimmed(r)
  {
    var a := SpanLeft(s, 0);
    var b := SpanRight(s, a, |s|);
    var r := s[a..b];
    assert a + |r| == b;
    assert r != [] ==> r[0] == s[a] && r[|r| - 1] == s[b - 1];
    assert AllSpace(s[..a]) && AllSpace(s[a + |r|..]);
    r
  }

  /** SpanLeft stops at the first non-space at or after `i`. */
  lemma {:induction false} SpanLeftAt(s: string, i: nat, a: nat)
    requires i <= a <= |s|
    requires forall k :: i <= k < a ==> IsSpace(s[k])
    requires a < |s| ==> !IsSpace(s[a])
    ensures SpanLeft(s, i) == a
    decreases a - i
  {
    if i < a {
      SpanLeftAt(s, i + 1, a);
    }
  }

  /** SpanRight stops just after the last non-space before `j`. */
  lemma {:induction false} SpanRightAt(s: string, lo: nat, j: nat, b: nat)
    requires lo <= b <= j <= |s|
    requires forall k :: b <= k < j ==> IsSpace(s[k])
    requires b > lo ==> !IsSpace(s[b - 1])
    ensures SpanRight(s, lo, j) == b
    decreases j - b
  {
    if b < j {
      SpanRightAt(s, lo, j - 1, b);
    }
  }

  /**
   * TrimSpace is the only way of cutting whitespace off both ends that
   * leaves a trimmed middle: any such decomposition of `s` gives its result.
   */
  lemma TrimSpaceUnique(p: string, m: string, q: string)
    requires AllSpace(p) && AllSpace(q) && Trimmed(m)
    ensures TrimSpace(p + m + q) == m
  {
    var s := p + m + q;
    assert forall k :: 0 <= k < |p| ==> s[k] == p[k];
    assert forall k :: |p| <= k < |p| + |m| ==> s[k] == m[k - |p|];
    assert forall k :: |p| + |m| <= k < |s| ==> s[k] == q[k - |p| - |m|];
    if m == [] {
      SpanLeftAt(s, 0, |s|);
      SpanRightAt(s, |s|, |s|, |s|);
    } else {
      SpanLeftAt(s, 0, |p|);
      SpanRightAt(s, |p|, |s|, |p| + |m|);
      assert s[|p|..|p| + |m|] == m;
    }
  }

  /** A string with no whitespace at either end is left as it is. */
  lemma TrimSpaceKeepsTrimmed(s: string)
    requires Trimmed(s)
    ensures TrimSpace(s) == s
  {
    TrimSpaceUnique([], s, []);
    assert [] + s + [] == s;
  }

  // ---------------------------------------------------------------------
  // strings.ReplaceAll(s, pat, "")
  // ---------------------------------------------------------------------

  /** `pat` occurs in `s` starting at index `i`. */
  predicate OccursAt(s: string, pat: string, i: int) {
    0 <= i && i + |pat| <= |s| && s[i..i + |pat|] == pat
  }

  predicate Contains(s: string, pat: string) {
    exists i :: 0 <= i <= |s| - |pat| && OccursAt(s, pat, i)
  }

  /**
   * strings.ReplaceAll(s, pat, ""): scanning left to right, every
   * occurrence of `pat` that does not overlap an earlier removed one is cut
   * out. With an empty `pat`, old and new are equal and Go returns `s`.
   */
  function RemoveAll(s: string, pat: string): (r: string)
    ensures |r| <= |s|
    decreases |s|
  {
    if pat == [] || |s| < |pat| then s
    else if s[..|pat|] == pat then RemoveAll(s[|pat|..], pat)
    else [s[0]] + RemoveAll(s[1..], pat)
  }

  /** A string in which `pat` does not occur comes back unchanged. */
  lemma {:induction false} RemoveAllNoOccurrence(s: string, pat: string)
    requires !Contains(s, pat)
    ensures RemoveAll(s, pat) == s
    decreases |s|
  {
    if pat != [] && |s| >= |pat| {
      assert !OccursAt(s, pat, 0);
      assert s[..|pat|] != pat;
      forall i | OccursAt(s[1..], pat, i) ensures false {
        assert s[1..][i..i + |pat|] == s[i + 1..i + 1 + |pat|];
        assert OccursAt(s, pat, i + 1);
      }
      RemoveAllNoOccurrence(s[1..], pat);
      assert [s[0]] + s[1..] == s;
    }
  }

  /** A string in which a non-empty `pat` occurs comes back strictly shorter. */
  lemma {:induction false} RemoveAllShortens(s: string, pat: string, i: int)
    requires pat != [] && OccursAt(s, pat, i)
    ensures |RemoveAll(s, pat)| < |s|
    decreases |s|
  {
    if s[..|pat|] != pat {
      assert i != 0;
      assert s[1..][i - 1..i - 1 + |pat|] == s[i..i + |pat|];
      RemoveAllShortens(s[1..], pat, i - 1);
    }
  }

  /** RemoveAll changes its input exactly when the pattern occurs in it. */
  lemma RemoveAllIdentityIff(s: string, pat: string)
    requires pat != []
    ensures RemoveAll(s, pat) == s <==> !Contains(s, pat)
  {
    if Contains(s, pat) {
      var i :| OccursAt(s, pat, i);
      RemoveAllShortens(s, pat, i);
    } else {
      RemoveAllNoOccurrence(s, pat);
    }
  }

  /** Occurrences in the tail of `s` are the occurrences in `s` shifted by one. */
  lemma OccursInTail(s: string, pat: string, j: int)
    requires s != [] && 0 <= j
    ensures OccursAt(s[1..], pat, j) <==> OccursAt(s, pat, j + 1)
  {
    if 0 <= j && j + |pat| <= |s| - 1 {
      assert s[1..][j..j + |pat|] == s[j + 1..j + 1 + |pat|];
    }
  }

  /** Where `pat` does not start at the front, the first character is kept. */
  lemma RemoveAllKeepsFirst(s: string, pat: string)
    requires pat != [] && |pat| <= |s| && !OccursAt(s, pat, 0)
    ensures RemoveAll(s, pat) == [s[0]] + RemoveAll(s[1..], pat)
  {
    assert s[..|pat|] != pat;
  }

  /**
   * The leftmost occurrence is the first one cut: everything before it is
   * kept and the rest is processed from just after it.
   */
  lemma {:induction false} RemoveAllLeftmost(s: string, pat: string, i: int)
    requires pat != [] && OccursAt(s, pat, i)
    requires forall j :: 0 <= j < i ==> !OccursAt(s, pat, j)
    ensures RemoveAll(s, pat) == s[..i] + RemoveAll(s[i + |pat|..], pat)
    decreases i
  {
    if i > 0 {
      var t := s[1..];
      RemoveAllKeepsFirst(s, pat);
      OccursInTail(s, pat, i - 1);
      NoneEarlierInTail(s, pat, i);
      RemoveAllLeftmost(t, pat, i - 1);
      assert t[i - 1 + |pat|..] == s[i + |pat|..];
      ConsPrefix(s, i, RemoveAll(s[i + |pat|..], pat));
    }
  }

  /** No occurrence before `i` in `s` means none before `i - 1` in its tail. */
  lemma NoneEarlierInTail(s: string, pat: string, i: int)
    requires 0 < i <= |s|
    requires forall j :: 0 <= j < i ==> !OccursAt(s, pat, j)
    ensures forall j :: 0 <= j < i - 1 ==> !OccursAt(s[1..], pat, j)
  {
    forall j | 0 <= j < i - 1 ensures !OccursAt(s[1..], pat, j) {
      OccursInTail(s, pat, j);
    }
  }

  /** Putting the first character back in front of a prefix of the tail. */
  lemma ConsPrefix(s: string, i: int, after: string)
    requires 0 < i <= |s|
    ensures [s[0]] + (s[1..][..i - 1] + after) == s[..i] + after
  {
    assert [s[0]] + s[1..][..i - 1] == s[..i];
  }

  // ---------------------------------------------------------------------
  // bufio.Scanner with its default split function, bufio.ScanLines
  // ---------------------------------------------------------------------

  /** Index of the first newline of `s`, or |s| when there is none. */
  function LineEnd(s: string): (i: nat)
    ensures i <= |s| && '\n' !in s[..i]
    ensures i < |s| ==> s[i] == '\n'
  {
    if s == [] then 0
    else if s[0] == '\n' then 0
    else
      var i := LineEnd(s[1..]);
      assert s[..i + 1] == [s[0]] + s[1..][..i];
      i + 1
  }

  /** The first newline is at `i` when `s[i]` is one and none comes before it. */
  lemma LineEndAt(s: string, i: nat)
    requires i < |s| && s[i] == '\n' && '\n' !in s[..i]
    ensures LineEnd(s) == i
  {
  }

  /** bufio's dropCR: one carriage return at the end of a line is dropped. */
  function DropCR(s: string): (r: string)
    ensures r == s || (s == r + ['\r'])
    ensures r == s <==> s == [] || s[|s| - 1] != '\r'
  {
    if s != [] && s[|s| - 1] == '\r' then s[..|s| - 1] else s
  }

  /**
   * The tokens bufio.ScanLines produces: the text is cut at every newline,
   * the newline itself is not part of a token, a final line without a
   * newline is still a token, and each token loses one trailing '\r'.
   */
  function SplitLines(text: string): (lines: seq<string>)
    ensures forall k :: 0 <= k < |lines| ==> '\n' !in lines[k]
    decreases |text|
  {
    if text == [] then []
    else
      var i := LineEnd(text);
      if i < |text| then [DropCR(text[..i])] + SplitLines(text[i + 1..])
      else [DropCR(text)]
  }

  /** Each line followed by a newline: the text that a list of lines is written as. */
  function Terminated(lines: seq<string>): string {
    if lines == [] then [] else lines[0] + "\n" + Terminated(lines[1..])
  }

  /** A line the scanner gives back as it is: no newline in it, no '\r' at its end. */
  predicate PlainLine(line: string) {
    '\n' !in line && (line == [] || line[|line| - 1] != '\r')
  }

  /**
   * The scanner's first token is the text up to the first newline, less
   * one trailing '\r', and scanning resumes just after that newline.
   */
  lemma SplitLinesCut(line: string, rest: string)
    requires '\n' !in line
    ensures SplitLines(line + "\n" + rest) == [DropCR(line)] + SplitLines(rest)
  {
    var text := line + "\n" + rest;
    assert text[|line|] == '\n';
    assert text[..|line|] == line;
    LineEndAt(text, |line|);
    assert text[|line| + 1..] == rest;
  }

  /** A final line without a newline is still a token, less one trailing '\r'. */
  lemma SplitLinesLast(text: string)
    requires text != [] && '\n' !in text
    ensures SplitLines(text) == [DropCR(text)]
  {
  }

  /** A plain first line comes back as it is. */
  lemma SplitLinesFirst(line: string, rest: string)
    requires PlainLine(line)
    ensures SplitLines(line + "\n" + rest) == [line] + SplitLines(rest)
  {
    SplitLinesCut(line, rest);
  }

  /** A "\r\n" line ending loses both characters, and an unterminated last line is kept. */
  lemma ScanLinesExamples()
    ensures SplitLines("a\r\nb") == ["a", "b"]
    ensures SplitLines("\r") == [""]
  {
    assert "a\r" + "\n" + "b" == "a\r\nb";
    SplitLinesCut("a\r", "b");
    assert DropCR("a\r") == "a";
    SplitLinesLast("b");
    SplitLinesLast("\r");
    assert DropCR("\r") == "";
  }

  /** Writing lines out and scanning them gives the same lines back. */
  lemma {:induction false} SplitTerminated(lines: seq<string>)
    requires forall k :: 0 <= k < |lines| ==> PlainLine(lines[k])
    ensures SplitLines(Terminated(lines)) == lines
  {
    if lines != [] {
      SplitLinesFirst(lines[0], Terminated(lines[1..]));
      SplitTerminated(lines[1..]);
      assert lines == [lines[0]] + lines[1..];
    }
  }

  /** A text without `c` has no `c` in any slice of it. */
  lemma AbsentFromSlice(text: string, c: char, a: nat, b: nat)
    requires c !in text && a <= b <= |text|
    ensures c !in text[a..b]
  {
    assert forall k :: 0 <= k < b - a ==> text[a..b][k] == text[a + k];
  }

  /** Scanning a text of newline-ended lines without '\r' and writing it back gives the text. */
  lemma {:induction false} TerminatedSplit(text: string)
    requires '\r' !in text
    requires text == [] || text[|text| - 1] == '\n'
    ensures Terminated(SplitLines(text)) == text
    decreases |text|
  {
    if text != [] {
      var i := LineEnd(text);
      var line := text[..i];
      var rest := text[i + 1..];
      AbsentFromSlice(text, '\r', 0, i);
      AbsentFromSlice(text, '\r', i + 1, |text|);
      assert text == line + "\n" + rest;
      SplitLinesFirst(line, rest);
      assert rest != [] ==> rest[|rest| - 1] == text[|text| - 1];
      TerminatedSplit(rest);
      var lines := [line] + SplitLines(rest);
      assert lines[0] == line && lines[1..] == SplitLines(rest);
    }
  }
}
