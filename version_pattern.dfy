/**
 * A direct matcher for the one regular expression main.go compiles,
 * versionName\s*=\s*"([^"]+)", as regexp.FindStringSubmatch uses it on a
 * single line: the leftmost position where the pattern matches wins, and the
 * result is the text of the capture group.
 *
 * At a fixed start the pattern leaves no choice: each \s* is followed by a
 * character that is not RE2 whitespace ('=' or '"') and [^"]+ is followed by
 * '"', so the greedy runs are the only ones that can succeed. The matcher
 * therefore scans each run once, and MatchAtIff proves it equal to the
 * pattern read as a grammar (PatternAt).
 */
module VersionPattern {
  import opened Wrappers

  /** RE2's \s: tab, newline, form feed, carriage return and space (no vertical tab). */
  predicate IsRegexSpace(c: char) {
    c == ' ' || c == '\t' || c == '\n' || c == '\r' || c as int == 0x0C
  }

  predicate AllRegexSpace(s: string) {
    forall k :: 0 <= k < |s| ==> IsRegexSpace(s[k])
  }

  const Keyword: string := "versionName"

  /** End of the run of \s characters that starts at `i`. */
  function SkipSpaces(s: string, i: nat): (j: nat)
    requires i <= |s|
    ensures i <= j <= |s|
    ensures forall k :: i <= k < j ==> IsRegexSpace(s[k])
    ensures j == |s| || !IsRegexSpace(s[j])
    decreases |s| - i
  {
    if i < |s| && IsRegexSpace(s[i]) then SkipSpaces(s, i + 1) else i
  }

  /** End of the run of [^"] characters that starts at `i`. */
  function SkipQuoteFree(s: string, i: nat): (j: nat)
    requires i <= |s|
    ensures i <= j <= |s|
    ensures forall k :: i <= k < j ==> s[k] != '"'
    ensures j == |s| || s[j] == '"'
    decreases |s| - i
  {
    if i < |s| && s[i] != '"' then SkipQuoteFree(s, i + 1) else i
  }

  /**
   * The capture of a match of the pattern that starts at index `i` of
   * `line`, or None when no match starts there. A capture is never empty
   * and holds no '"'.
   */
  function MatchAt(line: string, i: nat): (m: Option<string>)
    requires i <= |line|
    ensures m.Some? ==> m.value != [] && '"' !in m.value
  {
    if !(i + |Keyword| <= |line| && line[i..i + |Keyword|] == Keyword) then None
    else
      var j := SkipSpaces(line, i + |Keyword|);
      if j == |line| || line[j] != '=' then None
      else
        var k := SkipSpaces(line, j + 1);
        if k == |line| || line[k] != '"' then None
        else
          var e := SkipQuoteFree(line, k + 1);
          if e == k + 1 || e == |line| then None
          else
            var v := line[k + 1..e];
            assert '"' !in v by {
              forall t | 0 <= t < |v| ensures v[t] != '"' { assert v[t] == line[k + 1 + t]; }
            }
            Some(v)
  }

  /** Leftmost-first search: the capture of the first start position, from `i` on, where a match begins. */
  function CaptureFrom(line: string, i: nat): (m: Option<string>)
    requires i <= |line|
    ensures m.Some? ==> m.value != [] && '"' !in m.value
    decreases |line| - i
  {
    if MatchAt(line, i).Some? then MatchAt(line, i)
    else if i == |line| then None
    else CaptureFrom(line, i + 1)
  }

  /** regexp.FindStringSubmatch(line)[1], None when the pattern does not match. */
  function Capture(line: string): (m: Option<string>)
    ensures m.Some? ==> m.value != [] && '"' !in m.value
  {
    CaptureFrom(line, 0)
  }

  // ---------------------------------------------------------------------
  // The pattern read as a grammar
  // ---------------------------------------------------------------------

  /** The text the pattern matches when its two \s* runs are `w1`, `w2` and its capture is `v`. */
  function Spelled(w1: string, w2: string, v: string): string {
    Keyword + (w1 + ("=" + (w2 + ("\"" + (v + "\"")))))
  }

  /** A match of the pattern with capture `v` begins at index `i` of `line`. */
  ghost predicate PatternAt(line: string, i: nat, v: string) {
    i <= |line| && v != [] && '"' !in v &&
    exists w1, w2 :: AllRegexSpace(w1) && AllRegexSpace(w2) && Spelled(w1, w2, v) <= line[i..]
  }

  /** Where each part of a spelled match lies. */
  lemma SpelledLayout(w1: string, w2: string, v: string)
    ensures var s := Spelled(w1, w2, v);
            var j := |Keyword| + |w1|;
            var k := j + 1 + |w2|;
            && |s| == k + |v| + 2
            && s[..|Keyword|] == Keyword && s[|Keyword|..j] == w1 && s[j] == '='
            && s[j + 1..k] == w2 && s[k] == '"' && s[k + 1..k + 1 + |v|] == v
            && s[k + 1 + |v|] == '"'
  {
    var s := Spelled(w1, w2, v);
    var a := Keyword + w1;
    var b := a + "=" + w2;
    var c := b + "\"" + v;
    assert s == c + "\"";
    assert c[..|b|] == b && c[|b| + 1..] == v;
    assert b[..|a|] == a && b[|a| + 1..] == w2;
    assert a[..|Keyword|] == Keyword && a[|Keyword|..] == w1;
  }

  /** Runs of \s end at the first non-\s character after them. */
  lemma SkipSpacesAt(s: string, i: nat, j: nat)
    requires i <= j < |s| && !IsRegexSpace(s[j]) && AllRegexSpace(s[i..j])
    ensures SkipSpaces(s, i) == j
  {
    assert forall k :: i <= k < j ==> s[k] == s[i..j][k - i];
  }

  /** Runs of [^"] end at the first quote after them. */
  lemma SkipQuoteFreeAt(s: string, i: nat, j: nat)
    requires i <= j < |s| && s[j] == '"' && '"' !in s[i..j]
    ensures SkipQuoteFree(s, i) == j
  {
    assert forall k :: i <= k < j ==> s[k] == s[i..j][k - i];
  }

  /** A slice of a slice is a slice. */
  lemma SliceOfSlice(line: string, i: nat, s: string, a: nat, b: nat)
    requires i + |s| <= |line| && s == line[i..i + |s|] && a <= b <= |s|
    ensures line[i + a..i + b] == s[a..b]
  {
    assert forall t :: 0 <= t < b - a ==> s[a..b][t] == s[a + t] == line[i + a + t];
  }

  /** The text of a match, cut at its '=' and its two quotes, is spelled from its parts. */
  lemma SpelledSlices(line: string, i: nat, j: nat, k: nat, e: nat)
    requires i + |Keyword| <= j < k < e < |line|
    requires line[i..i + |Keyword|] == Keyword && line[j] == '=' && line[k] == '"' && line[e] == '"'
    ensures line[i..e + 1] == Spelled(line[i + |Keyword|..j], line[j + 1..k], line[k + 1..e])
  {
    assert line[k + 1..e + 1] == line[k + 1..e] + "\"";
    assert line[k..e + 1] == "\"" + line[k + 1..e + 1];
    assert line[j + 1..e + 1] == line[j + 1..k] + line[k..e + 1];
    assert line[j..e + 1] == "=" + line[j + 1..e + 1];
    assert line[i + |Keyword|..e + 1] == line[i + |Keyword|..j] + line[j..e + 1];
    assert line[i..e + 1] == Keyword + line[i + |Keyword|..e + 1];
  }

  /** The matcher's capture is one the grammar admits. */
  lemma MatchAtSound(line: string, i: nat)
    requires i <= |line| && MatchAt(line, i).Some?
    ensures PatternAt(line, i, MatchAt(line, i).value)
  {
    var v := MatchAt(line, i).value;
    var j := SkipSpaces(line, i + |Keyword|);
    var k := SkipSpaces(line, j + 1);
    var e := SkipQuoteFree(line, k + 1);
    var w1 := line[i + |Keyword|..j];
    var w2 := line[j + 1..k];
    assert v == line[k + 1..e];
    assert AllRegexSpace(w1) by {
      forall t | 0 <= t < |w1| ensures IsRegexSpace(w1[t]) { assert w1[t] == line[i + |Keyword| + t]; }
    }
    assert AllRegexSpace(w2) by {
      forall t | 0 <= t < |w2| ensures IsRegexSpace(w2[t]) { assert w2[t] == line[j + 1 + t]; }
    }
    SpelledSlices(line, i, j, k, e);
    assert line[i..e + 1] <= line[i..];
  }

  /** Where each part of a spelled match lies in a line that begins with it at `i`. */
  lemma SpelledInLine(line: string, i: nat, w1: string, w2: string, v: string)
    requires i <= |line| && Spelled(w1, w2, v) <= line[i..]
    ensures var j := i + |Keyword| + |w1|;
            var k := j + 1 + |w2|;
            var e := k + 1 + |v|;
            && e < |line|
            && line[i..i + |Keyword|] == Keyword && line[i + |Keyword|..j] == w1 && line[j] == '='
            && line[j + 1..k] == w2 && line[k] == '"' && line[k + 1..e] == v && line[e] == '"'
  {
    var s := Spelled(w1, w2, v);
    SpelledLayout(w1, w2, v);
    var p := |Keyword|;
    var j := p + |w1|;
    var k := j + 1 + |w2|;
    var e := k + 1 + |v|;
    assert s == line[i..i + |s|];
    SliceOfSlice(line, i, s, 0, p);
    SliceOfSlice(line, i, s, p, j);
    SliceOfSlice(line, i, s, j + 1, k);
    SliceOfSlice(line, i, s, k + 1, e);
    assert line[i + j] == s[j] && line[i + k] == s[k] && line[i + e] == s[e];
  }

  /** The matcher succeeds at `i` when its three runs end at an '=', a quote and a later quote. */
  lemma MatchAtRuns(line: string, i: nat, j: nat, k: nat, e: nat)
    requires i + |Keyword| <= |line| && line[i..i + |Keyword|] == Keyword
    requires j < |line| && SkipSpaces(line, i + |Keyword|) == j && line[j] == '='
    requires k < |line| && SkipSpaces(line, j + 1) == k && line[k] == '"'
    requires e < |line| && SkipQuoteFree(line, k + 1) == e && e != k + 1
    ensures MatchAt(line, i) == Some(line[k + 1..e])
  {
  }

  /** A match spelled with runs `w1`, `w2` and capture `v` is found by the matcher. */
  lemma MatchAtSpelled(line: string, i: nat, w1: string, w2: string, v: string)
    requires i <= |line| && v != [] && '"' !in v
    requires AllRegexSpace(w1) && AllRegexSpace(w2) && Spelled(w1, w2, v) <= line[i..]
    ensures MatchAt(line, i) == Some(v)
  {
    SpelledInLine(line, i, w1, w2, v);
    var j := i + |Keyword| + |w1|;
    var k := j + 1 + |w2|;
    var e := k + 1 + |v|;
    RunsOfSpelled(line, i, j, k, e, w1, w2, v);
    MatchAtRuns(line, i, j, k, e);
  }

  /** The three runs of a spelled match end at its '=', its opening quote and its closing quote. */
  lemma RunsOfSpelled(line: string, i: nat, j: nat, k: nat, e: nat, w1: string, w2: string, v: string)
    requires i + |Keyword| <= j < k < e < |line|
    requires line[i + |Keyword|..j] == w1 && AllRegexSpace(w1) && line[j] == '='
    requires line[j + 1..k] == w2 && AllRegexSpace(w2) && line[k] == '"'
    requires line[k + 1..e] == v && '"' !in v && line[e] == '"'
    ensures SkipSpaces(line, i + |Keyword|) == j && SkipSpaces(line, j + 1) == k
    ensures SkipQuoteFree(line, k + 1) == e
  {
    SkipSpacesAt(line, i + |Keyword|, j);
    SkipSpacesAt(line, j + 1, k);
    SkipQuoteFreeAt(line, k + 1, e);
  }

  /** Every capture the grammar admits at `i` is the one the matcher returns there. */
  lemma MatchAtComplete(line: string, i: nat, v: string)
    requires PatternAt(line, i, v)
    ensures MatchAt(line, i) == Some(v)
  {
    var w1, w2 :| AllRegexSpace(w1) && AllRegexSpace(w2) && Spelled(w1, w2, v) <= line[i..];
    MatchAtSpelled(line, i, w1, w2, v);
  }

  /** The matcher and the grammar agree at every start position. */
  lemma MatchAtIff(line: string, i: nat, v: string)
    requires i <= |line|
    ensures MatchAt(line, i) == Some(v) <==> PatternAt(line, i, v)
  {
    if MatchAt(line, i) == Some(v) { MatchAtSound(line, i); }
    if PatternAt(line, i, v) { MatchAtComplete(line, i, v); }
  }

  // ---------------------------------------------------------------------
  // Leftmost-first search
  // ---------------------------------------------------------------------

  /** From `i` on, the search finds the first start where the matcher succeeds, or nothing when there is none. */
  lemma {:induction false} CaptureFromLeftmost(line: string, i: nat)
    requires i <= |line|
    ensures CaptureFrom(line, i).None? <==> forall j :: i <= j <= |line| ==> MatchAt(line, j).None?
    ensures CaptureFrom(line, i).Some? ==>
              exists j :: i <= j <= |line| && MatchAt(line, j) == CaptureFrom(line, i)
                          && forall t :: i <= t < j ==> MatchAt(line, t).None?
    decreases |line| - i
  {
    if MatchAt(line, i).None? && i < |line| {
      CaptureFromLeftmost(line, i + 1);
      assert CaptureFrom(line, i) == CaptureFrom(line, i + 1);
      if CaptureFrom(line, i).Some? {
        var j :| i + 1 <= j <= |line| && MatchAt(line, j) == CaptureFrom(line, i + 1)
                 && forall t :: i + 1 <= t < j ==> MatchAt(line, t).None?;
        NoneFromEarlier(line, i, j);
      }
    } else if MatchAt(line, i).Some? {
      assert CaptureFrom(line, i) == MatchAt(line, i);
    }
  }

  /** A start with no match followed by a stretch without one is a longer stretch without one. */
  lemma NoneFromEarlier(line: string, i: nat, j: nat)
    requires i < j <= |line| && MatchAt(line, i).None?
    requires forall t :: i + 1 <= t < j ==> MatchAt(line, t).None?
    ensures forall t :: i <= t < j ==> MatchAt(line, t).None?
  {
  }

  /** The first start where the matcher succeeds decides the search. */
  lemma {:induction false} CaptureFromFirst(line: string, i: nat, j: nat)
    requires i <= j <= |line| && MatchAt(line, j).Some?
    requires forall t :: i <= t < j ==> MatchAt(line, t).None?
    ensures CaptureFrom(line, i) == MatchAt(line, j)
    decreases j - i
  {
    if i < j { CaptureFromFirst(line, i + 1, j); }
  }

  /** `v` is the capture of a match that begins at `i`, and no match begins earlier. */
  ghost predicate LeftmostMatch(line: string, i: nat, v: string) {
    PatternAt(line, i, v) && forall j: nat, u :: j < i ==> !PatternAt(line, j, u)
  }

  /**
   * Capture is FindStringSubmatch for this pattern: it returns `v` exactly
   * when `v` is the capture of the leftmost match.
   */
  lemma CaptureIsLeftmostMatch(line: string, v: string)
    ensures Capture(line) == Some(v) <==> exists i: nat :: LeftmostMatch(line, i, v)
  {
    CaptureFromLeftmost(line, 0);
    if Capture(line) == Some(v) {
      var i :| 0 <= i <= |line| && MatchAt(line, i) == Some(v)
               && forall t :: 0 <= t < i ==> MatchAt(line, t).None?;
      MatchAtSound(line, i);
      forall j: nat, u | j < i ensures !PatternAt(line, j, u) {
        if PatternAt(line, j, u) { MatchAtComplete(line, j, u); }
      }
      assert LeftmostMatch(line, i, v);
    }
    if exists i: nat :: LeftmostMatch(line, i, v) {
      var i: nat :| LeftmostMatch(line, i, v);
      MatchAtComplete(line, i, v);
      forall t | 0 <= t < i ensures MatchAt(line, t).None? {
        if MatchAt(line, t).Some? { MatchAtSound(line, t); }
      }
      CaptureFromFirst(line, 0, i);
    }
  }

  /** Capture fails exactly when the pattern matches nowhere in the line. */
  lemma CaptureNoneIff(line: string)
    ensures Capture(line).None? <==> forall i: nat, u :: i <= |line| ==> !PatternAt(line, i, u)
  {
    CaptureFromLeftmost(line, 0);
    if Capture(line).None? {
      forall i: nat, u | i <= |line| ensures !PatternAt(line, i, u) {
        if PatternAt(line, i, u) { MatchAtComplete(line, i, u); }
      }
    } else {
      var i :| 0 <= i <= |line| && MatchAt(line, i) == Capture(line);
      MatchAtSound(line, i);
    }
  }

  /**
   * A line made of an indent without the letter 'v', then
   * versionName <spaces> = <spaces> "x", then anything, yields x.
   */
  lemma CaptureOfVersionLine(indent: string, w1: string, w2: string, x: string, rest: string)
    requires 'v' !in indent && AllRegexSpace(w1) && AllRegexSpace(w2)
    requires x != [] && '"' !in x
    ensures Capture(indent + Spelled(w1, w2, x) + rest) == Some(x)
  {
    var line := indent + Spelled(w1, w2, x) + rest;
    var i := |indent|;
    assert line[i..] == Spelled(w1, w2, x) + rest;
    assert PatternAt(line, i, x);
    MatchAtComplete(line, i, x);
    forall t | 0 <= t < i ensures MatchAt(line, t).None? {
      assert line[t] == indent[t] != 'v';
      if t + |Keyword| <= |line| { assert line[t..t + |Keyword|][0] == line[t]; }
    }
    CaptureFromFirst(line, 0, i);
  }

  /** The pattern is unanchored: a commented-out `// versionName = "x"` still yields x. */
  lemma CommentedVersionLine(x: string)
    requires x != [] && '"' !in x
    ensures Capture("// " + Spelled(" ", " ", x)) == Some(x)
  {
    assert AllRegexSpace(" ");
    CaptureOfVersionLine("// ", " ", " ", x, "");
    assert "// " + Spelled(" ", " ", x) + "" == "// " + Spelled(" ", " ", x);
  }
}
