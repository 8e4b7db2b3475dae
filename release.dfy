/**
 * From build-file text to release tag: extractVersionName (main.go:76-94),
 * cleanVersionName (main.go:96-100), the tag and message built with
 * fmt.Sprintf (main.go:40-41) and isValidTagName (main.go:102-105).
 */
module Release {
  import opened Wrappers
  import opened GoStrings
  import opened VersionPattern

  /** The two ways extractVersionName fails: os.Open's error, or "versionName not found". */
  datatype ExtractError = OpenFailed | NotFound

  // ---------------------------------------------------------------------
  // Extraction
  // ---------------------------------------------------------------------

  /** The capture of the first line on which the version pattern matches. */
  function FirstVersion(lines: seq<string>): (v: Option<string>)
    ensures v.Some? ==> v.value != [] && '"' !in v.value
  {
    if lines == [] then None
    else if Capture(lines[0]).Some? then Capture(lines[0])
    else FirstVersion(lines[1..])
  }

  /**
   * FirstVersion is None exactly when no line matches, and otherwise the
   * capture of a matching line with no matching line before it.
   */
  lemma {:induction false} FirstVersionIsFirstMatch(lines: seq<string>)
    ensures FirstVersion(lines).None? <==> forall k :: 0 <= k < |lines| ==> Capture(lines[k]).None?
    ensures FirstVersion(lines).Some? ==>
              exists k :: 0 <= k < |lines| && Capture(lines[k]) == FirstVersion(lines)
                          && forall j :: 0 <= j < k ==> Capture(lines[j]).None?
  {
    if lines != [] && Capture(lines[0]).None? {
      var tail := lines[1..];
      FirstVersionIsFirstMatch(tail);
      assert forall k :: 0 <= k < |tail| ==> tail[k] == lines[k + 1];
      if FirstVersion(tail).Some? {
        var k :| 0 <= k < |tail| && Capture(tail[k]) == FirstVersion(tail)
                 && forall j :: 0 <= j < k ==> Capture(tail[j]).None?;
        assert Capture(lines[k + 1]) == FirstVersion(lines);
        assert forall j :: 0 <= j < k + 1 ==> Capture(lines[j]).None? by {
          forall j | 0 <= j < k + 1 ensures Capture(lines[j]).None? {
            if j > 0 { assert lines[j] == tail[j - 1]; }
          }
        }
      } else {
        forall k | 0 <= k < |lines| ensures Capture(lines[k]).None? {
          if k > 0 { assert lines[k] == tail[k - 1]; }
        }
      }
    }
  }

  /** Lines on which the pattern does not match are skipped over. */
  lemma {:induction false} FirstVersionSkips(before: seq<string>, rest: seq<string>)
    requires forall k :: 0 <= k < |before| ==> Capture(before[k]).None?
    ensures FirstVersion(before + rest) == FirstVersion(rest)
  {
    if before != [] {
      var lines := before + rest;
      assert lines[0] == before[0];
      assert Capture(lines[0]).None?;
      assert FirstVersion(lines) == FirstVersion(lines[1..]);
      assert (before + rest)[1..] == before[1..] + rest;
      assert forall k :: 0 <= k < |before| - 1 ==> before[1..][k] == before[k + 1];
      FirstVersionSkips(before[1..], rest);
    } else {
      assert before + rest == rest;
    }
  }

  /** Once a line matches, the lines after it are never consulted. */
  lemma {:induction false} FirstVersionIgnoresLaterLines(lines: seq<string>, later: seq<string>)
    requires FirstVersion(lines).Some?
    ensures FirstVersion(lines + later) == FirstVersion(lines)
  {
    var all := lines + later;
    assert all[0] == lines[0];
    if Capture(lines[0]).None? {
      assert all[1..] == lines[1..] + later;
      FirstVersionIgnoresLaterLines(lines[1..], later);
    }
  }

  /**
   * extractVersionName: open the file, scan it line by line and return the
   * capture of the first line the version pattern matches.
   */
  method ExtractVersionName(files: map<string, string>, gradleFile: string)
    returns (r: Result<string, ExtractError>)
    ensures gradleFile !in files ==> r == Failure(OpenFailed)
    ensures gradleFile in files ==>
              match FirstVersion(SplitLines(files[gradleFile]))
              case Some(v) => r == Success(v)
              case None => r == Failure(NotFound)
    ensures r.Success? ==> r.value != [] && '"' !in r.value
  {
    if gradleFile !in files {
      return Failure(OpenFailed);
    }
    var lines := SplitLines(files[gradleFile]);
    var i := 0;
    while i < |lines|
      invariant 0 <= i <= |lines|
      invariant FirstVersion(lines[i..]) == FirstVersion(lines)
    {
      var matches := Capture(lines[i]);
      if matches.Some? {
        return Success(matches.value);
      }
      assert lines[i..][1..] == lines[i + 1..];
      i := i + 1;
    }
    return Failure(NotFound);
  }

  // ---------------------------------------------------------------------
  // Normalisation
  // ---------------------------------------------------------------------

  const DebugMarker: string := "-DEBUG"

  /** cleanVersionName: trim surrounding whitespace, then cut every "-DEBUG" out. */
  function CleanVersionName(versionName: string): (base: string)
    ensures |base| <= |versionName|
  {
    RemoveAll(TrimSpace(versionName), DebugMarker)
  }

  /** A trim that removes nothing leaves the string as it was. */
  lemma TrimSpaceSameLength(s: string)
    requires |TrimSpace(s)| == |s|
    ensures TrimSpace(s) == s
  {
    var r := TrimSpace(s);
    var a :| 0 <= a <= a + |r| <= |s| && r == s[a..a + |r|]
             && AllSpace(s[..a]) && AllSpace(s[a + |r|..]);
    assert a == 0;
  }

  /**
   * Cleaning changes nothing exactly when the version has no whitespace at
   * either end and no "-DEBUG" in it.
   */
  lemma CleanIdentityIff(versionName: string)
    ensures CleanVersionName(versionName) == versionName
            <==> Trimmed(versionName) && !Contains(versionName, DebugMarker)
  {
    var t := TrimSpace(versionName);
    if CleanVersionName(versionName) == versionName {
      assert |t| == |versionName|;
      TrimSpaceSameLength(versionName);
      RemoveAllIdentityIff(t, DebugMarker);
    }
    if Trimmed(versionName) && !Contains(versionName, DebugMarker) {
      TrimSpaceKeepsTrimmed(versionName);
      RemoveAllNoOccurrence(versionName, DebugMarker);
    }
  }

  /** "-DEBUG" cannot overlap itself: its only '-' is its first character. */
  lemma DebugMarkerFirstAfter(a: string, b: string)
    requires !Contains(a, DebugMarker)
    ensures forall j :: 0 <= j < |a| ==> !OccursAt(a + DebugMarker + b, DebugMarker, j)
  {
    var s := a + DebugMarker + b;
    forall j | 0 <= j < |a| ensures !OccursAt(s, DebugMarker, j) {
      if j + |DebugMarker| <= |a| {
        assert a[j..j + |DebugMarker|] == s[j..j + |DebugMarker|];
        assert !OccursAt(a, DebugMarker, j);
      } else {
        var d := |a| - j;
        assert s[j + d] == '-' && DebugMarker[d] != '-';
        assert j + |DebugMarker| <= |s| ==> s[j..j + |DebugMarker|][d] == s[j + d];
      }
    }
  }

  /** Cleaning cuts the first "-DEBUG" and keeps what precedes it. */
  lemma RemoveDebugAfter(a: string, b: string)
    requires !Contains(a, DebugMarker)
    ensures RemoveAll(a + DebugMarker + b, DebugMarker) == a + RemoveAll(b, DebugMarker)
  {
    var s := a + DebugMarker + b;
    DebugMarkerFirstAfter(a, b);
    assert OccursAt(s, DebugMarker, |a|) by { assert s[|a|..|a| + |DebugMarker|] == DebugMarker; }
    RemoveAllLeftmost(s, DebugMarker, |a|);
    assert s[..|a|] == a;
    assert s[|a| + |DebugMarker|..] == b;
  }

  /** Short strings cannot hold the six-character marker. */
  lemma ShortHasNoMarker(s: string)
    requires |s| < |DebugMarker|
    ensures !Contains(s, DebugMarker)
  {
  }

  /**
   * A trimmed version holding one "-DEBUG" with no earlier one loses that
   * marker and keeps what precedes it.
   */
  lemma CleanAroundMarker(a: string, b: string)
    requires Trimmed(a + DebugMarker + b) && !Contains(a, DebugMarker)
    ensures CleanVersionName(a + DebugMarker + b) == a + RemoveAll(b, DebugMarker)
  {
    TrimSpaceKeepsTrimmed(a + DebugMarker + b);
    RemoveDebugAfter(a, b);
  }

  /** A version without the marker is only trimmed. */
  lemma CleanUnmarked(p: string, m: string, q: string)
    requires AllSpace(p) && AllSpace(q) && Trimmed(m) && !Contains(m, DebugMarker)
    ensures CleanVersionName(p + m + q) == m
  {
    TrimSpaceUnique(p, m, q);
    RemoveAllNoOccurrence(m, DebugMarker);
  }

  /** The marker alone is removed entirely. */
  lemma RemoveMarkerAlone()
    ensures RemoveAll(DebugMarker, DebugMarker) == ""
  {
    ShortHasNoMarker("");
    RemoveDebugAfter("", "");
    assert "" + DebugMarker + "" == DebugMarker;
  }

  /** A trailing "-DEBUG" is cut off. */
  lemma CleanDropsDebugSuffix()
    ensures CleanVersionName("3.1.4-DEBUG") == "3.1.4"
  {
    assert "3.1.4" + DebugMarker + "" == "3.1.4-DEBUG";
    ShortHasNoMarker("3.1.4");
    CleanAroundMarker("3.1.4", "");
  }

  /** Every "-DEBUG", not only the last one, is cut out. */
  lemma CleanDropsEveryMarker()
    ensures CleanVersionName("1.2.3-DEBUG-DEBUG") == "1.2.3"
  {
    assert "1.2.3" + DebugMarker + DebugMarker == "1.2.3-DEBUG-DEBUG";
    ShortHasNoMarker("1.2.3");
    CleanAroundMarker("1.2.3", DebugMarker);
    RemoveMarkerAlone();
  }

  /** Surrounding whitespace is trimmed. */
  lemma CleanTrimsSpaces()
    ensures CleanVersionName("  1.0.0  ") == "1.0.0"
  {
    assert "  " + "1.0.0" + "  " == "  1.0.0  ";
    assert AllSpace("  ");
    ShortHasNoMarker("1.0.0");
    CleanUnmarked("  ", "1.0.0", "  ");
  }

  /** A version that is only the marker is cleaned to nothing. */
  lemma CleanMarkerOnly()
    ensures CleanVersionName("-DEBUG") == ""
  {
    assert "" + DebugMarker + "" == "-DEBUG";
    ShortHasNoMarker("");
    CleanAroundMarker("", "");
  }

  /** A space inside the version is not whitespace at either end, and stays. */
  lemma CleanKeepsInnerSpace()
    ensures CleanVersionName("1.0 0") == "1.0 0"
  {
    assert "" + "1.0 0" + "" == "1.0 0";
    ShortHasNoMarker("1.0 0");
    CleanUnmarked("", "1.0 0", "");
  }

  /** The six characters in front of the marker in the example below hold no marker. */
  lemma NoMarkerInPrefix()
    ensures !Contains("1.0-DE", DebugMarker)
  {
    assert "1.0-DE"[0] != DebugMarker[0];
    assert !OccursAt("1.0-DE", DebugMarker, 0);
  }

  /** Cutting one "-DEBUG" can join its neighbours into another one, which stays. */
  lemma CleanCanLeaveMarker()
    ensures CleanVersionName("1.0-DE-DEBUGBUG") == "1.0-DEBUG"
    ensures Contains("1.0-DEBUG", DebugMarker)
  {
    assert "1.0-DE" + DebugMarker + "BUG" == "1.0-DE-DEBUGBUG";
    NoMarkerInPrefix();
    CleanAroundMarker("1.0-DE", "BUG");
    ShortHasNoMarker("BUG");
    RemoveAllNoOccurrence("BUG", DebugMarker);
    assert "1.0-DE" + "BUG" == "1.0-DEBUG";
    MarkerInDebugVersion();
  }

  lemma MarkerInDebugVersion()
    ensures Contains("1.0-DEBUG", DebugMarker)
  {
    assert "1.0-DEBUG"[3..9] == DebugMarker;
    assert OccursAt("1.0-DEBUG", DebugMarker, 3);
  }

  /**
   * Trimming happens before the marker is cut, so a space in front of a
   * marker is left at the end of the result.
   */
  lemma CleanCanLeaveTrailingSpace()
    ensures CleanVersionName("1.0 -DEBUG") == "1.0 "
    ensures !Trimmed("1.0 ")
  {
    assert "1.0 " + DebugMarker + "" == "1.0 -DEBUG";
    ShortHasNoMarker("1.0 ");
    CleanAroundMarker("1.0 ", "");
  }

  /**
   * Cleaning is not idempotent: on both inputs above a second pass changes
   * the result of the first.
   */
  lemma CleanNotIdempotent()
    ensures CleanVersionName(CleanVersionName("1.0-DE-DEBUGBUG")) != CleanVersionName("1.0-DE-DEBUGBUG")
    ensures CleanVersionName(CleanVersionName("1.0 -DEBUG")) != CleanVersionName("1.0 -DEBUG")
  {
    CleanCanLeaveMarker();
    CleanIdentityIff("1.0-DEBUG");
    CleanCanLeaveTrailingSpace();
    CleanIdentityIff("1.0 ");
  }

  // ---------------------------------------------------------------------
  // Tag and message
  // ---------------------------------------------------------------------

  /** fmt.Sprintf("v%s", base): never empty, starts with 'v', and the rest is the base. */
  function TagFor(base: string): (tag: string)
    ensures |tag| == |base| + 1 && tag[0] == 'v' && tag[1..] == base
  {
    "v" + base
  }

  const ReleasePrefix: string := "Release "

  /** fmt.Sprintf("Release %s", tag): the fixed prefix, then the tag. */
  function MessageFor(tag: string): (message: string)
    ensures |message| == |ReleasePrefix| + |tag|
    ensures message[..|ReleasePrefix|] == ReleasePrefix && message[|ReleasePrefix|..] == tag
  {
    ReleasePrefix + tag
  }

  /** Different bases give different tags. */
  lemma TagForInjective(a: string, b: string)
    requires TagFor(a) == TagFor(b)
    ensures a == b
  {
    assert a == TagFor(a)[1..];
  }

  // ---------------------------------------------------------------------
  // Validation
  // ---------------------------------------------------------------------

  /** The character class [a-zA-Z0-9._-]. */
  predicate IsTagChar(c: char) {
    ('a' <= c <= 'z') || ('A' <= c <= 'Z') || ('0' <= c <= '9') || c == '.' || c == '_' || c == '-'
  }

  /** Matches [a-zA-Z0-9._-]* against the whole of `s`, one character at a time. */
  function AllTagChars(s: string): (b: bool)
    ensures b <==> forall k :: 0 <= k < |s| ==> IsTagChar(s[k])
  {
    if s == [] then true
    else IsTagChar(s[0]) && AllTagChars(s[1..])
  }

  /**
   * isValidTagName: ^[a-zA-Z0-9._-]+$ matches the tag, so the tag is not
   * empty and every character of it is in the class.
   */
  function IsValidTagName(tag: string): (b: bool)
    ensures b <==> tag != [] && forall k :: 0 <= k < |tag| ==> IsTagChar(tag[k])
  {
    tag != [] && AllTagChars(tag)
  }

  /** A derived tag is valid exactly when every character of the base is in the class. */
  lemma DerivedTagValidIff(base: string)
    ensures IsValidTagName(TagFor(base)) <==> forall k :: 0 <= k < |base| ==> IsTagChar(base[k])
  {
    var tag := TagFor(base);
    assert forall k :: 0 <= k < |base| ==> base[k] == tag[k + 1];
    assert forall k :: 1 <= k < |tag| ==> tag[k] == base[k - 1];
  }

  /** The tag built from "1.0 0" is refused for its space; the one from "3.1.4" is accepted. */
  lemma ValidationExamples()
    ensures TagFor("1.0 0") == "v1.0 0" && !IsValidTagName("v1.0 0")
    ensures TagFor("3.1.4") == "v3.1.4" && IsValidTagName("v3.1.4")
    ensures MessageFor("v2.5.0") == "Release v2.5.0"
  {
    assert "v1.0 0"[4] == ' ';
  }
}
