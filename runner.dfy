/**
 * main (main.go:16-74): a strictly sequential, fail-fast run. What the run
 * does to the world is recorded as a trace of effects: opening the build
 * file and issuing external commands (git and envman), each with its
 * argument list. Whether the k-th command issued exits successfully is the
 * input `succeeds(k)`, and the environment variable is the parameter
 * `gradleFilePath`; the file system is a map from paths to file text, and
 * opening a path fails exactly when it is not in the map.
 */
module Runner {
  import opened Wrappers
  import opened GoStrings
  import opened VersionPattern
  import opened Release

  /** What a run does outside itself. */
  datatype Effect =
    | Open(path: string)         // os.Open of the build file
    | Exec(argv: seq<string>)    // an external command and its arguments

  /**
   * createTag: `git tag -a <tag> -m <message> -f`, an annotated tag that
   * overwrites one of the same name; tag and message are passed as single
   * arguments, unchanged.
   */
  function CreateTag(tag: string, message: string): (e: Effect)
    ensures e.Exec? && |e.argv| == 7
    ensures e.argv[..3] == ["git", "tag", "-a"] && e.argv[3] == tag
    ensures e.argv[4] == "-m" && e.argv[5] == message && e.argv[6] == "-f"
  {
    Exec(["git", "tag", "-a", tag, "-m", message, "-f"])
  }

  /** printLocalTags. */
  const ListTags: Effect := Exec(["git", "tag"])

  /** pushTags. */
  const PushTags: Effect := Exec(["git", "push", "--tags", "-v"])

  /**
   * setEnvVariable: `envman add --key <key> --value <value>`, with key and
   * value passed as single arguments, unchanged.
   */
  function SetEnvVariable(key: string, value: string): (e: Effect)
    ensures e.Exec? && |e.argv| == 6
    ensures e.argv[..3] == ["envman", "add", "--key"] && e.argv[3] == key
    ensures e.argv[4] == "--value" && e.argv[5] == value
  {
    Exec(["envman", "add", "--key", key, "--value", value])
  }

  const NewTagKey: string := "NEW_TAG_NAME"

  /**
   * The commands a run past validation issues, in this order: create the
   * tag, list the tags, push the tags, list them again, export the tag as
   * NEW_TAG_NAME.
   */
  function ReleaseCommands(tag: string, tagMessage: string): (plan: seq<Effect>)
    ensures |plan| == 5 && plan[0] == CreateTag(tag, tagMessage)
    ensures plan[1] == ListTags && plan[2] == PushTags && plan[3] == ListTags
    ensures plan[4] == SetEnvVariable(NewTagKey, tag)
  {
    [CreateTag(tag, tagMessage), ListTags, PushTags, ListTags, SetEnvVariable(NewTagKey, tag)]
  }

  /** The reasons main stops before issuing any command. */
  datatype Failure =
    | PathNotSet                       // gradle_file_path is empty
    | ExtractFailed(cause: ExtractError)
    | EmptyVersion
    | InvalidTag(tag: string)

  /** What main establishes before its first command: the tag, or why the run stops. */
  function DeriveTag(gradleFilePath: string, files: map<string, string>): (r: Result<string, Failure>)
    ensures r.Success? ==> gradleFilePath != "" && IsValidTagName(r.value) && r.value[0] == 'v'
  {
    if gradleFilePath == "" then Failure(PathNotSet)
    else if gradleFilePath !in files then Failure(ExtractFailed(OpenFailed))
    else
      match FirstVersion(SplitLines(files[gradleFilePath]))
      case None => Failure(ExtractFailed(NotFound))
      case Some(versionName) =>
        if versionName == "" then Failure(EmptyVersion)
        else
          var tag := TagFor(CleanVersionName(versionName));
          if IsValidTagName(tag) then Success(tag) else Failure(InvalidTag(tag))
  }

  /**
   * The outcome of the command phase: the commands issued are a nonempty
   * prefix of the planned five, every one but the last issued succeeded,
   * a status of 1 means the last one issued failed, the status is 0
   * exactly when all five succeeded, and then all five were issued.
   */
  predicate Published(tag: string, tagMessage: string, succeeds: nat -> bool,
                      issued: seq<Effect>, status: int)
  {
    && 1 <= |issued| <= 5
    && issued == ReleaseCommands(tag, tagMessage)[..|issued|]
    && (forall k :: 0 <= k < |issued| - 1 ==> succeeds(k))
    && (status == 0 || status == 1)
    && (status == 1 ==> !succeeds(|issued| - 1))
    && (status == 0 <==> forall k :: 0 <= k < 5 ==> succeeds(k))
    && (status == 0 ==> issued == ReleaseCommands(tag, tagMessage))
  }

  /**
   * The command phase of main (main.go:50-73): the five commands in order,
   * stopping with status 1 right after the first one that fails.
   */
  method Publish(tag: string, tagMessage: string, succeeds: nat -> bool)
    returns (issued: seq<Effect>, status: int)
    ensures Published(tag, tagMessage, succeeds, issued, status)
  {
    ghost var plan := ReleaseCommands(tag, tagMessage);
    issued := [];
    assert issued == plan[..0];

    IssueNext(issued, plan, 0);
    issued := issued + [CreateTag(tag, tagMessage)];
    if !succeeds(0) {
      return issued, 1;
    }
    IssueNext(issued, plan, 1);
    issued := issued + [ListTags];
    if !succeeds(1) {
      return issued, 1;
    }
    IssueNext(issued, plan, 2);
    issued := issued + [PushTags];
    if !succeeds(2) {
      return issued, 1;
    }
    IssueNext(issued, plan, 3);
    issued := issued + [ListTags];
    if !succeeds(3) {
      return issued, 1;
    }
    IssueNext(issued, plan, 4);
    issued := issued + [SetEnvVariable(NewTagKey, tag)];
    if !succeeds(4) {
      return issued, 1;
    }
    status := 0;
  }

  /**
   * main. Stops with status 1 at the first failing step: an empty path, a
   * failed extraction, an empty version, an invalid tag, or the first
   * command that fails, after which no further command is issued.
   */
  method Run(gradleFilePath: string, files: map<string, string>, succeeds: nat -> bool)
    returns (trace: seq<Effect>, status: int)
    ensures status == 0 || status == 1
    ensures gradleFilePath == "" ==> trace == []
    ensures gradleFilePath != "" ==> |trace| >= 1 && trace[0] == Open(gradleFilePath)
    ensures DeriveTag(gradleFilePath, files).Failure? ==> status == 1 && |trace| <= 1
    ensures DeriveTag(gradleFilePath, files).Success? ==>
              var tag := DeriveTag(gradleFilePath, files).value;
              |trace| >= 1 && Published(tag, MessageFor(tag), succeeds, trace[1..], status)
    ensures status == 0 <==> DeriveTag(gradleFilePath, files).Success?
                             && forall k :: 0 <= k < 5 ==> succeeds(k)
  {
    ghost var derived := DeriveTag(gradleFilePath, files);
    trace := [];
    if gradleFilePath == "" {
      return trace, 1;
    }

    trace := [Open(gradleFilePath)];
    var extracted := ExtractVersionName(files, gradleFilePath);
    if extracted.Failure? {
      assert derived.Failure?;
      return trace, 1;
    }
    var versionName := extracted.value;
    if versionName == "" {
      return trace, 1;
    }

    var versionNameBase := CleanVersionName(versionName);
    var tag := TagFor(versionNameBase);
    var tagMessage := MessageFor(tag);
    if !IsValidTagName(tag) {
      assert derived == Failure(InvalidTag(tag));
      return trace, 1;
    }
    assert derived == Success(tag);

    var issued;
    issued, status := Publish(tag, tagMessage, succeeds);
    trace := trace + issued;
    assert trace[1..] == issued;
  }

  /** Issuing the next planned command extends what was issued by that command. */
  lemma IssueNext(issued: seq<Effect>, plan: seq<Effect>, n: nat)
    requires n < |plan| && issued == plan[..n]
    ensures issued + [plan[n]] == plan[..n + 1]
  {
    assert plan[..n + 1] == plan[..n] + [plan[n]];
  }

  // ---------------------------------------------------------------------
  // Properties of the steps before the first command
  // ---------------------------------------------------------------------

  /**
   * The empty-version check of main can never stop a run: a successful
   * extraction always yields a non-empty version.
   */
  lemma EmptyVersionUnreachable(gradleFilePath: string, files: map<string, string>)
    ensures DeriveTag(gradleFilePath, files) != Failure(EmptyVersion)
  {
  }

  /**
   * The run reaches its commands exactly when the path is set, the file
   * opens, some line carries a version, and cleaning that version leaves
   * only tag characters; the tag is then "v" followed by the cleaned
   * version of the first such line.
   */
  lemma DeriveTagSuccessIff(gradleFilePath: string, files: map<string, string>, tag: string)
    ensures DeriveTag(gradleFilePath, files) == Success(tag) <==>
              && gradleFilePath != "" && gradleFilePath in files
              && var first := FirstVersion(SplitLines(files[gradleFilePath]));
                 && first.Some?
                 && tag == TagFor(CleanVersionName(first.value))
                 && forall k :: 0 <= k < |CleanVersionName(first.value)| ==> IsTagChar(CleanVersionName(first.value)[k])
  {
    if gradleFilePath != "" && gradleFilePath in files {
      var first := FirstVersion(SplitLines(files[gradleFilePath]));
      if first.Some? {
        DerivedTagValidIff(CleanVersionName(first.value));
      }
    }
  }

  /** A line without the letter 'v' cannot hold a match. */
  lemma NoCaptureWithoutV(line: string)
    requires 'v' !in line
    ensures Capture(line).None?
  {
    CaptureFromLeftmost(line, 0);
    forall i | 0 <= i <= |line| ensures MatchAt(line, i).None? {
      if i + |Keyword| <= |line| { assert line[i..i + |Keyword|][0] == line[i]; }
    }
  }

  /** The line `    versionName = "x"` of a build file. */
  function VersionLine(x: string): string {
    "    " + Spelled(" ", " ", x)
  }

  /** A three-line build file whose middle line sets the version. */
  function BuildFile(x: string): string {
    Terminated(["android {", VersionLine(x), "}"])
  }

  /** The middle line of such a file is one the scanner returns unchanged. */
  lemma VersionLinePlain(x: string)
    requires '"' !in x && '\n' !in x
    ensures PlainLine(VersionLine(x))
  {
    var tail := x + "\"";
    assert '\n' !in tail && tail[|tail| - 1] == '"';
    assert VersionLine(x) == "    versionName = \"" + tail;
  }

  /** The middle line of such a file matches, capturing the quoted text. */
  lemma VersionLineCapture(x: string)
    requires x != [] && '"' !in x
    ensures Capture(VersionLine(x)) == Some(x)
  {
    assert AllRegexSpace(" ");
    CaptureOfVersionLine("    ", " ", " ", x, "");
    assert VersionLine(x) + "" == VersionLine(x);
  }

  /** Scanning such a file gives back its three lines. */
  lemma BuildFileLines(x: string)
    requires '"' !in x && '\n' !in x
    ensures SplitLines(BuildFile(x)) == ["android {", VersionLine(x), "}"]
  {
    VersionLinePlain(x);
    SplitTerminated(["android {", VersionLine(x), "}"]);
  }

  /** The version read from such a file is the quoted text of its middle line. */
  lemma VersionOfBuildFile(x: string)
    requires x != [] && '"' !in x && '\n' !in x
    ensures FirstVersion(SplitLines(BuildFile(x))) == Some(x)
  {
    var lines := ["android {", VersionLine(x), "}"];
    BuildFileLines(x);
    NoCaptureWithoutV(lines[0]);
    VersionLineCapture(x);
    assert lines[1..][0] == VersionLine(x);
  }

  /** A build file with no line that sets a version. */
  function UnversionedBuildFile(): string {
    Terminated(["android {", "}"])
  }

  // ---------------------------------------------------------------------
  // Whole runs up to the first command
  // ---------------------------------------------------------------------

  /** A readable file whose first version line captures `v` yields the tag cleaned from `v`, if valid. */
  lemma DeriveTagOfFile(gradleFilePath: string, text: string, v: string)
    requires gradleFilePath != "" && FirstVersion(SplitLines(text)) == Some(v)
    ensures var tag := TagFor(CleanVersionName(v));
            DeriveTag(gradleFilePath, map[gradleFilePath := text])
            == if IsValidTagName(tag) then Success(tag) else Failure(InvalidTag(tag))
  {
  }

  /** A debug build in a readable file gives the tag of its release version. */
  lemma DebugBuildIsTagged(gradleFilePath: string)
    requires gradleFilePath != ""
    ensures DeriveTag(gradleFilePath, map[gradleFilePath := BuildFile("3.1.4-DEBUG")]) == Success("v3.1.4")
  {
    VersionOfBuildFile("3.1.4-DEBUG");
    DeriveTagOfFile(gradleFilePath, BuildFile("3.1.4-DEBUG"), "3.1.4-DEBUG");
    CleanDropsDebugSuffix();
    ValidationExamples();
  }

  /** A version with a space in it passes extraction and is refused by validation. */
  lemma SpacedVersionIsRefused(gradleFilePath: string)
    requires gradleFilePath != ""
    ensures DeriveTag(gradleFilePath, map[gradleFilePath := BuildFile("1.0 0")]) == Failure(InvalidTag("v1.0 0"))
  {
    VersionOfBuildFile("1.0 0");
    DeriveTagOfFile(gradleFilePath, BuildFile("1.0 0"), "1.0 0");
    CleanKeepsInnerSpace();
    ValidationExamples();
  }

  /**
   * A version that is nothing but the marker is cleaned to nothing, and the
   * bare tag "v" that results is accepted: the emptiness check of main comes
   * before cleaning, and nothing checks the cleaned version again.
   */
  lemma MarkerOnlyVersionGivesBareTag(gradleFilePath: string)
    requires gradleFilePath != ""
    ensures DeriveTag(gradleFilePath, map[gradleFilePath := BuildFile("-DEBUG")]) == Success("v")
  {
    VersionOfBuildFile("-DEBUG");
    DeriveTagOfFile(gradleFilePath, BuildFile("-DEBUG"), "-DEBUG");
    CleanMarkerOnly();
    assert TagFor("") == "v";
    assert IsValidTagName("v");
  }

  /** Scanning the file without a version line gives back its two lines. */
  lemma UnversionedBuildFileLines()
    ensures SplitLines(UnversionedBuildFile()) == ["android {", "}"]
  {
    var lines := ["android {", "}"];
    assert PlainLine(lines[0]) && PlainLine(lines[1]);
    SplitTerminated(lines);
  }

  /** Neither brace line holds a match. */
  lemma BraceLinesDoNotMatch()
    ensures Capture("android {").None? && Capture("}").None?
  {
    NoCaptureWithoutV("android {");
    NoCaptureWithoutV("}");
  }

  /** No line of that file matches. */
  lemma UnversionedBuildFileHasNoVersion()
    ensures FirstVersion(SplitLines(UnversionedBuildFile())) == None
  {
    var lines := ["android {", "}"];
    UnversionedBuildFileLines();
    BraceLinesDoNotMatch();
    assert FirstVersion(lines) == FirstVersion(lines[1..]);
    assert lines[1..][1..] == [];
  }

  /** A readable file without a version line stops the run before any command. */
  lemma UnversionedFileStops(gradleFilePath: string)
    requires gradleFilePath != ""
    ensures DeriveTag(gradleFilePath, map[gradleFilePath := UnversionedBuildFile()]) == Failure(ExtractFailed(NotFound))
  {
    UnversionedBuildFileHasNoVersion();
  }
}
