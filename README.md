# android-git-tag release step, modelled in Dafny

The step reads the Android build file named by `gradle_file_path`. It takes
the quoted text from the first line on which the pattern
`versionName\s*=\s*"([^"]+)"` matches anywhere. That includes a commented-out
line such as `// versionName = "x"`. It cleans that text: surrounding
whitespace is trimmed, then every non-overlapping `-DEBUG` of the trimmed
text, scanning left to right, is cut out. It forms the tag `v<version>`
with the message `Release <tag>`. It checks the tag against
`^[a-zA-Z0-9._-]+$`. It then runs five commands in order:

1. `git tag -a <tag> -m <message> -f`
2. `git tag`
3. `git push --tags -v`
4. `git tag`
5. `envman add --key NEW_TAG_NAME --value <tag>`

The step stops with exit status 1 at the first step that fails.

The model has five modules:

- `Wrappers`: `Option` and `Result`.
- `GoStrings`: the Go library functions the step relies on, with Go strings as sequences of runes.
  - `strings.TrimSpace`, with `unicode.IsSpace` exactly.
  - `strings.ReplaceAll` with an empty replacement.
  - The line splitting of `bufio.Scanner` (`bufio.ScanLines`).
- `VersionPattern`: a direct matcher for `versionName\s*=\s*"([^"]+)"` under `regexp.FindStringSubmatch`.
  - It is proved equal to the pattern read as a grammar.
  - It is proved to return the capture of the leftmost match.
- `Release`: the extraction loop, the cleaning, the tag and message, and the tag check.
- `Runner`: `main`, as a method.
  - Its inputs are the path, the file system (a map from path to text) and whether the k-th external command succeeds.
  - It returns the trace of effects (the file opened and each command with its arguments) and the exit status.

## Model

| member | source | states |
|---|---|---|
| GoStrings.TrimSpace | main.go:97 | the result is a slice of the input with only whitespace on either side of it, and the result itself neither starts nor ends with whitespace |
| GoStrings.TrimSpaceUnique | main.go:97 | for any split of the input into whitespace, a middle that starts and ends with non-whitespace, and whitespace, TrimSpace returns that middle |
| GoStrings.RemoveAll | main.go:98 | ReplaceAll with an empty replacement never lengthens the string |
| GoStrings.RemoveAllIdentityIff | main.go:98 | for a non-empty pattern, ReplaceAll leaves the string unchanged exactly when the pattern does not occur in it |
| GoStrings.RemoveAllNoOccurrence | main.go:98 | a string without the pattern comes back unchanged |
| GoStrings.RemoveAllShortens | main.go:98 | a string holding a non-empty pattern comes back strictly shorter |
| GoStrings.RemoveAllLeftmost | main.go:98 | the leftmost occurrence is cut first: the text before it is kept, and the rest is processed from just after it |
| GoStrings.SplitLines | main.go:83-87 | the scanner's lines never contain a newline |
| GoStrings.SplitTerminated | main.go:83-87 | lines without newlines or a trailing carriage return, each written with a newline after it, scan back to the same lines |
| GoStrings.TerminatedSplit | main.go:83-87 | a text without carriage returns that ends in a newline is rebuilt exactly from its scanned lines |
| GoStrings.SplitLinesCut | main.go:83-87 | the first line scanned is the text up to the first newline less one trailing carriage return, and scanning continues after that newline |
| GoStrings.SplitLinesLast | main.go:83-87 | a final line without a newline is still a line, less one trailing carriage return |
| GoStrings.SplitLinesFirst | main.go:83-87 | a first line with no carriage return at its end comes back unchanged, and scanning continues after its newline |
| GoStrings.ScanLinesExamples | main.go:83-87 | `"a\r\nb"` scans to `["a", "b"]` and `"\r"` scans to `[""]` |
| VersionPattern.MatchAt | main.go:84 | a match at a fixed start captures a non-empty text with no quote |
| VersionPattern.MatchAtSound | main.go:84 | every capture the matcher returns at a start is one the pattern, read as a grammar, admits there |
| VersionPattern.MatchAtComplete | main.go:84 | every capture the pattern admits at a start is the one the matcher returns there |
| VersionPattern.MatchAtIff | main.go:84 | at every start, the matcher returns `v` if and only if the pattern matches there with capture `v` |
| VersionPattern.Capture | main.go:88-89 | a capture of the line is non-empty and holds no quote |
| VersionPattern.CaptureFromLeftmost | main.go:88 | the search finds nothing exactly when no start matches, and otherwise returns the capture from the first start that matches |
| VersionPattern.CaptureFromFirst | main.go:88 | the first start where a match begins decides the result of the search |
| VersionPattern.CaptureIsLeftmostMatch | main.go:88-89 | FindStringSubmatch returns capture `v` if and only if `v` is the capture of a match with no match starting before it |
| VersionPattern.CaptureNoneIff | main.go:88-89 | there is no capture exactly when the pattern matches at no position of the line |
| VersionPattern.CaptureOfVersionLine | main.go:84-90 | an indent without the letter `v`, then `versionName`, spaces, `=`, spaces and `"x"`, followed by anything, yields `x` |
| VersionPattern.CommentedVersionLine | main.go:84-90 | the pattern is unanchored, so the commented-out line `// versionName = "x"` yields `x` |
| Release.FirstVersion | main.go:86-93 | a version taken from the lines is non-empty and holds no quote |
| Release.FirstVersionIsFirstMatch | main.go:86-93 | there is no version exactly when no line matches; otherwise the version is the capture of a line that matches, with no matching line before it |
| Release.FirstVersionSkips | main.go:86-91 | lines that do not match, placed in front, do not change the result |
| Release.FirstVersionIgnoresLaterLines | main.go:89-91 | once a line has matched, lines added after the text are never consulted |
| Release.ExtractVersionName | main.go:76-94 | a path that cannot be opened is an open error; otherwise the result is the capture of the first matching line of the scanned file, or the not-found error when no line matches; a success is non-empty and holds no quote |
| Release.CleanVersionName | main.go:96-100 | cleaning never lengthens the version |
| Release.CleanIdentityIff | main.go:96-100 | cleaning returns the version unchanged if and only if the version has no whitespace at either end and no `-DEBUG` in it |
| Release.RemoveDebugAfter | main.go:98 | the first `-DEBUG` is cut and the text before it is kept |
| Release.CleanAroundMarker | main.go:96-100 | a version with no whitespace at its ends loses its first `-DEBUG` and keeps the text in front of it |
| Release.CleanUnmarked | main.go:96-100 | a version without `-DEBUG` is only trimmed |
| Release.CleanDropsDebugSuffix | main.go:96-100 | `"3.1.4-DEBUG"` is cleaned to `"3.1.4"` |
| Release.CleanDropsEveryMarker | main.go:96-100 | `"1.2.3-DEBUG-DEBUG"` is cleaned to `"1.2.3"` |
| Release.CleanTrimsSpaces | main.go:96-100 | `"  1.0.0  "` is cleaned to `"1.0.0"` |
| Release.CleanMarkerOnly | main.go:96-100 | `"-DEBUG"` is cleaned to the empty string |
| Release.CleanKeepsInnerSpace | main.go:96-100 | `"1.0 0"` is cleaned to itself |
| Release.CleanCanLeaveMarker | main.go:96-100 | `"1.0-DE-DEBUGBUG"` is cleaned to `"1.0-DEBUG"`, which still contains the marker |
| Release.CleanCanLeaveTrailingSpace | main.go:96-100 | `"1.0 -DEBUG"` is cleaned to `"1.0 "`, which ends in whitespace |
| Release.CleanNotIdempotent | main.go:96-100 | cleaning twice differs from cleaning once on both inputs above |
| Release.TagFor | main.go:40 | the tag is one character longer than the cleaned version, starts with `v`, and the rest of it is the cleaned version |
| Release.TagForInjective | main.go:40 | different cleaned versions give different tags |
| Release.MessageFor | main.go:41 | the message is `Release ` followed by the tag |
| Release.AllTagChars | main.go:103-104 | the class check holds if and only if every character is a letter, a digit, `.`, `_` or `-` |
| Release.IsValidTagName | main.go:102-105 | a tag is valid if and only if it is non-empty and every character is a letter, a digit, `.`, `_` or `-` |
| Release.DerivedTagValidIff | main.go:40-48 | a derived tag is valid if and only if every character of the cleaned version is in the class |
| Release.ValidationExamples | main.go:40-48 | `"1.0 0"` gives `"v1.0 0"`, which is refused; `"3.1.4"` gives `"v3.1.4"`, which is accepted; `"v2.5.0"` gives the message `"Release v2.5.0"` |
| Runner.DeriveTag | main.go:19-48 | whenever the steps before the first command succeed, the path was set and the tag is valid and starts with `v` |
| Runner.EmptyVersionUnreachable | main.go:32-35 | the empty-version check never stops a run, because a successful extraction is never empty |
| Runner.DeriveTagSuccessIff | main.go:19-48 | a run reaches its commands with tag `t` if and only if the path is set, the file opens, some line holds a version, the cleaned version of the first such line has only characters from the class, and `t` is `v` followed by it |
| Runner.CreateTag | main.go:107-112 | the command is `git tag -a <tag> -m <message> -f`, with the tag and the message as single arguments |
| Runner.SetEnvVariable | main.go:128-130 | the command is `envman add --key <key> --value <value>`, with the key and the value as single arguments |
| Runner.ReleaseCommands | main.go:50-73 | the plan has five commands in this order: create the tag with its message, list the tags, push the tags, list the tags, export the tag under `NEW_TAG_NAME` |
| Runner.Publish | main.go:50-73 | the commands issued are a nonempty prefix of the five planned commands, in order; every command before the last one issued succeeded; status 1 means the last one issued failed; status 0 holds exactly when all five succeed, and then all five were issued, so the push and the `NEW_TAG_NAME` export included |
| Runner.Run | main.go:16-74 | an empty path stops with status 1 before anything is opened or run; any failure before the commands stops with status 1 after at most opening the file; otherwise the trace is the opening followed by a nonempty prefix of the five planned commands for the derived tag and its message, where every command but the last succeeded and status 1 means the last failed; status 0 holds exactly when the tag is derived and all five commands succeed, and then the trace is the opening followed by all five |
| Runner.NoCaptureWithoutV | main.go:84-90 | a line without the letter `v` holds no match |
| Runner.VersionLineCapture | main.go:84-90 | the line `    versionName = "x"` yields `x` |
| Runner.BuildFileLines | main.go:83-87 | the three-line build file scans back to its three lines |
| Runner.VersionOfBuildFile | main.go:76-94 | the version read from a build file whose middle line is `    versionName = "x"` is `x` |
| Runner.DeriveTagOfFile | main.go:37-48 | when a readable file's first version is `v`, the run derives the tag `v` followed by the cleaned `v` if that tag is valid, and otherwise stops on that tag |
| Runner.DebugBuildIsTagged | main.go:25-48 | the build file with `    versionName = "3.1.4-DEBUG"` leads to the tag `v3.1.4` |
| Runner.SpacedVersionIsRefused | main.go:37-48 | the build file with version `1.0 0` stops the run on the invalid tag `v1.0 0` |
| Runner.MarkerOnlyVersionGivesBareTag | main.go:32-48 | the build file with version `-DEBUG` leads to the bare tag `v`, which the tag check accepts |
| Runner.UnversionedFileStops | main.go:86-93 | a readable build file with no version line stops the run with the not-found error |

## Left out

- Subprocesses: git and envman are never run. Each command is an `Exec` effect with its argument list, and whether it succeeds is the input `succeeds(k)`. Their output, stdout and stderr are not modelled.
- Logging: `log.Infof` and `log.Errorf` only print, so they are not modelled.
- The environment variable becomes the parameter `gradleFilePath`.
- File reading: the file system is a map from path to text. Opening fails exactly when the path is not in the map, and the reason for the failure is not kept. `file.Close` is not modelled.
- The scanner's 64 KiB line limit is not modelled. The code ignores `scanner.Err()`: with the limit in place, a longer line ends the scan and gives the not-found error. In the model, every line is scanned.
- Go strings are byte strings. The model takes them as sequences of runes, so invalid UTF-8 is not modelled.
- Only the two fixed patterns are modelled. General regular expressions are not.
- Runner.Run: the five commands are issued by its helper method `Publish`, not inline in `Run`. The sequence of effects and the exit status are the same.
- Runner.Run: reaching the end of `main` is status 0. Go's exit machinery is not modelled.

## Notes on the code

- Cleaning is not idempotent, and its result can still contain `-DEBUG`.
  - `"1.0-DE-DEBUGBUG"` is cleaned to `"1.0-DEBUG"`, because deleting one marker joins its neighbours into a new one.
  - `"1.0 -DEBUG"` is cleaned to `"1.0 "`, because trimming happens before the marker is cut.
  - The model follows the code: `Release.CleanCanLeaveMarker`, `Release.CleanCanLeaveTrailingSpace` and `Release.CleanNotIdempotent` prove both behaviours.
- The emptiness check in `main` happens before cleaning. A version of just `-DEBUG` therefore becomes the tag `v`, which passes the tag check (`Runner.MarkerOnlyVersionGivesBareTag`).
