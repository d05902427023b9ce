# TestLogger: a verified model of typedoc's test message recorder

typedoc's test suite uses `TestLogger` to check which messages a run of the
documentation generator logged. Every logged line is stored in an ordered buffer
with a prefix for its severity (`error: `, `warn: `, `info: `, `debug: `).
`expectMessage(pattern)` consumes the first buffered line that a glob pattern
matches, or fails the test and lists what was logged.
`expectNoOtherMessages()` demands an empty buffer.
`discardDebugMessages()` drops the debug lines.
`diagnostic(d)` turns a TypeScript compiler diagnostic into a logged line.

The model has two modules:

- `Glob` (`glob.dfy`) gives the meaning of the matcher that `createRegex` builds. It is the recursive predicate `GlobMatch(pattern, s)`: an anchored, case-sensitive, whole-string match where `*` matches any run of characters, line breaks included, and every other character is literal. The lemmas prove the consequences of the escaping and the `[\s\S]*` substitution.
- `TestLog` (`test_logger.dfy`) holds the level table `levelMap` (`LevelPrefix`) and the class `TestLogger`, whose one field `messages: seq<string>` is the buffer its methods change in place. It also holds the specification functions the methods are proved against: `FirstMatch` (the `findIndex` result), `RemoveAt` (`splice(i, 1)`), `WithoutDebug` (`removeIf` on `startsWith("debug")`) and the failure texts. Lemmas about those functions relate several calls. `FindIndex` is the `findIndex` scan as a loop. Two scenario methods drive the recorder through a whole test, and their results follow from the method contracts alone.

An assertion failure (`fail`, `deepStrictEqual`) is the result `Fail(message)` of type `Outcome`. A passing assertion returns `Pass`.

Four points where the code's behaviour is easy to misread:

- A line is stored as level prefix plus text. So the pattern that consumes a freshly logged line is `levelMap[level] + text`, not the bare text.
- After `log`, expecting `levelMap[level] + text` always restores the earlier length. When no earlier line matched that pattern, it also restores the earlier buffer exactly. When an earlier line did match, that earliest earlier line is consumed instead, and the new line stays at the end (`LogThenExpect`).
- `expectNoOtherMessages` does not list the remaining lines. When `deepStrictEqual` is given a string message, it throws an `AssertionError` whose message is exactly that string, and it generates no diff. The error's `actual` and `expected` properties, from which a test runner may print the buffer, are not modelled.
- `messages.join("\n\t") || "(none logged)"` also prints `(none logged)` for a buffer holding a single empty line. `log` can never store such a line, because each prefix is non-empty. `Listing` models the expression as written.

## Model

| member | source | states |
|---|---|---|
| `Glob.GlobMatch` | src/test/TestLogger.ts:67-75 | Definition: the meaning of `createRegex(p).test(s)`. The lemmas below state its properties: `StarPrefix`, `StarMatchesAll`, `MatchesItself`, `LiteralMatchesOnlyItself`, `MatchConcat`, `StarMatchesAnyRun`, `LiteralThenStar`, `LiteralPrefixOfMatch` and `FooStar`. |
| `Glob.StarPrefix` | src/test/TestLogger.ts:71 | A leading `*` followed by `p` matches `s` exactly when `p` matches some suffix of `s`. So the star consumes any prefix, however long, empty included. |
| `Glob.StarMatchesAll` | src/test/TestLogger.ts:71 | The pattern `"*"` matches every string, including the empty string and strings with line breaks. |
| `Glob.MatchesItself` | src/test/TestLogger.ts:67-75 | Every string matches itself used as a pattern, even one containing `*`. |
| `Glob.LiteralMatchesOnlyItself` | src/test/TestLogger.ts:67-75 | A pattern without `*` matches `s` if and only if `s` equals it. The match is anchored at both ends, and every escaped metacharacter is literal. |
| `Glob.MatchConcat` | src/test/TestLogger.ts:67-75 | Matching composes: a match of `p1` on `s1` followed by a match of `p2` on `s2` is a match of `p1 + p2` on `s1 + s2`. |
| `Glob.StarMatchesAnyRun` | src/test/TestLogger.ts:71 | Where `p1` matches `s1` and `p2` matches `s2`, the pattern `p1 + "*" + p2` matches `s1 + t + s2` for every `t`. |
| `Glob.LiteralThenStar` | src/test/TestLogger.ts:67-75 | For a `*`-free literal `lit`, the pattern `lit + "*"` matches `s` if and only if `s` starts with `lit`. |
| `Glob.LiteralPrefixOfMatch` | src/test/TestLogger.ts:70-71 | A `*`-free head of a pattern must literally open every string the pattern matches. |
| `Glob.FooStar` | src/test/TestLogger.ts:71 | `"foo*"` matches exactly the strings that start with `"foo"`. |
| `TestLog.LevelPrefix` | src/test/TestLogger.ts:6-11 | `levelMap`. Every prefix is a `*`-free word followed by `": "`. Only the Verbose prefix starts with `debug` (`LoggedDebugIffVerbose`). No prefix opens a line of another level (`LevelPatternMatchesOnlyItsLevel`). |
| `TestLog.IsDebugLine` | src/test/TestLogger.ts:23 | Definition: `msg.startsWith("debug")`. Its properties are stated by `WithoutDebug`, `WithoutDebugCounts` and `LoggedDebugIffVerbose`. |
| `TestLog.Join` | src/test/TestLogger.ts:30 | Definition: `Array.prototype.join`. `JoinEmpty` gives the case where the result is empty, and `JoinListsEvery` shows that every line occurs in the result. |
| `TestLog.UnmatchedText` | src/test/TestLogger.ts:31-33 | Definition: the failure text of `expectMessage`. `UnmatchedTextListsBuffer` shows that it contains every buffered line, or `(none logged)` when the buffer is empty. `ExpectMessage` returns it on failure. |
| `TestLog.NoOtherMessagesText` | src/test/TestLogger.ts:39 | Definition: the failure message of `expectNoOtherMessages`. `ExpectNoOtherMessages` returns it on failure. |
| `TestLog.FirstMatch` | src/test/TestLogger.ts:28 | The index is -1 if and only if no line matches. Otherwise the line at that index matches and no line before it does. |
| `TestLog.RemoveAt` | src/test/TestLogger.ts:35 | Removing index `i` shortens the buffer by one. Lines before `i` keep their places, and the lines after it move down by one. |
| `TestLog.WithoutDebug` | src/test/TestLogger.ts:22-24 | The filtered buffer has no line starting with `debug`. A string is in it if and only if it is in the buffer and does not start with `debug`. |
| `TestLog.Listing` | src/test/TestLogger.ts:30 | An empty buffer, or a buffer holding one empty line, is listed as `(none logged)`. Any other buffer is listed as its lines joined by `"\n\t"`. |
| `TestLog.FindIndex` | src/test/TestLogger.ts:28 | The loop scans in order and returns the `findIndex` result `FirstMatch(lines, pattern)`. |
| `TestLog.TestLogger.constructor` | src/test/TestLogger.ts:14 | A new recorder has an empty buffer. |
| `TestLog.TestLogger.Reset` | src/test/TestLogger.ts:16-20 | The buffer becomes empty. |
| `TestLog.TestLogger.DiscardDebugMessages` | src/test/TestLogger.ts:22-24 | The buffer becomes the order-preserving filter of the old buffer, without the lines that start with `debug`. |
| `TestLog.TestLogger.ExpectMessage` | src/test/TestLogger.ts:26-36 | The call passes if and only if some line matches. On a pass, exactly the first matching line is removed, the length drops by one and the other lines keep their order. On a failure, the message names the pattern and lists the buffer, and the buffer is unchanged. |
| `TestLog.TestLogger.ExpectNoOtherMessages` | src/test/TestLogger.ts:38-40 | The call passes if and only if the buffer is empty. Otherwise it fails with the fixed message. It changes nothing. |
| `TestLog.TestLogger.LogDiagnostic` | src/test/TestLogger.ts:49-58 | An Error diagnostic appends an `error: ` line, a Warning appends a `warn: ` line and a Message appends an `info: ` line. A Suggestion leaves the buffer as it was. |
| `TestLog.TestLogger.Log` | src/test/TestLogger.ts:61-64 | Exactly one line, `levelMap[level] + message`, is appended after all earlier lines. The earlier lines are untouched. |
| `TestLog.JoinEmpty` | src/test/TestLogger.ts:30 | `join` with a non-empty separator is empty if and only if there are no lines or exactly one empty line. |
| `TestLog.JoinListsEvery` | src/test/TestLogger.ts:30 | Every line of the buffer occurs in the joined text. |
| `TestLog.UnmatchedTextListsBuffer` | src/test/TestLogger.ts:28-33 | The failure text of `expectMessage` contains every buffered line, and contains `(none logged)` when the buffer is empty. |
| `TestLog.WithoutDebugConcat` | src/test/TestLogger.ts:23 | The filter works piecewise on concatenated buffers, so the relative order of kept lines is preserved. |
| `TestLog.WithoutDebugCounts` | src/test/TestLogger.ts:23 | Each line that does not start with `debug` is kept as many times as it occurred. Debug lines have count zero. |
| `TestLog.WithoutDebugKeepsClean` | src/test/TestLogger.ts:23 | A buffer with no debug line is left exactly as it is. |
| `TestLog.WithoutDebugIdempotent` | src/test/TestLogger.ts:22-24 | Discarding debug lines twice gives the same buffer as discarding them once. |
| `TestLog.LoggedDebugIffVerbose` | src/test/TestLogger.ts:6-11 | A logged line starts with `debug` if and only if it was logged at level Verbose. |
| `TestLog.LogThenDiscard` | src/test/TestLogger.ts:22-24 | Filtering after one `log` gives the filter of the earlier buffer. The new line is added at the end unless its level is Verbose, in which case it is gone. |
| `TestLog.LevelPatternMatchesOnlyItsLevel` | src/test/TestLogger.ts:6-11 | The pattern `levelMap[a] + "*"` (such as `"warn: *"`) matches a line logged at level `b` if and only if `a == b`. |
| `TestLog.LogThenExpect` | src/test/TestLogger.ts:26-36 | After `log(m, level)`, the pattern `levelMap[level] + m` always finds a match, and consuming it restores the earlier length. If no earlier line matched, the earlier buffer is restored exactly. Otherwise the earliest earlier match is consumed. |
| `TestLog.DiscardThenConsumeScenario` | src/test/TestLogger.ts:13-64 | Log an error `a`, a warning `b` and a debug `c`, then discard the debug lines. Expecting `"error: a"` and then `"warn: *"` both pass, and `expectNoOtherMessages` passes on the empty buffer. |
| `TestLog.MissingOnEmptyScenario` | src/test/TestLogger.ts:26-33 | Expecting any message of an empty recorder fails with a text containing `(none logged)`. |

## Left out

- `super.log`, `resetErrors` and `resetWarnings` are calls into the base `Logger` of `src/lib/utils`, which is not part of this model. Its counters and console output are not represented. `Reset` and `Log` model only the buffer.
- `ts.formatDiagnostic`, `path.resolve`, `process.cwd()` and `ts.sys.newLine` are foreign calls. The formatted text is the opaque field `formatted` of `Diagnostic`, and only the category-to-level mapping is modelled.
- The JavaScript `RegExp` engine and the textual escape/replace of `createRegex` are not modelled. The model states their combined meaning directly as `GlobMatch`.
- The assertion library's output is not modelled beyond the failure texts written in this file. The `actual` and `expected` properties of the `AssertionError` that `deepStrictEqual` throws are not represented.
- `removeIf` lives in `src/lib/utils`, which is not part of this model. It is taken to be an in-place filter that keeps the order of what it keeps. The model assigns the filtered sequence instead of removing lines one by one.
- Abort semantics are not modelled. A failed assertion throws and ends the test, while the model returns `Fail` and the caller may go on.
- Unicode: a Dafny `char` is a Unicode scalar value, while a JavaScript string is a sequence of UTF-16 code units, and a `RegExp` without the `u` flag matches code units. The glob meaning agrees on well-formed strings, but strings holding lone surrogates cannot be represented.
- Aliasing: `push`, `splice` and `removeIf` change the public `messages` array in place, while `reset` replaces it with a new array. The `seq` field does not capture that difference, which matters only to code that keeps a reference to the old array.
