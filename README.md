# mod-lang-scala, modelled in Dafny

This project models the logic of mod-lang-scala that can be stated without the vert.x
runtime. The project itself is a language module that lets vert.x deploy `scalaj` verticles.
The model covers three parts, and properties are proved about each.

- **The verticle factory** (`VerticleFactory`). It decides which deployment identifiers it
  owns, using the fixed prefix `scalaj:` and suffix `.scalaj`. It strips the prefix before
  creating a verticle.
- **The two blocking result collectors of the test suite.** These are `CountDownLatchHandler`
  (`LatchHandler`) and `HttpClientResponseHandler` (`ResponseHandler`). Each is a class over a
  bounded FIFO queue and a countdown counter. The response handler also has a second bounded
  queue for bodies. Both are modelled sequentially: an offer to a full queue is dropped, and a
  wait answers at once whether the counter is zero. The pure specification they share is in
  `Collector`.
- **The release tooling.**
  - `Utils` covers the helpers of `dist/utils.py`: boolean parsing, the search-path pattern,
    path stripping, de-duplication, the version pattern, branch-list cleaning and the
    `git` argument vector.
  - `Release` covers `dist/release.py`: version validation, the `version=` line rewrite and
    the next snapshot version.
  - `Text` holds the pieces of the Java and Python 2 string libraries these use, written over
    `seq<char>`: strip, replace, upper/lower, split, and `int`/`str`.
  - `Wrappers` holds `Option` and `Result`.

Each regular expression is written out as a predicate. The search-path pattern is the only
one with a real search; it has a scanner and a lemma proving the scanner agrees with the
pattern.

## Model

| member | source | states |
|---|---|---|
| VerticleFactory.GetLanguage | src/main/java/org/vertx/java/deploy/impl/scala/ScalaVerticleFactory.java:22-25 | the language tag is the one both markers are built from: prefix = tag + `:`, suffix = `.` + tag |
| VerticleFactory.IsFactoryFor | src/main/java/org/vertx/java/deploy/impl/scala/ScalaVerticleFactory.java:28-38 | an identifier is claimed iff it is `scalaj:` followed by anything, or anything followed by `.scalaj` |
| VerticleFactory.ResolveMain | src/main/java/org/vertx/java/deploy/impl/scala/ScalaVerticleFactory.java:48-50 | with the prefix, the result is what follows it (`Prefix + r == main`); without it, the name is unchanged |
| VerticleFactory.ResolvePrefixed | src/main/java/org/vertx/java/deploy/impl/scala/ScalaVerticleFactory.java:48-50 | round trip: any name with the prefix added is claimed and resolves back to the name |
| VerticleFactory.MarkersDoNotOverlap | src/main/java/org/vertx/java/deploy/impl/scala/ScalaVerticleFactory.java:11-13 | a name carrying both markers is at least as long as both together, since the prefix holds no `.` |
| VerticleFactory.ResolveKeepsSuffix | src/main/java/org/vertx/java/deploy/impl/scala/ScalaVerticleFactory.java:44-50 | a name carrying both markers still ends with `.scalaj` after the prefix is stripped |
| VerticleFactory.CreateVerticle | src/main/java/org/vertx/java/deploy/impl/scala/ScalaVerticleFactory.java:41-53 | always a fresh verticle; the name it resolves is the prefix-stripped one and keeps a suffix it had |
| VerticleFactory.TestIdentifierNotClaimed | src/main/java/org/vertx/java/deploy/impl/scala/ScalaVerticleFactory.java:28-38 | the test identifier `scala:org.vertx.test.SimpleVerticle` is not claimed |
| Collector.OfferAllKeepsEarliest | src/test/java/org/vertx/test/http/CountDownLatchHandler.java:51-54 | after a run of offers, the queue holds its old contents plus the earliest offers that fit, in order; later ones are lost |
| Collector.CountDownAllFloor | src/test/java/org/vertx/test/http/CountDownLatchHandler.java:51-54 | after k deliveries the counter is `n - k`, or 0 once `k >= n`: it never goes below zero |
| Collector.CountDownAllStep | src/test/java/org/vertx/test/http/CountDownLatchHandler.java:54 | one more delivery counts down exactly once more |
| Collector.Deliveries | src/test/java/org/vertx/test/http/CountDownLatchHandler.java:43-54 | a fresh collector for n given xs holds the first n of xs; its counter is 0 iff at least n arrived, and it equals n minus the number held |
| LatchHandler.CountDownLatchHandler.constructor | src/test/java/org/vertx/test/http/CountDownLatchHandler.java:43-48 | empty queue of capacity `size`, counter `size`, the given timeout and unit |
| LatchHandler.CountDownLatchHandler.WithTimeout | src/test/java/org/vertx/test/http/CountDownLatchHandler.java:39-41 | as above with the unit in milliseconds |
| LatchHandler.CountDownLatchHandler.WithSize | src/test/java/org/vertx/test/http/CountDownLatchHandler.java:35-37 | as above with a timeout of 1000 ms |
| LatchHandler.CountDownLatchHandler.Handle | src/test/java/org/vertx/test/http/CountDownLatchHandler.java:51-59 | the event is offered (appended if there is room, dropped otherwise) and the counter counts down either way; while the counter is positive nothing is dropped; after `capacity` deliveries the counter is 0; the invariant is kept |
| LatchHandler.CountDownLatchHandler.HandleAll | src/test/java/org/vertx/test/http/CountDownLatchHandler.java:51-54 | a run of `handle` calls leaves the queue as `OfferAll` says, that is the old contents plus the earliest events that fit, in order; the counter has counted down once per delivery; the invariant is kept |
| LatchHandler.CountDownLatchHandler.WaitFor | src/test/java/org/vertx/test/http/CountDownLatchHandler.java:70-79 | true iff the counter is zero |
| LatchHandler.CountDownLatchHandler.WaitForMillis | src/test/java/org/vertx/test/http/CountDownLatchHandler.java:81-83 | true iff the counter is zero |
| LatchHandler.CountDownLatchHandler.WaitForDuration | src/test/java/org/vertx/test/http/CountDownLatchHandler.java:85-94 | true iff the counter is zero |
| LatchHandler.CountDownLatchHandler.IsEmpty | src/test/java/org/vertx/test/http/CountDownLatchHandler.java:96-98 | true iff the queue is empty; the counter plays no part |
| LatchHandler.CountDownLatchHandler.Size | src/test/java/org/vertx/test/http/CountDownLatchHandler.java:100-102 | the queue length, never above the capacity |
| LatchHandler.CountDownLatchHandler.PollWithin | src/test/java/org/vertx/test/http/CountDownLatchHandler.java:104-106 | removes and returns the oldest event, or nothing when empty |
| LatchHandler.CountDownLatchHandler.Poll | src/test/java/org/vertx/test/http/CountDownLatchHandler.java:108-110 | removes and returns the oldest event, or nothing when empty; the counter is untouched |
| LatchHandler.CountDownLatchHandler.Peek | src/test/java/org/vertx/test/http/CountDownLatchHandler.java:112-114 | the oldest event or nothing; the state is unchanged |
| LatchHandler.OneResponseDelivered | src/test/java/org/vertx/test/http/HttpServerTest.java:48-57 | a handler for one response, given one: the wait succeeds and the poll returns that response |
| LatchHandler.NothingDelivered | src/test/java/org/vertx/test/http/CountDownLatchHandler.java:81-110 | with nothing delivered the wait fails and the poll finds nothing |
| LatchHandler.OverDelivery | src/test/java/org/vertx/test/http/CountDownLatchHandler.java:51-54 | two deliveries to a handler for one: the wait succeeds, the first is kept, the second is lost |
| ResponseHandler.HttpClientResponseHandler.constructor | src/test/java/org/vertx/test/http/HttpClientResponseHandler.java:47-53 | two empty queues of capacity `size`, counter `size`, the given timeout and unit |
| ResponseHandler.HttpClientResponseHandler.WithTimeout | src/test/java/org/vertx/test/http/HttpClientResponseHandler.java:43-45 | as above with the unit in milliseconds |
| ResponseHandler.HttpClientResponseHandler.WithSize | src/test/java/org/vertx/test/http/HttpClientResponseHandler.java:39-41 | as above with a timeout of 1000 ms |
| ResponseHandler.HttpClientResponseHandler.Handle | src/test/java/org/vertx/test/http/HttpClientResponseHandler.java:55-69 | the response is offered and the counter counts down either way; the body queue is untouched; nothing is dropped while the counter is positive |
| ResponseHandler.HttpClientResponseHandler.OnBody | src/test/java/org/vertx/test/http/HttpClientResponseHandler.java:57-61 | the body is appended when the body queue has room and dropped otherwise; responses and counter untouched |
| ResponseHandler.HttpClientResponseHandler.GetBody | src/test/java/org/vertx/test/http/HttpClientResponseHandler.java:111-118 | removes and returns the oldest body, or nothing when none arrived |
| ResponseHandler.HttpClientResponseHandler.WaitFor | src/test/java/org/vertx/test/http/HttpClientResponseHandler.java:79-87 | true iff the counter is zero |
| ResponseHandler.HttpClientResponseHandler.WaitForMillis | src/test/java/org/vertx/test/http/HttpClientResponseHandler.java:89-91 | true iff the counter is zero |
| ResponseHandler.HttpClientResponseHandler.WaitForDuration | src/test/java/org/vertx/test/http/HttpClientResponseHandler.java:93-101 | true iff the counter is zero |
| ResponseHandler.HttpClientResponseHandler.IsEmpty | src/test/java/org/vertx/test/http/HttpClientResponseHandler.java:103-105 | true iff the response queue is empty |
| ResponseHandler.HttpClientResponseHandler.Size | src/test/java/org/vertx/test/http/HttpClientResponseHandler.java:107-109 | the response queue length, never above the capacity |
| ResponseHandler.HttpClientResponseHandler.PollWithin | src/test/java/org/vertx/test/http/HttpClientResponseHandler.java:120-127 | removes and returns the oldest response, or nothing when empty |
| ResponseHandler.HttpClientResponseHandler.Poll | src/test/java/org/vertx/test/http/HttpClientResponseHandler.java:129-131 | removes and returns the oldest response, or nothing when empty |
| ResponseHandler.HttpClientResponseHandler.Peek | src/test/java/org/vertx/test/http/HttpClientResponseHandler.java:133-135 | the oldest response or nothing; the state is unchanged |
| ResponseHandler.ResponseWithBody | src/test/java/org/vertx/test/http/HttpClientResponseHandler.java:55-118 | one response then its body: the wait succeeds, both come back, and a second `getBody` finds nothing |
| Text.StripIdempotent | dist/utils.py:132 | stripping twice is stripping once |
| Text.StripPadded | dist/utils.py:111 | stripping removes exactly the surrounding characters of the set around a word that starts and ends outside it |
| Text.UpperIdempotent | dist/release.py:47 | upper-casing twice is upper-casing once |
| Text.JoinSplitFrom | dist/utils.py:207 | joining the pieces of `split(c)` with `c` gives the text back |
| Text.ConcatSplitFrom | dist/utils.py:207-209 | the non-empty pieces of a split, concatenated, are the text with the separators removed |
| Text.ParseIntRoundTrip | dist/release.py:94 | `int(str(i)) == i` for every integer |
| Text.ParseIntRejects | dist/release.py:94 | `int` fails on a blank text and on any text holding a character that is not a digit, whitespace or a sign |
| Text.RemoveAllChars | dist/utils.py:176 | `replace(c, '')` for the characters of a set leaves exactly the characters outside the set |
| Text.StripEmpty | dist/utils.py:179 | a text strips to nothing exactly when it is all whitespace |
| Text.StripPieces | dist/utils.py:111 | every text is its strip with a prefix and a suffix of stripped characters around it |
| Utils.ToBool | dist/utils.py:107-111 | a bool is returned as it is; any value that is neither a bool nor a string gives nothing |
| Utils.ToBoolRecognised | dist/utils.py:107-111 | a string that gives a truth value is a word spelling `true` or `false` in any case between whitespace, and the value matches the word; every other string gives nothing (the `dict.get` default) |
| Utils.ToBoolPadded | dist/utils.py:107-111 | surrounding whitespace and letter case do not matter: a padded word lower-casing to `true`/`false` gives that value |
| Utils.ToBoolOfStr | dist/utils.py:107-111 | `to_bool(str(b)) == b` |
| Utils.FindBin | dist/utils.py:124-125 | a found index holds `bin/`, with no newline before it |
| Utils.FindDotPy | dist/utils.py:124-125 | a found index holds `py`, at least one character on, with no newline before it |
| Utils.FindBinComplete | dist/utils.py:124-125 | if `bin/` occurs before any newline, the scanner finds one |
| Utils.FindDotPyComplete | dist/utils.py:124-125 | if `py` occurs later on the same line, the scanner finds one |
| Utils.MatchesBinDirCorrect | dist/utils.py:124-125 | the scanner matches iff the pattern `^.*/?bin/.*.py` has a match |
| Utils.GetSearchPath | dist/utils.py:122-128 | `./` iff the executable matches the pattern, `../` iff it does not |
| Utils.SearchPathOfReleaseScript | dist/utils.py:122-128 | `bin/release.py`, as the usage text runs it, gets `./` |
| Utils.StripLeadingDots | dist/utils.py:131-132 | the result neither starts nor ends with `/`, `.` or a space |
| Utils.StripLeadingDotsIdempotent | dist/utils.py:131-132 | applying it twice is applying it once |
| Utils.StripLeadingDotsTrailing | dist/utils.py:131-132 | trailing marks go as well as leading ones: `./` + name + marks gives the name |
| Utils.ToSet | dist/utils.py:135-140 | exactly the elements of the list, each once |
| Utils.IsVersion | dist/utils.py:369-370 | the pattern `^([0-9]\.[0-9])\.[0-9]` as `match` applies it: digit, dot, digit, dot, digit at the start, anything after; case folding does not matter for digits |
| Utils.GetVersionMajorMinor | dist/utils.py:369-376 | a result exactly for strings the version pattern accepts; it is their first three characters, digit `.` digit |
| Utils.Clean | dist/utils.py:176 | no space and no `*` in the result, nothing that was not in the line, and every character of the line that is neither whitespace nor `*` is kept |
| Utils.CleanBranchName | dist/utils.py:176 | a branch line of `git branch`, indented or marked `* `, cleans to the bare branch name |
| Utils.NonEmpty | dist/utils.py:179 | a line passes iff it is present and holds a character other than whitespace |
| Utils.Current | dist/utils.py:182-183 | a line is current iff it is present and its first character other than whitespace is `*` |
| Utils.NonEmptyLines | dist/utils.py:243 | the filter never lengthens the list |
| Utils.NonEmptyLinesKeeps | dist/utils.py:243 | every non-blank line passes the filter |
| Utils.NonEmptyLinesOnly | dist/utils.py:243 | only non-blank lines pass the filter |
| Utils.CleanBranches | dist/utils.py:242-243 | never longer than the input; no branch holds a space or `*` |
| Utils.CleanBranchesKeepsListed | dist/utils.py:242-243 | every non-blank line shows up, cleaned, in the list |
| Utils.CleanBranchesOnlyListed | dist/utils.py:242-243 | every listed branch is the cleaned form of some non-blank line |
| Utils.CurrentIsListed | dist/utils.py:182-183 | the line marked current is non-blank, so its cleaned form is among the branches |
| Utils.WordsOfText | dist/utils.py:206-209 | each word is non-empty and space-free, and the words together are the text without its spaces |
| Utils.ListCall | dist/utils.py:202-205 | `git` followed by the items in order |
| Utils.StringCall | dist/utils.py:206-209 | `git` followed by the non-empty pieces of the string split on single spaces |
| Utils.GitCall | dist/utils.py:201-211 | the list or string argument vector as above, no empty argument from a string, and an error for any other type |
| Release.Validated | dist/release.py:47 | stripping and upper-casing a matching version keeps its first five characters |
| Release.ValidateVersion | dist/release.py:44-50 | accepted iff the version pattern matches; the result still matches and keeps the first five characters; otherwise the error names the version |
| Release.ValidateVersionPadded | dist/release.py:44-47 | the accepted value is `version.strip().upper()`: a matching version followed by whitespace validates to the upper-cased version without it |
| Release.ValidateVersionIdempotent | dist/release.py:44-47 | a validated version validates to itself |
| Release.ValidateKeepsMajorMinor | dist/release.py:44-47 | validation does not change the `major.minor` part |
| Release.IsVersionLine | dist/release.py:73-76 | the pattern `\s*version=` as `match` applies it: strip the leading whitespace, then `version=` |
| Release.VersionLineKey | dist/release.py:73-76 | a line matches exactly when `version=` follows whitespace only |
| Release.RewriteLine | dist/release.py:76-81 | a version line is replaced by `version=<version>` and a newline, which matches again; any other line is copied |
| Release.RewriteLines | dist/release.py:75-81 | one written line per line read, each the rewrite of its line |
| Release.IndentedVersionLine | dist/release.py:73 | whitespace before `version=` does not stop the match |
| Release.RewriteLineIdempotent | dist/release.py:73-81 | the written line matches the pattern again, so it rewrites to itself |
| Release.RewriteLinesIdempotent | dist/release.py:75-81 | rewriting twice with one version is rewriting once |
| Release.RewriteLinesKeepsShape | dist/release.py:75-81 | the line count is kept; every other line is copied verbatim; a line matches after the rewrite iff it matched before |
| Release.RewriteProperties | dist/release.py:75-84 | the loop writes exactly the rewritten lines |
| Release.NextVersion | dist/release.py:68-94 | a result always ends in `.0-SNAPSHOT`; the failures are the `IndexError` and `ValueError` cases |
| Release.NextFromPieces | dist/release.py:94 | a result needs at least two pieces and ends in `.0-SNAPSHOT`; a failure is `IndexError` iff there are fewer than two pieces, and `ValueError` only when the second piece is not an integer |
| Release.SplitVersion | dist/release.py:68 | major, `.`, minor and a tail starting at a separator split into major and minor first |
| Release.NextFromMinor | dist/release.py:94 | a second piece that is the decimal form of m gives minor m + 1 |
| Release.NextVersionBumpsMinor | dist/release.py:68-94 | `major.minor<tail>` is followed by `major.(minor+1).0-SNAPSHOT` |
| Release.NextVersionOfValidVersion | dist/release.py:68-94 | every version the pattern accepts has a next version: same major digit, minor digit plus one, `.0-SNAPSHOT` (so `0.1.0` gives `0.2.0-SNAPSHOT`) |
| Release.NextVersionIndexError | dist/release.py:68-94 | the next version is `IndexError` iff the version has no `.` and no `-` |
| Release.NextVersionNonIntegerMinor | dist/release.py:68-94 | a second piece that is blank or holds a character other than a digit, whitespace or `+` gives `ValueError`, as for `1.x.0` |
| Release.UpdateVersion | dist/release.py:64-94 | the rewritten lines and the next version, for the version as given (it is not validated first) |

## Left out

- `init` and `reportException` of the factory only store and call the host's manager and logger. They are not modelled.
- The `// do compile` branch of `createVerticle` is empty in the source and is modelled as an empty branch.
- The class loader passed to `createVerticle` is not a parameter, because the method never reads it.
- `waitForever` is not modelled: it blocks until the counter is zero, which has no sequential meaning.
- Blocking and timeouts are abstracted away. An `offer` to a full queue is dropped. A wait returns at once, true iff the counter is zero. The two-argument `poll` and `getBody` answer as the non-waiting `poll` does.
- The `InterruptedException` paths that print a stack trace are not modelled.
- A `null` event is not modelled. `LinkedBlockingQueue.offer` throws on it, but the model's events are plain values.
- LatchHandler.CountDownLatchHandler.constructor: requires `size >= 1`. The Java constructor throws `IllegalArgumentException` for a smaller size, and the model does not represent the exception.
- ResponseHandler.HttpClientResponseHandler.constructor: requires `size >= 1` for the same reason.
- The same `size >= 1` requirement applies to `WithTimeout` and `WithSize` in both classes.
- ResponseHandler.HttpClientResponseHandler.Handle: does not register a body callback.
  - Registering the callback on the response and decoding the buffer as UTF-8 are calls into the host runtime.
  - A body arrives instead through `OnBody`, as an already decoded string.
- The response object is reduced to its status code.
- `ScalaClassRunner` and the integration tests are not part of this model. The tests are used only as scenarios.
- Terminal output is not modelled: `Colors`, `Levels`, `prettyprint`, `use_colors` and the `help_and_exit` message. Rejection is an error value instead.
- `input_with_default`, the argument parser and the interactive prompts read the terminal. They are not modelled.
- `GlobDirectoryWalker` lists the file system and is not modelled.
- The subprocess calls are not modelled: in `Git`, in `Uploader`/`DryRun`/`DryRunUploader` and in `build_publish`.
- Utils.GitCall: stops at the argument vector. It does not model the verbose log, `check_call`/`Popen`, or the split of the output into lines.
- Utils.GitCall: the unsupported-type branch is a single error value. The source raises with the name `Error`, which `dist/utils.py` never defines, so Python reports a `NameError`; either way the call fails.
- The git workflow methods are not modelled: branch switching, tagging, pushing, commit, cleanup, `is_upstream_clone`, `remote_branch_exists` and `current_branch`. Only the `clean`, `non_empty`, `current` and `clean_branches` helpers they rely on are modelled.
- The random temporary branch name is not modelled.
- `assert_python_minimum_version` reads `sys.version` and exits. It is not modelled.
- Release.UpdateVersion: takes the properties file as a list of lines and returns the lines to write.
  - Opening, the temporary file, the rename and the git commit are file system and subprocess work.
  - The line-by-line reading of the file is not modelled.
- `do_task`, `multiprocessing`, the module globals and the `release()` driver are not modelled.
- Regular expressions in general are not modelled. Only the three patterns the code uses are written out as predicates: the search path, the version and the `version=` line.
- Python 2 strings are taken as sequences of characters. Case mapping is ASCII. Whitespace is Python 2's `string.whitespace`.
- Text.ParseInt: accepts surrounding whitespace, an optional sign and one or more ASCII digits. Python 2's `int` also allows whitespace between the sign and the digits, which this model rejects.
- Utils.GetVersionMajorMinor: returns nothing for a non-matching version. The source fails there with `AttributeError` on `None.group`.
