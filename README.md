# ollama-readme-generator core, in Dafny

The tool collects the source files of the current directory into one text
document and sends that document, with a prompt, to a local Ollama server, whose
streamed answer it prints. This project models the two parts that have logic in
them. It proves what they produce.

- **Ignore rules and collection** (`lib/file-process.go`).
  - `parseGitIgnore` turns the lines of `.gitignore` into rules (module `IgnoreRules`).
    It seeds the list with `.git`, trims white space, drops blank and `#` lines, and
    strips `/` from both ends.
  - `isIgnored` reports whether some rule glob-matches a relative path or occurs in it
    as a substring. Go's `filepath.Match` is modelled in module `Glob`. The module follows
    its own procedure, which keeps the leftmost place where each star-free chunk fits.
    That procedure is proved sound against a plain backtracking reading of the pattern,
    and an example shows it is not complete.
  - `ReadData` walks the tree under the scan root in `filepath.WalkDir`'s pre-order
    (module `TreeCollector`). It prunes ignored directories, skips ignored files and
    appends one `FileName:`/`Data:` record per kept file to a growing string.
    - The callback is the method `Collector.Visit` over the captured state.
    - The walk is the mutually recursive `WalkDir`/`Descend`/`WalkChildren`.
    - Both are proved equal to the spec function `Collect`.
    - `Collect` is in turn proved equal to an independent flat description: render
      the visible pre-order entries (`DocumentIsVisibleFiles`).
- **Streaming answer** (`lib/ollama-sender.go`, module `OllamaSender`).
  - `AskOllama` posts `{model, prompt, stream: true}`.
  - It then decodes the body chunk by chunk. It prints each chunk's `response` and
    stops at end-of-stream, at a chunk marked `done`, or at a decode error.
  - It prints a final newline unless it failed, and it closes the body on every return
    after a successful POST.
  - The HTTP endpoint, the body and the console form one `Host` object. The host
    records every post, read, print and close as an event.
  - The imperative loop is proved to produce exactly the events of the spec functions
    `Consume` and `Exchange`. Lemmas state what those events print and read.

Module `Strings` holds the Go `strings` helpers: `TrimSpace`, `Trim`, `HasPrefix`,
`Contains` and a `Join`. Module `Wrappers` holds `Option`.

Where the code and the design description of the tool disagree, the model follows
the code:
- A `.gitignore` that cannot be opened yields no rules at all, not the `.git` seed.
  Nothing is then filtered, not even `.git`.
- A record's `FileName:` line carries the full path the walk produced, not the path
  relative to the root.

## Model

| member | source | states |
|---|---|---|
| `IgnoreRules.ParseGitIgnore` | lib/file-process.go:14-34 | The rules returned are `RulesOf(f)`: none when the file cannot be opened, otherwise `.git` and then the normalised kept lines. The error result is set exactly when the open fails or the scanner fails, and the rules scanned so far are returned either way. |
| `IgnoreRules.KeptIndices` | lib/file-process.go:23-32 | The numbers of the lines that yield rules are valid line numbers and strictly increasing. |
| `IgnoreRules.KeptInFileOrder` | lib/file-process.go:23-32 | Rule number `j` is the normalised form of the `j`-th kept line, and there is one rule per kept line, in file order. |
| `IgnoreRules.KeptExactlyUndropped` | lib/file-process.go:24-28 | A line yields a rule exactly when it is not blank or a `#` comment after white-space trimming. |
| `IgnoreRules.OpenedRules` | lib/file-process.go:15 | An opened file yields `.git` first and then one rule per kept line, so `1 +` the number of kept lines in all. |
| `IgnoreRules.KeptRulesHaveNoOuterSlash` | lib/file-process.go:30 | No kept rule begins or ends with `/`. |
| `IgnoreRules.SlashLineYieldsEmptyRule` | lib/file-process.go:24-31 | A line of only slashes is kept and yields the empty rule. |
| `IgnoreRules.IsIgnored` | lib/file-process.go:36-45 | The early-return loop answers true exactly when some rule glob-matches the name or occurs in it (`Ignored`). |
| `IgnoreRules.IgnoredByConcat` | lib/file-process.go:36-45 | A name is ignored by `a + b` exactly when it is ignored by `a` or by `b`. |
| `IgnoreRules.IgnoredMonotone` | lib/file-process.go:36-45 | Adding rules never turns an ignored name into a kept one. |
| `IgnoreRules.IgnoredIgnoresOrder` | lib/file-process.go:36-45 | The answer depends only on which rules occur, not on their order or repetition. |
| `IgnoreRules.EmptyRuleIgnoresEverything` | lib/file-process.go:40 | An empty rule ignores every name. |
| `IgnoreRules.MalformedRuleIsSubstringTest` | lib/file-process.go:39-40 | A malformed glob counts as no match, and the substring test still applies. |
| `IgnoreRules.LiteralRuleIsSubstringTest` | lib/file-process.go:39-40 | A rule without glob syntax applies exactly to the names that contain it. |
| `IgnoreRules.SeedIgnoresGitNames` | lib/file-process.go:15 | Whenever the rules file opens, every name containing `.git` is ignored. |
| `IgnoreRules.UnopenableFileHasNoSeed` | lib/file-process.go:16-19 | A file that cannot be opened yields no rules, so no name is ignored. |
| `Glob.LiteralMatch` | lib/file-process.go:39 | A pattern without `*`, `?`, `[` or `\` matches exactly the name equal to it. |
| `Glob.StarStaysInSegment` | lib/file-process.go:39 | The pattern `*` matches a name exactly when the name holds no `/`. |
| `Glob.Match` | lib/file-process.go:39 | `filepath.Match` reports a bad pattern exactly when the pattern does not tokenise. When it answers true, the name matches the pattern in the plain reading, where the stars may share the name in any way. |
| `Glob.LeftmostCommitMissesMatch` | lib/file-process.go:39 | The converse fails. `*[^x]*c` matches `a/c` in the plain reading, but `filepath.Match` fits the class at `a`, keeps that choice and answers false. |
| `Glob.TrailingEscapeIsMalformed` | lib/file-process.go:39 | A well-formed pattern followed by a lone `\` is a bad pattern. |
| `TreeCollector.Collector.Visit` | lib/file-process.go:58-84 | The callback fails on a reported error. It returns `SkipDir` for an ignored directory, skips an ignored file and never tests the root. For any other file it appends exactly `FileName: <path>` and `Data:` with the content, with an unreadable file getting empty content. Directories add nothing. |
| `TreeCollector.WalkDir` | lib/file-process.go:58-84 | Walking an entry appends exactly `Collect(...).doc` to the document and reports failure exactly when `Collect` does. |
| `TreeCollector.Descend` | lib/file-process.go:58-61 | Descending into a directory the callback let through appends its collected records. A directory whose listing fails is reported to the callback, and the walk stops. |
| `TreeCollector.WalkChildren` | lib/file-process.go:58-84 | Walking the children in order appends `CollectAll(...).doc` and stops at the first failure. |
| `TreeCollector.CollectAllStopsAtFailure` | lib/file-process.go:59-61 | Once the walk has failed, later entries add nothing. |
| `TreeCollector.ReadData` | lib/file-process.go:47-91 | The returned string is `Document` of the root, the tree and the rules file, whatever happened to the rules file or the walk. |
| `TreeCollector.VisibleEntries` | lib/file-process.go:67-72 | Every entry kept is one of the given entries, and neither it nor any directory above it fails the ignore check. |
| `TreeCollector.CollectIsRender` | lib/file-process.go:58-84 | The walk of a subtree whose ancestors passed is the rendering of its visible pre-order entries. |
| `TreeCollector.DocumentIsVisibleFiles` | lib/file-process.go:47-91 | The document holds one record per visible regular file, in pre-order. Nothing comes from beneath a pruned directory, and nothing after the first directory whose listing fails. |
| `TreeCollector.RenderStopsAtBroken` | lib/file-process.go:86-90 | A failed listing ends the document: only the records before it are returned. |
| `TreeCollector.UnreadableRulesFilePrunesNothing` | lib/file-process.go:52-55 | Without a readable `.gitignore` every file of the tree is collected, `.git` included. |
| `TreeCollector.NothingCollectedUnderGit` | lib/file-process.go:15 | With a readable `.gitignore` no collected entry lies at or beneath a relative path containing `.git`. |
| `TreeCollector.SmallScan` | lib/file-process.go:47-91 | In a root holding `.git/config`, `a.txt` and `build/out.bin`, with `.gitignore` = `build`, the document is the single record of `r/a.txt`. |
| `OllamaSender.Responses` | lib/ollama-sender.go:59 | The texts of a run of chunks are their `response` fields, one per chunk and in order. |
| `OllamaSender.AskOllama` | lib/ollama-sender.go:26-68 | The request carries the caller's model and prompt with `stream` true and goes to the fixed URL. A failed POST is returned as an error and nothing is read, printed or closed. Otherwise the events are exactly the `Exchange` of the stream, the body ends closed, and the result is the decode error if one stopped the loop, else no error. |
| `OllamaSender.Receive` | lib/ollama-sender.go:46-67 | The loop on an open body produces exactly `Exchange(outcomes)`, closes the body and returns the error `Consume` predicts. |
| `OllamaSender.ConsumeShape` | lib/ollama-sender.go:50-64 | The loop reads a prefix of the stream. It meets unfinished chunks whose texts it prints, then exactly one stop: a done chunk (printed), a decode error or end-of-stream. |
| `OllamaSender.StopsAtEof` | lib/ollama-sender.go:52-53 | End-of-stream after unfinished chunks stops the loop successfully, having printed their texts and nothing for the EOF. |
| `OllamaSender.StopsAtError` | lib/ollama-sender.go:54-55 | A decode error after unfinished chunks stops the loop with that error. |
| `OllamaSender.StopsAtDone` | lib/ollama-sender.go:59-63 | The first chunk marked done is printed and stops the loop. |
| `OllamaSender.StopsWhenExhausted` | lib/ollama-sender.go:50-53 | A body that runs out after unfinished chunks ends as end-of-stream. |
| `OllamaSender.NothingReadAfterStop` | lib/ollama-sender.go:53-63 | What follows the stopping outcome never affects the run. |
| `OllamaSender.ConsumeAfter` | lib/ollama-sender.go:50-64 | After `i` unfinished chunks the run goes on as the run of the rest of the stream. |
| `OllamaSender.LoopOutput` | lib/ollama-sender.go:59 | Everything the loop prints is the concatenation of the consumed chunks' texts. |
| `OllamaSender.LoopReads` | lib/ollama-sender.go:52 | The loop reads exactly the outcomes it consumes, in stream order, plus the end-of-stream of an exhausted body. |
| `OllamaSender.PrintBeforeNextRead` | lib/ollama-sender.go:50-64 | Every chunk read is printed at once, before the next read, and the loop prints nothing else. |
| `OllamaSender.SuccessOutput` | lib/ollama-sender.go:59-67 | On success the whole output is the texts of the consumed chunks followed by one newline, and closing the body is the last event. |
| `OllamaSender.ErrorOutput` | lib/ollama-sender.go:46-55 | On a decode error the texts printed before it remain, no newline follows, and the body is still closed last. |
| `OllamaSender.ClosedOnce` | lib/ollama-sender.go:46 | The body is closed exactly once, as the last event, however the loop ends. |

## Left out

- HTTP and JSON.
  - `http.Post`, its content type and `json.NewDecoder` are abstracted into
    `Transport`: a refused POST with its cause, or the sequence of decode outcomes of
    the body.
  - The exact error texts (the `ollama'ya ulaşılamadı` wrapping) become the `Error`
    constructors.
- The `json.Marshal` failure (`lib/ollama-sender.go:36-39`) is not modelled. Encoding
  a record of two strings and a boolean cannot fail.
- File-system access is replaced by inputs.
  - `os.Getwd` becomes the `root` parameter.
  - `os.Open` and `bufio.Scanner` become `RulesFile`: unopenable, or the lines scanned
    and whether the scanner failed.
  - `WalkDir`'s directory reading becomes the `Node` tree, with a failed listing as
    `Unlistable`.
  - `os.ReadFile` becomes a file's `Option` content. `None` is an unreadable file,
    and its record has empty content. Partial content on a read error stands as the
    `Some` content.
- The children of a `Dir` are taken in the order given. That order stands for the
  lexical order in which `os.ReadDir` sorts them; the sorting itself is not modelled.
- An `Lstat` failure of the scan root itself is not modelled: the root is always a
  `Node`.
- Path cleaning is not modelled.
  - Paths are joined with `/` and never cleaned, so the root is assumed clean and
    without a trailing slash.
  - `filepath.Rel` is modelled only for paths beneath the root, which are the only
    ones the walk produces.
- Strings are sequences of characters. Go works on UTF-8 bytes, which gives the same
  trimming, prefix and substring answers for valid text. `Glob` matches character by
  character.
- `Glob.Match` follows `filepath.Match` as recent Go releases implement it. The Go
  standard library is not part of this model's sources.
  - Go cuts the pattern into chunks at the stars outside classes and keeps the leftmost
    place where each chunk fits. So it can answer false where the plain reading
    (`Glob.Matches`) matches. Only the direction "true implies a plain match" is
    proved.
  - Go checks the rest of the pattern's syntax even after a failed match, so a bad
    pattern anywhere is `ErrBadPattern`. The model reports a bad pattern exactly when
    tokenising fails, and takes Go's simpler bracket count for cutting chunks to agree
    with that. Older Go releases skipped the check after a failed match. That turns
    only a bad-pattern answer into `false`, and both count as no glob match in
    `isIgnored`.
- Logging and diagnostics change no returned data and are not modelled: the two
  `log` lines (`lib/file-process.go:54`, `76`) and the `Hata:` print of the walk
  error (`lib/file-process.go:86-88`).
- The stream of decode outcomes is finite.
  - On a body that never ends, Go's `for` loop (`lib/ollama-sender.go:50`) keeps
    reading forever: `AskOllama` never returns and the body is never closed.
  - The model has no such run. `Receive` stops after at most one read more than there
    are outcomes.
- main.go is not part of this model. It holds flag parsing, prompt-file I/O, the
  assembly of the prompt and the exit codes.
