# man-page-viewer core, modelled in Dafny

The editor add-on looks up the word under the caret, or the selection, in the manual
pages. It runs `man -S 2:3 <term>` and shows the output in a console. Three pieces of its
own logic are modelled and proved here.

- **Term extraction and the lookup action** (`term_extraction.dfy`, module `TermExtraction`).
  - With a selection, the term is the selection lowercased. Nothing is trimmed and the caret is ignored.
  - Without one, two index searches run around the caret. `from` is the greatest index at or
    before the caret holding a non-identifier character, or `offset + 1` when there is none.
    `to` is the least index at or after the caret holding one.
  - The term is `text[from..to]`, lowercased.
  - The code reads `text[i]` without a bounds check. So a caret at the end of the text ends
    in an out-of-range read, and so does an identifier that runs to the end of the text. The
    model returns these as `Err(StringIndexOutOfBounds(i))`.
  - An empty term ends the action. Otherwise `man -S 2:3 <term>` runs and, once the process has
    finished, its stdout is shown unmodified under the title `man <term>`.
- **Reading a man page** (`man_page_reader.dfy`, module `ManPageReader`).
  - Every leftmost, non-overlapping match of the regular expression `.\b` is deleted from
    stdout. A match is one character other than a line terminator, followed by a backspace.
  - If nothing is left, the answer is `"No man entry"`.
- **A one-shot disposable with several parents** (`disposables.dfy`, module `Disposables`).
  - A flag makes `Dispose` idempotent, so `onDisposal` runs at most once.
  - Each parent gets its own forwarder, registered with the host, that disposes the child.
    The host registry accepts an object under one parent only, so the child is never
    registered itself. The model reads that rule as refusing a second registration and changing
    nothing; the code states only that one object may not have two parents.
  - The host `Disposer` is modelled as a class. It maps each parent to the forwarders
    registered under it. Disposing a parent runs those forwarders and then forgets the parent.

`man_command.dfy` (module `ManCommand`) holds the argument vector and the process result.
Both source files build the same vector.

Quirks of the code that the model keeps:
- The left boundary character is part of the term: on `f` of `"x.foo bar"` the term is `".foo"`.
- When no boundary lies at or before the caret, `from` is `offset + 1`. So the characters up to
  and including the caret are dropped: on `f` of `"foo bar"` the term is `"oo"`.
- The caret is not clamped to the text.
- Nothing waits for the process with a timeout, and stderr is never shown.
- The lookup action shows raw stdout. Overstrike stripping and the `"No man entry"` sentinel
  belong only to `readManPage`.

Approximations:
- `Character.isJavaIdentifierPart` is exact on ASCII. That covers letters, digits, `_`, `$`,
  and the ignorable control characters 0-8, 14-27 and 127. Every non-ASCII character counts
  as a non-identifier.
- `toLowerCase` uses the default locale. The model takes a locale whose lowercasing of ASCII
  maps only `A`-`Z` to `a`-`z` (so not Turkish, where `I` does not become `i`).
- The `?: offset` fallback for `to` (OpenManPage.kt line 32) is unreachable: the inclusive range
  ends at `text.length`, so when no boundary follows the caret the read of `text[text.length]`
  throws first. The model therefore has no fallback and returns the out-of-range error.
- The line terminators that `.` does not match are `\n`, `\r`, U+0085, U+2028 and U+2029.

## Model

| member | source | states |
|---|---|---|
| ManCommand.ManArgs | src/manpageviewer/OpenManPage.kt:38-39 | the vector has four entries: `man`, `-S`, `2:3`, then the term as one argument |
| TermExtraction.Lower | src/manpageviewer/OpenManPage.kt:27 | lowercasing keeps the length, leaves no upper-case letter, keeps every other character, and moves each `A`-`Z` by 32 |
| TermExtraction.LowerKeepsIdentifierClass | src/manpageviewer/OpenManPage.kt:33 | lowercasing never changes whether a character is an identifier part |
| TermExtraction.LastBoundary | src/manpageviewer/OpenManPage.kt:31 | the backward search finds a non-identifier index at or before i with only identifier characters after it up to i; it finds none exactly when all of `text[0..i]` are identifier parts |
| TermExtraction.FirstBoundary | src/manpageviewer/OpenManPage.kt:32 | the forward search finds the first non-identifier index at or after i; it fails, reading index `|text|`, exactly when the rest of the text is all identifier characters |
| TermExtraction.Bounds | src/manpageviewer/OpenManPage.kt:29-32 | a caret at or past the end fails at index offset; an identifier run to the end fails at index `|text|`; otherwise `from`/`to` meet their definitions, `from <= to`, and everything strictly between them is an identifier character |
| TermExtraction.BoundsUnique | src/manpageviewer/OpenManPage.kt:31-32 | at most one `from` and one `to` meet their definitions |
| TermExtraction.ExtractTerm | src/manpageviewer/OpenManPage.kt:27-33 | a selection gives its lowercase form; without one, the two out-of-range failures as in `Bounds`, success exactly when a boundary follows the caret, and a result with no upper-case letter |
| TermExtraction.ExtractTermMeetsSpec | src/manpageviewer/OpenManPage.kt:31-33 | for any `from` and `to` meeting their definitions, `from <= to` and the term is `text[from..to]` lowercased |
| TermExtraction.CaretOnBoundaryGivesEmptyTerm | src/manpageviewer/OpenManPage.kt:31-33 | a caret on a non-identifier character gives `from == to == offset` and an empty term |
| TermExtraction.EmptyTermIff | src/manpageviewer/OpenManPage.kt:31-33 | the term is empty exactly when the caret is on a non-identifier character, or when no boundary precedes the caret and the next character is a boundary |
| TermExtraction.LeftBoundaryIsIncluded | src/manpageviewer/OpenManPage.kt:31-33 | if a boundary lies at or before the caret, `from` is the last such boundary, and a non-empty term starts with the boundary character `text[from]` itself |
| TermExtraction.TermTailIsIdentifier | src/manpageviewer/OpenManPage.kt:31-33 | every character of the extracted term after the first is an identifier character |
| TermExtraction.BoundaryExample | src/manpageviewer/OpenManPage.kt:31-33 | caret on `f` of `"x.foo bar"` gives `".foo"` |
| TermExtraction.NoLeftBoundaryExample | src/manpageviewer/OpenManPage.kt:31-33 | caret on `f` of `"foo bar"` gives `"oo"` |
| TermExtraction.PerformLookup | src/manpageviewer/OpenManPage.kt:27-40 | an extraction failure propagates; an empty term and nothing else ends the action; a non-empty term shows a man page whenever the process has finished, for which the command is `man -S 2:3 <term>` with the term lowercase, the body is that command's stdout, and the title is `man <term>` |
| TermExtraction.SelectionIgnoresCaret | src/manpageviewer/OpenManPage.kt:27-28 | with a selection, text and caret make no difference, and the term passed to `man` is the lowercased selection |
| TermExtraction.EmptyTermRunsNothing | src/manpageviewer/OpenManPage.kt:35 | with an empty term the outcome is "no lookup" whatever the process would do |
| TermExtraction.OnlyStdoutIsShown | src/manpageviewer/OpenManPage.kt:39 | processes that agree on stdout give the same outcome: exit code and stderr are ignored |
| ManPageReader.StripOverstrike | src/manpageviewer/man-page-reader.kt:9 | stripping never lengthens the text (its full meaning is `StripDeletesLeftmostPairs`) |
| ManPageReader.ManPageText | src/manpageviewer/man-page-reader.kt:10 | the answer is never empty: the stripped text, or exactly `"No man entry"` when stripping leaves nothing |
| ManPageReader.ReadManPage | src/manpageviewer/man-page-reader.kt:5-11 | the page is the reader's answer (`ManPageText`) for the stdout of `man -S 2:3 <term>`: never empty, and either `"No man entry"` or a subsequence of that stdout |
| ManPageReader.ReadManPageIgnoresExitCodeAndStderr | src/manpageviewer/man-page-reader.kt:9 | processes that agree on stdout give the same page |
| ManPageReader.Parse | src/manpageviewer/man-page-reader.kt:9 | the scan splits the input into plain characters and overstrike pairs that spell it exactly, obey the leftmost rule, and whose plain characters are the stripped text; the input length is the kept length plus two per pair |
| ManPageReader.LeftmostIsUnique | src/manpageviewer/man-page-reader.kt:9 | there is only one split of a text into plain characters and pairs under the leftmost rule |
| ManPageReader.StripDeletesLeftmostPairs | src/manpageviewer/man-page-reader.kt:9 | for the leftmost split of the input, stripping keeps exactly the plain characters, and the result is two characters shorter per deleted pair |
| ManPageReader.StripIsSubsequence | src/manpageviewer/man-page-reader.kt:9 | the stripped text is a subsequence of the input |
| ManPageReader.NoBackspaceUnchanged | src/manpageviewer/man-page-reader.kt:9 | stdout without a backspace passes through unchanged |
| ManPageReader.BoldExample | src/manpageviewer/man-page-reader.kt:9-10 | `"f\bfoo\bo"` reads `"foo"` |
| ManPageReader.LineTerminatorExample | src/manpageviewer/man-page-reader.kt:9 | a newline followed by a backspace is kept |
| ManPageReader.NotIdempotentExample | src/manpageviewer/man-page-reader.kt:9 | `"ab\b\b"` strips to `"a\b"`, which strips further to nothing, so stripping is not idempotent |
| ManPageReader.OnlyPairsGiveNoManEntry | src/manpageviewer/man-page-reader.kt:9-10 | stdout made only of overstrike pairs, including empty stdout, reads `"No man entry"` |
| Disposables.OneShot.constructor | src/manpageviewer/plugin-util.kt:58-62 | a new child is not disposed, `onDisposal` has not run, and the invariant holds |
| Disposables.OneShot.Dispose | src/manpageviewer/plugin-util.kt:59-62 | afterwards the child is disposed; `onDisposal` runs only if it was not already disposed; the once-at-most invariant is kept |
| Disposables.Forwarder.Dispose | src/manpageviewer/plugin-util.kt:66-68 | disposing a forwarder disposes its child, with the child's one-shot semantics |
| Disposables.Disposer.Register | src/manpageviewer/plugin-util.kt:64-66 | the host appends an object under a parent, unless the object is already registered under some parent, in which case it refuses and changes nothing |
| Disposables.Disposer.DisposeParent | src/manpageviewer/plugin-util.kt:66-68 | disposing a parent disposes every child its forwarders point to, with one-shot semantics, and removes the parent |
| Disposables.ForwardersForCount | src/manpageviewer/plugin-util.kt:63-69 | each occurrence of a parent in the list contributes exactly one forwarder under it |
| Disposables.RegisterAllUnder | src/manpageviewer/plugin-util.kt:63-69 | registering adds exactly the listed parents and appends to each parent's list only the forwarders meant for it |
| Disposables.RegisteredOnEmptyHost | src/manpageviewer/plugin-util.kt:63-69 | on an empty host, the registered parents are exactly the given parents, and every forwarder under each disposes the same child |
| Disposables.NewDisposable | src/manpageviewer/plugin-util.kt:55-71 | returns a fresh, undisposed child with the given `onDisposal`, and registers one fresh, distinct forwarder per parent, each pointing to the child; the host's one-parent rule never refuses them |
| Disposables.CreateChild | src/manpageviewer/plugin-util.kt:53 | the child's only parent is the receiver, and its `onDisposal` does nothing |
| Disposables.SecondParentRefused | src/manpageviewer/plugin-util.kt:64-65 | under the model's reading of the one-parent rule, registering one object under a first parent succeeds, and under a second parent is refused |
| Disposables.DisposeParentOf | src/manpageviewer/plugin-util.kt:63-68 | when every forwarder is for one child, disposing a parent disposes that child exactly when the parent was registered |
| Disposables.DisposeInTurn | src/manpageviewer/plugin-util.kt:60-68 | disposing parents one after another leaves the child disposed exactly when one of its parents was among them, with `onDisposal` run at most once |
| Disposables.DisposeParentsInTurn | src/manpageviewer/plugin-util.kt:57-71 | a child of several parents ends disposed exactly when some parent is disposed, and its `onDisposal` has then run exactly once, never more, however many parents are disposed |

## Left out

- Running processes (`execute2`, `executeCommand`) is left out because it is operating-system I/O. Each caller takes the finished process as a function parameter `run` from the argument vector to an exit code, stdout and stderr.
- The stream reading that joins lines with `"\n"` is left out for the same reason. So is `exitValue()`; how it can fail is stated below for `PerformLookup` and `ReadManPage`.
- The console and tool-window user interface is left out: `showInConsole2`, `MyConsolePanel`, `showToolWindow` and `registerToolWindowIn`. Of the action, the model keeps only the console's body and title.
- Concurrency is left out: `invokeAndWait`, and the atomicity of the flag's compare-and-set. The flag is a plain sequential boolean.
- Identifier characters and lowercasing beyond ASCII are left out because the full Unicode tables are too large to model. Non-ASCII characters count as non-identifiers, and lowercasing leaves them unchanged.
- Strings are sequences of Unicode scalar values here. In the source they are UTF-16 code units, so the caret offset and the indices differ once the text holds characters outside the Basic Multilingual Plane.
- Of `onDisposal`'s effects, the model keeps only how many times it ran. Parents are host objects, identified here by number.
- The host registry's own bookkeeping is left out: marking disposed parents, and refusing registration under a disposed parent. The order in which a parent's forwarders run is also left out. Each forwarder touches only its own child and disposal is idempotent, so no property here depends on that order.
- Disposables.Forwarder.Dispose: the source's forwarder asks the host to dispose the child (`Disposer.dispose`), which also disposes everything registered under the child before the child itself. The model disposes the child directly, and parents are numbers rather than disposables, so a child can never act as a parent here and that cascade (for instance to a `createChild()` of the child) is not captured.
- TermExtraction.PerformLookup: `execute2` calls `exitValue()` straight after starting `man`, before reading any stream, and `exitValue()` throws while the process is still running; so the action can fail before showing anything. The model's `run` always returns a finished process, so a non-empty term here always shows a page.
- ManPageReader.ReadManPage: `executeCommand` calls `exitValue()` after reading both streams without waiting for the process, so it too throws if `man` has not exited yet. The model's `run` always returns a finished process.
- ManPageReader.StripOverstrike: its own contract states only that the text does not grow. What it deletes is stated by `Parse`, `LeftmostIsUnique` and `StripDeletesLeftmostPairs`.
