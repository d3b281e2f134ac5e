# garch core, modelled in Dafny

garch replays how a file, or a range of lines in it, changed over its git
history. Its logic is a set of small text parsers and a viewer state machine,
all in `src/main.rs`. The model covers these:

- the `path:start-end` argument (`parse_file_range`);
- the `hash|date|author|message` log records (`parse_commit_line`, the loops in
  `get_file_history` and `get_line_history`);
- author abbreviation (`abbreviate_author`);
- the coarse `YYYY-MM-DD` date (`format_timestamp`);
- the `--line-porcelain` blame parser (`parse_blame_output`);
- version assembly (`get_file_versions`), with blame as a partial oracle;
- the unified-diff change extractor (`parse_diff_output`);
- the two commands' checks before the viewer starts (`handle_lines_command`, `handle_file_command`);
- the state of the interactive viewer (`run_interactive_viewer`): the
  line-range filter, the key and wheel transitions, the rows drawn and the
  word-wrap loop.

Modules, one file each:

- `Wrappers`: Option and Result.
- `Text`: split, join, lines, whitespace tokens, decimal numerals, bounded integer parsing.
- `Ranges`: the argument range.
- `Commits`: log records.
- `Authors`: author abbreviation.
- `Dates`: the coarse date.
- `Blame`: the blame parser.
- `Versions`: version assembly.
- `Diff`: the diff change extractor.
- `Viewer`: the viewer state, the event loop and wrapping.
- `Commands`: what the `lines` and `file` commands hand to the viewer.

The loops of the source are methods with `while` loops. Each method is proved
equal to a recursive function:

- `Blame.ParseBlameOutput` and `Blame.ReadRecordMeta` equal `ParseLines` and `ReadMeta`.
- `Diff.ParseDiffOutput` equals `Changes`, the diff read with hunk headers parsed as the code parses them.
- `Versions.GetFileVersions` equals `Assemble`.
- `Commits.CollectLineHistory` equals `FileHistory`.
- `Viewer.RunViewer` and `Viewer.HandleEvent` equal `Run` and `Step`.
- `Viewer.WrapContent` and `Viewer.NextSplit` equal `Wrap` and `SplitPoint`.

What the source promises is then proved about those functions as lemmas.

Rust `usize` and `i64` parsing is bounded explicitly: `USIZE_MAX` is 2^64 − 1 and `I64_MAX` is 2^63 − 1.
Git output, the terminal size and input events become parameters.
Blame output is a map from commit id to blame text; a missing id is a commit whose `git blame` failed.

What the code does, where that is easy to misread:

- A record `h|d|a|fix|the|bug` keeps only `fix` as its message. The fields after the fourth are dropped.
- A blame record with no tab-prefixed content line is still emitted, with empty content.
- `summary` lines are skipped like any other unrecognised metadata line.
- Left and Right reset the scroll offset to 0. No line stays in focus across a version switch.
- The content height is the terminal height minus 3.
- Versions stay in `git log` order, newest first.
- The line-range filter keeps rows with `start <= line_number <= end`. The range is not clamped to the file's extent.
- A hunk header's new-side start is read the way `parse_diff_output` reads it (see Findings). `Diff.CorrectedChanges` reads it the corrected way, and `Diff.ReadersAgree` proves that the two agree on every diff whose headers carry a new-side count.

Drawing stops at `scroll + content_height - 1`, but the scroll keys clamp at `rows - content_height`.
So at a fixed terminal height, once the rows fill the window, the last filtered row is never drawn.
`Viewer.LastRowNeverShown` proves this about the code as written.
The terminal size is read again every turn (src/main.rs:389-390), and a resize is an event like any other: after End, a terminal one row taller draws the last row (`Viewer.LastRowShownAfterGrowing`).

## Model

| member | source | states |
|---|---|---|
| Ranges.ParseFileRange | src/main.rs:143-158 | With no `:` the result is `(input, 1, usize::MAX)`. Otherwise the path is exactly the text before the last `:`. Both line numbers fit in `usize`. |
| Ranges.ParseRangeRoundTrip | src/main.rs:143-150 | `path:a-b` with numerals a and b parses back to `(path, a, b)`, whatever colons the path holds. |
| Ranges.ParseSingleLine | src/main.rs:151-153 | `path:n` without a dash gives `(path, n, n)`. |
| Ranges.ParseRangeWithoutEnd | src/main.rs:147-150 | `path:a-` gives `(path, a, a)`: a missing end defaults to the start. |
| Ranges.ParseRangeDashOnly | src/main.rs:147-150 | `path:-` gives `(path, 1, 1)`: an unparseable start is 1 and the end defaults to it. |
| Ranges.ParseRangeEmpty | src/main.rs:151-153 | `path:` gives `(path, 1, 1)`: an unparseable single line number is 1. |
| Ranges.ParseRangeWithDash | src/main.rs:143-150 | For every `path:x-y` whose range part has no other colon and x has no dash: the start is x parsed, or 1 when x does not parse; the end is y parsed, or the start when y does not parse. |
| Ranges.ParseRangeNoDash | src/main.rs:143-153 | For every `path:x` with no colon or dash in x: start and end are both x parsed, or both 1 when x does not parse. |
| Text.IndexOf | src/main.rs:147 | `find`: None exactly when the character is absent, otherwise its first position. |
| Text.LastIndexOf | src/main.rs:144 | `rfind`: None exactly when the character is absent, otherwise its last position. |
| Text.JoinSplit | src/main.rs:241 | Joining the pieces of `split` with the separator gives back the text. |
| Text.SplitJoin | src/main.rs:241 | Splitting a join of separator-free pieces gives back the pieces. |
| Text.SplitLength | src/main.rs:241 | `split` yields one more piece than there are separators. |
| Text.LinesOfTerminated | src/main.rs:233 | `lines()` of newline-terminated lines, none ending in `\r`, gives back those lines. |
| Text.TokensAreWords | src/main.rs:275 | Every `split_whitespace` token is non-empty and holds no whitespace. |
| Text.TokensOfSpaced | src/main.rs:275 | A word, a space, then a rest tokenizes as that word followed by the rest's tokens. |
| Text.TokensSkipWhitespace | src/main.rs:275 | Leading whitespace contributes no token. |
| Text.TrimStartDropsBlankPrefix | src/main.rs:481 | `trim_start` removes exactly a whitespace prefix, and what remains is empty or starts with a non-whitespace character. |
| Text.DecimalRoundTrip | src/main.rs:148 | A decimal numeral reads back as its number. |
| Text.ParseUsizeDecimal | src/main.rs:148 | `parse::<usize>` of the numeral of any n ≤ `usize::MAX` gives n. |
| Text.ParseI64Decimal | src/main.rs:350 | `parse::<i64>` of the numeral of any n ≤ `i64::MAX` gives n. |
| Commits.ParseCommitLine | src/main.rs:240-252 | None exactly when the line has fewer than three pipe characters (fewer than four fields). The parsed fields hold no pipe character. |
| Commits.ParseRecordDropsExtraFields | src/main.rs:240-252 | A printed record of four pipe-free fields parses to exactly those fields. So does the record followed by a pipe and any further text: later fields are dropped. |
| Commits.ParsedFieldsStartLine | src/main.rs:240-252 | A parsed line begins with the printed record of its commit, followed by the end of the line or a pipe character. |
| Commits.FileHistory | src/main.rs:232-235 | The history of a log text: `lines()`, then `filter_map(parse_commit_line)`. FileHistoryRoundTrip and CollectLineHistory state what it yields. |
| Commits.FileHistoryRoundTrip | src/main.rs:231-234 | A log printed one record per line parses back to the same commits, in order. |
| Commits.ParseRecordsOfRecords | src/main.rs:231-234 | `filter_map(parse_commit_line)` over the printed records gives back the commits. |
| Commits.CollectLineHistory | src/main.rs:197-208 | The loop that skips lines without a pipe character before parsing builds the same list as the `filter_map` in get_file_history. |
| Authors.AbbreviateAuthor | src/main.rs:274-281 | A name of fewer than two whitespace tokens is returned unchanged. |
| Authors.AbbreviationTokens | src/main.rs:274-281 | With two or more tokens, the result is exactly two tokens: the first name, and the second's initial followed by `.`. |
| Authors.AbbreviateIdempotent | src/main.rs:274-281 | Abbreviating an abbreviation changes nothing. |
| Authors.AbbreviateFullName | src/main.rs:274-281 | `First Second rest` becomes `First S.`. |
| Authors.AbbreviateSingleName | src/main.rs:274-281 | A single word, with any surrounding blanks, is kept exactly. |
| Dates.CoarseDateOf | src/main.rs:163-172 | year ≥ 1970, month in 1..12 (clamped) and day in 1..30. |
| Dates.FormatTimestamp | src/main.rs:160-177 | The result is `unknown` exactly for a negative timestamp. |
| Dates.FormatTimestampReadsBack | src/main.rs:160-177 | A non-negative timestamp prints as `Y-M-D` digit groups that read back as its coarse year, month and day. |
| Dates.ReadFormattedDate | src/main.rs:172 | `{:04}-{:02}-{:02}` splits into three digit groups: a year of at least 4 digits, then a 2-digit month and day, each reading back as its field. |
| Dates.CoarseDateCountsDays | src/main.rs:165-172 | For the first 360 days of each 365-day year, the coarse date counts days exactly. The last five days all show as December 1 to 5. |
| Dates.DecemberRepeats | src/main.rs:168-172 | Days 330+k and 360+k (k < 5) of a coarse year print the same date. |
| Dates.ZeroPadded | src/main.rs:172 | Zero padding keeps the value and gives exactly the requested width when the numeral is shorter. |
| Blame.CharsInBytes | src/main.rs:366 | When the byte slice `[..n]` falls on a character boundary, the prefix taken is exactly n UTF-8 bytes long. |
| Blame.CharsInBytesAtBoundary | src/main.rs:366 | Conversely, whenever the first k characters are exactly n bytes long, the slice is found, and it is those k characters. |
| Blame.AsciiBytes | src/main.rs:334 | For ASCII text, `len()` counts characters and `[..n]` takes n characters. |
| Blame.IsHeader | src/main.rs:333-334 | A record starts at a line of at least three whitespace tokens whose first token is at least 7 bytes long. RecordsFromHeaders states what the parser makes of it. |
| Blame.ShortHashIsPrefix | src/main.rs:366 | The short hash is a prefix of the commit id, exactly 7 bytes long whenever byte 7 falls on a character boundary. |
| Blame.ParseLines | src/main.rs:331-373 | The outer loop as a function: a header line yields one row and skips its metadata, any other line is passed over. ParseBlameOutput, RecordsFromHeaders and ParseBlocks state what it yields. |
| Blame.ReadMeta | src/main.rs:344-360 | The metadata loop consumes at most the lines left, and at least one when any are left. |
| Blame.ReadRecordMeta | src/main.rs:341-360 | The inner `while` loop returns the author, date and content of ReadMeta, and the index just past the lines it consumed. |
| Blame.ParseBlameOutput | src/main.rs:326-378 | The nested index loops build exactly ParseLines of the text's lines. The outer index strictly increases. |
| Blame.ReadMetaContent | src/main.rs:354-357 | The content read is the first tab line minus its tab, or empty when there is none. |
| Blame.RecordsFromHeaders | src/main.rs:334-368 | Row k comes from the header at the k-th record start. Its hash is the first 7 bytes of the header's first token, its line number the third token or 0, and its content the first following tab line or empty. The starts strictly increase. |
| Blame.RowsFromAt | src/main.rs:334-368 | Any single row of that correspondence, and the ordering of its start. |
| Blame.RowsShifted | src/main.rs:346-371 | Rows read after skipping d lines are rows of the whole text at starts shifted by d. |
| Blame.TruncatedRecord | src/main.rs:343-368 | A header with no tab line after it still yields one row, with empty content and the header's short hash. |
| Blame.NoContentLine | src/main.rs:344-360 | Without a tab line, the metadata loop consumes every remaining line and reads empty content. |
| Blame.ReadAuthorLine | src/main.rs:347-348 | An `author ` line sets the author to the rest of the line. |
| Blame.ReadTimeLine | src/main.rs:349-353 | An `author-time ` line holding an i64 sets the date to its coarse date. |
| Blame.ReadInertLines | src/main.rs:344-360 | Other metadata lines, such as `summary`, change nothing but the position. |
| Blame.ReadContentLine | src/main.rs:354-357 | A tab line ends the record with its content. |
| Blame.HeaderTokens | src/main.rs:336-339 | A porcelain header tokenizes as the commit id, the source line and the final line. |
| Blame.ParseBlock | src/main.rs:334-368 | A well-formed porcelain block yields exactly its own row, and the parser then continues after it. |
| Blame.ParseBlocks | src/main.rs:326-378 | A sequence of well-formed porcelain blocks parses to their rows, in order, and no hash slice falls inside a character. |
| Blame.JaneDoeBlock | src/main.rs:326-378 | The block `abcdef1 10 5 3` / `author Jane Doe` / `author-time 0` / `summary init` / `\thello` yields line 5, `Jane D.`, `1970-01-01`, `abcdef1`, `hello`. |
| Blame.JaneDoeRow | src/main.rs:326-378 | The row of that example block, field by field. |
| Blame.EpochDate | src/main.rs:160-177 | Timestamp 0 prints as `1970-01-01`. |
| Blame.AbbreviateJaneDoe | src/main.rs:274-281 | `Jane Doe` abbreviates to `Jane D.`. |
| Versions.GetFileVersions | src/main.rs:283-302 | A failed log is returned as the error. Otherwise the loop's versions equal Assemble of the parsed history. |
| Versions.Assemble | src/main.rs:287-299 | One version per commit whose blame is known, built from that commit. AssembleAllBlamed, AssembleMembers, AssembleAppend and AssembleLength state its properties. |
| Versions.AssembleAllBlamed | src/main.rs:287-299 | When every commit has blame, there is one version per commit, in the same order, with that commit's id, date, message and parsed blame. |
| Versions.AssembleMembers | src/main.rs:287-299 | A version is present exactly when some commit had blame and the version is built from it. |
| Versions.AssembleAppend | src/main.rs:287-299 | Assembly distributes over concatenated histories, so order is kept. |
| Versions.AssembleLength | src/main.rs:287-299 | There are never more versions than commits. |
| Diff.HunkStartAsWritten | src/main.rs:608-616 | The new-side start as the code reads it: from after the first `+` to the first `,` after it, or failing that to the first space; a header without a `+` leaves the counter unchanged. |
| Diff.HunkStart | src/main.rs:608-616 | The corrected reading: the number after the first `+` ends at whichever of `,` and space comes first. A header without a `+` leaves the counter unchanged. |
| Diff.HunkStartReadsHeader | src/main.rs:608-616 | For every `@@ -a[,b] +c[,d] @@ context` header, the corrected reading of the new-side start gives c, whatever the context holds. |
| Diff.HunkStartAsWrittenWithCount | src/main.rs:608-611 | The code as written reads c correctly whenever the new side has a count. |
| Diff.HunkStartAsWrittenAtSpace | src/main.rs:612-614 | As written, when no `,` follows the `+`, the start is the digits up to the first space. |
| Diff.HunkStartAsWrittenMisreadsContext | src/main.rs:608-614 | With no new-side count and a `,` in the context, the code as written sets the counter to 1. |
| Diff.HeaderStartOfHunk | src/main.rs:608-616 | Every printed header, read either way: c, except as written with no new-side count and a `,` in the context, where it is 1. |
| Diff.HunkHeaderReadAlike | src/main.rs:608-616 | A header with a new-side count, or with a comma-free context, is read alike by both readers at every counter. |
| Diff.OneLineHunkExample | src/main.rs:608-616 | `@@ -4 +5 @@ fn f(a, b)`: 1 as written, 5 when corrected. |
| Diff.LineEffect | src/main.rs:603-647 | One turn of the loop: a header enters the diff and sets the counter; before it lines are ignored; inside, a boundary stops, `+` emits Added and advances, `-` emits Removed, a space line advances. AddedLineEffect and its neighbours state each case. |
| Diff.DiffFrom | src/main.rs:603-647 | The loop as a function over the remaining lines. DiffFromShape, BodyAppend and StopsAtBoundary state its properties. |
| Diff.Changes | src/main.rs:598-650 | The changes of a diff text, with headers read as the code reads them. ParseDiffOutput is proved to compute it. |
| Diff.ReadersAgree | src/main.rs:608-616 | When every `@@` line is read alike, the changes read as written equal the corrected changes. |
| Diff.ChangesAgree | src/main.rs:598-650 | The same for a whole diff text: `Changes` equals `CorrectedChanges`. |
| Diff.ParseDiffOutput | src/main.rs:598-650 | The loop over lines builds exactly Changes of the text. |
| Diff.DiffFromShape | src/main.rs:629-646 | At most one change per line, and never `Modified`. |
| Diff.IgnoresPreamble | src/main.rs:620-622 | Lines before the first `@@` emit nothing. |
| Diff.AddedLineEffect | src/main.rs:629-635 | A `+` line (not `+++`) emits Added at the counter and advances it. |
| Diff.RemovedLineEffect | src/main.rs:636-642 | A `-` line (not `---`) emits Removed at the counter and does not advance it. |
| Diff.ContextLineEffect | src/main.rs:643-646 | A space line only advances the counter. |
| Diff.HeaderLineEffect | src/main.rs:605-617 | Every printed header, inside or outside a diff, enters the diff, emits nothing and sets the counter to c, except as written with no new-side count and a `,` in the context, where it is 1. |
| Diff.BodyAppend | src/main.rs:603-647 | The changes of hunk body lines followed by more lines are the body's changes, then the rest's, counted from the body's new-side line count. |
| Diff.StopsAtBoundary | src/main.rs:625-627 | A `commit ` or `diff --git` line inside a diff ends parsing. |
| Diff.SmallHunkExample | src/main.rs:598-650 | Header at new line n, then context, `+b`, `-c`, `+d`, context, gives Added b at s+1, Removed c at s+2, Added d at s+2, where s is n (1 as written with no new-side count and a `,` in the context). |
| Commands.FileCommand | src/main.rs:121-141 | The viewer opens exactly when the version list was read and is not empty, over lines 1 to `usize::MAX`. |
| Commands.LinesCommandAsWritten | src/main.rs:91-119 | The viewer opens exactly when the line history was read and is not empty and the version list was read, whatever its length. |
| Commands.LinesCommand | src/main.rs:91-119 | With the emptiness check added, the viewer opens only over at least one version, as RunViewer requires. |
| Commands.LinesCommandsAgree | src/main.rs:91-119 | The two agree whenever the version list read is not empty. |
| Commands.NoBlameNoVersions | src/main.rs:287-299 | When no commit of the history could be blamed, there is no version. |
| Commands.LinesCommandOpensEmptyViewer | src/main.rs:91-104 | A line range with some history, whose file commits all fail to blame, opens the viewer over no version as written, and reports nothing found when corrected. |
| Viewer.FilterRows | src/main.rs:423-425 | Every kept row has `start <= line_number <= end`, and there are no more rows than blame lines. |
| Viewer.FilterMembers | src/main.rs:423-425 | A row is kept exactly when it is a blame line within the range. |
| Viewer.FilterAppend | src/main.rs:423-425 | Filtering keeps the original order. |
| Viewer.FilterWholeFile | src/main.rs:423-425 | A range covering every line number keeps all rows. |
| Viewer.Step | src/main.rs:510-569 | An event never moves the version outside the version list. |
| Viewer.EdgeVersionsStay | src/main.rs:515-526 | Left at the first version and Right at the last change neither the version nor the scroll offset. |
| Viewer.StepKeepsState | src/main.rs:510-569 | Only a `q` press quits. A version change resets the scroll to 0. Within one version, an in-bounds offset stays in bounds. |
| Viewer.LeftThenRight | src/main.rs:515-526 | Left then Right returns to the same version at the top. |
| Viewer.RightThenLeft | src/main.rs:515-526 | Right then Left returns to the same version at the top. |
| Viewer.DownMovesClamp | src/main.rs:532-564 | From an in-bounds offset, Down, PageDown and the wheel move by 1, half a page and 3, stopping at `rows - content_height`. |
| Viewer.EndIsBottomHomeIsTop | src/main.rs:527-564 | End sets the offset to `rows.saturating_sub(content_height)` and Home sets it to 0, keeping the version. After End no downward event moves. After Home no upward event moves. |
| Viewer.StepKeepsBounds | src/main.rs:510-569 | Every event keeps `scroll <= max(0, rows - content_height)` for the version shown. |
| Viewer.RunKeepsScrollInBounds | src/main.rs:388-570 | Over any run of events at a fixed terminal height, the offset stays within the bounds of the version shown. |
| Viewer.HandleEvent | src/main.rs:510-569 | The imperative match produces exactly the transition Step describes. |
| Viewer.Run | src/main.rs:388-570 | The loop over inputs: each turn steps on the rows of the version shown at the height read that turn; `q` ends it. The version stays in the list. |
| Viewer.RunViewer | src/main.rs:385-570 | The event loop ends in the state Run computes from the filtered row counts, starting at version 0 and offset 0. |
| Viewer.Shown | src/main.rs:427-431 | The rows drawn are a stretch starting at the offset, never past the last row, and fewer than the content height. |
| Viewer.LastRowNeverShown | src/main.rs:427-431 | At a fixed terminal height, once the rows fill the window, no offset in bounds draws the last row. |
| Viewer.LastRowShownAfterGrowing | src/main.rs:388-431 | When the rows more than fill the window, after the offset is clamped at `rows - content_height`, a terminal one row taller draws the last row, from an offset past the new bound. |
| Viewer.ShownLength | src/main.rs:427-431 | From an offset inside the rows, a frame draws exactly min(content height − 1, rows left) rows. |
| Viewer.ShortVersionShownWhole | src/main.rs:427-431 | A version shorter than the content height is drawn whole from the top. |
| Viewer.SplitPoint | src/main.rs:468-478 | The split is at most min(width, remaining), and positive for a positive width. It is short of that only at a space past two thirds of the width, with no later space inside the chunk. |
| Viewer.SplitAtLateSpace | src/main.rs:471-475 | Conversely, when the rest is longer than the width and the chunk holds a space past two thirds of it, the split is at the last space of the chunk. |
| Viewer.ZeroWidthMakesNoProgress | src/main.rs:429-482 | At content width 0, a text starting with a non-whitespace character yields an empty piece and is left as it was. |
| Viewer.NextSplit | src/main.rs:468-478 | The imperative split computation gives SplitPoint. |
| Viewer.Chunks | src/main.rs:467-493 | The pieces of the wrapping loop, each cut at SplitPoint with the whitespace after it dropped. ChunksFit and ChunksKeepText state its properties. |
| Viewer.Wrap | src/main.rs:458-493 | Content that fits is one line, longer content its Chunks. WrapFits and WrapKeepsText state its properties. |
| Viewer.WrapContent | src/main.rs:458-493 | The wrapping loop produces exactly Wrap of the content. |
| Viewer.WrapFits | src/main.rs:458-493 | Short content stays one line. Longer content wraps into non-empty pieces of at most the width, none after the first starting with whitespace, and the first is a prefix of the content. |
| Viewer.ChunksFit | src/main.rs:467-493 | Every chunk is non-empty and at most the width, so `remaining` strictly shrinks. |
| Viewer.WrapKeepsText | src/main.rs:458-493 | Wrapping loses no non-whitespace character and reorders none. |
| Viewer.ChunksKeepText | src/main.rs:467-493 | The same for the chunk loop. |

## Left out

- Running git and decoding its output are left out (`get_line_history`, `get_file_history`, `get_blame_for_commit`, `get_commit_changes`). Their text, or their failure, is a parameter.
- `main` and clap argument handling are library glue. The commands' messages and process exit codes are output; `Commands.Launch` only says which way each command ends.
- Viewer.RunViewer: requires at least one version; with none, `versions[current_version]` panics. `handle_file_command` checks this, but `handle_lines_command` does not (see Findings).
- Terminal setup, clearing, colours, header and footer padding and all printing are terminal output. The event source is a sequence of inputs.
- The author header and continuation lines are not counted in the screen rows. The model follows the row indices the loop uses.
- `get_author_color` depends on the unspecified output of `DefaultHasher`.
- `display_change` only prints.
- Arithmetic overflow of `usize` (`scroll_offset + content_height`, `line_number += 1`) is not modelled: integers are unbounded.
- Dates.FormatTimestamp: a negative timestamp gives `unknown`, as on platforms where system time is a signed 64-bit count of seconds. Other platforms' `checked_add` limits are not modelled.
- Viewer.RunViewer: requires a terminal height of at least 3. Below 3, `terminal_height - 3` underflows: a panic in debug builds, a huge content height in release builds.
- Viewer.Shown: requires `scroll_offset + content_height >= 1`. At a height of exactly 3 the content height is 0, and at offset 0 `scroll_offset + content_height - 1` underflows: a panic in debug builds, and in release builds a wrap to `usize::MAX`, so every row is drawn. RunViewer does not model drawing, so it accepts that height.
- Viewer.WrapContent: requires `content_width > 0`. At exactly 20 columns the width is 0: content holding only whitespace becomes empty after one empty piece, but content that starts with any other character is never shortened, and the loop never ends (see Findings). Below 20 columns, `terminal_width as usize - 20` underflows: a panic in debug builds, a width near 2^64 in release builds.
- Viewer.WrapContent: lengths are counted in characters, where the source's `len()` and slices count UTF-8 bytes. Byte slices that would panic inside a character are therefore not modelled.
- Blame.ParseBlameOutput: requires that every header's `[..7]` slice falls on a character boundary, which is where the source would panic. Lengths are in UTF-8 bytes, as in the source.
- Viewer.RunKeepsScrollInBounds: holds for a fixed terminal height. A resize between events can leave the offset past the new bound, as in the source.

## Findings

| source | as written | input that shows it | evidently intended | confidence | as-written member | corrected member |
|---|---|---|---|---|---|---|
| src/main.rs:608-616 | The new-side start ends at the first `,` after the `+` anywhere in the line, and only failing that at a space. | `@@ -4 +5 @@ fn f(a, b)`, as `git show -U0` prints it: git omits the count of a one-line hunk, and the comma in the function context makes the start `5 @@ fn f(a` fail to parse, so the counter becomes 1. With git's default three context lines a new side without a count starts at line 1, where `unwrap_or(1)` happens to give the right start. `parse_diff_output` is called only from `get_commit_changes` (src/main.rs:595), which nothing in src/main.rs calls, so no command reaches this. | The start ends at whichever of `,` and space comes first, giving 5. | not executed; proved about the model | Diff.HunkStartAsWrittenMisreadsContext | Diff.HunkStartReadsHeader |
| src/main.rs:429-493 | The content width is `terminal_width - 20`, and the wrapping loop runs while `remaining` is not empty. | A terminal exactly 20 columns wide and a line whose content starts with a non-whitespace character: the width is 0, every piece is empty, and `remaining` never shrinks, so the loop never ends. | A positive content width, under which every piece is non-empty and the loop ends. | not executed; proved about the model | Viewer.ZeroWidthMakesNoProgress | Viewer.ChunksFit |
| src/main.rs:91-119 | `handle_lines_command` returns early only when the line history is empty, then passes the result of `get_file_versions` to the viewer unchecked. | `garch lines f:1-5` where `git log -L` finds commits but `git blame` fails for every commit of the file's history: the version list is empty and `versions[current_version]` panics (src/main.rs:397). | Check for an empty version list, as `handle_file_command` does (src/main.rs:126-129), and report that nothing was found. | not executed; proved about the model | Commands.LinesCommandOpensEmptyViewer | Commands.LinesCommand |
