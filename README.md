# decoreco, modelled in Dafny

decoreco is a command-line tool that re-encodes media files to save space. Videos go through `ffmpeg` with a chosen video and audio codec. In image mode, which the code tests as the option "images", files go through `cjxl` to JPEG XL. A file is replaced only when the new one is strictly smaller, and at the end the tool prints how much space was saved.

This project models the core of `src/main.rs`:

- **Display helpers** (`display.dfy`, module `Display`):
  - `truncate`, `humanize_bytes` and `time_human`.
  - `humanize_bytes` and `time_human` each come with a reader that inverts their output, and round-trip lemmas.
  - `truncate` is specified directly and proved idempotent; its output has no reader, since the cut-off part is lost.
- **Encoder selection** (`encoder.dfy`, module `Encoder`), which is `decoreco` itself:
  - Image files are classified by the text after their last dot.
  - The exact `cjxl` and `ffmpeg` argument vectors are built, and a small option reader re-reads them.
  - The process exit becomes the `Result` that `decoreco` returns.
- **Job set-up** (`dispatch.dfy`, module `Dispatch`):
  - The scratch file name of each job. Names are injective in the job's position, so parallel jobs never collide.
  - The worker-pool-size rule.
- **File-list preparation** (`collect.dfy`, module `Collect`):
  - Splitting the `find` output and the three `retain` passes.
  - The optional sort by size and the reversal.
  - The whole preparation as one method, specified against a filter over the candidate lines.
- **Result aggregation** (`aggregate.dfy`, module `Aggregate`):
  - Each job's outcome, and the shared counters and `processed` list as a class whose methods record outcomes.
  - A fold over outcomes proved independent of the order in which the parallel jobs finish.
  - The moves that replace originals, the percentages, the totals row and the time-per-megabyte figure.
- **Support modules:**
  - `Wrappers` has `Option` and `Result`.
  - `Numerals` renders naturals in decimal and reads them back.
  - `Arith` (`arith.dfy`) has division facts.

The model makes these substitutions:

- Integers are unbounded `nat`.
- Strings are `seq<char>`.
- The file system, the processes and the clock are values passed in:
  - file sizes are a `map<string, nat>`;
  - a process exit is an `Exit`;
  - elapsed time is a number of milliseconds.

## Model

| member | source | states |
|---|---|---|
| Display.Truncate | src/main.rs:36-45 | "..." for width 0. The text unchanged when it fits. Otherwise exactly the first `max` characters followed by "...". The result never exceeds `max + 3` and always keeps the first `min(len, max)` characters. |
| Display.TruncateIdempotent | src/main.rs:36-45 | Truncating an already truncated text to the same width changes nothing. |
| Display.TruncateExample | src/main.rs:31-35 | The documented example: `truncate("Hello, world!", 5)` is "Hello...". |
| Display.Exponent | src/main.rs:66-84 | The unit index is the number of 1024-thresholds passed, at most 4. The value lies between 1024^k and 1024^(k+1), with no upper bound at TiB. |
| Display.Scaled | src/main.rs:66-84 | The printed number v satisfies v·1024^k <= bytes < (v+1)·1024^k. It is below 1024 except at TiB, and at least 1 once a unit above B is used. |
| Display.HumanizeBytes | src/main.rs:61-86 | The four successive divide-by-1024 steps give exactly the text `HumanText(bytes)`, the scaled quotient and its unit. |
| Display.HumanTextRoundTrip | src/main.rs:61-86 | Reading the text back recovers the printed quotient and the unit index. |
| Display.HumanizeExample | src/main.rs:55-59 | The documented example: 1024 bytes print as "1 KiB". |
| Display.TimeHuman | src/main.rs:551-573 | The loop-free update sequence builds exactly `TimeText(t)`: "<t>ms" below a second, otherwise the nonzero h, m and s parts in that order. |
| Display.TimeTextRoundTrip | src/main.rs:551-573 | Reading the text back gives t itself below one second. Otherwise it gives the whole seconds modulo sixty hours. |
| Display.TimeTextSixtyHours | src/main.rs:555-560 | As written, a duration of exactly sixty hours prints as the empty text. |
| Display.TimeTextFixedRoundTrip | src/main.rs:547-573 | With the hour count left unwrapped, reading the text back gives every whole second. |
| Display.TimeTextFixedNonEmpty | src/main.rs:547-550 | With unwrapped hours, no duration prints as the empty text. |
| Numerals.ValueOfDecimal | src/main.rs:294 | The decimal rendering of a number reads back as that number. |
| Numerals.Decimal | src/main.rs:294 | `to_string()` of an unsigned number (also used by `format!` at lines 85 and 553-570): a nonempty run of digits with no leading zero unless it is "0". |
| Encoder.LastSegment | src/main.rs:487 | `split('.').last()` gives the text after the last dot, or the whole name when it has no dot. The result contains no dot and is a suffix of the name. |
| Encoder.ImageQuality | src/main.rs:485-494 | Lossless iff the last segment is exactly "png". Lossy iff it is "jpg" or "jpeg". Otherwise the error "<file> is not a supported image format". |
| Encoder.UpperCaseRefused | src/main.rs:487-493 | The match is on the exact text: "holiday.PNG" is refused. |
| Encoder.LastExtensionCounts | src/main.rs:487-489 | Only the last extension counts: "scan.tar.png" is lossless. |
| Encoder.CommandFor | src/main.rs:485-526 | In image mode there is no command iff the extension is refused; otherwise the command is exactly `cjxl` with `CjxlArgs` for the file's quality. In video mode it is always exactly `ffmpeg` with `FfmpegArgs` for the chosen codecs. The output path is always last. |
| Encoder.CjxlArgs | src/main.rs:495-501 | The cjxl vector has 4 words for lossless and 2 otherwise. It ends with the input and the output, and for lossless starts with `-d 0`. |
| Encoder.FfmpegArgs | src/main.rs:506-520 | The ffmpeg vector has exactly 12 words: `-i <file> -c:v <video> -c:a <audio> -c:s copy -map_metadata 0 -y <out>`, word by word. |
| Encoder.Join | src/main.rs:482 | `Path::join` (also at lines 298-300): an absolute name replaces the directory, and an empty directory adds nothing, giving the name itself. Otherwise the result is exactly the directory, then a '/' unless the directory already ends with one, then the name. |
| Encoder.FailureReport | src/main.rs:530-534 | The failure text is the file name, a newline, the captured error output and a final newline, in that order and nothing else. |
| Encoder.FfmpegArgsReadBack | src/main.rs:506-520 | For an output path that does not start with '-', the ffmpeg vector reads back as: input, both codec names, subtitle copy, metadata map 0, the `-y` switch and the single output. |
| Encoder.CjxlArgsReadBack | src/main.rs:495-501 | The cjxl vector reads back as input and output, with distance 0 exactly in the lossless case. |
| Encoder.ImageCommandReadBack | src/main.rs:485-504 | For a supported image, the command reads back as exactly the input and the output as positionals, no switches, and the options `-d 0` iff the file's last segment is "png" (no options otherwise). |
| Encoder.Decoreco | src/main.rs:476-537 | `Ok` iff a command was built and exited successfully. The refusal is `Err` with the unsupported-format message. A spawn failure returns its error text. A failed run returns "<file>\n<stderr>\n". |
| Encoder.UnsupportedIgnoresExit | src/main.rs:491-493 | A refused image returns before any process runs, so the result does not depend on the exit. |
| Encoder.FailureReportReadBack | src/main.rs:528-535 | For a file name without a newline, the failure report splits back into the file name and the captured error output. |
| Dispatch.ScratchName | src/main.rs:294 | The scratch name is nonempty, starts with a digit and so never with '/' (the join stays inside the scratch directory). |
| Dispatch.ScratchIndexOfName | src/main.rs:294 | The number before the first dot of a scratch name is the job's position. |
| Dispatch.ScratchNameInjective | src/main.rs:294 | Two jobs with equal scratch names have the same position, whatever their files' extensions. |
| Dispatch.ScratchNameKeepsExtension | src/main.rs:294 | The scratch name's last segment is the source file's last segment. |
| Dispatch.ScratchPathInjective | src/main.rs:298-303 | Different positions under one scratch directory give different joined paths. |
| Dispatch.ScratchPath | src/main.rs:298-303 | The scratch path is exactly the directory, then a '/' unless the directory already ends with one, then the scratch name, so the scratch file lies inside the scratch directory (the name alone under an empty directory). |
| Dispatch.ScratchPathsDisjoint | src/main.rs:293-294 | All jobs over one file list write to pairwise distinct scratch paths. |
| Dispatch.ThreadCount | src/main.rs:117-127 | The pool size is 1 iff the requested count is 0 outside image mode, and 0 (all cores) otherwise. |
| Dispatch.ThreadCountIgnoresRequest | src/main.rs:117-127 | A nonzero request, or image mode, always yields 0. |
| Dispatch.RequestedThreads | src/main.rs:117-127 | The corrected rule: the pool gets the requested count, and 0 still asks for all cores. |
| Dispatch.ThreadRequestHonoured | src/main.rs:117-127 | The corrected rule gives the requested count whatever the mode. It differs from the code's rule exactly when the request is nonzero or the mode is not image mode. |
| Collect.Split | src/main.rs:194 | `split('\n')` yields at least one piece, and no piece contains the separator. |
| Collect.SplitJoin | src/main.rs:194 | Joining the pieces with the separator gives back the original text. |
| Collect.Filter | src/main.rs:195 | Every kept line comes from the input and satisfies the rule. Every input line that satisfies it is kept, and the result is never longer than the input. |
| Collect.FilterAppend | src/main.rs:195 | Filtering a list extended by one line extends the filtered list by that line exactly when the rule keeps it. |
| Collect.FilterIsSubsequence | src/main.rs:195 | The kept lines keep their relative order. |
| Collect.Retain | src/main.rs:195 | The in-place `retain` loop leaves exactly `Filter(files, rule)`. |
| Collect.FilterTwice | src/main.rs:208-217 | Two successive `retain` passes equal one pass with the conjunction of the rules. |
| Collect.AsciiWhitespace | src/main.rs:208 | Among ASCII characters, `trim` strips exactly space, tab, line feed, vertical tab, form feed and carriage return. |
| Collect.Trim | src/main.rs:208 | `trim` returns the slice of the text that lies between a blank prefix and a blank suffix, and that neither starts nor ends with white space. Its result is empty iff the text is blank (white space only), so the retain rule is `!IsBlank`. |
| Collect.Keeps | src/main.rs:195-217 | The `retain` closures: a line is kept by the first pass iff it is nonempty, by the second iff its `trim` is nonempty, and by the third iff its recorded length is nonzero. The final rule is the second and third together. |
| Collect.Size | src/main.rs:226-231 | The comparator reads the length the size map records for a file, and a nonzero length only for a listed file. |
| Collect.SortBySize | src/main.rs:224-233 | The result is sorted by size (non-decreasing) and is a permutation of the input. |
| Collect.Reverse | src/main.rs:234-236 | Position k of the result is position n-1-k of the input. |
| Collect.ReverseMultiset | src/main.rs:234-236 | A reversed list is a permutation of the original. |
| Collect.PrepareFiles | src/main.rs:136-237 | "No files" iff the candidate list is empty. Otherwise every entry is nonempty, non-blank, readable and of nonzero size. Unsorted, the list is exactly the eligible lines in order. Sorted, it is a permutation of them, ascending or, with `--reverse`, descending by size. |
| Collect.Gather | src/main.rs:136-195 | The list before the emptiness check is the `--set` paths as given, or the search output split at newlines without its empty lines. |
| Collect.Order | src/main.rs:223-237 | The result is a permutation of the input. Without `--sort` it is the input unchanged. With it, it is ascending by size, or descending with `--reverse`. |
| Collect.EligibleFilter | src/main.rs:194-217 | The empty-line, blank-line and size passes together keep exactly the lines that are non-blank and have a nonzero size. |
| Collect.UnsortedIsSubsequence | src/main.rs:207-217 | Without sorting, the list keeps the order of the search output. |
| Collect.BlankNeverKept | src/main.rs:208 | A whitespace-only line never reaches the list. |
| Aggregate.RunJob | src/main.rs:296-334 | A job fails iff `decoreco` returns `Err`, and the failure carries `decoreco`'s message. Otherwise both sizes are recorded for that file. |
| Aggregate.Step | src/main.rs:337-373 | Only a strictly smaller result changes the state. It then adds orig-new to saved and orig to total, and appends the row (file, orig, new). |
| Aggregate.Improved | src/main.rs:337 | An outcome counts iff the job succeeded with a new size strictly below the original one. A counted file then had a nonempty original and saved at least one byte. |
| Aggregate.Fold | src/main.rs:293-390 | Handling a sequence of outcomes never lowers the counters. It keeps the existing rows as a prefix and adds at most one row per outcome. |
| Aggregate.FoldConsistent | src/main.rs:337-373 | In any order of outcomes, saved and total stay equal to the sums over `processed`, every row shrank, the counters never decrease, and there is at most one row per outcome. |
| Aggregate.SavedWithinTotal | src/main.rs:403-440 | Saved bytes never exceed total bytes, and their difference is the sum of the new sizes. Nothing was saved iff no file is listed. |
| Aggregate.FoldFromEmpty | src/main.rs:293-373 | A run's final state is the rows of the improved outcomes, in completion order, with their sums. |
| Aggregate.OrderIndependent | src/main.rs:293-390 | Any two completion orders give the same saved and total, and the same rows up to reordering. |
| Aggregate.Scenarios | src/main.rs:337-380 | A 10 MB file re-encoded to 6 MB saves 4 MB. One that grows from 2 MB to 2.5 MB changes nothing. |
| Aggregate.RunSummary.Record | src/main.rs:347-373 | The mutex updates for one outcome move the shared state by exactly one `Step` and keep it consistent. |
| Aggregate.RunSummary.RecordAll | src/main.rs:293-390 | Recording a sequence of outcomes leaves the state equal to a fold of `Step` over that sequence. |
| Aggregate.RunSummary.constructor | src/main.rs:264-290 | The shared state starts consistent, with both counters 0 and no rows. |
| Aggregate.Finalize | src/main.rs:350-369 | No action on a dry run or without improvement. Otherwise exactly one action in video mode and two in image mode. The first moves the scratch file to `Target`: the original's name, or "<file>.jxl" in image mode. Only image mode removes the original. |
| Aggregate.Target | src/main.rs:355-359 | The destination is the original's name in video mode. In image mode it is the original's name followed by ".jxl", whose last segment is "jxl". |
| Aggregate.SmallerBy | src/main.rs:342 | For a smaller file, the "smaller by" figure r = 100 − floor(new·100/orig) satisfies (100−r)·orig <= new·100 < (101−r)·orig. It lies in 1..100 and is 100 exactly when new·100 < orig. |
| Aggregate.LargerByAsWritten | src/main.rs:377 | The "larger by" figure as computed is floor(orig·100/new), at most 100. |
| Aggregate.LargerByReportsRatio | src/main.rs:377 | A file growing from 2 000 000 to 2 500 000 bytes is reported "larger by 80%", while it grew by 25%. |
| Aggregate.GrowthPercent | src/main.rs:377 | The corrected figure r satisfies orig·(100+r) <= new·100 < orig·(101+r). |
| Aggregate.SavedPercent | src/main.rs:405-413 | Once something was saved, the total is nonzero and the percentage is floor(saved·100/total), at most 100. |
| Aggregate.EntryRow | src/main.rs:420-429 | A listed row shows the entry's old and new sizes unchanged. Its saved column never underflows, is positive, and old = new + saved. |
| Aggregate.TotalsRow | src/main.rs:434-440 | The totals row is total, total-saved and saved. These are the sums of the old, new and saved columns, and total-saved never underflows. |
| Aggregate.ReportOf | src/main.rs:402-440 | "no files were compressed." iff no file is listed. Once something was saved, the report is the compressed one with percentage `SavedPercent`, at most 100. Row k is the entry row of the k-th listed file, and the totals row follows. |
| Aggregate.CheckedDiv | src/main.rs:450 | `checked_div` is `None` exactly for a zero divisor, and otherwise `Some` of the floor quotient. |
| Aggregate.UnwrapOr | src/main.rs:450 | `unwrap_or(1)` gives the contained value when there is one, and the fallback only for `None`. |
| Aggregate.RateDivisorAsWritten | src/main.rs:450 | The divisor is total/1 000 000, because the fallback is never taken. It is zero iff total < 1 000 000. |
| Aggregate.PerMegabyteAsWritten | src/main.rs:450 | Where the division is defined (from one megabyte up), the figure r is the quotient of the elapsed time by total/1 000 000: r·d <= elapsed < (r+1)·d. It never exceeds the elapsed time. |
| Aggregate.RateDivisor | src/main.rs:450 | The corrected divisor is at least 1. It equals the computed one from one megabyte up and is 1 below. |
| Aggregate.PerMegabyte | src/main.rs:450 | The corrected figure is defined for every total, never exceeds the elapsed time, and agrees with the code wherever the code's division is defined. |

## Left out

- Process spawning, `find`, `stat`, `mv`, `rm` and the temporary directory are outside the model. Their results enter as values (`Exit`, the size map, the search output, `Finalize`'s action list), and nothing is executed.
- Command-line parsing (src/cli.rs) is not part of this model, and neither are shell completions and the man page. The option values arrive as parameters. The completions path returns at src/main.rs:110, before anything modelled here.
- The code reads options named "threads" and "images" and calls `cli::man`; src/cli.rs declares neither option and defines no `man`. What clap does with an undeclared name is outside the model, so the image mode and the requested thread count are parameters, and only the rule that turns them into a pool size is modelled.
- Parallel execution with rayon and the three separate mutexes are not modelled. Outcomes arrive one at a time in some order. Each counter update is a commutative addition, so interleaving the locks does not change the sums, and `OrderIndependent` covers every order.
- The progress bar, coloured output and the `--list` table are left out, apart from the figures they print. The summary table's file column is `truncate` to the terminal width less 60, and its size cells are `humanize_bytes` of each row's figures (src/main.rs:420-429); the cells are modelled as numbers (`EntryRow`), not as the rendered texts. The terminal-width arithmetic (`dimensions().0 - 20`, `- 60`, which underflows on narrow terminals) is also left out.
- LargerByAsWritten: requires a nonzero new size. The code divides by it, and new = orig = 0 panics, but only for a file that became empty after the size filter (src/main.rs:211), because the sizes are read again (src/main.rs:305-334).
- u64 and u128 overflow of the counters and of `* 100` is not modelled: integers are unbounded.
- Display.Truncate: works on characters, whereas Rust measures and slices bytes (and panics when slicing inside a multi-byte character). The two agree on ASCII names.
- Collect.SortBySize: promises a sorted permutation but not the stability of Rust's `sort_by`. The metadata read inside the comparator is taken from the same size map as the earlier size filter.
- Collect.IsWhitespace: covers the Unicode White_Space set that `str::trim` uses, written out character by character. No other Unicode handling is modelled.
- Encoder.ImageCommandReadBack and Encoder.CjxlArgsReadBack: cover only file names that do not themselves look like an option, because an encoder would read such a name as an option.
- Encoder.FfmpegArgsReadBack: covers only an output path that does not start with '-'. The scratch path always starts with the temporary directory, so this holds for every job.
- The `avif` and `heic` images that the search finds are refused by `decoreco`. This is covered by `ImageQuality`, since both fall into the unsupported case.
- Elapsed time comes from the clock; here it is a parameter in milliseconds.
- UTF-8 decoding of the `find` output and of the encoders' stderr is not modelled, and the `expect`s that fail on invalid UTF-8 are left out.

## Findings

| source | as written | input that shows it | evidently intended | confidence | as-written member | corrected member |
|---|---|---|---|---|---|---|
| src/main.rs:555-560 | hours are taken `% 60`, so whole multiples of sixty hours vanish | 216 000 000 ms (60 h) prints as the empty text | hours are not wrapped, and every duration prints something | high, not executed | Display.TimeTextSixtyHours | Display.TimeTextFixedNonEmpty |
| src/main.rs:377 | "larger by" prints orig·100/new, the old size as a percentage of the new one | 2 000 000 → 2 500 000 bytes prints "larger by 80%" | the growth, new·100/orig − 100 (25 here) | medium, not executed | Aggregate.LargerByReportsRatio | Aggregate.GrowthPercent |
| src/main.rs:450 | `checked_div(1_000_000)` is never `None`, so `unwrap_or(1)` never applies and the divisor is 0 below one megabyte, making the outer division divide by zero | a run whose improved files total 500 000 bytes: divisor 0 | fall back to 1 when the total is under one megabyte | high, not executed | Aggregate.RateDivisorAsWritten | Aggregate.PerMegabyte |
| src/main.rs:117-127 | the pool size is `usize::from(threads == 0 && !images)`, a boolean turned into a count | a request of 8 threads gives 0 (all cores); a request of 0 outside image mode gives exactly 1 thread | the pool gets the requested count, 0 meaning all cores | medium, not executed | Dispatch.ThreadCountIgnoresRequest | Dispatch.ThreadRequestHonoured |
