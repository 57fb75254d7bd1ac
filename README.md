# top_analyzer.rb in Dafny

`top_analyzer.rb` reads a log of repeated `top` screens and summarises it for
a list of watched process names. The log is a sequence of snapshots. Each
snapshot starts with a `top - HH:MM:SS up ... load average: a, b, c` header,
followed later by a `PID USER ... COMMAND` table header and process rows.

For the whole log the analyser reports:

- how many snapshots it saw, and the first and last snapshot times;
- the highest first load average and the time of the header that reached it;
- the set of every command seen in a table row.

For each watched name it reports:

- the highest %CPU and the highest %MEM of any row whose command is that
  name, with the log time of that row;
- the highest instance count of any one snapshot, with that snapshot's time.
  A row whose command is the name adds 1 to the count for each time the name
  occurs in the watch list, so a name listed k times counts k per row.

Every peak is a strictly-greater running maximum. It starts at a sentinel
(-1.0, or -1 for the instance count) and keeps the time of the first reading
that reached it.

The model covers the `TopAnalyzer` object and the line loop of `analyze_log`:

- `classifier.dfy` (module `LineClassifier`): how one line is classified.
  - Lines are tested in this order: blank, snapshot header, table header,
    anything else.
  - A row's fields come from Ruby's `strip` and its split on runs of `\s`,
    modelled character by character; the lemmas cover columns separated by
    any runs of whitespace, as in real `top` output.
  - With the split limited to 13 fields, the command is the 12th
    whitespace token.
  - A row of fewer than 12 tokens has no command. This is the case where
    the Ruby code fails.
- `peaks.dfy` (module `Peaks`): the strict-greater running peak (`RunMax`).
  It is proved equal to an independent description, `IsFirstPeak`: the
  largest reading, and the first one to reach it.
- `snapshots.dfy` (module `Snapshots`): what each bucket should hold after a
  stream of header and row events.
  - `ExpectedTotals` and `StatsAgree` define each bucket from the grouped log
    alone.
  - One lemma per event shows that the event moves those values exactly as
    `collect_proc_inst_data` and `summarize_last_log` move the buckets.
- `dispatch.dfy` (module `Dispatch`): the loop's meaning as a function
  (`Scan`) from the lines read so far.
  - The loop keeps three things: the events handed on, `log_time` and
    `proc_table`.
  - `Scan` either produces that state or the index of the first malformed
    row.
  - `LineEvents` reads the same events off the lines themselves (header
    lines, and plain lines after an open table header), and `ScanEvents`
    proves the two agree.
- `analyzer.dfy` (module `Analyzer`): the class `TopAnalyzer`.
  - Its fields are the session buckets, plus one `ProcStats` bucket per
    watched name in a map.
  - Its methods are `InitBuckets`, `CollectProcInstData`,
    `SummarizeLastLog` and `AnalyzeLog`.
  - `AnalyzeLog` is proved to leave every bucket as the specification
    functions describe `LineEvents` of the lines.

Behaviours of the code the model keeps:

- **Command column.** The command is the 12th whitespace token alone, not the
  rest of the line, because the split is limited to 13 fields.
- **Watched name that never appears.** Such a name ends with an instance peak
  of 0 once any snapshot has been finalised. So the report says "no
  instances" for it. The peak stays at -1 only when the log had no header at
  all. The first finalisation compares the counter, 0, with -1 and raises the
  peak.
- **Row of fewer than 12 tokens.** Such a row inside an open table ends the
  run, because stripping the missing command fails. The model returns that
  line's index as an error. It does not produce undefined fields.
- **Rows before the first header.** A table row read before any header is
  still collected, with a nil time. Its instance count is carried into the
  first snapshot, because only a finalisation resets the counter and the
  first header finalises nothing.

## Model

| member | source | states |
|---|---|---|
| LineClassifier.Classify | top_analyzer.rb:98-118 | the line is blank iff it is empty; it is a header iff it is non-empty and the header pattern matches (with that match's time and load); it is a table header iff it is non-empty, not a header, and the table pattern matches; anything else falls through |
| LineClassifier.TrimLeft | top_analyzer.rb:122 | the result is a suffix of the input, everything removed is whitespace or NUL, and the result does not start with either |
| LineClassifier.TrimRight | top_analyzer.rb:122 | the result is a prefix of the input, everything removed is whitespace or NUL, and the result does not end with either |
| LineClassifier.StripPadded | top_analyzer.rb:122-123 | `strip` of a word padded on both sides with whitespace or NUL is exactly the word |
| LineClassifier.Tokens | top_analyzer.rb:122 | every field of the split is non-empty and free of whitespace |
| LineClassifier.TokensAfterSpaces | top_analyzer.rb:122 | whitespace in front of a string does not change its split |
| LineClassifier.TokensOfJoin | top_analyzer.rb:122 | splitting words joined by any non-empty runs of whitespace gives back exactly those words, in order |
| LineClassifier.ColumnsOfRow | top_analyzer.rb:122 | stripping and splitting a row of columns separated by whitespace runs and padded with whitespace or NUL gives back exactly its columns |
| LineClassifier.StripBlank | top_analyzer.rb:122 | `strip` of a string of only whitespace and NUL is empty |
| LineClassifier.ParseRowOfColumns | top_analyzer.rb:122-123 | a row of at least 12 columns, with any whitespace runs between them and any whitespace or NUL around them, yields column 12 as the command and columns 9 and 10 (converted) as CPU and memory; later columns are discarded |
| LineClassifier.ParseRowBlank | top_analyzer.rb:122-123 | a line of only whitespace or NUL yields no command (the failing case, when read inside an open table) |
| LineClassifier.ParseRowShort | top_analyzer.rb:122-123 | a row of 0 to 11 columns, separated and padded in the same way, yields no command (the failing case) |
| Peaks.RunMaxIsFirstPeak | top_analyzer.rb:110-113 | the strict-greater running peak is at least the sentinel and every reading; it is the sentinel if no reading exceeds it, else the first reading that reaches the maximum |
| Peaks.FirstPeakUnique | top_analyzer.rb:110-113 | the first-peak description determines the reading uniquely |
| Peaks.RunMaxCharacterized | top_analyzer.rb:110-113 | a reading is the running peak if and only if it is the first peak |
| Snapshots.GroupHeads | top_analyzer.rb:102-113 | there is one snapshot per header event, and once there is a snapshot, no rows stay outside one |
| Snapshots.LoadReadingsAfter | top_analyzer.rb:102-113 | a header adds its reading to the load readings, and a row adds nothing |
| Snapshots.OpenTimeAfter | top_analyzer.rb:106 | the open snapshot's time becomes the header's time on a header and is unchanged on a row |
| Snapshots.Matched | top_analyzer.rb:37-50 | a row matching k entries of the watch list adds k to the counter; with k > 0 the CPU and memory peaks do not decrease and reach the row's values; a peak changes only on a strictly greater value, to that value at the row's time; the instance peak is untouched |
| Snapshots.MatchedAgain | top_analyzer.rb:37-49 | matching one more entry of the watch list is one more application of the per-entry update |
| Snapshots.Finalize | top_analyzer.rb:58-64 | the counter becomes 0; the instance peak becomes the larger of the old peak and the counter, is stamped with the snapshot time only on a strict increase, and the CPU and memory peaks are untouched |
| Snapshots.FinalizeIdempotent | top_analyzer.rb:58-64 | finalising twice at one time is finalising once |
| Snapshots.TotalsAtStart | top_analyzer.rb:15-21 | the expected totals of no events are `init_buckets`' values |
| Snapshots.StatsAtStart | top_analyzer.rb:22-31 | a fresh bucket is the expected bucket of no events |
| Snapshots.TotalsAfterHead | top_analyzer.rb:104-113 | a header finalises the open snapshot, if any (count +1, start set if unset, end set), then competes for the load peak |
| Snapshots.TotalsAfterRow | top_analyzer.rb:35-36 | a collected row only adds its command to the set of all commands |
| Snapshots.TotalsAtClose | top_analyzer.rb:127 | end of input finalises the open snapshot if there is one |
| Snapshots.FinalizeExtendsInstPeak | top_analyzer.rb:58-63 | finalising the last snapshot extends the instance peak by that snapshot's counter |
| Snapshots.WindowAfterHead | top_analyzer.rb:104 | a header closes the open snapshot and opens an empty counting window, except the first header, which keeps the rows seen before it |
| Snapshots.StatsAfterHead | top_analyzer.rb:104 | a bucket that agrees with the events agrees, once finalised (if a snapshot was open), with the events plus a header |
| Snapshots.RowPeakAfterRow | top_analyzer.rb:38-48 | a row for the name competes for its CPU and memory peaks, and a row for another name does not |
| Snapshots.WindowAfterRow | top_analyzer.rb:49 | a row joins the open counting window and leaves the finalised snapshots alone |
| Snapshots.StatsAfterRow | top_analyzer.rb:37-50 | a bucket that agrees with the events agrees, after `Matched` for a row of its name (unchanged for others), with the events plus that row |
| Snapshots.StatsAtClose | top_analyzer.rb:127 | at end of input, finalising the open snapshot, if any, makes the bucket agree with the closed log |
| Snapshots.WindowsKeepRows | top_analyzer.rb:49 | grouping loses no row: some window holds a row for the name if and only if some event is one |
| Snapshots.UnseenKeepsSentinel | top_analyzer.rb:24-27 | a name no collected row carries has no CPU or memory readings, so its peaks stay at -1.0 with no time |
| Snapshots.HitsPositive | top_analyzer.rb:49 | for a watched name, a window's counter is positive if and only if the window has a row for it |
| Snapshots.InstPeakSentinels | top_analyzer.rb:58-63 | the instance peak is the sentinel if and only if nothing was finalised; otherwise it is at least 0, and 0 if and only if no finalised snapshot had a row for the name |
| Dispatch.ScanMalformedSticks | top_analyzer.rb:122-123 | after a malformed row nothing more is read |
| Dispatch.StepMalformed | top_analyzer.rb:118-123 | one line fails if and only if it is a plain line with fewer than 12 columns read inside an open table |
| Dispatch.ScanMalformedAt | top_analyzer.rb:118-123 | the run fails at line i if and only if line i is the first such row |
| Dispatch.ScanRowsHaveCommands | top_analyzer.rb:35 | every row handed on has a non-empty command |
| Dispatch.StepEvents | top_analyzer.rb:98-125 | a header line hands on its header and sets the log time; any other line keeps the log time and hands on at most one row, which has a command |
| Dispatch.StepRowEvent | top_analyzer.rb:118-124 | a line other than a header hands on a row exactly when it is a plain line read inside an open table whose column 12 strips to a non-empty command, and that row carries the command, columns 9 and 10 and the current log time |
| Dispatch.ScanEvents | top_analyzer.rb:98-125 | the events handed on are exactly those read off the lines: each header line's header, and a row for each plain line after an open table header with a non-empty column 12, at the latest header line's time; the log time is the latest header line's |
| Dispatch.StepLineEvent | top_analyzer.rb:98-125 | when the loop state matches the lines read so far, one step hands on exactly the events the line gives when read after them |
| Dispatch.ScanHeaders | top_analyzer.rb:102-113 | the snapshots are the header lines, with their times and loads, in order, and the log time is the latest header's |
| Dispatch.StepInTable | top_analyzer.rb:98-125 | after a line the table is open if and only if the line is a table header, or a plain line read with the table open |
| Dispatch.ScanTableOpen | top_analyzer.rb:98-125 | the table is open if and only if some table-header line has been followed only by plain lines |
| Analyzer.TopAnalyzer.constructor | top_analyzer.rb:8-12 | the watch list is kept as given (no name may be a session key), and no bucket exists yet |
| Analyzer.TopAnalyzer.InitBuckets | top_analyzer.rb:14-32 | the file name is set, the session totals are reset, every watched name gets a fresh bucket, and other entries are untouched |
| Analyzer.TopAnalyzer.CollectProcInstData | top_analyzer.rb:34-52 | an empty command changes nothing; any other command joins the set of all commands, each bucket named by it becomes `Matched` with its multiplicity in the watch list, and no other bucket changes |
| Analyzer.TopAnalyzer.SummarizeLastLog | top_analyzer.rb:54-65 | the count is incremented, start is set only if unset, end is set, and every watched bucket is `Finalize`d |
| Analyzer.TopAnalyzer.HeaderLine | top_analyzer.rb:102-113 | the buckets that describe the events so far describe them plus the header |
| Analyzer.TopAnalyzer.RowLine | top_analyzer.rb:118-124 | the buckets that describe the events so far describe them plus the row (unchanged for an empty command) |
| Analyzer.TopAnalyzer.ReadLine | top_analyzer.rb:95-126 | one loop pass follows `Scan`: it fails exactly at a malformed row, and otherwise keeps the buckets describing the events read |
| Analyzer.TopAnalyzer.AnalyzeLog | top_analyzer.rb:89-129 | the result is an error if and only if the lines hold a malformed row, and then it is that row's index; otherwise the buckets describe the closed log of the events read off the lines, the count is the number of header lines, and the load peak is the first largest header load |
| Analyzer.ReportedTotals | top_analyzer.rb:69-70 | the count is the number of header lines, the load peak is the first largest, start and end are the first and last header times (nil without headers), and no command is empty |
| Analyzer.NoEmptyCommand | top_analyzer.rb:35-36 | the empty string never reaches the set of all commands read off the lines |
| Analyzer.ReportedProcess | top_analyzer.rb:71-79 | CPU and memory peaks are the first largest readings of the rows read off the lines for the name, and the instance peak the first largest per-snapshot count; the instance peak is -1 if and only if there were no header lines, otherwise at least 0 with the counter reset; once the log has a header line, "no instances" is reported if and only if no row for the name was collected (without one the peak stays -1 and "no instances" is never reported) |
| Analyzer.HeaderStep | top_analyzer.rb:104-113 | every agreeing bucket, once finalised if a snapshot was open, agrees after a header, and the expected totals are finalised and then bumped by the header's load |
| Analyzer.RowStep | top_analyzer.rb:34-52 | every agreeing bucket of a watched name, matched if the row is its own, agrees after a row, and the expected totals only gain the row's command |
| Analyzer.CloseStep | top_analyzer.rb:127 | at end of input every agreeing bucket, once finalised if a snapshot is open, agrees with the closed log, and the expected totals are finalised likewise |

## Left out

- File reading, `gets` and `chomp!` (top_analyzer.rb:91-97): the log is given as the sequence of its chomped lines.
- The `ARGV` driver (top_analyzer.rb:132-135) and the printing in `dump_stats` (top_analyzer.rb:67-87), including the sorted verbose listing. The only decision in `dump_stats`, the "no instances" test, is kept as `ReportsNoInstances`.
- The two regular expressions (top_analyzer.rb:102, 114) and `String#to_f`: these are given functions (`Recognizers`). The model fixes the order in which they are tried and what is done with their results, not the pattern engine or number parsing. CPU, memory and load are reals, because they are only compared.
- `load_5`, `load_15`, `lno` and `proc_inst`: these are computed but never used.
- Collisions of a watched name with a session key in the shared hash (top_analyzer.rb:15-23): the session keys are separate fields. The constructor requires that no watched name be one of those keys.
- Analyzer.TopAnalyzer.AnalyzeLog: after a malformed row it promises only that every watched name has a bucket. It does not describe the partial buckets the Ruby exception leaves behind, because the source does not use them.
- Analyzer.TopAnalyzer.constructor: it starts every session field at its `init_buckets` value. The Ruby object has no keys until `init_buckets` runs.
- A CPU or memory peak and its time are one `Reading` value rather than two hash entries.
