# dmerg: capture and chronological merge, modelled in Dafny

`dmerg` records two logs at once: the kernel log (read from `dmesg` or
`journalctl`) and whatever arrives on its standard input. Each capture thread
writes a temporary file, and every line in it starts with a date in the
fixed layout `TIME_FORMAT` (`%Y-%m-%dT%H:%M:%S%.6f%z`). When the capture
ends, `merge_logs` interleaves the two files into one output file in date
order.

This project models the sequential core of that program:

- **`timestamp.dfy` (`Timestamp`).** The date layout. It gives dates as
  calendar fields plus a fixed offset, and instants as integer microseconds
  UTC. It covers printing with `TIME_FORMAT`, and a parser for the fixed
  layout with the offset written `+HHMM` or `+HH:MM`. It also covers the
  `,` to `.` replacement that `get_line_split` applies first. Dates compare
  by instant, and the calendar arithmetic behind the instant is proved
  sound: the next calendar day is always exactly one day later.
- **`lines.dfy` (`Lines`).** The three outcomes of a read: end of file, I/O
  error, or a line. It models `get_line`, and `get_line_split` as
  `split_whitespace`, then the first token read as a date, then the rest
  joined with single spaces. A blank line makes the source panic, and the
  model has an explicit `Panicked` outcome for it. An `Entry` is a line
  paired with its reading.
- **`merge.dfy` (`Merge`).** `merge_logs`, modelled twice:
  - a functional specification (`MergeRun`), which lists the lines written
    as a trace of `(source, line number)` picks;
  - an imperative mirror (`MergeLogs`), with the `next_*` and `end_*` flags,
    the pending reads, the comparison and the two drain loops.
  - The two are proved equal. The specification's shape is proved too:
    each source contributes a prefix of its file, in order, and the merge
    stops exactly where the source stops.
- **`merge_properties.dfy` (`MergeProperties`).** These lemmas relate the
  merge to a reference stable two-way merge when every line is stamped:
  - no loss and no duplication;
  - sorted inputs give a sorted output;
  - the stdin-first tie-break.
  - Other lemmas cover what happens when a source stops: a failing first
    read, a blank first line, and the loss of a stopped source's tail.
- **`capture.dfy` (`Capture`).** The per-line decisions of the two capture
  loops, modelled as sequence transforms:
  - stdin lines are stamped with the time they arrived;
  - kernel lines are filtered by `full || date >= start` and rewritten as
    `<date> <message>`;
  - a blank kernel line ends the capture thread.
- **`files.dfy` (`Files`).** Files are modelled as text. Writers add `\n`
  after each line. Readers follow `BufRead::lines`: they drop the `\n` and
  one `\r` before it.
- **`pipeline.dfy` (`Pipeline`).** The pieces composed: capture, then write,
  then read back, then merge, then write the output. This is where the
  documented promise (no loss, chronological output) is proved for the files
  the program writes itself.

The clock (`Local::now()`) and the capture start time are parameters. The
kernel's and the terminal's line streams are sequences.

## Model

| member | source | states |
|---|---|---|
| Timestamp.Format | src/main.rs:22 | `TIME_FORMAT` writes every valid date as a stamp of exactly 31 characters; Timestamp.FormatRoundTrip shows the stamp parses back to that date |
| Timestamp.ParseDate | src/main.rs:278-281 | a token that parses is 31 or 32 characters long, as the fixed layout demands, and names a valid date: a four-digit year, a real calendar day, a time without leap second and an offset within a day |
| Timestamp.FormatRoundTrip | src/main.rs:22 | a date formatted with `TIME_FORMAT` parses back to the same date (all fields and the offset) |
| Timestamp.CommaReadsAsDot | src/main.rs:278-281 | replacing any `,` of a date token by `.` does not change what the token parses to |
| Timestamp.DmesgStampParses | src/main.rs:278-281 | dmesg's form of a date (comma before the microseconds, colon in the offset) parses to that date |
| Timestamp.ParsedStampIsCanonical | src/main.rs:281 | a token that parses agrees with the `TIME_FORMAT` rendering of its date on the date, the time and the microseconds (first 26 characters) |
| Timestamp.InstantIgnoresOffset | src/main.rs:341 | dates are compared as absolute instants: the same moment written in an offset `minutes` further east, with the wall clock moved forward by as much and carried into the next day or the day after when it passes midnight, has the same instant, and is a valid date while the year stays within four digits |
| Timestamp.Instant | src/main.rs:341 | defines the key the merge compares: microseconds since 1970-01-01T00:00:00 UTC of the moment the wall clock denotes in its offset (no contract of its own; Timestamp.SameDayOrder, Timestamp.InstantIgnoresOffset and Timestamp.NextDayIsOneDayLater state its properties) |
| Timestamp.SameDayOrder | src/main.rs:341 | two dates of the same day in the same offset compare, in both directions, as their wall clocks read: by hour, then minute, then second, then microsecond |
| Timestamp.NextDayIsOneDayLater | src/main.rs:341 | the calendar day after a date (the next day of the month, the first of the next month, or 1 January of the next year) is exactly 86400 seconds later at the same wall-clock time |
| Timestamp.DaysNextMonth | src/main.rs:341 | the first day of a month is one day after the last day of the month before, February's length following the Gregorian leap rule |
| Timestamp.YearLength | src/main.rs:341 | the year from 1 March to the end of February has 366 days exactly when its February is a leap February (divisible by 4, and by 400 if by 100), and 365 otherwise |
| Timestamp.ValuePad | src/main.rs:22 | a zero-padded field reads back as the number it was padded from |
| Timestamp.PadValue | src/main.rs:22 | a digit field is the zero-padded form of its value, and that value fits in the field's width |
| Lines.GetLine | src/main.rs:234-251 | succeeds exactly on a line, returning it verbatim; end of file and I/O errors give an error |
| Lines.GetLineSplit | src/main.rs:253-285 | panics exactly on a line that is empty or all whitespace; gives a date exactly when the first token parses, with that parse as the date and the other tokens joined by single spaces as the message; reports a bad date exactly when the first token does not parse; end of file gives the end-of-file error and an I/O error the read error |
| Lines.Tokens | src/main.rs:266 | every token is a non-empty run of non-whitespace; there is no token exactly when the line is blank |
| Lines.TokensSplitText | src/main.rs:266 | every line is its tokens, in order, with runs of whitespace before, between and after them, and the runs between two tokens are not empty: the tokens are exactly the maximal non-whitespace runs of the line |
| Lines.TokensOfJoin | src/main.rs:266-269 | splitting words joined with single spaces gives those words back |
| Lines.JoinTokensOfSingleSpaced | src/main.rs:266-269 | splitting and re-joining a single-spaced message gives the message back |
| Lines.JoinIsSingleSpaced | src/main.rs:269 | the message `get_line_split` builds is single-spaced and does not start with whitespace |
| Lines.SplitStampedRecord | src/main.rs:253-285 | `<formatted date> <text>` splits into that date and the words of `text` joined by single spaces |
| Lines.SplitRecordRoundTrip | src/main.rs:253-285 | `<formatted date> <msg>` with a single-spaced `msg` splits into exactly that date and `msg` |
| Lines.SplitMessageIsSingleSpaced | src/main.rs:266-269 | every message `get_line_split` returns is single-spaced |
| Lines.RewriteReadsBack | src/main.rs:115-118 | a stamped kernel line rewritten as `<formatted date> <message>` reads back as the same date and message |
| Files.ReadLines | src/main.rs:228-231 | reading a file as `BufRead::lines` does: no line read holds a `\n`; Files.ReadRendered and Files.RenderRead give its round trips with writing |
| Files.ReadRendered | src/main.rs:341-368 | a file written one line plus `\n` at a time reads back as exactly those lines when none holds `\n` or ends in `\r` |
| Files.RenderRead | src/main.rs:228-231 | writing back the lines read from a text whose lines all end in `\n` (not `\r\n`) reproduces the text |
| Merge.MergeRun | src/main.rs:287-371 | defines the specified merge as a trace of picks plus a panic flag (no contract of its own; Merge.MergeLogs is proved to compute it and Merge.MergeShaped states its shape) |
| Merge.MergeOf | src/main.rs:287-371 | the merged output, the text of each pick, marked aborted when the run panicked; it never has more lines than the two logs together |
| Merge.MergeFiles | src/main.rs:287-371 | the same merge over two files given as lines, each read by `get_line_split`; never more lines out than in |
| Merge.MergeLogs | src/main.rs:287-371 | the imperative merge writes exactly the lines of the functional specification, and panics exactly when it does |
| Merge.Interleaving | src/main.rs:309-348 | the interleaving loop writes a prefix of the specified run; it panics exactly when the specified merge panics, and then at the same point; otherwise the rest of the run is the drain of the log that did not end, from its pending read on |
| Merge.ReadStdin | src/main.rs:310-321 | a refill of stdin reads its next line: a blank one panics the merge with what was written so far; a stamped one becomes pending and the interleaving goes on; anything else ends stdin, and the rest of the merge is syslog copied from its pending line (from its first line on the first pass, unless that one is blank) |
| Merge.ReadSyslog | src/main.rs:323-334 | a refill of syslog reads its next line: a blank one panics the merge; a stamped one becomes pending and the interleaving goes on; anything else ends syslog and the rest of the merge is stdin copied from its pending line; after stdin ended on the first pass, syslog is copied from its first line |
| Merge.WriteEarlier | src/main.rs:341-347 | one step writes syslog's pending line exactly when its date is strictly earlier, and stdin's otherwise, and the run goes on with a refill of the side written |
| Merge.DrainLog | src/main.rs:350-368 | a drain loop writes the pending read and every later line of that log, verbatim and in order |
| Merge.MergeShaped | src/main.rs:309-368 | the lines taken from each log are its first n lines in file order, once each; the log that stopped contributed only stamped lines (both logs did when the run panicked); the run ends at a panic on a blank read, or with the whole rest of one log after the other stopped at an unstamped read |
| Merge.DrainLines | src/main.rs:350-368 | appending a drain to a trace appends that log's lines from the drain point, verbatim |
| MergeProperties.MergeOfStamped | src/main.rs:309-368 | when every line of both logs is stamped, the merge completes and writes exactly the reference stable merge (syslog first only when strictly earlier) |
| MergeProperties.MergedPermutes | src/main.rs:309-368 | the reference merge is a permutation of the two logs |
| MergeProperties.MergedChronological | src/main.rs:341-347 | merging two chronological logs gives a chronological log |
| MergeProperties.FirstLineTieBreak | src/main.rs:341-347 | with both first lines stamped, the first line written is syslog's if and only if its date is strictly earlier, else stdin's |
| MergeProperties.StdinEndsFirst | src/main.rs:350-357 | when stdin's first read gives no date (empty file, unparseable line) and syslog does not start blank, the output is the whole syslog file verbatim |
| MergeProperties.SyslogEndsFirst | src/main.rs:359-368 | when stdin starts stamped and syslog's first read gives no date, the output is the whole stdin file verbatim, unstamped lines included |
| MergeProperties.BlankFirstLineAborts | src/main.rs:267 | a blank first line in either log panics the merge before anything is written |
| MergeProperties.UnstampedLineStopsStdin | src/main.rs:310-368 | for any two logs and the first unstamped stdin line `u`: each log contributes its first lines in order; stdin line `u` and later are never written unless syslog stopped first, in which case stdin is copied to its end; without a panic and without an earlier syslog stop, exactly stdin lines before `u` and all of syslog are written |
| MergeProperties.MergeOfStampedLines | src/main.rs:287-371 | for files whose every line is stamped, the merge completes, its lines are a permutation of the two files, and two chronological files give a chronological output |
| Capture.StdinRecord | src/main.rs:183 | the record of a received line is its 31-character arrival stamp, a space and the line verbatim |
| Capture.CaptureStdin | src/main.rs:179-189 | one record per received line, in arrival order; each record is the line, unchanged, after a 31-character stamp and a space |
| Capture.StdinRecordReadsBack | src/main.rs:182-184 | a stdin record reads back as the arrival time and the line's words |
| Capture.StdinRecordPlain | src/main.rs:183 | a stdin record survives a write and a read exactly when its line does |
| Capture.Keep | src/main.rs:116 | defines the capture filter: a dated kernel line is kept when the capture is full or its date, in nanoseconds, is at or after the capture start (no contract of its own) |
| Capture.SyslogRecord | src/main.rs:117-118 | the record of a kept kernel line is its date as a 31-character stamp, a space and the message verbatim |
| Capture.Collect | src/main.rs:112-124 | the syslog capture over readings completes exactly when no reading is a panic, and writes at most one record per line |
| Capture.CaptureSyslog | src/main.rs:112-124 | the syslog capture completes exactly when no kernel line is blank, and writes at most one record per line |
| Capture.CollectReadsBack | src/main.rs:113-118 | reading the records back gives exactly the stamped readings with `full` or date not before the start, in order, up to the first blank line |
| Capture.CollectWritesRecords | src/main.rs:113-124 | the syslog file holds exactly one record per accepted reading, in order, each the reading's date in the fixed layout, a space and its message |
| Capture.SyslogCaptureReadsBack | src/main.rs:113-118 | the same for kernel lines: nothing unparseable or filtered out is written, nothing is reordered, nothing after a blank line |
| Capture.SyslogRecordsStamped | src/main.rs:116-118 | every syslog record reads as stamped, with a date the filter accepts |
| Capture.FullCaptureKeepsAll | src/main.rs:116 | a full capture of kernel lines that all carry a date keeps every line: it completes and reads back as the kernel lines do |
| Capture.SyslogRecordPlain | src/main.rs:118 | a syslog record never holds `\n` or ends in `\r` |
| Capture.CollectPlain | src/main.rs:112-124 | every record the syslog capture writes survives a write and a read |
| Capture.SyslogFileReadsBack | src/main.rs:118 | the syslog file reads back as exactly the records written |
| Capture.StdinFileReadsBack | src/main.rs:183-184 | the stdin file reads back as exactly the records written, when no received line ends in `\r` |
| Pipeline.StdinRecordsStamped | src/main.rs:182-183 | every stdin record is stamped with the time its line arrived |
| Pipeline.SyslogRecordsAreStamped | src/main.rs:116-118 | every record of the syslog file is stamped |
| Pipeline.StdinCaptureInOrder | src/main.rs:179-189 | the stdin file is chronological exactly when the lines arrived in clock order |
| Pipeline.SyslogCaptureInOrder | src/main.rs:112-124 | the syslog file is chronological when the accepted kernel lines are |
| Pipeline.MergeStdinAlone | src/main.rs:287-371 | merging a stdin capture with an empty syslog file writes the capture unchanged |
| Pipeline.MergeSyslogAlone | src/main.rs:287-371 | merging an empty stdin file with a syslog capture writes the syslog file unchanged |
| Pipeline.MergeCaptures | src/main.rs:287-371 | merging the two capture files always completes and writes a permutation of their records; the output is chronological when the captures are |
| Pipeline.MergedFilesReadBack | src/main.rs:341-368 | the merge of the two capture files as read back, written out and read back again, holds every record of both captures once, and is chronological when the captures are |
| Pipeline.OutputFile | src/main.rs:412-420 | an output file exists exactly when no kernel line is blank: a blank one panics the syslog capture thread, and `th_syslog.join().unwrap()` (src/main.rs:223) then panics the program before the merge |
| Pipeline.CaptureToOutput | src/main.rs:412-420 | an output file exists exactly when the syslog capture ran to its end (a panicked capture thread panics the program at `join().unwrap()` before the merge); when it exists, read back, it holds every record of both captures once, and is chronological when the captures are |

## Left out

- Threads, `mpsc` channels, the `try_recv` polling loops and the Ctrl-C handler (src/main.rs:24-59, 143-162, 203-227). They are concurrency and cancellation. Each capture is modelled as the sequence of lines it received before it was stopped.
- Spawning `dmesg` or `journalctl`, the journal permission check and `kill()` (src/main.rs:75-103, 130). These are external processes; the kernel log is the sequence of lines they print.
- Creating, opening and removing files, console echo and flushing. Files are text (`Files`). An I/O error while reading a file ends the merge's use of that file exactly as end of file does, so only end of file is modelled inside files.
- The random file-name token, `get_logfile`, `structopt` parsing and `notify_result` (src/main.rs:36-39, 379-418): naming glue with no effect on content.
- `Local::now()`: the arrival times and the capture start are parameters.
- Timestamp.ParseDate: accepts only the fixed layout with a four-digit year, a real calendar day, no leap second, and an offset within a day. chrono's `parse_from_str` is more lenient in ways the stamps it is given never exercise: leap seconds, padding variants, and a `%.6f` fraction that is missing or has another number of digits. journalctl, dmesg and `TIME_FORMAT` always write six fraction digits.
- Capture.CaptureStdin: an arrival time is a `Stamp`, a date the layout can print. This excludes clocks past year 9999.
- Capture.StdinFileReadsBack: assumes no received line ends in `\r`. `BufRead::lines` strips one `\r` before each `\n`, so a received line can still end in `\r` (input `a\r\r\n`). Its record then loses that `\r` when the merge reads it back.
- Pipeline.CaptureToOutput: requires that no received stdin line ends in `\r` (`Plain`), for the reason above. For such a line the output holds the record without its final `\r`, so the read-back output is not a permutation of the captured records, and the lemma promises nothing about that case.
- Pipeline.MergedFilesReadBack: carries the same requirement.
- The initial pending dates: `merge_logs` starts both at `UNIXTIME` parsed as RFC 3339 (src/main.rs:21, 297-298). The first pass of the loop reads both logs before any comparison and overwrites every date it compares, so the model starts them at instant 0 and does not model RFC 3339 parsing.
- The capture start time is compared at nanosecond precision, so it is an integer number of nanoseconds. Dates read from lines carry microseconds. `Keep` compares `instant * 1000 >= start`.

## Notes on the code's behaviour

- A source whose refill yields no date stops the interleaving. `merge_logs` then drains only the other source, from its pending line on. After the first pass the failing line and everything after it are never written (MergeProperties.UnstampedLineStopsStdin). So the merge by itself can lose lines. For the files the program writes itself, every line is stamped, and Pipeline.MergeCaptures proves that nothing is lost there.
- The first pass reads both logs before the end flags are checked (src/main.rs:310-339), and the stdin flag is checked first. An unparseable first stdin line therefore always empties stdin's contribution, and syslog is then copied whole from its first line, even when that line does not parse either (MergeProperties.StdinEndsFirst). An unparseable first syslog line empties syslog's contribution only when stdin's first line is stamped; stdin is then copied whole (MergeProperties.SyslogEndsFirst). In particular, an empty syslog file and a stdin file whose first line is unparseable give an empty output.
- A blank line met by a refill (src/main.rs:310-334) makes `get_line_split` panic, which ends the merge with what was written so far. A blank line in the part of a log that the final copy loops write (src/main.rs:350-368) goes through `get_line` only and is copied verbatim.
- A blank kernel line panics the syslog capture thread. `collect_logs` then panics at `th_syslog.join().unwrap()` (src/main.rs:223), so `merge_logs` never runs and no output file is written (Pipeline.OutputFile is `None`). Pipeline.MergeCaptures is stated for any capture file, including the lines such a thread wrote before it panicked.
