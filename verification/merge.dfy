/** The chronological two-way merge of the two persisted logs (`merge_logs`).

    Each log is a sequence of lines.  The merge keeps one pending line per
    log together with its parsed instant, refills only the log whose line was
    just written, and stops interleaving as soon as a refill yields no stamped
    line (end of file or an unparseable date).  A syslog line is written first
    only when it is strictly earlier than the pending stdin line.  After the
    interleaving, the log that did not stop is copied verbatim from its pending
    line to its end; the rest of the log that stopped is never written.

    The functional specification works on `Entry`s, each line paired with
    what `get_line_split` makes of it, and describes the merge by the sequence
    of `Pick`s it writes: which log and which line of it.  `MergeLogs` is the
    loop of the source with its `next_*` and `end_*` flags, reading the lines
    themselves. */
module Merge {
  import opened Timestamp
  import opened Lines

  datatype Source = Stdin | Syslog

  /** Line `index` of log `src`. */
  datatype Pick = Pick(src: Source, index: nat)

  /** The lines written, in order, and whether a panic cut the merge short. */
  datatype Run = Run(trace: seq<Pick>, panicked: bool)

  /** The result of the `k`-th call (from 0) of `next()` on a log's line
      iterator: the line, or end of file once the lines are exhausted. */
  function ReadAt(file: seq<Entry>, k: nat): Read {
    if k < |file| then Line(file[k].text) else Eof
  }

  /** What `get_line_split` makes of that `k`-th read. */
  function ViewAt(es: seq<Entry>, k: nat): Split {
    if k < |es| then es[k].view else Failed(EndOfFile)
  }

  /** A line whose first token reads as a date. */
  predicate Stamped(e: Entry) {
    e.view.Split?
  }

  /** A line with a first token that does not read as a date. */
  predicate Unstamped(e: Entry) {
    e.view.Failed?
  }

  /** The instant of a stamped line, in microseconds since the epoch. */
  function TimeOf(e: Entry): int
    requires Stamped(e)
  {
    Instant(e.view.date)
  }

  function FileOf(stdin: seq<Entry>, syslog: seq<Entry>, src: Source): seq<Entry> {
    if src == Stdin then stdin else syslog
  }

  /** Every pick names a line that exists. */
  predicate Fits(stdin: seq<Entry>, syslog: seq<Entry>, t: seq<Pick>) {
    forall k :: 0 <= k < |t| ==> t[k].index < |FileOf(stdin, syslog, t[k].src)|
  }

  /** The lines a trace writes, each exactly as it was read. */
  function LinesOf(stdin: seq<Entry>, syslog: seq<Entry>, t: seq<Pick>): seq<string>
    requires Fits(stdin, syslog, t)
  {
    seq(|t|, k requires 0 <= k < |t| => FileOf(stdin, syslog, t[k].src)[t[k].index].text)
  }

  /** The line numbers a trace takes from `src`, in the order written. */
  function Indices(t: seq<Pick>, src: Source): seq<nat> {
    if t == [] then [] else (if t[0].src == src then [t[0].index] else []) + Indices(t[1..], src)
  }

  /** `from, from + 1, ..., from + n - 1`. */
  function Range(from: nat, n: nat): seq<nat> {
    seq(n, k requires 0 <= k < n => from + k)
  }

  /** Lines `from` up to `stop` of `src`, copied in order. */
  function Drain(src: Source, from: nat, stop: nat): seq<Pick>
    requires from <= stop
  {
    seq(stop - from, k requires 0 <= k < stop - from => Pick(src, from + k))
  }

  function Emit(p: Pick, r: Run): Run {
    Run([p] + r.trace, r.panicked)
  }

  function Extend(t: seq<Pick>, r: Run): Run {
    Run(t + r.trace, r.panicked)
  }

  predicate StampedRange(file: seq<Entry>, from: nat, stop: nat)
    requires from <= stop <= |file|
  {
    forall k :: from <= k < stop ==> Stamped(file[k])
  }

  /** A refill of `file` at line `end` ends the interleaving without a panic. */
  predicate StopsAt(file: seq<Entry>, end: nat)
    requires end <= |file|
  {
    end == |file| || Unstamped(file[end])
  }

  /** Line `k` exists and has no token: reading it panics. */
  predicate BlankAt(file: seq<Entry>, k: nat) {
    k < |file| && file[k].view.Panicked?
  }

  /** Every pick of `t` lies at or after line `i` of stdin or `j` of syslog. */
  predicate Within(stdin: seq<Entry>, syslog: seq<Entry>, i: nat, j: nat, t: seq<Pick>) {
    forall k :: 0 <= k < |t| ==>
      (t[k].src == Stdin ==> i <= t[k].index < |stdin|) && (t[k].src == Syslog ==> j <= t[k].index < |syslog|)
  }

  /** How a merge from stdin line `i` and syslog line `j` ends once it has
      written stdin lines `i` to `a` and syslog lines `j` to `b`.  Without a
      panic, one log stopped (its lines written are all stamped and the next
      one is missing or unstamped) and the other was copied to its end.  With
      a panic, every line written is stamped and the line that would have come
      next in one of the logs is blank. */
  predicate Ends(stdin: seq<Entry>, syslog: seq<Entry>, i: nat, j: nat, a: nat, b: nat, panicked: bool)
    requires i <= a <= |stdin| && j <= b <= |syslog|
  {
    if panicked then
      && StampedRange(stdin, i, a) && StampedRange(syslog, j, b)
      && (BlankAt(stdin, a) || BlankAt(syslog, b))
    else
      || (b == |syslog| && StampedRange(stdin, i, a) && StopsAt(stdin, a))
      || (a == |stdin| && StampedRange(syslog, j, b) && StopsAt(syslog, b))
  }

  /** The shape of every merge from stdin line `i` and syslog line `j` on:
      each log contributes a run of consecutive lines starting at `i`
      (resp. `j`), each once and in file order, and the merge `Ends` as
      described above. */
  predicate Shaped(stdin: seq<Entry>, syslog: seq<Entry>, i: nat, j: nat, r: Run)
    requires i <= |stdin| && j <= |syslog|
  {
    var n, m := |Indices(r.trace, Stdin)|, |Indices(r.trace, Syslog)|;
    && Within(stdin, syslog, i, j, r.trace)
    && Indices(r.trace, Stdin) == Range(i, n)
    && Indices(r.trace, Syslog) == Range(j, m)
    && i + n <= |stdin| && j + m <= |syslog|
    && |r.trace| == n + m
    && Ends(stdin, syslog, i, j, i + n, j + m, r.panicked)
  }

  // ---------------------------------------------------------------------------
  // Functional specification

  /** Both pending lines (stdin line `i`, syslog line `j`) are stamped: write
      the syslog line if it is strictly earlier, the stdin line otherwise, and
      refill the log just written. */
  function Interleave(stdin: seq<Entry>, syslog: seq<Entry>, i: nat, j: nat): (r: Run)
    requires i < |stdin| && j < |syslog| && Stamped(stdin[i]) && Stamped(syslog[j])
    decreases |stdin| - i + |syslog| - j, 0
  {
    if TimeOf(syslog[j]) < TimeOf(stdin[i]) then
      Emit(Pick(Syslog, j), RefillSyslog(stdin, syslog, i, j + 1))
    else
      Emit(Pick(Stdin, i), RefillStdin(stdin, syslog, i + 1, j))
  }

  /** Stdin's pending line was just written; read stdin line `i` while syslog
      line `j` waits.  A stamped line continues the interleaving, a blank one
      panics, and anything else ends it and copies syslog from line `j` on. */
  function RefillStdin(stdin: seq<Entry>, syslog: seq<Entry>, i: nat, j: nat): (r: Run)
    requires i <= |stdin| && j < |syslog| && Stamped(syslog[j])
    decreases |stdin| - i + |syslog| - j, 1
  {
    var next := ViewAt(stdin, i);
    ReadOutcome(stdin, i);
    if next.Split? then Interleave(stdin, syslog, i, j)
    else if next.Panicked? then Run([], true)
    else Run(Drain(Syslog, j, |syslog|), false)
  }

  /** Syslog's pending line was just written; read syslog line `j` while stdin
      line `i` waits. */
  function RefillSyslog(stdin: seq<Entry>, syslog: seq<Entry>, i: nat, j: nat): (r: Run)
    requires i < |stdin| && j <= |syslog| && Stamped(stdin[i])
    decreases |stdin| - i + |syslog| - j, 1
  {
    var next := ViewAt(syslog, j);
    ReadOutcome(syslog, j);
    if next.Split? then Interleave(stdin, syslog, i, j)
    else if next.Panicked? then Run([], true)
    else Run(Drain(Stdin, i, |stdin|), false)
  }

  /** The rest of the merge when log `src` is refilled next, after
      `readStdin` reads of stdin and `readSyslog` reads of syslog: the other
      log's last read is the pending stamped line. */
  function Refill(stdin: seq<Entry>, syslog: seq<Entry>, src: Source, readStdin: nat, readSyslog: nat): Run
    requires src == Stdin ==> readStdin <= |stdin| && 0 < readSyslog <= |syslog| && Stamped(syslog[readSyslog - 1])
    requires src == Syslog ==> 0 < readStdin <= |stdin| && readSyslog <= |syslog| && Stamped(stdin[readStdin - 1])
  {
    if src == Stdin then RefillStdin(stdin, syslog, readStdin, readSyslog - 1)
    else RefillSyslog(stdin, syslog, readStdin - 1, readSyslog)
  }

  /** The whole merge: the first pass of the loop reads both logs (stdin
      first), and only then checks whether either read ended the
      interleaving; if stdin's did, syslog is copied whole. */
  function MergeRun(stdin: seq<Entry>, syslog: seq<Entry>): Run {
    var first, second := ViewAt(stdin, 0), ViewAt(syslog, 0);
    ReadOutcome(stdin, 0);
    ReadOutcome(syslog, 0);
    if first.Panicked? || second.Panicked? then Run([], true)
    else if first.Failed? then Run(Drain(Syslog, 0, |syslog|), false)
    else if second.Failed? then Run(Drain(Stdin, 0, |stdin|), false)
    else
      Interleave(stdin, syslog, 0, 0)
  }

  /** The merged file: the lines written, and whether the merge finished. */
  function MergeOf(stdin: seq<Entry>, syslog: seq<Entry>): (o: Outcome)
    ensures |o.lines| <= |stdin| + |syslog|
  {
    var r := MergeRun(stdin, syslog);
    MergeShaped(stdin, syslog);
    WithinFits(stdin, syslog, 0, 0, r.trace);
    if r.panicked then Aborted(LinesOf(stdin, syslog, r.trace))
    else Complete(LinesOf(stdin, syslog, r.trace))
  }

  /** The merge of two logs given as their lines. */
  function MergeFiles(stdin: seq<string>, syslog: seq<string>): (o: Outcome)
    ensures |o.lines| <= |stdin| + |syslog|
  {
    MergeOf(Entries(stdin), Entries(syslog))
  }

  // ---------------------------------------------------------------------------
  // The loop of `merge_logs`

  /** The state of the interleaving loop when it breaks: which log ended, and
      the pending read of each log with the number of reads made so far. */
  datatype Pending = Pending(endStdin: bool, lineStdin: Read, readStdin: nat, lineSyslog: Read, readSyslog: nat)

  /** `merge_logs` on the two logs, each line delivered together with what
      `get_line_split` makes of it: the interleaving loop, then the copy of
      the log that did not end.  Every line written is pushed to `out` as
      `get_line` returns it (`writeln!` adds the newline); `panicked` tells
      whether a blank line aborted the merge. */
  method MergeLogs(stdin: seq<Entry>, syslog: seq<Entry>) returns (out: seq<string>, panicked: bool)
    ensures (if panicked then Aborted(out) else Complete(out)) == MergeOf(stdin, syslog)
  {
    ghost var trace: seq<Pick>;
    var state;
    out, panicked, state, trace := Interleaving(stdin, syslog);
    MergeShaped(stdin, syslog);
    WithinFits(stdin, syslog, 0, 0, MergeRun(stdin, syslog).trace);
    if panicked {
      return;
    }
    if state.endStdin {
      var rest := DrainLog(syslog, state.lineSyslog, state.readSyslog);
      DrainLines(stdin, syslog, trace, Syslog, state.readSyslog - 1);
      out := out + rest;
    } else {
      var rest := DrainLog(stdin, state.lineStdin, state.readStdin);
      DrainLines(stdin, syslog, trace, Stdin, state.readStdin - 1);
      out := out + rest;
    }
  }

  /** The interleaving loop: refill the logs whose `next_*` flag is set, stop
      once a refill yields no stamped line, and otherwise write the earlier
      pending line (stdin on a tie).  Returns at the `break` or at a panic,
      together with the picks written.  Without a panic, the rest of the merge
      is the copy of the log that did not end, from its pending read on. */
  method Interleaving(stdin: seq<Entry>, syslog: seq<Entry>)
    returns (out: seq<string>, panicked: bool, state: Pending, ghost trace: seq<Pick>)
    ensures Fits(stdin, syslog, trace) && out == LinesOf(stdin, syslog, trace)
    ensures panicked <==> MergeRun(stdin, syslog).panicked
    ensures panicked ==> MergeRun(stdin, syslog) == Run(trace, true)
    ensures !panicked && state.endStdin ==>
      && 1 <= state.readSyslog <= |syslog| + 1 && state.lineSyslog == ReadAt(syslog, state.readSyslog - 1)
      && MergeRun(stdin, syslog) == Extend(trace, Run(Drain(Syslog, state.readSyslog - 1, |syslog|), false))
    ensures !panicked && !state.endStdin ==>
      && 1 <= state.readStdin <= |stdin| + 1 && state.lineStdin == ReadAt(stdin, state.readStdin - 1)
      && MergeRun(stdin, syslog) == Extend(trace, Run(Drain(Stdin, state.readStdin - 1, |stdin|), false))
  {
    var lineStdin, lineSyslog := Eof, Eof;
    // The initial dates (`UNIXTIME`) are replaced by the first reads before
    // any comparison, so their value does not matter.
    var stdinDate, syslogDate := 0, 0;
    var readStdin, readSyslog := 0, 0;
    var endStdin, endSyslog := false, false;
    var nextStdin, nextSyslog := true, true;
    state := Pending(false, Eof, 0, Eof, 0);
    trace := [];
    out, panicked := [], false;

    while true
      invariant readStdin <= |stdin| + 1 && readSyslog <= |syslog| + 1
      invariant !endStdin && !endSyslog
      invariant nextStdin || nextSyslog
      invariant Fits(stdin, syslog, trace) && out == LinesOf(stdin, syslog, trace)
      invariant nextStdin && nextSyslog ==> readStdin == 0 && readSyslog == 0 && trace == []
      invariant nextStdin ==> readStdin <= |stdin|
      invariant nextSyslog ==> readSyslog <= |syslog|
      invariant !nextStdin ==> PendingAt(stdin, lineStdin, readStdin, stdinDate)
      invariant !nextSyslog ==> PendingAt(syslog, lineSyslog, readSyslog, syslogDate)
      invariant nextStdin != nextSyslog ==>
        MergeRun(stdin, syslog) == Extend(trace, Refill(stdin, syslog, if nextSyslog then Syslog else Stdin, readStdin, readSyslog))
      decreases |stdin| + 1 - readStdin + |syslog| + 1 - readSyslog
    {
      if nextStdin {
        var view;
        lineStdin, view := ReadStdin(stdin, syslog, readStdin, readSyslog, nextSyslog, trace);
        readStdin := readStdin + 1;
        match view
        case Split(date, _) =>
          stdinDate := Instant(date);
          nextStdin := false;
        case Failed(_) =>
          endStdin := true;
        case Panicked =>
          panicked := true;
          return;
      }
      if nextSyslog {
        var view;
        lineSyslog, view := ReadSyslog(stdin, syslog, readStdin, readSyslog, endStdin, trace);
        readSyslog := readSyslog + 1;
        match view
        case Split(date, _) =>
          syslogDate := Instant(date);
          nextSyslog := false;
        case Failed(_) =>
          endSyslog := true;
        case Panicked =>
          panicked := true;
          return;
      }
      if endStdin || endSyslog {
        state := Pending(endStdin, lineStdin, readStdin, lineSyslog, readSyslog);
        break;
      }
      out, nextSyslog, trace := WriteEarlier(stdin, syslog, readStdin, readSyslog,
        lineStdin, stdinDate, lineSyslog, syslogDate, out, trace);
      nextStdin := !nextSyslog;
    }
  }

  /** A refill of stdin in the interleaving loop: its `read`-th read and
      what `get_line_split` makes of it, together with how the merge goes on.
      On the first pass (`first`) syslog has not been read yet; on any later
      pass syslog's line `readSyslog - 1` is pending. */
  method ReadStdin(stdin: seq<Entry>, syslog: seq<Entry>, read: nat, readSyslog: nat, ghost first: bool, ghost trace: seq<Pick>)
    returns (line: Read, view: Split)
    requires read <= |stdin|
    requires first ==> read == 0 && readSyslog == 0 && trace == []
    requires !first ==>
      && 0 < readSyslog <= |syslog| && Stamped(syslog[readSyslog - 1])
      && MergeRun(stdin, syslog) == Extend(trace, Refill(stdin, syslog, Stdin, read, readSyslog))
    ensures line == ReadAt(stdin, read) && view == ViewAt(stdin, read)
    ensures view.Panicked? ==> MergeRun(stdin, syslog) == Run(trace, true)
    ensures view.Split? ==> PendingAt(stdin, line, read + 1, Instant(view.date))
    ensures view.Split? && first ==>
      MergeRun(stdin, syslog) == Extend(trace, Refill(stdin, syslog, Syslog, read + 1, readSyslog))
    ensures view.Split? && !first ==>
      MergeRun(stdin, syslog) == Extend(trace, Interleave(stdin, syslog, read, readSyslog - 1))
    ensures view.Failed? && first ==>
      MergeRun(stdin, syslog) == if ViewAt(syslog, 0).Panicked? then Run([], true) else Run(Drain(Syslog, 0, |syslog|), false)
    ensures view.Failed? && !first ==>
      MergeRun(stdin, syslog) == Extend(trace, Run(Drain(Syslog, readSyslog - 1, |syslog|), false))
  {
    line, view := ReadAt(stdin, read), ViewAt(stdin, read);
    ReadOutcome(stdin, read);
    if first {
      MergeStart(stdin, syslog);
      if view.Split? {
        assert [] + RefillSyslog(stdin, syslog, 0, 0).trace == RefillSyslog(stdin, syslog, 0, 0).trace;
      }
    } else {
      RefillStdinStep(stdin, syslog, read, readSyslog - 1);
    }
    assert trace + [] == trace;
  }

  /** A refill of syslog in the interleaving loop.  After stdin ended on the
      first pass (`endStdin`) only a panic matters: otherwise syslog is copied
      whole.  Otherwise stdin's line `readStdin - 1` is pending. */
  method ReadSyslog(stdin: seq<Entry>, syslog: seq<Entry>, readStdin: nat, read: nat, ghost endStdin: bool, ghost trace: seq<Pick>)
    returns (line: Read, view: Split)
    requires read <= |syslog|
    requires endStdin ==>
      && read == 0 && trace == []
      && MergeRun(stdin, syslog) == if ViewAt(syslog, 0).Panicked? then Run([], true) else Run(Drain(Syslog, 0, |syslog|), false)
    requires !endStdin ==>
      && 0 < readStdin <= |stdin| && Stamped(stdin[readStdin - 1])
      && MergeRun(stdin, syslog) == Extend(trace, Refill(stdin, syslog, Syslog, readStdin, read))
    ensures line == ReadAt(syslog, read) && view == ViewAt(syslog, read)
    ensures view.Panicked? ==> MergeRun(stdin, syslog) == Run(trace, true)
    ensures view.Split? ==> PendingAt(syslog, line, read + 1, Instant(view.date))
    ensures !view.Panicked? && endStdin ==>
      MergeRun(stdin, syslog) == Extend(trace, Run(Drain(Syslog, read, |syslog|), false))
    ensures view.Split? && !endStdin ==>
      MergeRun(stdin, syslog) == Extend(trace, Interleave(stdin, syslog, readStdin - 1, read))
    ensures view.Failed? && !endStdin ==>
      MergeRun(stdin, syslog) == Extend(trace, Run(Drain(Stdin, readStdin - 1, |stdin|), false))
  {
    line, view := ReadAt(syslog, read), ViewAt(syslog, read);
    ReadOutcome(syslog, read);
    if endStdin {
      assert [] + Drain(Syslog, 0, |syslog|) == Drain(Syslog, 0, |syslog|);
    } else {
      RefillSyslogStep(stdin, syslog, readStdin - 1, read);
    }
    assert trace + [] == trace;
  }

  /** One write of the interleaving loop: `get_line` of the earlier of the
      two pending lines, stdin's on a tie; the other one stays pending. */
  method WriteEarlier(stdin: seq<Entry>, syslog: seq<Entry>, readStdin: nat, readSyslog: nat,
                      lineStdin: Read, stdinDate: int, lineSyslog: Read, syslogDate: int,
                      out: seq<string>, ghost trace: seq<Pick>)
    returns (written: seq<string>, fromSyslog: bool, ghost after: seq<Pick>)
    requires PendingAt(stdin, lineStdin, readStdin, stdinDate) && PendingAt(syslog, lineSyslog, readSyslog, syslogDate)
    requires Fits(stdin, syslog, trace) && out == LinesOf(stdin, syslog, trace)
    requires MergeRun(stdin, syslog) == Extend(trace, Interleave(stdin, syslog, readStdin - 1, readSyslog - 1))
    ensures fromSyslog <==> syslogDate < stdinDate
    ensures Fits(stdin, syslog, after) && written == LinesOf(stdin, syslog, after)
    ensures MergeRun(stdin, syslog) == Extend(after, Refill(stdin, syslog, if fromSyslog then Syslog else Stdin, readStdin, readSyslog))
  {
    var i, j := readStdin - 1, readSyslog - 1;
    InterleaveStep(stdin, syslog, i, j);
    fromSyslog := syslogDate < stdinDate;
    if fromSyslog {
      written := out + [GetLine(lineSyslog).value];
      AppendPick(stdin, syslog, trace, Pick(Syslog, j), RefillSyslog(stdin, syslog, i, j + 1));
      after := trace + [Pick(Syslog, j)];
    } else {
      written := out + [GetLine(lineStdin).value];
      AppendPick(stdin, syslog, trace, Pick(Stdin, i), RefillStdin(stdin, syslog, i + 1, j));
      after := trace + [Pick(Stdin, i)];
    }
  }

  /** The read made by the `read`-th call of `next()` is a stamped line, held
      pending with its instant. */
  ghost predicate PendingAt(es: seq<Entry>, line: Read, read: nat, date: int) {
    && 0 < read <= |es| && line == Line(es[read - 1].text)
    && Stamped(es[read - 1]) && date == TimeOf(es[read - 1])
  }

  /** A copy loop after the interleaving: write `get_line` of the pending
      read and read on until a read is not a line. */
  method DrainLog(file: seq<Entry>, pending: Read, read: nat) returns (lines: seq<string>)
    requires 1 <= read <= |file| + 1 && pending == ReadAt(file, read - 1)
    ensures lines == Texts(file)[read - 1..]
  {
    var line, count := pending, read;
    lines := [];
    while true
      invariant 1 <= count <= |file| + 1 && line == ReadAt(file, count - 1)
      invariant lines == Texts(file)[read - 1..count - 1]
      decreases |file| + 1 - count
    {
      match GetLine(line) {
        case Ok(text) =>
          lines := lines + [text];
        case Err(_) =>
          break;
      }
      line := ReadAt(file, count);
      count := count + 1;
    }
  }

  // ---------------------------------------------------------------------------
  // The shape of every merge

  /** Every merge is `Shaped`: it writes runs of consecutive lines of both
      logs in file order, and ends by a stop and a copy, or by a panic at a
      blank line. */
  lemma MergeShaped(stdin: seq<Entry>, syslog: seq<Entry>)
    ensures Shaped(stdin, syslog, 0, 0, MergeRun(stdin, syslog))
  {
    ReadOutcome(stdin, 0);
    ReadOutcome(syslog, 0);
    var first, second := ViewAt(stdin, 0), ViewAt(syslog, 0);
    if first.Panicked? || second.Panicked? {
      PanicShaped(stdin, syslog, 0, 0);
    } else if first.Failed? {
      DrainSyslogShaped(stdin, syslog, 0, 0);
    } else if second.Failed? {
      DrainStdinShaped(stdin, syslog, 0, 0);
    } else {
      InterleaveShaped(stdin, syslog, 0, 0);
    }
  }

  lemma {:induction false} InterleaveShaped(stdin: seq<Entry>, syslog: seq<Entry>, i: nat, j: nat)
    requires i < |stdin| && j < |syslog| && Stamped(stdin[i]) && Stamped(syslog[j])
    ensures Shaped(stdin, syslog, i, j, Interleave(stdin, syslog, i, j))
    decreases |stdin| - i + |syslog| - j, 0
  {
    if TimeOf(syslog[j]) < TimeOf(stdin[i]) {
      RefillSyslogShaped(stdin, syslog, i, j + 1);
      EmitSyslogShaped(stdin, syslog, i, j, RefillSyslog(stdin, syslog, i, j + 1));
    } else {
      RefillStdinShaped(stdin, syslog, i + 1, j);
      EmitStdinShaped(stdin, syslog, i, j, RefillStdin(stdin, syslog, i + 1, j));
    }
  }

  lemma {:induction false} RefillStdinShaped(stdin: seq<Entry>, syslog: seq<Entry>, i: nat, j: nat)
    requires i <= |stdin| && j < |syslog| && Stamped(syslog[j])
    ensures Shaped(stdin, syslog, i, j, RefillStdin(stdin, syslog, i, j))
    decreases |stdin| - i + |syslog| - j, 1
  {
    ReadOutcome(stdin, i);
    var next := ViewAt(stdin, i);
    if next.Split? {
      InterleaveShaped(stdin, syslog, i, j);
    } else if next.Panicked? {
      PanicShaped(stdin, syslog, i, j);
    } else {
      DrainSyslogShaped(stdin, syslog, i, j);
    }
  }

  lemma {:induction false} RefillSyslogShaped(stdin: seq<Entry>, syslog: seq<Entry>, i: nat, j: nat)
    requires i < |stdin| && j <= |syslog| && Stamped(stdin[i])
    ensures Shaped(stdin, syslog, i, j, RefillSyslog(stdin, syslog, i, j))
    decreases |stdin| - i + |syslog| - j, 1
  {
    ReadOutcome(syslog, j);
    var next := ViewAt(syslog, j);
    if next.Split? {
      InterleaveShaped(stdin, syslog, i, j);
    } else if next.Panicked? {
      PanicShaped(stdin, syslog, i, j);
    } else {
      DrainStdinShaped(stdin, syslog, i, j);
    }
  }

  // ---------------------------------------------------------------------------
  // Helper lemmas

  /** The first pass of the loop, by what stdin's first read gives. */
  lemma MergeStart(stdin: seq<Entry>, syslog: seq<Entry>)
    ensures ViewAt(stdin, 0).Panicked? ==> MergeRun(stdin, syslog) == Run([], true)
    ensures ViewAt(stdin, 0).Split? ==>
      0 < |stdin| && Stamped(stdin[0]) && MergeRun(stdin, syslog) == RefillSyslog(stdin, syslog, 0, 0)
    ensures ViewAt(stdin, 0).Failed? ==>
      MergeRun(stdin, syslog) == if ViewAt(syslog, 0).Panicked? then Run([], true) else Run(Drain(Syslog, 0, |syslog|), false)
  {
  }

  lemma RefillStdinStep(stdin: seq<Entry>, syslog: seq<Entry>, i: nat, j: nat)
    requires i <= |stdin| && j < |syslog| && Stamped(syslog[j])
    ensures ViewAt(stdin, i).Split? ==>
      i < |stdin| && Stamped(stdin[i]) && RefillStdin(stdin, syslog, i, j) == Interleave(stdin, syslog, i, j)
    ensures ViewAt(stdin, i).Panicked? ==> RefillStdin(stdin, syslog, i, j) == Run([], true)
    ensures ViewAt(stdin, i).Failed? ==> RefillStdin(stdin, syslog, i, j) == Run(Drain(Syslog, j, |syslog|), false)
  {
  }

  lemma RefillSyslogStep(stdin: seq<Entry>, syslog: seq<Entry>, i: nat, j: nat)
    requires i < |stdin| && j <= |syslog| && Stamped(stdin[i])
    ensures ViewAt(syslog, j).Split? ==>
      j < |syslog| && Stamped(syslog[j]) && RefillSyslog(stdin, syslog, i, j) == Interleave(stdin, syslog, i, j)
    ensures ViewAt(syslog, j).Panicked? ==> RefillSyslog(stdin, syslog, i, j) == Run([], true)
    ensures ViewAt(syslog, j).Failed? ==> RefillSyslog(stdin, syslog, i, j) == Run(Drain(Stdin, i, |stdin|), false)
  {
  }

  lemma InterleaveStep(stdin: seq<Entry>, syslog: seq<Entry>, i: nat, j: nat)
    requires i < |stdin| && j < |syslog| && Stamped(stdin[i]) && Stamped(syslog[j])
    ensures TimeOf(syslog[j]) < TimeOf(stdin[i]) ==>
      Interleave(stdin, syslog, i, j) == Emit(Pick(Syslog, j), RefillSyslog(stdin, syslog, i, j + 1))
    ensures TimeOf(syslog[j]) >= TimeOf(stdin[i]) ==>
      Interleave(stdin, syslog, i, j) == Emit(Pick(Stdin, i), RefillStdin(stdin, syslog, i + 1, j))
  {
  }

  lemma WithinFits(stdin: seq<Entry>, syslog: seq<Entry>, i: nat, j: nat, t: seq<Pick>)
    requires Within(stdin, syslog, i, j, t)
    ensures Fits(stdin, syslog, t)
  {
  }

  /** The copy of a log from line `k` on writes exactly its lines from `k`. */
  lemma DrainLines(stdin: seq<Entry>, syslog: seq<Entry>, t: seq<Pick>, src: Source, k: nat)
    requires Fits(stdin, syslog, t) && k <= |FileOf(stdin, syslog, src)|
    ensures Fits(stdin, syslog, t + Drain(src, k, |FileOf(stdin, syslog, src)|))
    ensures LinesOf(stdin, syslog, t + Drain(src, k, |FileOf(stdin, syslog, src)|))
         == LinesOf(stdin, syslog, t) + Texts(FileOf(stdin, syslog, src))[k..]
  {
  }

  /** What a refill at line `k` tells about that line. */
  lemma ReadOutcome(file: seq<Entry>, k: nat)
    ensures ViewAt(file, k).Split? ==> k < |file| && Stamped(file[k])
    ensures ViewAt(file, k).Panicked? ==> BlankAt(file, k)
    ensures ViewAt(file, k).Failed? ==> k >= |file| || Unstamped(file[k])
  {
  }

  lemma PanicShaped(stdin: seq<Entry>, syslog: seq<Entry>, i: nat, j: nat)
    requires i <= |stdin| && j <= |syslog| && (BlankAt(stdin, i) || BlankAt(syslog, j))
    ensures Shaped(stdin, syslog, i, j, Run([], true))
  {
    assert Range(i, 0) == [] && Range(j, 0) == [];
  }

  lemma IndicesCons(p: Pick, t: seq<Pick>, src: Source)
    ensures Indices([p] + t, src) == (if p.src == src then [p.index] else []) + Indices(t, src)
  {
    assert ([p] + t)[1..] == t;
  }

  lemma {:induction false} IndicesOfDrain(src: Source, from: nat, stop: nat, other: Source)
    requires from <= stop && other != src
    ensures Indices(Drain(src, from, stop), src) == Range(from, stop - from)
    ensures Indices(Drain(src, from, stop), other) == []
    decreases stop - from
  {
    if from < stop {
      assert Drain(src, from, stop) == [Pick(src, from)] + Drain(src, from + 1, stop);
      IndicesCons(Pick(src, from), Drain(src, from + 1, stop), src);
      IndicesCons(Pick(src, from), Drain(src, from + 1, stop), other);
      IndicesOfDrain(src, from + 1, stop, other);
      assert Range(from, stop - from) == [from] + Range(from + 1, stop - from - 1);
    }
  }

  /** One more stamped line in front keeps the same ending. */
  lemma EndsAfterStdin(stdin: seq<Entry>, syslog: seq<Entry>, i: nat, j: nat, a: nat, b: nat, panicked: bool)
    requires i < a <= |stdin| && j <= b <= |syslog| && Stamped(stdin[i])
    requires Ends(stdin, syslog, i + 1, j, a, b, panicked)
    ensures Ends(stdin, syslog, i, j, a, b, panicked)
  {
    assert StampedRange(stdin, i + 1, a) ==> StampedRange(stdin, i, a);
  }

  lemma EndsAfterSyslog(stdin: seq<Entry>, syslog: seq<Entry>, i: nat, j: nat, a: nat, b: nat, panicked: bool)
    requires i <= a <= |stdin| && j < b <= |syslog| && Stamped(syslog[j])
    requires Ends(stdin, syslog, i, j + 1, a, b, panicked)
    ensures Ends(stdin, syslog, i, j, a, b, panicked)
  {
    assert StampedRange(syslog, j + 1, b) ==> StampedRange(syslog, j, b);
  }

  /** Putting a pick in front of a trace keeps every pick within bounds. */
  lemma WithinCons(stdin: seq<Entry>, syslog: seq<Entry>, i: nat, j: nat, p: Pick, t: seq<Pick>)
    requires Within(stdin, syslog, i, j, [p])
    requires Within(stdin, syslog, i, j, t)
    ensures Within(stdin, syslog, i, j, [p] + t)
  {
    var r := [p] + t;
    forall k | 0 <= k < |r|
      ensures (r[k].src == Stdin ==> i <= r[k].index < |stdin|) && (r[k].src == Syslog ==> j <= r[k].index < |syslog|)
    {
      if k > 0 { assert r[k] == t[k - 1]; } else { assert r[k] == [p][0]; }
    }
  }

  lemma WithinWeaken(stdin: seq<Entry>, syslog: seq<Entry>, i: nat, j: nat, i': nat, j': nat, t: seq<Pick>)
    requires i' <= i && j' <= j && Within(stdin, syslog, i, j, t)
    ensures Within(stdin, syslog, i', j', t)
  {
  }

  lemma EmitStdinShaped(stdin: seq<Entry>, syslog: seq<Entry>, i: nat, j: nat, rest: Run)
    requires i < |stdin| && j <= |syslog| && Stamped(stdin[i])
    requires Shaped(stdin, syslog, i + 1, j, rest)
    ensures Shaped(stdin, syslog, i, j, Emit(Pick(Stdin, i), rest))
  {
    var n, m := |Indices(rest.trace, Stdin)|, |Indices(rest.trace, Syslog)|;
    IndicesCons(Pick(Stdin, i), rest.trace, Stdin);
    IndicesCons(Pick(Stdin, i), rest.trace, Syslog);
    assert Range(i, n + 1) == [i] + Range(i + 1, n);
    WithinWeaken(stdin, syslog, i + 1, j, i, j, rest.trace);
    WithinCons(stdin, syslog, i, j, Pick(Stdin, i), rest.trace);
    EndsAfterStdin(stdin, syslog, i, j, i + 1 + n, j + m, rest.panicked);
  }

  lemma EmitSyslogShaped(stdin: seq<Entry>, syslog: seq<Entry>, i: nat, j: nat, rest: Run)
    requires i <= |stdin| && j < |syslog| && Stamped(syslog[j])
    requires Shaped(stdin, syslog, i, j + 1, rest)
    ensures Shaped(stdin, syslog, i, j, Emit(Pick(Syslog, j), rest))
  {
    var n, m := |Indices(rest.trace, Stdin)|, |Indices(rest.trace, Syslog)|;
    IndicesCons(Pick(Syslog, j), rest.trace, Stdin);
    IndicesCons(Pick(Syslog, j), rest.trace, Syslog);
    assert Range(j, m + 1) == [j] + Range(j + 1, m);
    WithinWeaken(stdin, syslog, i, j + 1, i, j, rest.trace);
    WithinCons(stdin, syslog, i, j, Pick(Syslog, j), rest.trace);
    EndsAfterSyslog(stdin, syslog, i, j, i + n, j + 1 + m, rest.panicked);
  }

  lemma DrainSyslogShaped(stdin: seq<Entry>, syslog: seq<Entry>, i: nat, j: nat)
    requires i <= |stdin| && j <= |syslog| && StopsAt(stdin, i)
    ensures Shaped(stdin, syslog, i, j, Run(Drain(Syslog, j, |syslog|), false))
  {
    IndicesOfDrain(Syslog, j, |syslog|, Stdin);
  }

  lemma DrainStdinShaped(stdin: seq<Entry>, syslog: seq<Entry>, i: nat, j: nat)
    requires i <= |stdin| && j <= |syslog| && StopsAt(syslog, j)
    ensures Shaped(stdin, syslog, i, j, Run(Drain(Stdin, i, |stdin|), false))
  {
    IndicesOfDrain(Stdin, i, |stdin|, Syslog);
  }

  /** Writing one more line extends the trace and the output together. */
  lemma AppendPick(stdin: seq<Entry>, syslog: seq<Entry>, t: seq<Pick>, p: Pick, rest: Run)
    requires Fits(stdin, syslog, t) && p.index < |FileOf(stdin, syslog, p.src)|
    ensures Fits(stdin, syslog, t + [p])
    ensures LinesOf(stdin, syslog, t + [p]) == LinesOf(stdin, syslog, t) + [FileOf(stdin, syslog, p.src)[p.index].text]
    ensures Extend(t, Emit(p, rest)) == Extend(t + [p], rest)
  {
    assert t + ([p] + rest.trace) == (t + [p]) + rest.trace;
  }

}
