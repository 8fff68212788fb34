/** The per-line decisions of the two capture loops, as sequence transforms.

    The stdin capture writes every received line behind the local time it was
    received at.  The syslog capture reads each kernel line with
    `get_line_split`, drops it when its date does not parse, keeps it when
    the capture is `full` or its date is not before the capture started, and
    writes a kept line as `<date in TIME_FORMAT> <message>`.  A blank kernel
    line makes `get_line_split` panic, which ends the capture thread with
    what it has written so far. */
module Capture {
  import opened Timestamp
  import opened Lines
  import opened Files

  // ---------------------------------------------------------------------------
  // Stdin

  /** A line received on stdin, with the local time `Local::now()` gave when
      it was received. */
  datatype Arrival = Arrival(line: string, at: Stamp)

  /** The record `collect_stdin` writes for a received line. */
  function StdinRecord(a: Arrival): (record: string)
    ensures |record| == 32 + |a.line| && record[31] == ' ' && record[32..] == a.line
  {
    Format(a.at) + " " + a.line
  }

  /** One record per received line, in arrival order; each holds the line
      unchanged after its 31-character stamp and a space. */
  function CaptureStdin(arrivals: seq<Arrival>): (records: seq<string>)
    ensures |records| == |arrivals|
    ensures forall k :: 0 <= k < |records| ==>
      |records[k]| == 32 + |arrivals[k].line| && records[k][31] == ' ' && records[k][32..] == arrivals[k].line
  {
    seq(|arrivals|, k requires 0 <= k < |arrivals| => StdinRecord(arrivals[k]))
  }

  /** Reading a stdin record back gives the arrival time and the line's
      words, single-spaced. */
  lemma StdinRecordReadsBack(a: Arrival)
    ensures GetLineSplit(Line(StdinRecord(a))) == Split(a.at, Join(Tokens(a.line)))
  {
    SplitStampedRecord(a.at, a.line);
  }

  /** A stdin record survives a write and a read exactly when its line
      does. */
  lemma StdinRecordPlain(a: Arrival)
    ensures Plain(StdinRecord(a)) <==> Plain(a.line)
  {
    var f, r := Format(a.at), StdinRecord(a);
    assert r == f + " " + a.line;
    forall k | 0 <= k < |f| ensures f[k] != '\n' && r[k] == f[k] {
      StampCharacters(a.at, k);
    }
    assert '\n' in a.line ==> '\n' in r by {
      if '\n' in a.line {
        var k :| 0 <= k < |a.line| && a.line[k] == '\n';
        assert r[|f| + 1 + k] == '\n';
      }
    }
    assert '\n' in r ==> '\n' in a.line by {
      if '\n' in r {
        var k :| 0 <= k < |r| && r[k] == '\n';
        assert k > |f| && a.line[k - |f| - 1] == '\n';
      }
    }
    if a.line != [] {
      assert r[|r| - 1] == a.line[|a.line| - 1];
    }
  }

  // ---------------------------------------------------------------------------
  // Syslog

  /** The capture's filter: every line when `full`, otherwise the lines whose
      date is not before the start of the capture.  `start` is in nanoseconds
      since the epoch, the precision of the start time; dates carry
      microseconds. */
  predicate Keep(date: DateTime, start: int, full: bool) {
    full || Instant(date) * 1000 >= start
  }

  /** The record `collect_syslog` writes for a kept line. */
  function SyslogRecord(date: DateTime, msg: string): (record: string)
    requires Valid(date)
    ensures |record| == 32 + |msg| && record[31] == ' ' && record[32..] == msg
  {
    Format(date) + " " + msg
  }

  /** Every date among the readings is one the fixed layout can print, as
      every date `get_line_split` returns is. */
  predicate ValidDates(es: seq<Entry>) {
    forall k :: 0 <= k < |es| && es[k].view.Split? ==> Valid(es[k].view.date)
  }

  /** What the syslog capture leaves in its file after the given kernel
      lines (each with its reading), and whether a blank line ended it. */
  function Collect(es: seq<Entry>, start: int, full: bool): (r: Outcome)
    requires ValidDates(es)
    ensures r.Complete? <==> forall k :: 0 <= k < |es| ==> !es[k].view.Panicked?
    ensures |r.lines| <= |es|
    decreases |es|
  {
    if es == [] then Complete([])
    else
      var prev := Collect(es[..|es| - 1], start, full);
      if prev.Aborted? then prev
      else
        match es[|es| - 1].view
        case Panicked => Aborted(prev.lines)
        case Failed(_) => prev
        case Split(date, msg) =>
          if Keep(date, start, full) then Complete(prev.lines + [SyslogRecord(date, msg)]) else prev
  }

  /** The syslog capture run over the kernel's lines. */
  function CaptureSyslog(lines: seq<string>, start: int, full: bool): (r: Outcome)
    ensures r.Complete? <==> forall k :: 0 <= k < |lines| ==> !Blank(lines[k])
    ensures |r.lines| <= |lines|
  {
    var es := Entries(lines);
    assert forall k :: 0 <= k < |lines| ==> (es[k].view.Panicked? <==> Blank(lines[k]));
    Collect(es, start, full)
  }

  /** How `get_line_split` reads each line of a file. */
  function Readings(lines: seq<string>): (rs: seq<Split>)
    ensures |rs| == |lines|
  {
    seq(|lines|, k requires 0 <= k < |lines| => GetLineSplit(Line(lines[k])))
  }

  /** Where the first blank line is, or the length when there is none. */
  function FirstBlank(es: seq<Entry>): (n: nat)
    ensures n <= |es|
    ensures n < |es| ==> es[n].view.Panicked?
    ensures forall k :: 0 <= k < n ==> !es[k].view.Panicked?
  {
    if es == [] then 0
    else if es[0].view.Panicked? then 0
    else 1 + FirstBlank(es[1..])
  }

  /** The readings that carry a date the filter accepts, in order. */
  function Filter(es: seq<Entry>, start: int, full: bool): seq<Split> {
    if es == [] then []
    else
      var v := es[|es| - 1].view;
      Filter(es[..|es| - 1], start, full) + if v.Split? && Keep(v.date, start, full) then [v] else []
  }

  /** The readings of the kernel lines the filter accepts, in order, up to the
      first blank line. */
  function Accepted(es: seq<Entry>, start: int, full: bool): seq<Split> {
    Filter(es[..FirstBlank(es)], start, full)
  }

  /** The text `Collect` writes: one record per accepted reading, in order,
      each the reading's date in the fixed layout, a space and its message. */
  lemma {:induction false} CollectWritesRecords(es: seq<Entry>, start: int, full: bool)
    requires ValidDates(es)
    ensures var lines, acc := Collect(es, start, full).lines, Accepted(es, start, full);
      && |lines| == |acc|
      && forall k :: 0 <= k < |lines| ==>
           acc[k].Split? && Valid(acc[k].date) && lines[k] == SyslogRecord(acc[k].date, acc[k].msg)
    decreases |es|
  {
    if es != [] {
      var init, e := es[..|es| - 1], es[|es| - 1];
      assert es == init + [e];
      CollectAppend(init, e, start, full);
      AcceptedAppend(init, e, start, full);
      CollectWritesRecords(init, start, full);
    }
  }

  /** Every message among the readings is single-spaced, as every message
      `get_line_split` returns is. */
  predicate SingleSpacedMessages(es: seq<Entry>) {
    forall k :: 0 <= k < |es| && es[k].view.Split? ==> SingleSpaced(es[k].view.msg)
  }

  /** Reading back what `Collect` wrote gives exactly the readings the
      filter accepted, in order. */
  lemma {:induction false} CollectReadsBack(es: seq<Entry>, start: int, full: bool)
    requires ValidDates(es) && SingleSpacedMessages(es)
    ensures Readings(Collect(es, start, full).lines) == Accepted(es, start, full)
    decreases |es|
  {
    if es != [] {
      var init, e := es[..|es| - 1], es[|es| - 1];
      ReadablePrefix(es);
      CollectReadsBack(init, start, full);
      assert es == init + [e];
      AcceptedAppend(init, e, start, full);
      CollectAppend(init, e, start, full);
      var v := e.view;
      if Collect(init, start, full).Complete? && v.Split? && Keep(v.date, start, full) {
        AppendReadsBack(Collect(init, start, full).lines, e);
      }
    }
  }

  lemma ReadablePrefix(es: seq<Entry>)
    requires es != [] && ValidDates(es) && SingleSpacedMessages(es)
    ensures ValidDates(es[..|es| - 1]) && SingleSpacedMessages(es[..|es| - 1])
  {
    var init := es[..|es| - 1];
    forall k | 0 <= k < |init| ensures init[k] == es[k] { }
  }

  /** One more kernel line: nothing changes after a blank line, a blank line
      ends the capture, and otherwise the line's record is appended when its
      date is kept. */
  lemma CollectAppend(init: seq<Entry>, e: Entry, start: int, full: bool)
    requires ValidDates(init + [e])
    requires e.view.Split? ==> Valid(e.view.date)
    ensures ValidDates(init)
    ensures var prev, v := Collect(init, start, full), e.view;
      Collect(init + [e], start, full) ==
        if prev.Aborted? then prev
        else if v.Panicked? then Aborted(prev.lines)
        else if v.Split? && Keep(v.date, start, full) then Complete(prev.lines + [SyslogRecord(v.date, v.msg)])
        else prev
    ensures Collect(init, start, full).Complete? <==> FirstBlank(init) == |init|
  {
    var es := init + [e];
    assert es[..|es| - 1] == init;
    forall k | 0 <= k < |init| ensures init[k] == es[k] { }
  }

  /** One more kernel line: the accepted readings grow by that line's reading
      exactly when no blank line came before, the line is not blank and its
      date is kept. */
  lemma AcceptedAppend(init: seq<Entry>, e: Entry, start: int, full: bool)
    ensures var v := e.view;
      Accepted(init + [e], start, full) ==
        if FirstBlank(init) < |init| || v.Panicked? then Accepted(init, start, full)
        else Accepted(init, start, full) + if v.Split? && Keep(v.date, start, full) then [v] else []
  {
    var es := init + [e];
    var fb := FirstBlank(init);
    FirstBlankAppend(init, e);
    if fb < |init| {
      assert es[..fb] == init[..fb];
    } else if e.view.Panicked? {
      assert es[..fb] == init[..fb] == init;
    } else {
      assert es[..FirstBlank(es)] == es && init[..fb] == init;
      FilterAppend(init, e, start, full);
    }
  }

  lemma FilterAppend(init: seq<Entry>, e: Entry, start: int, full: bool)
    ensures var v := e.view;
      Filter(init + [e], start, full) ==
        Filter(init, start, full) + if v.Split? && Keep(v.date, start, full) then [v] else []
  {
    var es := init + [e];
    assert es[..|es| - 1] == init;
  }

  /** Appending the record of a stamped entry appends its reading. */
  lemma AppendReadsBack(records: seq<string>, e: Entry)
    requires e.view.Split? && Valid(e.view.date) && SingleSpaced(e.view.msg)
    ensures Readings(records + [SyslogRecord(e.view.date, e.view.msg)]) == Readings(records) + [e.view]
  {
    SplitRecordRoundTrip(e.view.date, e.view.msg);
    ReadingsAppend(records, SyslogRecord(e.view.date, e.view.msg));
  }

  /** Reading back the syslog file gives exactly the dates and messages of
      the kernel lines the filter accepted, in arrival order: nothing
      unparseable, nothing filtered out, nothing reordered, nothing after a
      blank line. */
  lemma SyslogCaptureReadsBack(lines: seq<string>, start: int, full: bool)
    ensures Readings(CaptureSyslog(lines, start, full).lines) == Accepted(Entries(lines), start, full)
  {
    EntriesReadable(lines);
    CollectReadsBack(Entries(lines), start, full);
  }

  /** Every record of the syslog file is stamped with a date the filter
      accepts. */
  lemma SyslogRecordsStamped(lines: seq<string>, start: int, full: bool, k: nat)
    requires k < |CaptureSyslog(lines, start, full).lines|
    ensures var s := GetLineSplit(Line(CaptureSyslog(lines, start, full).lines[k]));
      s.Split? && Keep(s.date, start, full)
  {
    SyslogCaptureReadsBack(lines, start, full);
    var es := Entries(lines);
    FilterStamped(es[..FirstBlank(es)], start, full);
    assert Readings(CaptureSyslog(lines, start, full).lines)[k] == Accepted(es, start, full)[k];
  }

  /** A full capture of kernel lines that all carry a date keeps every one
      of them, and its file reads back as the kernel lines do. */
  lemma FullCaptureKeepsAll(lines: seq<string>, start: int)
    requires forall k :: 0 <= k < |lines| ==> GetLineSplit(Line(lines[k])).Split?
    ensures CaptureSyslog(lines, start, true).Complete?
    ensures Readings(CaptureSyslog(lines, start, true).lines) == Readings(lines)
  {
    var es := Entries(lines);
    AllStamped(lines);
    SyslogCaptureReadsBack(lines, start, true);
    FilterAll(es, start);
    ViewsAreReadings(lines);
  }

  lemma AllStamped(lines: seq<string>)
    requires forall k :: 0 <= k < |lines| ==> GetLineSplit(Line(lines[k])).Split?
    ensures forall k :: 0 <= k < |lines| ==> !Blank(lines[k])
    ensures forall k :: 0 <= k < |lines| ==> Entries(lines)[k].view.Split?
    ensures FirstBlank(Entries(lines)) == |lines|
    ensures Entries(lines)[..FirstBlank(Entries(lines))] == Entries(lines)
  {
    var es := Entries(lines);
    assert forall k :: 0 <= k < |es| ==> es[k].view.Split?;
  }

  lemma ViewsAreReadings(lines: seq<string>)
    ensures var es := Entries(lines);
      seq(|es|, k requires 0 <= k < |es| => es[k].view) == Readings(lines)
  {
  }

  /** A syslog record always survives a write and a read. */
  lemma SyslogRecordPlain(date: DateTime, msg: string)
    requires Valid(date) && SingleSpaced(msg)
    ensures Plain(SyslogRecord(date, msg))
  {
    var f, r := Format(date), SyslogRecord(date, msg);
    assert r == f + " " + msg;
    forall k | 0 <= k < |f| ensures f[k] != '\n' && r[k] == f[k] {
      StampCharacters(date, k);
    }
    forall k | |f| < k < |r| ensures r[k] != '\n' {
      assert r[k] == msg[k - |f| - 1];
    }
    if msg != [] {
      assert r[|r| - 1] == msg[|msg| - 1];
      assert !IsSpace(msg[|msg| - 1]);
    }
  }

  /** Every record `Collect` writes survives a write and a read. */
  lemma {:induction false} CollectPlain(es: seq<Entry>, start: int, full: bool)
    requires ValidDates(es) && SingleSpacedMessages(es)
    ensures forall k :: 0 <= k < |Collect(es, start, full).lines| ==> Plain(Collect(es, start, full).lines[k])
    decreases |es|
  {
    if es != [] {
      var n := |es| - 1;
      var init := es[..n];
      assert ValidDates(init) && SingleSpacedMessages(init) by {
        forall k | 0 <= k < n ensures init[k] == es[k] { }
      }
      CollectPlain(init, start, full);
      var v := es[n].view;
      if v.Split? {
        SyslogRecordPlain(v.date, v.msg);
      }
    }
  }

  /** The syslog file reads back exactly as it was written. */
  lemma SyslogFileReadsBack(lines: seq<string>, start: int, full: bool)
    ensures ReadLines(Render(CaptureSyslog(lines, start, full).lines)) == CaptureSyslog(lines, start, full).lines
  {
    EntriesReadable(lines);
    CollectPlain(Entries(lines), start, full);
    ReadRendered(CaptureSyslog(lines, start, full).lines);
  }

  /** The stdin file reads back exactly as it was written when no received
      line ends in `\r`. */
  lemma StdinFileReadsBack(arrivals: seq<Arrival>)
    requires forall k :: 0 <= k < |arrivals| ==> Plain(arrivals[k].line)
    ensures ReadLines(Render(CaptureStdin(arrivals))) == CaptureStdin(arrivals)
  {
    var records := CaptureStdin(arrivals);
    forall k | 0 <= k < |records| ensures Plain(records[k]) {
      StdinRecordPlain(arrivals[k]);
    }
    ReadRendered(records);
  }

  // ---------------------------------------------------------------------------
  // Helpers

  lemma EntriesReadable(lines: seq<string>)
    ensures ValidDates(Entries(lines)) && SingleSpacedMessages(Entries(lines))
  {
    var es := Entries(lines);
    forall k | 0 <= k < |es| && es[k].view.Split? ensures SingleSpaced(es[k].view.msg) {
      SplitMessageIsSingleSpaced(Line(lines[k]));
    }
  }

  lemma ReadingsAppend(ls: seq<string>, l: string)
    ensures Readings(ls + [l]) == Readings(ls) + [GetLineSplit(Line(l))]
  {
    var xs := ls + [l];
    var a, b := Readings(xs), Readings(ls) + [GetLineSplit(Line(l))];
    forall k | 0 <= k < |xs| ensures a[k] == b[k] {
      if k < |ls| {
        assert xs[k] == ls[k];
      } else {
        assert xs[k] == l;
      }
    }
  }

  lemma {:induction false} FirstBlankAppend(es: seq<Entry>, e: Entry)
    ensures FirstBlank(es) < |es| ==> FirstBlank(es + [e]) == FirstBlank(es)
    ensures FirstBlank(es) == |es| && e.view.Panicked? ==> FirstBlank(es + [e]) == |es|
    ensures FirstBlank(es) == |es| && !e.view.Panicked? ==> FirstBlank(es + [e]) == |es| + 1
  {
    if es != [] {
      assert (es + [e])[1..] == es[1..] + [e];
      FirstBlankAppend(es[1..], e);
    }
  }

  lemma {:induction false} FilterStamped(es: seq<Entry>, start: int, full: bool)
    ensures forall k :: 0 <= k < |Filter(es, start, full)| ==>
      Filter(es, start, full)[k].Split? && Keep(Filter(es, start, full)[k].date, start, full)
    decreases |es|
  {
    if es != [] {
      FilterStamped(es[..|es| - 1], start, full);
    }
  }

  lemma {:induction false} FilterAll(es: seq<Entry>, start: int)
    requires forall k :: 0 <= k < |es| ==> es[k].view.Split?
    ensures Filter(es, start, true) == seq(|es|, k requires 0 <= k < |es| => es[k].view)
    decreases |es|
  {
    if es != [] {
      FilterAll(es[..|es| - 1], start);
    }
  }
}
