/** The two captures feeding the merge: what `dmerg` writes to the output
    when it merges the files its own capture threads wrote. */
module Pipeline {
  import opened Timestamp
  import opened Lines
  import opened Merge
  import opened MergeProperties
  import opened Capture
  import opened Files

  /** Every stdin record is stamped with the time its line arrived. */
  lemma StdinRecordsStamped(arrivals: seq<Arrival>, k: nat)
    requires k < |arrivals|
    ensures StampedLine(CaptureStdin(arrivals)[k])
    ensures LineTime(CaptureStdin(arrivals)[k]) == Instant(arrivals[k].at)
  {
    StdinRecordReadsBack(arrivals[k]);
  }

  /** Every record of the syslog file reads as stamped. */
  lemma SyslogRecordsAreStamped(kernel: seq<string>, start: int, full: bool)
    ensures var b := CaptureSyslog(kernel, start, full).lines;
      forall k :: 0 <= k < |b| ==> StampedLine(b[k])
  {
    var b := CaptureSyslog(kernel, start, full).lines;
    forall k | 0 <= k < |b| ensures StampedLine(b[k]) {
      SyslogRecordsStamped(kernel, start, full, k);
    }
  }

  /** Lines that are all stamped, in non-decreasing order of their instants. */
  predicate InOrder(lines: seq<string>) {
    && (forall k :: 0 <= k < |lines| ==> StampedLine(lines[k]))
    && ChronologicalLines(lines)
  }

  /** Lines received in non-decreasing order of local time. */
  predicate ArrivedInOrder(arrivals: seq<Arrival>) {
    forall k, l :: 0 <= k < l < |arrivals| ==> Instant(arrivals[k].at) <= Instant(arrivals[l].at)
  }

  /** The kernel lines the syslog capture accepts come in non-decreasing
      order of their dates. */
  predicate KernelInOrder(kernel: seq<string>, start: int, full: bool) {
    var acc := Accepted(Entries(kernel), start, full);
    forall k, l :: 0 <= k < l < |acc| && acc[k].Split? && acc[l].Split? ==>
      Instant(acc[k].date) <= Instant(acc[l].date)
  }

  /** A stdin capture is in order exactly when the lines arrived in order. */
  lemma StdinCaptureInOrder(arrivals: seq<Arrival>)
    ensures InOrder(CaptureStdin(arrivals)) <==> ArrivedInOrder(arrivals)
  {
    var a := CaptureStdin(arrivals);
    forall k | 0 <= k < |a| ensures StampedLine(a[k]) && LineTime(a[k]) == Instant(arrivals[k].at) {
      StdinRecordsStamped(arrivals, k);
    }
  }

  /** The syslog file is in order when the accepted kernel lines are. */
  lemma SyslogCaptureInOrder(kernel: seq<string>, start: int, full: bool)
    requires KernelInOrder(kernel, start, full)
    ensures InOrder(CaptureSyslog(kernel, start, full).lines)
  {
    var b := CaptureSyslog(kernel, start, full).lines;
    var acc := Accepted(Entries(kernel), start, full);
    SyslogCaptureReadsBack(kernel, start, full);
    SyslogRecordsAreStamped(kernel, start, full);
    forall k | 0 <= k < |b| ensures LineTime(b[k]) == Instant(acc[k].date) && acc[k].Split? {
      assert Readings(b)[k] == acc[k];
    }
  }

  /** Merging a stdin capture with an empty kernel log writes the capture
      unchanged. */
  lemma MergeStdinAlone(arrivals: seq<Arrival>)
    ensures MergeFiles(CaptureStdin(arrivals), []) == Complete(CaptureStdin(arrivals))
  {
    var a := CaptureStdin(arrivals);
    forall k | 0 <= k < |a| ensures StampedLine(a[k]) {
      StdinRecordsStamped(arrivals, k);
    }
    EntriesStamped(a);
    EntriesStamped([]);
    MergeOfStamped(Entries(a), Entries([]));
    TextsOfEntries(a);
  }

  /** Merging an empty stdin log with a syslog capture writes the syslog
      file unchanged. */
  lemma MergeSyslogAlone(kernel: seq<string>, start: int, full: bool)
    ensures var b := CaptureSyslog(kernel, start, full).lines;
      MergeFiles([], b) == Complete(b)
  {
    var b := CaptureSyslog(kernel, start, full).lines;
    SyslogRecordsAreStamped(kernel, start, full);
    EntriesStamped(b);
    EntriesStamped([]);
    MergeOfStamped(Entries([]), Entries(b));
    TextsOfEntries(b);
  }

  /** Merging the two capture files loses nothing and panics never: the
      output is a rearrangement of both files' records, and it is in order
      when the lines arrived in order and the accepted kernel lines are in
      order. */
  lemma MergeCaptures(arrivals: seq<Arrival>, kernel: seq<string>, start: int, full: bool)
    ensures var a, b := CaptureStdin(arrivals), CaptureSyslog(kernel, start, full).lines;
      && MergeFiles(a, b).Complete?
      && multiset(MergeFiles(a, b).lines) == multiset(a) + multiset(b)
    ensures ArrivedInOrder(arrivals) && KernelInOrder(kernel, start, full) ==>
      InOrder(MergeFiles(CaptureStdin(arrivals), CaptureSyslog(kernel, start, full).lines).lines)
  {
    var a, b := CaptureStdin(arrivals), CaptureSyslog(kernel, start, full).lines;
    forall k | 0 <= k < |a| ensures StampedLine(a[k]) {
      StdinRecordsStamped(arrivals, k);
    }
    SyslogRecordsAreStamped(kernel, start, full);
    MergeOfStampedLines(a, b);
    if ArrivedInOrder(arrivals) && KernelInOrder(kernel, start, full) {
      StdinCaptureInOrder(arrivals);
      SyslogCaptureInOrder(kernel, start, full);
    }
  }

  /** What is left in the output file: the two capture files, read back
      and merged, each merged line written followed by `\n`.  There is none
      when a blank kernel line panicked the syslog capture thread: joining it
      with `unwrap` then panics the program before the merge starts. */
  function OutputFile(arrivals: seq<Arrival>, kernel: seq<string>, start: int, full: bool): (r: Option<string>)
    ensures r.Some? <==> forall k :: 0 <= k < |kernel| ==> !Blank(kernel[k])
  {
    var capture := CaptureSyslog(kernel, start, full);
    if capture.Aborted? then None
    else
      var stdinFile := Render(CaptureStdin(arrivals));
      var syslogFile := Render(capture.lines);
      Some(Render(MergeFiles(ReadLines(stdinFile), ReadLines(syslogFile)).lines))
  }

  /** From capture to output file: an output exists exactly when the syslog
      capture ran to its end, and reading it back gives every record of both
      captures once, in order when the lines arrived in order and the
      accepted kernel lines are in order. */
  lemma CaptureToOutput(arrivals: seq<Arrival>, kernel: seq<string>, start: int, full: bool)
    requires forall k :: 0 <= k < |arrivals| ==> Plain(arrivals[k].line)
    ensures OutputFile(arrivals, kernel, start, full).Some? <==> CaptureSyslog(kernel, start, full).Complete?
    ensures var a, b := CaptureStdin(arrivals), CaptureSyslog(kernel, start, full).lines;
      OutputFile(arrivals, kernel, start, full).Some? ==>
      multiset(ReadLines(OutputFile(arrivals, kernel, start, full).value)) == multiset(a) + multiset(b)
    ensures OutputFile(arrivals, kernel, start, full).Some? && ArrivedInOrder(arrivals) && KernelInOrder(kernel, start, full) ==>
      InOrder(ReadLines(OutputFile(arrivals, kernel, start, full).value))
  {
    if CaptureSyslog(kernel, start, full).Complete? {
      MergedFilesReadBack(arrivals, kernel, start, full);
    }
  }

  /** The merge of the two capture files as read back, written out and read
      back once more. */
  lemma MergedFilesReadBack(arrivals: seq<Arrival>, kernel: seq<string>, start: int, full: bool)
    requires forall k :: 0 <= k < |arrivals| ==> Plain(arrivals[k].line)
    ensures var a, b := CaptureStdin(arrivals), CaptureSyslog(kernel, start, full).lines;
      var out := ReadLines(Render(MergeFiles(ReadLines(Render(a)), ReadLines(Render(b))).lines));
      && multiset(out) == multiset(a) + multiset(b)
      && (ArrivedInOrder(arrivals) && KernelInOrder(kernel, start, full) ==> InOrder(out))
  {
    var a, b := CaptureStdin(arrivals), CaptureSyslog(kernel, start, full).lines;
    StdinFileReadsBack(arrivals);
    SyslogFileReadsBack(kernel, start, full);
    MergeCaptures(arrivals, kernel, start, full);
    var out := MergeFiles(a, b).lines;
    StdinRecordsPlain(arrivals);
    SyslogRecordsPlain(kernel, start, full);
    PlainRearranged(out, a, b);
    ReadRendered(out);
  }

  lemma StdinRecordsPlain(arrivals: seq<Arrival>)
    requires forall k :: 0 <= k < |arrivals| ==> Plain(arrivals[k].line)
    ensures forall k :: 0 <= k < |arrivals| ==> Plain(CaptureStdin(arrivals)[k])
  {
    forall k | 0 <= k < |arrivals| ensures Plain(CaptureStdin(arrivals)[k]) {
      StdinRecordPlain(arrivals[k]);
    }
  }

  lemma SyslogRecordsPlain(kernel: seq<string>, start: int, full: bool)
    ensures var b := CaptureSyslog(kernel, start, full).lines;
      forall k :: 0 <= k < |b| ==> Plain(b[k])
  {
    EntriesReadable(kernel);
    CollectPlain(Entries(kernel), start, full);
  }

  /** A rearrangement of plain lines is plain. */
  lemma PlainRearranged(out: seq<string>, a: seq<string>, b: seq<string>)
    requires multiset(out) == multiset(a) + multiset(b)
    requires forall k :: 0 <= k < |a| ==> Plain(a[k])
    requires forall k :: 0 <= k < |b| ==> Plain(b[k])
    ensures forall k :: 0 <= k < |out| ==> Plain(out[k])
  {
    forall k | 0 <= k < |out| ensures Plain(out[k]) {
      var x := out[k];
      assert x in multiset(out);
      if x in multiset(a) {
        var i :| 0 <= i < |a| && a[i] == x;
      } else {
        assert x in multiset(b);
        var i :| 0 <= i < |b| && b[i] == x;
      }
    }
  }
}
