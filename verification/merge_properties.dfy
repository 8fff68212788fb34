/** What `merge_logs` guarantees about its output.

    When every line of both logs carries a date, the merge is the textbook
    stable merge `Merged` (stdin first on equal instants): its output is a
    permutation of the two logs, and it is chronological whenever both logs
    are.  When a refill fails, the stopped log loses the failing line and
    everything after it, while the other log is copied to its end. */
module MergeProperties {
  import opened Timestamp
  import opened Lines
  import opened Merge

  /** Every line of the log carries a date. */
  predicate AllStamped(es: seq<Entry>) {
    forall k :: 0 <= k < |es| ==> Stamped(es[k])
  }

  /** Non-decreasing by instant. */
  predicate Chronological(es: seq<Entry>)
    requires AllStamped(es)
  {
    forall k, l :: 0 <= k < l < |es| ==> TimeOf(es[k]) <= TimeOf(es[l])
  }

  /** The reference two-way merge of two stamped logs: repeatedly take the
      head of `b` if it is strictly earlier than the head of `a`, and the
      head of `a` otherwise. */
  function Merged(a: seq<Entry>, b: seq<Entry>): seq<Entry>
    requires AllStamped(a) && AllStamped(b)
    decreases |a| + |b|
  {
    if a == [] then b
    else if b == [] then a
    else if TimeOf(b[0]) < TimeOf(a[0]) then [b[0]] + Merged(a, b[1..])
    else [a[0]] + Merged(a[1..], b)
  }

  // ---------------------------------------------------------------------------
  // The merge of stamped logs is the reference merge

  /** With every line stamped, no panic happens, no line is lost, and the
      lines come out exactly as the reference merge orders them. */
  lemma MergeOfStamped(stdin: seq<Entry>, syslog: seq<Entry>)
    requires AllStamped(stdin) && AllStamped(syslog)
    ensures MergeOf(stdin, syslog) == Complete(Texts(Merged(stdin, syslog)))
  {
    var r := MergeRun(stdin, syslog);
    MergeShaped(stdin, syslog);
    WithinFits(stdin, syslog, 0, 0, r.trace);
    assert stdin[0..] == stdin && syslog[0..] == syslog;
    if stdin == [] {
      LinesOfDrain(stdin, syslog, Syslog, 0);
    } else if syslog == [] {
      LinesOfDrain(stdin, syslog, Stdin, 0);
    } else {
      InterleaveMerged(stdin, syslog, 0, 0);
    }
  }

  lemma {:induction false} InterleaveMerged(stdin: seq<Entry>, syslog: seq<Entry>, i: nat, j: nat)
    requires AllStamped(stdin) && AllStamped(syslog)
    requires i < |stdin| && j < |syslog|
    ensures !Interleave(stdin, syslog, i, j).panicked
    ensures Fits(stdin, syslog, Interleave(stdin, syslog, i, j).trace)
    ensures LinesOf(stdin, syslog, Interleave(stdin, syslog, i, j).trace) == Texts(Merged(stdin[i..], syslog[j..]))
    decreases |stdin| - i + |syslog| - j, 0
  {
    var a, b := stdin[i..], syslog[j..];
    assert a[0] == stdin[i] && b[0] == syslog[j];
    if TimeOf(syslog[j]) < TimeOf(stdin[i]) {
      var rest := RefillSyslog(stdin, syslog, i, j + 1);
      RefillSyslogMerged(stdin, syslog, i, j + 1);
      LinesOfCons(stdin, syslog, Pick(Syslog, j), rest.trace);
      assert b[1..] == syslog[j + 1..];
      TextsCons(syslog[j], Merged(a, b[1..]));
    } else {
      var rest := RefillStdin(stdin, syslog, i + 1, j);
      RefillStdinMerged(stdin, syslog, i + 1, j);
      LinesOfCons(stdin, syslog, Pick(Stdin, i), rest.trace);
      assert a[1..] == stdin[i + 1..];
      TextsCons(stdin[i], Merged(a[1..], b));
    }
  }

  lemma {:induction false} RefillStdinMerged(stdin: seq<Entry>, syslog: seq<Entry>, i: nat, j: nat)
    requires AllStamped(stdin) && AllStamped(syslog)
    requires i <= |stdin| && j < |syslog|
    ensures !RefillStdin(stdin, syslog, i, j).panicked
    ensures Fits(stdin, syslog, RefillStdin(stdin, syslog, i, j).trace)
    ensures LinesOf(stdin, syslog, RefillStdin(stdin, syslog, i, j).trace) == Texts(Merged(stdin[i..], syslog[j..]))
    decreases |stdin| - i + |syslog| - j, 1
  {
    if i == |stdin| {
      assert stdin[i..] == [];
      LinesOfDrain(stdin, syslog, Syslog, j);
    } else {
      InterleaveMerged(stdin, syslog, i, j);
    }
  }

  lemma {:induction false} RefillSyslogMerged(stdin: seq<Entry>, syslog: seq<Entry>, i: nat, j: nat)
    requires AllStamped(stdin) && AllStamped(syslog)
    requires i < |stdin| && j <= |syslog|
    ensures !RefillSyslog(stdin, syslog, i, j).panicked
    ensures Fits(stdin, syslog, RefillSyslog(stdin, syslog, i, j).trace)
    ensures LinesOf(stdin, syslog, RefillSyslog(stdin, syslog, i, j).trace) == Texts(Merged(stdin[i..], syslog[j..]))
    decreases |stdin| - i + |syslog| - j, 1
  {
    if j == |syslog| {
      assert syslog[j..] == [];
      LinesOfDrain(stdin, syslog, Stdin, i);
    } else {
      InterleaveMerged(stdin, syslog, i, j);
    }
  }

  // ---------------------------------------------------------------------------
  // Properties of the reference merge

  /** Nothing is lost and nothing is duplicated. */
  lemma {:induction false} MergedPermutes(a: seq<Entry>, b: seq<Entry>)
    requires AllStamped(a) && AllStamped(b)
    ensures multiset(Merged(a, b)) == multiset(a) + multiset(b)
    decreases |a| + |b|
  {
    if a != [] && b != [] {
      MergedCons(a, b);
      if TimeOf(b[0]) < TimeOf(a[0]) {
        MergedPermutes(a, b[1..]);
        HeadTail(b);
        HeadTail([b[0]] + Merged(a, b[1..]));
      } else {
        MergedPermutes(a[1..], b);
        HeadTail(a);
        HeadTail([a[0]] + Merged(a[1..], b));
      }
    }
  }

  /** One step of the reference merge of two non-empty logs. */
  lemma MergedCons(a: seq<Entry>, b: seq<Entry>)
    requires AllStamped(a) && AllStamped(b) && a != [] && b != []
    ensures AllStamped(a[1..]) && AllStamped(b[1..])
    ensures TimeOf(b[0]) < TimeOf(a[0]) ==> Merged(a, b) == [b[0]] + Merged(a, b[1..])
    ensures TimeOf(b[0]) >= TimeOf(a[0]) ==> Merged(a, b) == [a[0]] + Merged(a[1..], b)
  {
  }

  lemma HeadTail<T>(s: seq<T>)
    requires s != []
    ensures multiset(s) == multiset{s[0]} + multiset(s[1..])
  {
    assert s == [s[0]] + s[1..];
  }

  /** Two chronological logs merge into a chronological log. */
  lemma {:induction false} MergedChronological(a: seq<Entry>, b: seq<Entry>)
    requires AllStamped(a) && AllStamped(b) && Chronological(a) && Chronological(b)
    ensures AllStamped(Merged(a, b)) && Chronological(Merged(a, b))
    decreases |a| + |b|
  {
    if a != [] && b != [] {
      var m := Merged(a, b);
      MergedPermutes(a, b);
      if TimeOf(b[0]) < TimeOf(a[0]) {
        var rest := Merged(a, b[1..]);
        MergedChronological(a, b[1..]);
        MergedPermutes(a, b[1..]);
        forall x | x in rest ensures TimeOf(b[0]) <= TimeOf(x) {
          assert x in multiset(rest);
          LowerBound(a, b, x);
        }
        PrependChronological(b[0], rest);
      } else {
        var rest := Merged(a[1..], b);
        MergedChronological(a[1..], b);
        MergedPermutes(a[1..], b);
        forall x | x in rest ensures TimeOf(a[0]) <= TimeOf(x) {
          assert x in multiset(rest);
          LowerBound(b, a, x);
        }
        PrependChronological(a[0], rest);
      }
    }
  }

  /** An element of the rest of the merge is no earlier than the head just
      taken (`a` and `b` in either role). */
  lemma LowerBound(a: seq<Entry>, b: seq<Entry>, x: Entry)
    requires AllStamped(a) && AllStamped(b) && Chronological(a) && Chronological(b)
    requires a != [] && b != [] && TimeOf(b[0]) <= TimeOf(a[0])
    requires x in multiset(a) + multiset(b[1..])
    ensures Stamped(x) && TimeOf(b[0]) <= TimeOf(x)
  {
    if x in a {
      var k :| 0 <= k < |a| && a[k] == x;
      assert k == 0 || TimeOf(a[0]) <= TimeOf(a[k]);
    } else {
      assert x in b[1..];
      var k :| 0 <= k < |b[1..]| && b[1..][k] == x;
      assert b[1..][k] == b[k + 1];
    }
  }

  lemma PrependChronological(x: Entry, rest: seq<Entry>)
    requires Stamped(x) && AllStamped(rest) && Chronological(rest)
    requires forall y | y in rest :: TimeOf(x) <= TimeOf(y)
    ensures AllStamped([x] + rest) && Chronological([x] + rest)
  {
    var s := [x] + rest;
    forall k, l | 0 <= k < l < |s| ensures TimeOf(s[k]) <= TimeOf(s[l]) {
      assert s[l] == rest[l - 1];
      if k > 0 {
        assert s[k] == rest[k - 1];
      } else {
        assert rest[l - 1] in rest;
      }
    }
  }

  // ---------------------------------------------------------------------------
  // Tie-break

  /** The first line written, when both logs start with a stamped line, is
      syslog's only if it is strictly earlier than stdin's; on equal instants
      stdin's line goes first. */
  lemma FirstLineTieBreak(stdin: seq<Entry>, syslog: seq<Entry>)
    requires 0 < |stdin| && 0 < |syslog| && Stamped(stdin[0]) && Stamped(syslog[0])
    ensures |MergeOf(stdin, syslog).lines| > 0
    ensures TimeOf(syslog[0]) < TimeOf(stdin[0]) ==> MergeOf(stdin, syslog).lines[0] == syslog[0].text
    ensures TimeOf(syslog[0]) >= TimeOf(stdin[0]) ==> MergeOf(stdin, syslog).lines[0] == stdin[0].text
  {
    var r := MergeRun(stdin, syslog);
    MergeShaped(stdin, syslog);
    WithinFits(stdin, syslog, 0, 0, r.trace);
    assert r == Interleave(stdin, syslog, 0, 0);
    InterleaveStep(stdin, syslog, 0, 0);
    assert r.trace[0] == (if TimeOf(syslog[0]) < TimeOf(stdin[0]) then Pick(Syslog, 0) else Pick(Stdin, 0));
  }

  // ---------------------------------------------------------------------------
  // Stop and drain at the first read

  /** When stdin's first read yields no stamped line (empty log or bad date)
      and syslog's first line is not blank, syslog is copied whole and stdin
      contributes nothing. */
  lemma StdinEndsFirst(stdin: seq<Entry>, syslog: seq<Entry>)
    requires ViewAt(stdin, 0).Failed? && !BlankAt(syslog, 0)
    ensures MergeOf(stdin, syslog) == Complete(Texts(syslog))
  {
    var r := MergeRun(stdin, syslog);
    MergeShaped(stdin, syslog);
    WithinFits(stdin, syslog, 0, 0, r.trace);
    LinesOfDrain(stdin, syslog, Syslog, 0);
    assert syslog[0..] == syslog;
  }

  /** When stdin starts with a stamped line and syslog's first read yields
      none, stdin is copied whole, unstamped lines included. */
  lemma SyslogEndsFirst(stdin: seq<Entry>, syslog: seq<Entry>)
    requires 0 < |stdin| && Stamped(stdin[0]) && ViewAt(syslog, 0).Failed?
    ensures MergeOf(stdin, syslog) == Complete(Texts(stdin))
  {
    var r := MergeRun(stdin, syslog);
    MergeShaped(stdin, syslog);
    WithinFits(stdin, syslog, 0, 0, r.trace);
    LinesOfDrain(stdin, syslog, Stdin, 0);
    assert stdin[0..] == stdin;
  }

  /** A blank first line in either log aborts the merge before anything is
      written. */
  lemma BlankFirstLineAborts(stdin: seq<Entry>, syslog: seq<Entry>)
    requires BlankAt(stdin, 0) || BlankAt(syslog, 0)
    ensures MergeOf(stdin, syslog) == Aborted([])
  {
    MergeShaped(stdin, syslog);
  }

  /** The first unstamped stdin line, line `u`, and every stdin line after
      it are never written unless syslog stops first, in which case stdin is
      copied to its end.  Without a panic and without an earlier syslog stop,
      the merge writes exactly stdin lines `0` to `u - 1` and all of syslog. */
  lemma UnstampedLineStopsStdin(stdin: seq<Entry>, syslog: seq<Entry>, u: nat)
    requires u < |stdin| && Unstamped(stdin[u]) && StampedRange(stdin, 0, u)
    ensures var r := MergeRun(stdin, syslog);
      var n, m := |Indices(r.trace, Stdin)|, |Indices(r.trace, Syslog)|;
      && Indices(r.trace, Stdin) == Range(0, n)
      && Indices(r.trace, Syslog) == Range(0, m)
      && n <= |stdin| && m <= |syslog|
      && ((n <= u && (!r.panicked ==> n == u && m == |syslog|))
          || (!r.panicked && n == |stdin| && StampedRange(syslog, 0, m) && StopsAt(syslog, m)))
  {
    var r := MergeRun(stdin, syslog);
    MergeShaped(stdin, syslog);
    var n := |Indices(r.trace, Stdin)|;
    if n > u {
      assert !StampedRange(stdin, 0, n) by {
        assert !Stamped(stdin[u]);
      }
    } else if n < u {
      assert Stamped(stdin[n]);
    }
  }

  // ---------------------------------------------------------------------------
  // The same, for logs given as lines

  /** A line whose first token reads as a date. */
  predicate StampedLine(line: string) {
    GetLineSplit(Line(line)).Split?
  }

  /** The instant of a stamped line. */
  function LineTime(line: string): int
    requires StampedLine(line)
  {
    Instant(GetLineSplit(Line(line)).date)
  }

  predicate ChronologicalLines(lines: seq<string>)
    requires forall k :: 0 <= k < |lines| ==> StampedLine(lines[k])
  {
    forall k, l :: 0 <= k < l < |lines| ==> LineTime(lines[k]) <= LineTime(lines[l])
  }

  /** Two logs whose every line is stamped merge without loss or panic into
      a rearrangement of their lines, and two chronological logs into a
      chronological one. */
  lemma MergeOfStampedLines(stdin: seq<string>, syslog: seq<string>)
    requires forall k :: 0 <= k < |stdin| ==> StampedLine(stdin[k])
    requires forall k :: 0 <= k < |syslog| ==> StampedLine(syslog[k])
    ensures MergeFiles(stdin, syslog).Complete?
    ensures multiset(MergeFiles(stdin, syslog).lines) == multiset(stdin) + multiset(syslog)
    ensures ChronologicalLines(stdin) && ChronologicalLines(syslog) ==>
      && (forall k :: 0 <= k < |MergeFiles(stdin, syslog).lines| ==> StampedLine(MergeFiles(stdin, syslog).lines[k]))
      && ChronologicalLines(MergeFiles(stdin, syslog).lines)
  {
    var es, ys := Entries(stdin), Entries(syslog);
    EntriesStamped(stdin);
    EntriesStamped(syslog);
    MergeOfStamped(es, ys);
    var m := Merged(es, ys);
    MergedTexts(es, ys);
    TextsOfEntries(stdin);
    TextsOfEntries(syslog);
    if ChronologicalLines(stdin) && ChronologicalLines(syslog) {
      EntriesChronological(stdin);
      EntriesChronological(syslog);
      MergedChronological(es, ys);
      MergedPermutes(es, ys);
      ReadAsWritten(es, ys, m);
    }
  }

  /** An entry whose reading is what `get_line_split` makes of its text. */
  predicate Faithful(e: Entry) {
    e.view == GetLineSplit(Line(e.text))
  }

  lemma EntriesStamped(file: seq<string>)
    requires forall k :: 0 <= k < |file| ==> StampedLine(file[k])
    ensures AllStamped(Entries(file))
    ensures forall k :: 0 <= k < |file| ==> Faithful(Entries(file)[k])
  {
  }

  lemma EntriesChronological(file: seq<string>)
    requires forall k :: 0 <= k < |file| ==> StampedLine(file[k])
    requires ChronologicalLines(file)
    ensures AllStamped(Entries(file)) && Chronological(Entries(file))
  {
    EntriesStamped(file);
    var es := Entries(file);
    forall k, l | 0 <= k < l < |es| ensures TimeOf(es[k]) <= TimeOf(es[l]) {
      assert TimeOf(es[k]) == LineTime(file[k]) && TimeOf(es[l]) == LineTime(file[l]);
    }
  }

  /** The lines of a chronological merge of faithful entries are
      chronological by their own dates. */
  lemma ReadAsWritten(a: seq<Entry>, b: seq<Entry>, m: seq<Entry>)
    requires AllStamped(a) && AllStamped(b) && m == Merged(a, b)
    requires forall k :: 0 <= k < |a| ==> Faithful(a[k])
    requires forall k :: 0 <= k < |b| ==> Faithful(b[k])
    requires multiset(m) == multiset(a) + multiset(b)
    requires AllStamped(m) && Chronological(m)
    ensures forall k :: 0 <= k < |m| ==> StampedLine(Texts(m)[k])
    ensures ChronologicalLines(Texts(m))
  {
    forall k | 0 <= k < |m| ensures Faithful(m[k]) {
      assert m[k] in multiset(m);
    }
    var ts := Texts(m);
    forall k, l | 0 <= k < l < |ts| ensures LineTime(ts[k]) <= LineTime(ts[l]) {
      assert LineTime(ts[k]) == TimeOf(m[k]) && LineTime(ts[l]) == TimeOf(m[l]);
    }
  }

  /** The lines of the reference merge are the lines of both logs. */
  lemma {:induction false} MergedTexts(a: seq<Entry>, b: seq<Entry>)
    requires AllStamped(a) && AllStamped(b)
    ensures multiset(Texts(Merged(a, b))) == multiset(Texts(a)) + multiset(Texts(b))
    decreases |a| + |b|
  {
    if a != [] && b != [] {
      MergedCons(a, b);
      var m := Merged(a, b);
      TextsHeadTail(m);
      if TimeOf(b[0]) < TimeOf(a[0]) {
        MergedTexts(a, b[1..]);
        TextsHeadTail(b);
        assert m[0] == b[0] && m[1..] == Merged(a, b[1..]);
      } else {
        MergedTexts(a[1..], b);
        TextsHeadTail(a);
        assert m[0] == a[0] && m[1..] == Merged(a[1..], b);
      }
    }
  }

  lemma TextsHeadTail(es: seq<Entry>)
    requires es != []
    ensures multiset(Texts(es)) == multiset{es[0].text} + multiset(Texts(es[1..]))
  {
    HeadTail(Texts(es));
    assert Texts(es)[1..] == Texts(es[1..]);
  }

  // ---------------------------------------------------------------------------
  // Helpers

  lemma TextsCons(e: Entry, es: seq<Entry>)
    ensures Texts([e] + es) == [e.text] + Texts(es)
  {
  }

  lemma LinesOfCons(stdin: seq<Entry>, syslog: seq<Entry>, p: Pick, t: seq<Pick>)
    requires Fits(stdin, syslog, t) && p.index < |FileOf(stdin, syslog, p.src)|
    ensures Fits(stdin, syslog, [p] + t)
    ensures LinesOf(stdin, syslog, [p] + t) == [FileOf(stdin, syslog, p.src)[p.index].text] + LinesOf(stdin, syslog, t)
  {
    var s := [p] + t;
    assert forall k :: 0 < k < |s| ==> s[k] == t[k - 1];
  }

  /** Copying a log from line `k` writes its lines from `k` on. */
  lemma LinesOfDrain(stdin: seq<Entry>, syslog: seq<Entry>, src: Source, k: nat)
    requires k <= |FileOf(stdin, syslog, src)|
    ensures Fits(stdin, syslog, Drain(src, k, |FileOf(stdin, syslog, src)|))
    ensures LinesOf(stdin, syslog, Drain(src, k, |FileOf(stdin, syslog, src)|)) == Texts(FileOf(stdin, syslog, src)[k..])
  {
    var d := Drain(src, k, |FileOf(stdin, syslog, src)|);
    DrainLines(stdin, syslog, [], src, k);
    assert [] + d == d;
  }
}
