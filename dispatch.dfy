// The line dispatcher of `analyze_log`: one pass over the chomped lines of a
// log, keeping the current log time and whether a process table is open,
// and handing headers and table rows on to the aggregator.
//
// `Scan` is the loop's meaning as a function of the lines read so far; the
// analyser's loop is proved to follow it step by step. The lemmas here say
// what it computes in terms of the lines themselves.

module Dispatch {
  import opened LineClassifier
  import opened Peaks
  import opened Snapshots

  /** The loop's locals: the events handed on so far, `log_time` and `proc_table`. */
  datatype ScanState = ScanState(events: seq<Event>, logTime: Option<string>, inTable: bool)

  /** Either the state after every line, or the index of the row that has too
      few columns (its command is nil and stripping it fails). */
  datatype Scanned = Scanned(state: ScanState) | Malformed(line: nat)

  const Start := ScanState([], None, false)

  /** One line, the `idx`-th, in the order the dispatcher tests it. */
  function Step(rec: Recognizers, st: ScanState, line: string, idx: nat): Scanned {
    match Classify(rec, line)
    case Blank => Scanned(st.(inTable := false))
    case Header(t, l) => Scanned(ScanState(st.events + [Head(t, l)], Some(t), false))
    case TableHeader => Scanned(st.(inTable := true))
    case Other =>
      if !st.inTable then Scanned(st)
      else match ParseRow(rec, line)
        case None => Malformed(idx)
        case Some(f) =>
          if f.cmd == [] then Scanned(st)
          else Scanned(st.(events := st.events + [Row(st.logTime, f.cmd, f.cpu, f.mem)]))
  }

  /** The dispatcher after the given lines; the first malformed row stops it. */
  function Scan(rec: Recognizers, lines: seq<string>): Scanned
    decreases |lines|
  {
    if lines == [] then Scanned(Start)
    else
      var prev := Scan(rec, lines[..|lines| - 1]);
      if prev.Malformed? then prev else Step(rec, prev.state, lines[|lines| - 1], |lines| - 1)
  }

  lemma ScanSnoc(rec: Recognizers, lines: seq<string>, i: nat)
    requires i < |lines|
    ensures Scan(rec, lines[..i]).Malformed? ==> Scan(rec, lines[..i + 1]) == Scan(rec, lines[..i])
    ensures Scan(rec, lines[..i]).Scanned? ==> Scan(rec, lines[..i + 1]) == Step(rec, Scan(rec, lines[..i]).state, lines[i], i)
  {
    assert lines[..i + 1][..i] == lines[..i];
  }

  /** The snapshot-header lines' readings: first load average at the header's time. */
  function HeaderReadings(rec: Recognizers, lines: seq<string>): seq<Reading>
    decreases |lines|
  {
    if lines == [] then []
    else
      HeaderReadings(rec, lines[..|lines| - 1])
        + match Classify(rec, lines[|lines| - 1])
          case Header(t, l) => [Reading(l, Some(t))]
          case _ => []
  }

  /** Once a row is malformed, nothing after it is read. */
  lemma {:induction false} ScanMalformedSticks(rec: Recognizers, lines: seq<string>, k: nat)
    requires k <= |lines| && Scan(rec, lines[..k]).Malformed?
    ensures Scan(rec, lines) == Scan(rec, lines[..k])
    decreases |lines| - k
  {
    if k < |lines| {
      ScanSnoc(rec, lines, k);
      ScanMalformedSticks(rec, lines, k + 1);
    } else {
      assert lines[..k] == lines;
    }
  }

  /** A single line fails exactly when it is a short row inside an open table. */
  lemma StepMalformed(rec: Recognizers, st: ScanState, line: string, idx: nat, j: nat)
    ensures Step(rec, st, line, idx) == Malformed(j)
        <==> j == idx && st.inTable && Classify(rec, line).Other? && ParseRow(rec, line).None?
  {
  }

  /** The run fails at line `i` exactly when line `i` is the first row read
      inside an open table with fewer than 12 columns. */
  lemma {:induction false} ScanMalformedAt(rec: Recognizers, lines: seq<string>, i: nat)
    ensures Scan(rec, lines) == Malformed(i) <==> FailsAt(rec, lines, i)
    decreases |lines|
  {
    if lines != [] {
      var n := |lines|;
      ScanMalformedAt(rec, lines[..n - 1], i);
      MalformedAtStep(rec, lines, i);
    }
  }

  lemma MalformedAtStep(rec: Recognizers, lines: seq<string>, i: nat)
    requires lines != []
    requires Scan(rec, lines[..|lines| - 1]) == Malformed(i) <==> FailsAt(rec, lines[..|lines| - 1], i)
    ensures Scan(rec, lines) == Malformed(i) <==> FailsAt(rec, lines, i)
  {
    FailsAtPrefix(rec, lines, i);
    if Scan(rec, lines[..|lines| - 1]).Scanned? {
      MalformedAfterScanned(rec, lines, i);
    } else {
      MalformedAfterMalformed(rec, lines, i);
    }
  }

  lemma MalformedAfterMalformed(rec: Recognizers, lines: seq<string>, i: nat)
    requires lines != [] && Scan(rec, lines[..|lines| - 1]).Malformed?
    requires Scan(rec, lines[..|lines| - 1]) == Malformed(i) <==> FailsAt(rec, lines[..|lines| - 1], i)
    requires i < |lines| - 1 ==> (FailsAt(rec, lines, i) <==> FailsAt(rec, lines[..|lines| - 1], i))
    requires i == |lines| - 1 ==> !FailsAt(rec, lines[..|lines| - 1], i) && lines[..i] == lines[..|lines| - 1]
    ensures Scan(rec, lines) == Malformed(i) <==> FailsAt(rec, lines, i)
  {
    assert Scan(rec, lines) == Scan(rec, lines[..|lines| - 1]);
  }

  lemma MalformedAfterScanned(rec: Recognizers, lines: seq<string>, i: nat)
    requires lines != [] && Scan(rec, lines[..|lines| - 1]).Scanned?
    requires Scan(rec, lines[..|lines| - 1]) == Malformed(i) <==> FailsAt(rec, lines[..|lines| - 1], i)
    requires i < |lines| - 1 ==> (FailsAt(rec, lines, i) <==> FailsAt(rec, lines[..|lines| - 1], i))
    requires i == |lines| - 1 ==> lines[..i] == lines[..|lines| - 1]
    ensures Scan(rec, lines) == Malformed(i) <==> FailsAt(rec, lines, i)
  {
    var n := |lines|;
    var st := Scan(rec, lines[..n - 1]).state;
    assert Scan(rec, lines) == Step(rec, st, lines[n - 1], n - 1);
    StepMalformed(rec, st, lines[n - 1], n - 1, i);
  }

  /** Failing at an earlier line does not depend on the lines after it. */
  lemma FailsAtPrefix(rec: Recognizers, lines: seq<string>, i: nat)
    requires lines != []
    ensures i < |lines| - 1 ==> (FailsAt(rec, lines, i) <==> FailsAt(rec, lines[..|lines| - 1], i))
    ensures i == |lines| - 1 ==> !FailsAt(rec, lines[..|lines| - 1], i)
    ensures i == |lines| - 1 ==> lines[..i] == lines[..|lines| - 1]
  {
    var init := lines[..|lines| - 1];
    if i < |lines| - 1 {
      assert init[..i] == lines[..i] && init[i] == lines[i];
    }
  }

  /** Line `i` is a row read inside an open table, with fewer than 12 columns. */
  predicate FailsAt(rec: Recognizers, lines: seq<string>, i: nat) {
    && i < |lines|
    && Scan(rec, lines[..i]).Scanned?
    && Scan(rec, lines[..i]).state.inTable
    && Classify(rec, lines[i]).Other?
    && ParseRow(rec, lines[i]).None?
  }

  /** Every row handed on has a non-empty command. */
  lemma {:induction false} ScanRowsHaveCommands(rec: Recognizers, lines: seq<string>)
    requires Scan(rec, lines).Scanned?
    ensures forall j :: 0 <= j < |Scan(rec, lines).state.events| && Scan(rec, lines).state.events[j].Row?
              ==> Scan(rec, lines).state.events[j].cmd != []
    decreases |lines|
  {
    if lines != [] {
      var n := |lines|;
      ScanRowsHaveCommands(rec, lines[..n - 1]);
      var st := Scan(rec, lines[..n - 1]).state;
      StepEvents(rec, st, lines[n - 1], n - 1);
      var evs, evs' := st.events, Scan(rec, lines).state.events;
      forall j | 0 <= j < |evs'| && evs'[j].Row? ensures evs'[j].cmd != [] {
        if j < |evs| { assert evs'[j] == evs[j]; }
      }
    }
  }

  /** What one line hands on: a header event and the new log time, or at
      most one row event, with a command, and the log time unchanged. */
  lemma StepEvents(rec: Recognizers, st: ScanState, line: string, idx: nat)
    requires Step(rec, st, line, idx).Scanned?
    ensures var st', k := Step(rec, st, line, idx).state, Classify(rec, line);
            && (k.Header? ==> st'.events == st.events + [Head(k.time, k.load1)] && st'.logTime == Some(k.time))
            && (!k.Header? ==> st'.logTime == st.logTime)
            && (!k.Header? && st'.events != st.events ==>
                  && |st'.events| == |st.events| + 1
                  && st'.events == st.events + [st'.events[|st.events|]]
                  && st'.events[|st.events|].Row? && st'.events[|st.events|].cmd != [])
  {
  }

  /** A line other than a header hands on a row exactly when it is a plain
      line read inside an open table whose 12th column strips to a non-empty
      command; the row carries that command, the line's CPU and memory, and
      the current log time. */
  lemma StepRowEvent(rec: Recognizers, st: ScanState, line: string, idx: nat)
    requires Step(rec, st, line, idx).Scanned? && !Classify(rec, line).Header?
    ensures var st', k, r := Step(rec, st, line, idx).state, Classify(rec, line), ParseRow(rec, line);
            && (st'.events != st.events <==> k.Other? && st.inTable && r.Some? && r.value.cmd != [])
            && (st'.events != st.events ==> st'.events == st.events + [Row(st.logTime, r.value.cmd, r.value.cpu, r.value.mem)])
            && (st'.events == st.events ==> st'.logTime == st.logTime)
  {
  }

  /** The header lines are the snapshots, in order; the log time is the
      latest header's. */
  lemma {:induction false} ScanHeaders(rec: Recognizers, lines: seq<string>)
    requires Scan(rec, lines).Scanned?
    ensures var st := Scan(rec, lines).state;
            && LoadReadings(Group(st.events).snaps) == HeaderReadings(rec, lines)
            && st.logTime == OpenTime(Group(st.events))
    decreases |lines|
  {
    if lines == [] {
      assert LoadReadings([]) == [];
    } else {
      var n := |lines|;
      ScanHeaders(rec, lines[..n - 1]);
      var st := Scan(rec, lines[..n - 1]).state;
      var st' := Scan(rec, lines).state;
      StepEvents(rec, st, lines[n - 1], n - 1);
      var k := Classify(rec, lines[n - 1]);
      if k.Header? {
        LoadReadingsAfter(st.events, Head(k.time, k.load1));
        OpenTimeAfter(st.events, Head(k.time, k.load1));
      } else {
        assert HeaderReadings(rec, lines) == HeaderReadings(rec, lines[..n - 1]) + [];
        if st'.events != st.events {
          var e := st'.events[|st.events|];
          LoadReadingsAfter(st.events, e);
          OpenTimeAfter(st.events, e);
        }
      }
    }
  }

  /** Some line is a table header and every line after it is a plain line. */
  predicate TableOpenAfter(rec: Recognizers, lines: seq<string>) {
    exists j :: 0 <= j < |lines| && Classify(rec, lines[j]).TableHeader?
      && forall k :: j < k < |lines| ==> Classify(rec, lines[k]).Other?
  }

  /** `proc_table` is set exactly when the last blank, header or table-header
      line seen was a table header. */
  lemma {:induction false} ScanTableOpen(rec: Recognizers, lines: seq<string>)
    requires Scan(rec, lines).Scanned?
    ensures Scan(rec, lines).state.inTable <==> TableOpenAfter(rec, lines)
    decreases |lines|
  {
    if lines != [] {
      var n := |lines|;
      ScanTableOpen(rec, lines[..n - 1]);
      TableOpenStep(rec, lines);
    }
  }

  lemma TableOpenStep(rec: Recognizers, lines: seq<string>)
    requires lines != [] && Scan(rec, lines).Scanned?
    requires Scan(rec, lines[..|lines| - 1]).Scanned? ==>
               (Scan(rec, lines[..|lines| - 1]).state.inTable <==> TableOpenAfter(rec, lines[..|lines| - 1]))
    ensures Scan(rec, lines).state.inTable <==> TableOpenAfter(rec, lines)
  {
    var n := |lines|;
    var st := Scan(rec, lines[..n - 1]).state;
    assert Scan(rec, lines) == Step(rec, st, lines[n - 1], n - 1);
    StepInTable(rec, st, lines[n - 1], n - 1);
    TableOpenAfterSnoc(rec, lines);
  }

  /** After a line the table is open if it is a table header, or a plain
      line read while the table was open. */
  lemma StepInTable(rec: Recognizers, st: ScanState, line: string, idx: nat)
    requires Step(rec, st, line, idx).Scanned?
    ensures Step(rec, st, line, idx).state.inTable
         == (Classify(rec, line).TableHeader? || (Classify(rec, line).Other? && st.inTable))
  {
  }

  lemma TableOpenAfterSnoc(rec: Recognizers, lines: seq<string>)
    requires lines != []
    ensures var k := Classify(rec, lines[|lines| - 1]);
            TableOpenAfter(rec, lines) <==> k.TableHeader? || (k.Other? && TableOpenAfter(rec, lines[..|lines| - 1]))
  {
    var n := |lines|;
    var init := lines[..n - 1];
    var k := Classify(rec, lines[n - 1]);
    if k.TableHeader? {
      assert TableOpenAfter(rec, lines);
    } else if k.Other? {
      if TableOpenAfter(rec, init) {
        var j :| 0 <= j < |init| && Classify(rec, init[j]).TableHeader?
          && forall k :: j < k < |init| ==> Classify(rec, init[k]).Other?;
        assert lines[j] == init[j];
        assert forall m :: j < m < n - 1 ==> lines[m] == init[m];
      }
      if TableOpenAfter(rec, lines) {
        var j :| 0 <= j < n && Classify(rec, lines[j]).TableHeader?
          && forall k :: j < k < n ==> Classify(rec, lines[k]).Other?;
        assert init[j] == lines[j];
        assert forall m :: j < m < n - 1 ==> lines[m] == init[m];
      }
    }
  }

  /** The time of the latest header line among `lines`; nil before any. */
  function LatestTime(rec: Recognizers, lines: seq<string>): Option<string> {
    var hs := HeaderReadings(rec, lines);
    if hs == [] then None else hs[|hs| - 1].time
  }

  /** What `line`, read after the lines `before`, hands on, stated over the
      lines alone: a header line gives its header; a plain line that follows
      an open table header and whose 12th column strips to a non-empty
      command gives a row at the latest header's time. */
  function LineEvent(rec: Recognizers, before: seq<string>, line: string): seq<Event> {
    match Classify(rec, line)
    case Header(t, l) => [Head(t, l)]
    case Other =>
      var r := ParseRow(rec, line);
      if TableOpenAfter(rec, before) && r.Some? && r.value.cmd != []
      then [Row(LatestTime(rec, before), r.value.cmd, r.value.cpu, r.value.mem)]
      else []
    case _ => []
  }

  /** The events the lines hand on, in order. */
  function LineEvents(rec: Recognizers, lines: seq<string>): seq<Event>
    decreases |lines|
  {
    if lines == [] then []
    else LineEvents(rec, lines[..|lines| - 1]) + LineEvent(rec, lines[..|lines| - 1], lines[|lines| - 1])
  }

  /** The dispatcher hands on exactly the events read off the lines, and its
      log time is the latest header line's. */
  lemma {:induction false} ScanEvents(rec: Recognizers, lines: seq<string>)
    requires Scan(rec, lines).Scanned?
    ensures Scan(rec, lines).state.events == LineEvents(rec, lines)
    ensures Scan(rec, lines).state.logTime == LatestTime(rec, lines)
    decreases |lines|
  {
    if lines != [] {
      var init := lines[..|lines| - 1];
      assert Scan(rec, init).Scanned?;
      ScanEvents(rec, init);
      ScanTableOpen(rec, init);
      ScanEventsStep(rec, lines);
    }
  }

  lemma ScanEventsStep(rec: Recognizers, lines: seq<string>)
    requires lines != [] && Scan(rec, lines).Scanned?
    requires var init := lines[..|lines| - 1];
             && Scan(rec, init).Scanned?
             && Scan(rec, init).state.events == LineEvents(rec, init)
             && Scan(rec, init).state.logTime == LatestTime(rec, init)
             && (Scan(rec, init).state.inTable <==> TableOpenAfter(rec, init))
    ensures Scan(rec, lines).state.events == LineEvents(rec, lines)
    ensures Scan(rec, lines).state.logTime == LatestTime(rec, lines)
  {
    var n := |lines|;
    var init, line := lines[..n - 1], lines[n - 1];
    var st := Scan(rec, init).state;
    assert Scan(rec, lines) == Step(rec, st, line, n - 1);
    StepLineEvent(rec, st, init, line, n - 1);
    StepEvents(rec, st, line, n - 1);
    LatestTimeSnoc(rec, lines);
  }

  /** One step hands on exactly what the line gives when read after `before`,
      provided the loop state matches those lines. */
  lemma StepLineEvent(rec: Recognizers, st: ScanState, before: seq<string>, line: string, idx: nat)
    requires Step(rec, st, line, idx).Scanned?
    requires st.logTime == LatestTime(rec, before) && (st.inTable <==> TableOpenAfter(rec, before))
    ensures Step(rec, st, line, idx).state.events == st.events + LineEvent(rec, before, line)
  {
    if Classify(rec, line).Header? {
      StepEvents(rec, st, line, idx);
    } else {
      StepRowEvent(rec, st, line, idx);
      if Step(rec, st, line, idx).state.events == st.events {
        assert st.events + [] == st.events;
      }
    }
  }

  /** A header line becomes the latest; any other line leaves it. */
  lemma LatestTimeSnoc(rec: Recognizers, lines: seq<string>)
    requires lines != []
    ensures var k := Classify(rec, lines[|lines| - 1]);
            LatestTime(rec, lines) == if k.Header? then Some(k.time) else LatestTime(rec, lines[..|lines| - 1])
  {
    var n := |lines|;
    if !Classify(rec, lines[n - 1]).Header? {
      assert HeaderReadings(rec, lines) == HeaderReadings(rec, lines[..n - 1]) + [];
    }
  }
}
