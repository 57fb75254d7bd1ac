// The analyser object of top_analyzer.rb: its buckets, the three methods that
// update them, and `analyze_log`'s loop over the lines of one log.
//
// The source keeps everything in one hash: seven session-wide keys and one
// sub-hash per watched process name. Here the session-wide keys are fields
// and the per-name sub-hashes are the map `stats`. `analyze_log` is proved to
// leave the buckets exactly as `ExpectedTotals` and `StatsAgree` describe
// `LineEvents`, the header and row events read off the lines.

module Analyzer {
  import opened LineClassifier
  import opened Peaks
  import opened Snapshots
  import opened Dispatch

  /** The session-wide keys `init_buckets` writes into the shared hash. */
  const ReservedKeys: set<string> :=
    {"file_name", "log_count", "start", "end", "hi_load", "hi_load_time", "all_processes"}

  class TopAnalyzer {
    /** The process names to watch, in the order given (duplicates kept). */
    const names: seq<string>

    var fileName: string
    var logCount: nat
    var startTime: Option<string>
    var endTime: Option<string>
    var hiLoad: real
    var hiLoadTime: Option<string>
    var allProcesses: set<string>
    var stats: map<string, ProcStats>

    /** Every watched name has its bucket. */
    ghost predicate Ready()
      reads this
    {
      forall p :: p in names ==> p in stats
    }

    /** The session-wide buckets as one value. */
    ghost function Session(): Totals
      reads this
    {
      Totals(logCount, startTime, endTime, Reading(hiLoad, hiLoadTime), allProcesses)
    }

    /** The buckets hold what the events `evs` imply; `closed` once the last
        snapshot has been finalised. */
    ghost predicate Describes(evs: seq<Event>, closed: bool)
      reads this
    {
      && Ready()
      && Session() == ExpectedTotals(evs, closed)
      && forall p :: p in names ==> StatsAgree(names, evs, closed, p, stats[p])
    }

    constructor (processNames: seq<string>)
      requires forall p :: p in processNames ==> p !in ReservedKeys
      ensures names == processNames && stats == map[]
      ensures Session() == Totals(0, None, None, NoReading, {})
    {
      names := processNames;
      fileName := [];
      logCount := 0;
      startTime := None;
      endTime := None;
      hiLoad := -1.0;
      hiLoadTime := None;
      allProcesses := {};
      stats := map[];
    }

    /** `init_buckets`: reset the session totals and give every watched name a
        fresh bucket. */
    method InitBuckets(logFile: string)
      modifies this
      ensures fileName == logFile
      ensures Session() == Totals(0, None, None, NoReading, {})
      ensures stats.Keys == old(stats.Keys) + set p | p in names
      ensures forall p :: p in names ==> stats[p] == FreshStats
      ensures forall q :: q in stats && q !in names ==> stats[q] == old(stats)[q]
      ensures Ready()
    {
      fileName := logFile;
      logCount := 0;
      startTime := None;
      endTime := None;
      hiLoad := -1.0;
      hiLoadTime := None;
      allProcesses := {};
      for i := 0 to |names|
        invariant fileName == logFile && Session() == Totals(0, None, None, NoReading, {})
        invariant stats.Keys == old(stats.Keys) + set p | p in names[..i]
        invariant forall p :: p in names[..i] ==> stats[p] == FreshStats
        invariant forall q :: q in stats && q !in names[..i] ==> stats[q] == old(stats)[q]
      {
        assert names[..i + 1] == names[..i] + [names[i]];
        stats := stats[names[i] := FreshStats];
      }
      assert names[..|names|] == names;
    }

    /** `collect_proc_inst_data`: record one process-table row. An empty
        command is ignored; any other joins the set of all commands, and every
        watched name equal to it sees the row once per occurrence in the list. */
    method CollectProcInstData(logTime: Option<string>, cmd: string, cpu: real, mem: real)
      requires Ready()
      modifies this`allProcesses, this`stats
      ensures allProcesses == if cmd == [] then old(allProcesses) else old(allProcesses) + {cmd}
      ensures stats.Keys == old(stats.Keys)
      ensures cmd !in names ==> stats == old(stats)
      ensures forall q :: q in stats ==>
                stats[q] == if cmd != [] && q == cmd then Matched(old(stats)[q], logTime, cpu, mem, multiset(names)[q])
                            else old(stats)[q]
      ensures Ready()
    {
      if cmd == [] {
        return;
      }
      allProcesses := allProcesses + {cmd};
      ghost var k := 0;
      for i := 0 to |names|
        invariant allProcesses == old(allProcesses) + {cmd}
        invariant stats.Keys == old(stats.Keys)
        invariant k == multiset(names[..i])[cmd]
        invariant cmd in stats ==> stats[cmd] == Matched(old(stats)[cmd], logTime, cpu, mem, k)
        invariant forall q :: q in stats && q != cmd ==> stats[q] == old(stats)[q]
      {
        assert names[..i + 1] == names[..i] + [names[i]];
        if cmd == names[i] {
          var b := stats[cmd];
          MatchedAgain(old(stats)[cmd], logTime, cpu, mem, k);
          if cpu > b.hiCpu.value {
            b := b.(hiCpu := Reading(cpu, logTime));
          }
          if mem > b.hiMem.value {
            b := b.(hiMem := Reading(mem, logTime));
          }
          b := b.(instCount := b.instCount + 1);
          stats := stats[cmd := b];
          k := k + 1;
        }
      }
      assert names[..|names|] == names;
      if cmd !in names {
        assert k == 0;
        assert forall q :: q in stats ==> stats[q] == old(stats)[q];
      }
    }

    /** `summarize_last_log`: finalise the snapshot taken at `logTime`. */
    method SummarizeLastLog(logTime: string)
      requires Ready()
      modifies this`startTime, this`endTime, this`logCount, this`stats
      ensures Session() == Summarized(old(Session()), logTime)
      ensures stats.Keys == old(stats.Keys)
      ensures forall q :: q in stats ==>
                stats[q] == if q in names then Finalize(old(stats)[q], logTime) else old(stats)[q]
      ensures Ready()
    {
      if startTime.None? {
        startTime := Some(logTime);
      }
      endTime := Some(logTime);
      logCount := logCount + 1;
      for i := 0 to |names|
        invariant Session() == Summarized(old(Session()), logTime)
        invariant stats.Keys == old(stats.Keys)
        invariant forall q :: q in stats ==>
                    stats[q] == if q in names[..i] then Finalize(old(stats)[q], logTime) else old(stats)[q]
      {
        assert names[..i + 1] == names[..i] + [names[i]];
        var p := names[i];
        var b := stats[p];
        FinalizeIdempotent(old(stats)[p], logTime);
        if b.instCount > b.hiInst {
          b := b.(hiInst := b.instCount, hiInstTime := Some(logTime));
        }
        b := b.(instCount := 0);
        stats := stats[p := b];
      }
      assert names[..|names|] == names;
    }

    /** The header branch of the dispatcher: finalise the open snapshot, if
        any, then let the header's first load average compete for the peak. */
    method HeaderLine(ghost evs: seq<Event>, logTime: Option<string>, t: string, l: real)
      requires Describes(evs, false) && logTime == OpenTime(Group(evs))
      modifies this`startTime, this`endTime, this`logCount, this`stats, this`hiLoad, this`hiLoadTime
      ensures Describes(evs + [Head(t, l)], false)
    {
      HeaderStep(names, evs, logTime, t, l);
      ghost var before := stats;
      if logTime.Some? {
        SummarizeLastLog(logTime.value);
      }
      if l > hiLoad {
        hiLoad := l;
        hiLoadTime := Some(t);
      }
      forall p | p in names
        ensures StatsAgree(names, evs + [Head(t, l)], false, p, stats[p])
      {
        assert StatsAgree(names, evs, false, p, before[p]);
      }
    }

    /** The row branch of the dispatcher: collect the row's command, CPU and
        memory at the current log time. */
    method RowLine(ghost evs: seq<Event>, logTime: Option<string>, cmd: string, cpu: real, mem: real)
      requires Describes(evs, false)
      modifies this`allProcesses, this`stats
      ensures Describes(if cmd == [] then evs else evs + [Row(logTime, cmd, cpu, mem)], false)
    {
      ghost var before, session := stats, Session();
      CollectProcInstData(logTime, cmd, cpu, mem);
      if cmd != [] {
        var e := Row(logTime, cmd, cpu, mem);
        TotalsAfterRow(evs, e);
        assert Session() == session.(allProcesses := session.allProcesses + {cmd});
        forall p | p in names
          ensures StatsAgree(names, evs + [e], false, p, stats[p])
        {
          StatsAfterRow(names, evs, e, p, before[p]);
        }
      }
    }

    /** One pass of `analyze_log`'s loop: the line is tested as blank,
        snapshot header, table header, or anything else, in that order; the
        last kind is a process row only while a table is open. `failed` is the
        row with too few columns. */
    method ReadLine(ghost evs: seq<Event>, rec: Recognizers, lines: seq<string>, i: nat,
                    logTime: Option<string>, procTable: bool)
      returns (ghost evs': seq<Event>, logTime': Option<string>, procTable': bool, failed: bool)
      requires i < |lines|
      requires Scan(rec, lines[..i]) == Scanned(ScanState(evs, logTime, procTable))
      requires logTime == OpenTime(Group(evs)) && Describes(evs, false)
      modifies this`startTime, this`endTime, this`logCount, this`stats, this`hiLoad, this`hiLoadTime, this`allProcesses
      ensures Ready()
      ensures failed ==> Scan(rec, lines[..i + 1]) == Malformed(i)
      ensures !failed ==> && Scan(rec, lines[..i + 1]) == Scanned(ScanState(evs', logTime', procTable'))
                          && logTime' == OpenTime(Group(evs'))
                          && Describes(evs', false)
    {
      var line := lines[i];
      ScanSnoc(rec, lines, i);
      evs', logTime', procTable', failed := evs, logTime, procTable, false;
      match Classify(rec, line) {
        case Blank =>
          procTable' := false;
        case Header(t, l) =>
          HeaderLine(evs, logTime, t, l);
          procTable' := false;
          logTime' := Some(t);
          OpenTimeAfter(evs, Head(t, l));
          evs' := evs + [Head(t, l)];
        case TableHeader =>
          procTable' := true;
        case Other =>
          if procTable {
            match ParseRow(rec, line) {
              case None =>
                failed := true;
              case Some(f) =>
                RowLine(evs, logTime, f.cmd, f.cpu, f.mem);
                if f.cmd != [] {
                  OpenTimeAfter(evs, Row(logTime, f.cmd, f.cpu, f.mem));
                  evs' := evs + [Row(logTime, f.cmd, f.cpu, f.mem)];
                }
            }
          }
      }
    }

    /** `analyze_log` over the chomped lines of one log: stops at the first
        malformed row, reporting its index; otherwise the buckets describe the
        whole log, its last snapshot finalised. */
    method AnalyzeLog(logFile: string, rec: Recognizers, lines: seq<string>) returns (err: Option<nat>)
      modifies this
      ensures fileName == logFile && Ready()
      ensures err.None? <==> Scan(rec, lines).Scanned?
      ensures err.Some? ==> Scan(rec, lines) == Malformed(err.value)
      ensures err.None? ==> Describes(LineEvents(rec, lines), true)
      ensures err.None? ==> && logCount == |HeaderReadings(rec, lines)|
                            && IsFirstPeak(NoReading, HeaderReadings(rec, lines), Reading(hiLoad, hiLoadTime))
    {
      InitBuckets(logFile);
      var logTime: Option<string> := None;
      var procTable := false;
      ghost var evs: seq<Event> := [];
      TotalsAtStart();
      forall p | p in names
        ensures StatsAgree(names, [], false, p, FreshStats)
      {
        StatsAtStart(names, p);
      }
      var i := 0;
      while i < |lines|
        invariant 0 <= i <= |lines|
        invariant fileName == logFile
        invariant Scan(rec, lines[..i]) == Scanned(ScanState(evs, logTime, procTable))
        invariant logTime == OpenTime(Group(evs))
        invariant Describes(evs, false)
        decreases |lines| - i
      {
        var failed;
        evs, logTime, procTable, failed := ReadLine(evs, rec, lines, i, logTime, procTable);
        if failed {
          ScanMalformedSticks(rec, lines, i + 1);
          return Some(i);
        }
        i := i + 1;
      }
      assert lines[..i] == lines;
      CloseStep(names, evs);
      if logTime.Some? {
        SummarizeLastLog(logTime.value);
      }
      ScanEvents(rec, lines);
      ReportedTotals(rec, lines);
      return None;
    }
  }

  /** What the session part of the report means, in terms of the lines: one
      snapshot per header line; the load peak is the first header line with
      the largest first load average; start and end are the first and last
      header times; the set of all commands never holds the empty string. */
  lemma ReportedTotals(rec: Recognizers, lines: seq<string>)
    requires Scan(rec, lines).Scanned?
    ensures var tot := ExpectedTotals(LineEvents(rec, lines), true);
            var hs := HeaderReadings(rec, lines);
            && tot.logCount == |hs|
            && IsFirstPeak(NoReading, hs, tot.hiLoad)
            && (hs == [] ==> tot.startTime == None && tot.endTime == None)
            && (hs != [] ==> tot.startTime == hs[0].time && tot.endTime == hs[|hs| - 1].time)
            && [] !in tot.allProcesses
  {
    ScanHeaders(rec, lines);
    ScanEvents(rec, lines);
    NoEmptyCommand(rec, lines);
    ClosedTotals(LineEvents(rec, lines), HeaderReadings(rec, lines));
  }

  lemma ClosedTotals(evs: seq<Event>, hs: seq<Reading>)
    requires LoadReadings(Group(evs).snaps) == hs
    ensures var tot := ExpectedTotals(evs, true);
            && tot.logCount == |hs|
            && IsFirstPeak(NoReading, hs, tot.hiLoad)
            && (hs == [] ==> tot.startTime == None && tot.endTime == None)
            && (hs != [] ==> tot.startTime == hs[0].time && tot.endTime == hs[|hs| - 1].time)
  {
    RunMaxIsFirstPeak(NoReading, hs);
    assert |LoadReadings(Group(evs).snaps)| == |Group(evs).snaps|;
  }

  /** An empty command never reaches the set of all commands. */
  lemma {:induction false} NoEmptyCommand(rec: Recognizers, lines: seq<string>)
    ensures [] !in CmdSet(LineEvents(rec, lines))
    decreases |lines|
  {
    if lines != [] {
      var init := lines[..|lines| - 1];
      var before, es := LineEvents(rec, init), LineEvent(rec, init, lines[|lines| - 1]);
      NoEmptyCommand(rec, init);
      if es == [] {
        assert before + es == before;
      } else {
        assert es == [es[0]];
        CmdSetSnoc(before, es[0]);
      }
    }
  }

  /** The report's "no instances" test for one watched name. */
  predicate ReportsNoInstances(s: ProcStats) {
    s.hiInst == 0
  }

  /** What one watched name's part of the report means: the CPU and memory
      peaks are the first largest readings of its rows, the instance peak the
      first largest per-snapshot count. That peak is -1 exactly when the log
      had no header line, otherwise at least 0, and 0 exactly when no row for
      the name was collected. Rows read before any header are never
      finalised when no header follows. */
  lemma ReportedProcess(names: seq<string>, rec: Recognizers, lines: seq<string>, p: string, s: ProcStats)
    requires Scan(rec, lines).Scanned? && p in names
    requires StatsAgree(names, LineEvents(rec, lines), true, p, s)
    ensures var evs := LineEvents(rec, lines);
            var hs := HeaderReadings(rec, lines);
            && IsFirstPeak(NoReading, RowReadings(evs, p, Cpu), s.hiCpu)
            && IsFirstPeak(NoReading, RowReadings(evs, p, Mem), s.hiMem)
            && IsFirstPeak(NoReading, InstReadings(names, Group(evs).snaps, p), Reading(s.hiInst as real, s.hiInstTime))
            && (hs == [] <==> s.hiInst == -1)
            && (hs != [] ==> s.instCount == 0 && s.hiInst >= 0)
            && (hs != [] ==> (ReportsNoInstances(s) <==> !HasRowFor(evs, p)))
  {
    var evs := LineEvents(rec, lines);
    var log := Group(evs);
    ScanHeaders(rec, lines);
    ScanEvents(rec, lines);
    assert |LoadReadings(log.snaps)| == |log.snaps|;
    RunMaxIsFirstPeak(NoReading, RowReadings(evs, p, Cpu));
    RunMaxIsFirstPeak(NoReading, RowReadings(evs, p, Mem));
    assert log.snaps[..|log.snaps|] == log.snaps;
    RunMaxIsFirstPeak(NoReading, InstReadings(names, log.snaps, p));
    InstPeakSentinels(names, log.snaps, p);
    GroupHeads(evs);
    WindowsKeepRows(evs, p);
  }

  /** The expected buckets after a header, given those before it. */
  lemma HeaderStep(names: seq<string>, evs: seq<Event>, logTime: Option<string>, t: string, l: real)
    requires logTime == OpenTime(Group(evs))
    ensures forall p, s :: StatsAgree(names, evs, false, p, s) ==>
              StatsAgree(names, evs + [Head(t, l)], false, p, if logTime.Some? then Finalize(s, logTime.value) else s)
    ensures var tot := ExpectedTotals(evs, false);
            var fin := if logTime.Some? then Summarized(tot, logTime.value) else tot;
            ExpectedTotals(evs + [Head(t, l)], false) == fin.(hiLoad := Bump(fin.hiLoad, Reading(l, Some(t))))
  {
    forall p, s | StatsAgree(names, evs, false, p, s)
      ensures StatsAgree(names, evs + [Head(t, l)], false, p, if logTime.Some? then Finalize(s, logTime.value) else s)
    {
      StatsAfterHead(names, evs, t, l, p, s);
    }
    TotalsAfterHead(evs, t, l);
  }

  /** The expected buckets after a collected row, given those before it. */
  lemma RowStep(names: seq<string>, evs: seq<Event>, e: Event)
    requires e.Row?
    ensures forall p, s :: p in names && StatsAgree(names, evs, false, p, s) ==>
              StatsAgree(names, evs + [e], false, p,
                         if e.cmd == p then Matched(s, e.at, e.cpu, e.mem, multiset(names)[p]) else s)
    ensures ExpectedTotals(evs + [e], false)
         == ExpectedTotals(evs, false).(allProcesses := ExpectedTotals(evs, false).allProcesses + {e.cmd})
  {
    forall p, s | p in names && StatsAgree(names, evs, false, p, s)
      ensures StatsAgree(names, evs + [e], false, p,
                         if e.cmd == p then Matched(s, e.at, e.cpu, e.mem, multiset(names)[p]) else s)
    {
      StatsAfterRow(names, evs, e, p, s);
    }
    TotalsAfterRow(evs, e);
  }

  /** The expected buckets once input ends, given those before. */
  lemma CloseStep(names: seq<string>, evs: seq<Event>)
    ensures var open := OpenTime(Group(evs));
            forall p, s :: StatsAgree(names, evs, false, p, s) ==>
              StatsAgree(names, evs, true, p, if open.Some? then Finalize(s, open.value) else s)
    ensures var open := OpenTime(Group(evs));
            ExpectedTotals(evs, true)
            == if open.Some? then Summarized(ExpectedTotals(evs, false), open.value) else ExpectedTotals(evs, false)
  {
    var open := OpenTime(Group(evs));
    forall p, s | StatsAgree(names, evs, false, p, s)
      ensures StatsAgree(names, evs, true, p, if open.Some? then Finalize(s, open.value) else s)
    {
      StatsAtClose(names, evs, p, s);
    }
    TotalsAtClose(evs);
  }
}
