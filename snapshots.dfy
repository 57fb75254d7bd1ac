// The snapshot aggregator's meaning, stated over the stream of events the
// line dispatcher produces: snapshot headers and collected table rows.
//
// A log is a run of rows before any header (normally empty) followed by
// snapshots, each a header with the rows collected after it. The
// analyser's per-snapshot instance counter is reset only when a snapshot is
// finalised, and the first header finalises nothing, so rows seen before the
// first header are counted in the FIRST snapshot's instance window; that is
// why the prelude moves into the first snapshot here.
//
// The expected value of every bucket is defined from the log alone
// (`ExpectedTotals`, `StatsAgree`), and the lemmas show that each event moves
// these expected values exactly as the analyser's update code does.

module Snapshots {
  import opened LineClassifier
  import opened Peaks

  /** What the dispatcher hands to the aggregator. A row carries the log time
      current when it was read (nil before the first header). */
  datatype Event =
    | Head(time: string, load1: real)
    | Row(at: Option<string>, cmd: string, cpu: real, mem: real)

  datatype Snapshot = Snapshot(time: string, load1: real, rows: seq<Event>)

  /** Rows seen before any header, then the snapshots in order. */
  datatype Log = Log(prelude: seq<Event>, snaps: seq<Snapshot>)

  function Extend(log: Log, e: Event): Log {
    match e
    case Head(t, l) =>
      if log.snaps == [] then Log([], [Snapshot(t, l, log.prelude)])
      else Log(log.prelude, log.snaps + [Snapshot(t, l, [])])
    case Row(_, _, _, _) =>
      if log.snaps == [] then Log(log.prelude + [e], [])
      else
        var n := |log.snaps|;
        Log(log.prelude, log.snaps[n - 1 := log.snaps[n - 1].(rows := log.snaps[n - 1].rows + [e])])
  }

  /** The events grouped into snapshots. */
  function Group(evs: seq<Event>): Log
    decreases |evs|
  {
    if evs == [] then Log([], []) else Extend(Group(evs[..|evs| - 1]), evs[|evs| - 1])
  }

  lemma GroupSnoc(evs: seq<Event>, e: Event)
    ensures Group(evs + [e]) == Extend(Group(evs), e)
  {
    assert (evs + [e])[..|evs|] == evs;
  }

  /** Number of header events. */
  function HeadCount(evs: seq<Event>): nat
    decreases |evs|
  {
    if evs == [] then 0
    else HeadCount(evs[..|evs| - 1]) + if evs[|evs| - 1].Head? then 1 else 0
  }

  /** One snapshot per header, with that header's time and load, in order. */
  lemma {:induction false} GroupHeads(evs: seq<Event>)
    ensures |Group(evs).snaps| == HeadCount(evs)
    ensures Group(evs).snaps != [] ==> Group(evs).prelude == []
    decreases |evs|
  {
    if evs != [] {
      GroupHeads(evs[..|evs| - 1]);
    }
  }

  // ---------------------------------------------------------------------
  // The observations each peak is taken over.

  /** One reading per snapshot header: its first load average at its time. */
  function LoadReadings(snaps: seq<Snapshot>): seq<Reading> {
    seq(|snaps|, i requires 0 <= i < |snaps| => Reading(snaps[i].load1, Some(snaps[i].time)))
  }

  datatype Metric = Cpu | Mem

  /** The CPU or memory readings of the rows whose command is exactly `p`. */
  function RowReadings(evs: seq<Event>, p: string, m: Metric): seq<Reading>
    decreases |evs|
  {
    if evs == [] then []
    else
      var e := evs[|evs| - 1];
      RowReadings(evs[..|evs| - 1], p, m)
        + if e.Row? && e.cmd == p then [Reading(if m == Cpu then e.cpu else e.mem, e.at)] else []
  }

  /** How much the rows add to `p`'s instance counter: every row whose
      command is exactly `p` adds the number of times `p` is in the watch list. */
  function Hits(names: seq<string>, rows: seq<Event>, p: string): nat
    decreases |rows|
  {
    if rows == [] then 0
    else
      var e := rows[|rows| - 1];
      Hits(names, rows[..|rows| - 1], p) + if e.Row? && e.cmd == p then multiset(names)[p] else 0
  }

  /** Some row's command is exactly `p`. */
  predicate HasRowFor(rows: seq<Event>, p: string) {
    exists j :: 0 <= j < |rows| && rows[j].Row? && rows[j].cmd == p
  }

  /** One reading per snapshot: `p`'s instance counter for its window, at the
      snapshot's time. */
  function InstReadings(names: seq<string>, snaps: seq<Snapshot>, p: string): seq<Reading> {
    seq(|snaps|, i requires 0 <= i < |snaps| => Reading(Hits(names, snaps[i].rows, p) as real, Some(snaps[i].time)))
  }

  /** Every command seen in a collected row. */
  function CmdSet(evs: seq<Event>): set<string> {
    set e | e in evs && e.Row? :: e.cmd
  }

  lemma RowReadingsSnoc(evs: seq<Event>, e: Event, p: string, m: Metric)
    ensures RowReadings(evs + [e], p, m) == RowReadings(evs, p, m)
      + if e.Row? && e.cmd == p then [Reading(if m == Cpu then e.cpu else e.mem, e.at)] else []
  {
    assert (evs + [e])[..|evs|] == evs;
  }

  lemma HitsSnoc(names: seq<string>, rows: seq<Event>, e: Event, p: string)
    ensures Hits(names, rows + [e], p) == Hits(names, rows, p) + if e.Row? && e.cmd == p then multiset(names)[p] else 0
  {
    assert (rows + [e])[..|rows|] == rows;
  }

  lemma CmdSetSnoc(evs: seq<Event>, e: Event)
    ensures CmdSet(evs + [e]) == CmdSet(evs) + if e.Row? then {e.cmd} else {}
  {
    assert e in evs + [e];
    forall x | x in evs ensures x in evs + [e] { }
  }

  lemma LoadReadingsSnoc(snaps: seq<Snapshot>, s: Snapshot)
    ensures LoadReadings(snaps + [s]) == LoadReadings(snaps) + [Reading(s.load1, Some(s.time))]
  {
    var a, b := LoadReadings(snaps + [s]), LoadReadings(snaps) + [Reading(s.load1, Some(s.time))];
    forall i | 0 <= i < |a| ensures a[i] == b[i] {
      if i < |snaps| { assert (snaps + [s])[i] == snaps[i]; }
    }
  }

  lemma InstReadingsSnoc(names: seq<string>, snaps: seq<Snapshot>, s: Snapshot, p: string)
    ensures InstReadings(names, snaps + [s], p)
         == InstReadings(names, snaps, p)
            + [Reading(Hits(names, s.rows, p) as real, Some(s.time))]
  {
    var a := InstReadings(names, snaps + [s], p);
    var b := InstReadings(names, snaps, p) + [Reading(Hits(names, s.rows, p) as real, Some(s.time))];
    forall i | 0 <= i < |a| ensures a[i] == b[i] {
      if i < |snaps| { assert (snaps + [s])[i] == snaps[i]; }
    }
  }

  /** A header adds its reading to the load readings; a row adds nothing. */
  lemma LoadReadingsAfter(evs: seq<Event>, e: Event)
    ensures LoadReadings(Group(evs + [e]).snaps)
         == LoadReadings(Group(evs).snaps) + if e.Head? then [Reading(e.load1, Some(e.time))] else []
  {
    if e.Head? {
      LoadReadingsAfterHead(evs, e.time, e.load1);
    } else {
      LoadReadingsAfterRow(evs, e);
      assert LoadReadings(Group(evs).snaps) + [] == LoadReadings(Group(evs).snaps);
    }
  }

  lemma LoadReadingsAfterHead(evs: seq<Event>, t: string, l: real)
    ensures LoadReadings(Group(evs + [Head(t, l)]).snaps) == LoadReadings(Group(evs).snaps) + [Reading(l, Some(t))]
  {
    GroupSnoc(evs, Head(t, l));
    var log := Group(evs);
    if log.snaps == [] {
      LoadReadingsSnoc([], Snapshot(t, l, log.prelude));
      assert [] + [Snapshot(t, l, log.prelude)] == [Snapshot(t, l, log.prelude)];
    } else {
      LoadReadingsSnoc(log.snaps, Snapshot(t, l, []));
    }
  }

  lemma LoadReadingsAfterRow(evs: seq<Event>, e: Event)
    requires e.Row?
    ensures LoadReadings(Group(evs + [e]).snaps) == LoadReadings(Group(evs).snaps)
  {
    GroupSnoc(evs, e);
    var log := Group(evs);
    if log.snaps != [] {
      var n := |log.snaps|;
      SameHeaders(log.snaps, n - 1, log.snaps[n - 1].(rows := log.snaps[n - 1].rows + [e]));
    }
  }

  /** Replacing one snapshot's rows leaves the load readings alone. */
  lemma SameHeaders(snaps: seq<Snapshot>, i: nat, s: Snapshot)
    requires i < |snaps| && s.time == snaps[i].time && s.load1 == snaps[i].load1
    ensures LoadReadings(snaps[i := s]) == LoadReadings(snaps)
  {
    var a, b := LoadReadings(snaps[i := s]), LoadReadings(snaps);
    assert forall j :: 0 <= j < |a| ==> a[j] == b[j];
  }

  /** The open snapshot is the latest header's. */
  lemma OpenTimeAfter(evs: seq<Event>, e: Event)
    ensures OpenTime(Group(evs + [e])) == if e.Head? then Some(e.time) else OpenTime(Group(evs))
  {
    GroupSnoc(evs, e);
  }

  // ---------------------------------------------------------------------
  // The buckets.

  /** One watched name's bucket: `hi_cpu`/`hi_cpu_time`, `hi_mem`/`hi_mem_time`,
      `hi_inst`, `hi_inst_time` and the per-snapshot `inst_count`. */
  datatype ProcStats = ProcStats(
    hiCpu: Reading,
    hiMem: Reading,
    hiInst: int,
    hiInstTime: Option<string>,
    instCount: nat)

  /** A bucket as `init_buckets` creates it. */
  const FreshStats := ProcStats(NoReading, NoReading, -1, None, 0)

  /** A row whose command matches the bucket's name `k` times (once per
      occurrence of the name in the watch list), read at log time `t`. */
  function Matched(s: ProcStats, t: Option<string>, cpu: real, mem: real, k: nat): (r: ProcStats)
    ensures r.instCount == s.instCount + k
    ensures r.hiInst == s.hiInst && r.hiInstTime == s.hiInstTime
    ensures k > 0 ==> r.hiCpu.value >= s.hiCpu.value && r.hiCpu.value >= cpu
    ensures k > 0 ==> r.hiMem.value >= s.hiMem.value && r.hiMem.value >= mem
    ensures r.hiCpu != s.hiCpu ==> k > 0 && cpu > s.hiCpu.value && r.hiCpu == Reading(cpu, t)
    ensures r.hiMem != s.hiMem ==> k > 0 && mem > s.hiMem.value && r.hiMem == Reading(mem, t)
  {
    if k == 0 then s
    else s.(hiCpu := Bump(s.hiCpu, Reading(cpu, t)),
            hiMem := Bump(s.hiMem, Reading(mem, t)),
            instCount := s.instCount + k)
  }

  /** Finalising a snapshot for one bucket at header time `t`. */
  function Finalize(s: ProcStats, t: string): (r: ProcStats)
    ensures r.instCount == 0
    ensures r.hiInst >= s.hiInst && r.hiInst >= s.instCount
    ensures r.hiInst == s.hiInst || r.hiInst == s.instCount
    ensures r.hiInst > s.hiInst ==> r.hiInstTime == Some(t)
    ensures r.hiInst == s.hiInst ==> r.hiInstTime == s.hiInstTime
    ensures r.hiCpu == s.hiCpu && r.hiMem == s.hiMem
  {
    if s.instCount > s.hiInst then ProcStats(s.hiCpu, s.hiMem, s.instCount, Some(t), 0)
    else s.(instCount := 0)
  }

  /** One more matching occurrence in the watch list is one more step of the
      same update: the peaks are already at least this row's values. */
  lemma MatchedAgain(s: ProcStats, t: Option<string>, cpu: real, mem: real, k: nat)
    ensures var r := Matched(s, t, cpu, mem, k);
            Matched(s, t, cpu, mem, k + 1)
            == r.(hiCpu := Bump(r.hiCpu, Reading(cpu, t)), hiMem := Bump(r.hiMem, Reading(mem, t)),
                  instCount := r.instCount + 1)
  {
  }

  /** Finalising twice at the same time is finalising once: the counter is
      already 0 and the peak is at least 0. */
  lemma FinalizeIdempotent(s: ProcStats, t: string)
    ensures Finalize(Finalize(s, t), t) == Finalize(s, t)
  {
  }

  /** The session-wide buckets: `log_count`, `start`, `end`, `hi_load` with
      `hi_load_time`, and the keys of `all_processes`. */
  datatype Totals = Totals(
    logCount: nat,
    startTime: Option<string>,
    endTime: Option<string>,
    hiLoad: Reading,
    allProcesses: set<string>)

  /** `summarize_last_log`'s effect on the session-wide buckets. */
  function Summarized(tot: Totals, t: string): Totals {
    tot.(logCount := tot.logCount + 1,
         startTime := if tot.startTime.None? then Some(t) else tot.startTime,
         endTime := Some(t))
  }

  // ---------------------------------------------------------------------
  // What the buckets hold after a stream of events.

  /** How many snapshots have been finalised: all of them once input is
      closed, all but the open one before. */
  function Finalised(log: Log, closed: bool): (k: nat)
    ensures k <= |log.snaps|
  {
    if closed || log.snaps == [] then |log.snaps| else |log.snaps| - 1
  }

  /** The rows counted since the last finalisation. */
  function Window(log: Log, closed: bool): seq<Event> {
    if log.snaps == [] then log.prelude
    else if closed then []
    else log.snaps[|log.snaps| - 1].rows
  }

  /** The time of the open snapshot (the dispatcher's `log_time`). */
  function OpenTime(log: Log): Option<string> {
    if log.snaps == [] then None else Some(log.snaps[|log.snaps| - 1].time)
  }

  function ExpectedTotals(evs: seq<Event>, closed: bool): Totals {
    var log := Group(evs);
    var k := Finalised(log, closed);
    Totals(k,
           if k == 0 then None else Some(log.snaps[0].time),
           if k == 0 then None else Some(log.snaps[k - 1].time),
           RunMax(NoReading, LoadReadings(log.snaps)),
           CmdSet(evs))
  }

  ghost predicate StatsAgree(names: seq<string>, evs: seq<Event>, closed: bool, p: string, s: ProcStats) {
    var log := Group(evs);
    && s.hiCpu == RunMax(NoReading, RowReadings(evs, p, Cpu))
    && s.hiMem == RunMax(NoReading, RowReadings(evs, p, Mem))
    && Reading(s.hiInst as real, s.hiInstTime)
       == RunMax(NoReading, InstReadings(names, log.snaps[..Finalised(log, closed)], p))
    && s.instCount == Hits(names, Window(log, closed), p)
  }

  // ---------------------------------------------------------------------
  // Each event moves the expected buckets as the analyser's code does.

  lemma TotalsAtStart()
    ensures ExpectedTotals([], false) == Totals(0, None, None, NoReading, {})
  {
    assert LoadReadings([]) == [];
  }

  lemma StatsAtStart(names: seq<string>, p: string)
    ensures StatsAgree(names, [], false, p, FreshStats)
  {
    assert InstReadings(names, [], p) == [];
  }

  /** A header first finalises the open snapshot, if any, then competes for the load peak. */
  lemma TotalsAfterHead(evs: seq<Event>, t: string, l: real)
    ensures var tot := ExpectedTotals(evs, false);
            var open := OpenTime(Group(evs));
            var fin := if open.Some? then Summarized(tot, open.value) else tot;
            ExpectedTotals(evs + [Head(t, l)], false) == fin.(hiLoad := Bump(fin.hiLoad, Reading(l, Some(t))))
  {
    LoadReadingsAfterHead(evs, t, l);
    RunMaxSnoc(NoReading, LoadReadings(Group(evs).snaps), Reading(l, Some(t)));
    CmdSetSnoc(evs, Head(t, l));
    FinalisedAfterHead(evs, t, l);
  }

  /** After a header, the finalised snapshots are all the earlier ones. */
  lemma FinalisedAfterHead(evs: seq<Event>, t: string, l: real)
    ensures var log, log' := Group(evs), Group(evs + [Head(t, l)]);
            && Finalised(log', false) == |log.snaps|
            && (log.snaps != [] ==> log'.snaps[0] == log.snaps[0])
            && (log.snaps != [] ==> log'.snaps[|log.snaps| - 1] == log.snaps[|log.snaps| - 1])
  {
    GroupSnoc(evs, Head(t, l));
  }

  /** A collected row only adds its command to the set of all commands. */
  lemma TotalsAfterRow(evs: seq<Event>, e: Event)
    requires e.Row?
    ensures ExpectedTotals(evs + [e], false)
         == ExpectedTotals(evs, false).(allProcesses := ExpectedTotals(evs, false).allProcesses + {e.cmd})
  {
    var log := Group(evs);
    GroupSnoc(evs, e);
    CmdSetSnoc(evs, e);
    var log' := Group(evs + [e]);
    assert |log'.snaps| == |log.snaps|;
    assert forall i :: 0 <= i < |log.snaps| ==> log'.snaps[i].time == log.snaps[i].time && log'.snaps[i].load1 == log.snaps[i].load1;
    assert LoadReadings(log'.snaps) == LoadReadings(log.snaps);
  }

  /** End of input finalises the open snapshot, if any. */
  lemma TotalsAtClose(evs: seq<Event>)
    ensures var open := OpenTime(Group(evs));
            ExpectedTotals(evs, true)
            == if open.Some? then Summarized(ExpectedTotals(evs, false), open.value) else ExpectedTotals(evs, false)
  {
  }

  /** Finalising the last snapshot extends the instance peak by its count. */
  lemma FinalizeExtendsInstPeak(names: seq<string>, snaps: seq<Snapshot>, p: string, s: ProcStats)
    requires snaps != []
    requires Reading(s.hiInst as real, s.hiInstTime)
             == RunMax(NoReading, InstReadings(names, snaps[..|snaps| - 1], p))
    requires s.instCount == Hits(names, snaps[|snaps| - 1].rows, p)
    ensures var r := Finalize(s, snaps[|snaps| - 1].time);
            Reading(r.hiInst as real, r.hiInstTime) == RunMax(NoReading, InstReadings(names, snaps, p))
  {
    var n := |snaps|;
    assert snaps == snaps[..n - 1] + [snaps[n - 1]];
    InstReadingsSnoc(names, snaps[..n - 1], snaps[n - 1], p);
    RunMaxSnoc(NoReading, InstReadings(names, snaps[..n - 1], p),
               Reading(s.instCount as real, Some(snaps[n - 1].time)));
  }

  /** A header is no row: the row readings are unchanged. */
  lemma HeadKeepsRowReadings(evs: seq<Event>, t: string, l: real, p: string, m: Metric)
    ensures RowReadings(evs + [Head(t, l)], p, m) == RowReadings(evs, p, m)
  {
    RowReadingsSnoc(evs, Head(t, l), p, m);
    assert RowReadings(evs, p, m) + [] == RowReadings(evs, p, m);
  }

  /** A header finalises the open snapshot, if any, and opens an empty window;
      the first header keeps the rows seen so far in its window. */
  lemma WindowAfterHead(evs: seq<Event>, t: string, l: real)
    ensures var log, log' := Group(evs), Group(evs + [Head(t, l)]);
            && (log.snaps == [] ==> Finalised(log', false) == 0 && Window(log', false) == Window(log, false))
            && (log.snaps != [] ==> log'.snaps[..Finalised(log', false)] == log.snaps && Window(log', false) == [])
            && OpenTime(log') == Some(t)
  {
    GroupSnoc(evs, Head(t, l));
    var log, log' := Group(evs), Group(evs + [Head(t, l)]);
    if log.snaps != [] {
      assert log'.snaps[..|log.snaps|] == log.snaps;
    }
  }

  lemma StatsAfterHead(names: seq<string>, evs: seq<Event>, t: string, l: real, p: string, s: ProcStats)
    requires StatsAgree(names, evs, false, p, s)
    ensures var open := OpenTime(Group(evs));
            StatsAgree(names, evs + [Head(t, l)], false, p, if open.Some? then Finalize(s, open.value) else s)
  {
    var log, log' := Group(evs), Group(evs + [Head(t, l)]);
    HeadKeepsRowReadings(evs, t, l, p, Cpu);
    HeadKeepsRowReadings(evs, t, l, p, Mem);
    WindowAfterHead(evs, t, l);
    if log.snaps == [] {
      assert log'.snaps[..0] == log.snaps[..0];
    } else {
      FinalizeExtendsInstPeak(names, log.snaps, p, s);
    }
  }

  /** A row for `p` competes for its CPU or memory peak; any other row does not. */
  lemma RowPeakAfterRow(evs: seq<Event>, e: Event, p: string, m: Metric)
    requires e.Row?
    ensures RunMax(NoReading, RowReadings(evs + [e], p, m))
         == if e.cmd == p then Bump(RunMax(NoReading, RowReadings(evs, p, m)), Reading(if m == Cpu then e.cpu else e.mem, e.at))
            else RunMax(NoReading, RowReadings(evs, p, m))
  {
    RowReadingsSnoc(evs, e, p, m);
    if e.cmd == p {
      RunMaxSnoc(NoReading, RowReadings(evs, p, m), Reading(if m == Cpu then e.cpu else e.mem, e.at));
    } else {
      assert RowReadings(evs, p, m) + [] == RowReadings(evs, p, m);
    }
  }

  /** A row leaves the finalised snapshots alone and joins the open window. */
  lemma WindowAfterRow(evs: seq<Event>, e: Event)
    requires e.Row?
    ensures var log, log' := Group(evs), Group(evs + [e]);
            && Finalised(log', false) == Finalised(log, false)
            && log'.snaps[..Finalised(log', false)] == log.snaps[..Finalised(log, false)]
            && Window(log', false) == Window(log, false) + [e]
            && OpenTime(log') == OpenTime(log)
  {
    GroupSnoc(evs, e);
    var log, log' := Group(evs), Group(evs + [e]);
    var k := Finalised(log, false);
    assert log'.snaps[..k] == log.snaps[..k];
  }

  lemma StatsAfterRow(names: seq<string>, evs: seq<Event>, e: Event, p: string, s: ProcStats)
    requires e.Row? && p in names
    requires StatsAgree(names, evs, false, p, s)
    ensures StatsAgree(names, evs + [e], false, p,
                       if e.cmd == p then Matched(s, e.at, e.cpu, e.mem, multiset(names)[p]) else s)
  {
    var log, log' := Group(evs), Group(evs + [e]);
    var occ := multiset(names)[p];
    var s' := if e.cmd == p then Matched(s, e.at, e.cpu, e.mem, occ) else s;
    RowPeakAfterRow(evs, e, p, Cpu);
    RowPeakAfterRow(evs, e, p, Mem);
    WindowAfterRow(evs, e);
    HitsSnoc(names, Window(log, false), e, p);
    assert e.cmd == p ==> occ > 0;
    assert s'.instCount == Hits(names, Window(log', false), p);
  }

  lemma StatsAtClose(names: seq<string>, evs: seq<Event>, p: string, s: ProcStats)
    requires StatsAgree(names, evs, false, p, s)
    ensures var open := OpenTime(Group(evs));
            StatsAgree(names, evs, true, p, if open.Some? then Finalize(s, open.value) else s)
  {
    var log := Group(evs);
    var open := OpenTime(log);
    var s' := if open.Some? then Finalize(s, open.value) else s;
    if log.snaps != [] {
      assert log.snaps[..|log.snaps|] == log.snaps;
      FinalizeExtendsInstPeak(names, log.snaps, p, s);
      assert Reading(s'.hiInst as real, s'.hiInstTime)
       == RunMax(NoReading, InstReadings(names, log.snaps[..Finalised(log, true)], p));
      assert s'.instCount == Hits(names, Window(log, true), p);
    }
    assert s'.hiCpu == RunMax(NoReading, RowReadings(evs, p, Cpu));
    assert s'.hiMem == RunMax(NoReading, RowReadings(evs, p, Mem));
  }

  // ---------------------------------------------------------------------
  // What the final buckets mean.

  lemma HasRowForSnoc(rows: seq<Event>, e: Event, p: string)
    ensures HasRowFor(rows + [e], p) <==> HasRowFor(rows, p) || (e.Row? && e.cmd == p)
  {
    if HasRowFor(rows, p) {
      var j :| 0 <= j < |rows| && rows[j].Row? && rows[j].cmd == p;
      assert (rows + [e])[j] == rows[j];
    }
    if e.Row? && e.cmd == p {
      assert (rows + [e])[|rows|] == e;
    }
    if HasRowFor(rows + [e], p) && !(e.Row? && e.cmd == p) {
      var j :| 0 <= j < |rows| + 1 && (rows + [e])[j].Row? && (rows + [e])[j].cmd == p;
      assert rows[j] == (rows + [e])[j];
    }
  }

  /** Some window of the log (the prelude or a snapshot's) has a row for `p`. */
  predicate AnyWindowHas(log: Log, p: string) {
    HasRowFor(log.prelude, p) || exists i :: 0 <= i < |log.snaps| && HasRowFor(log.snaps[i].rows, p)
  }

  /** Grouping loses no row: a row for `p` is in some window exactly when it
      is among the events. */
  lemma {:induction false} WindowsKeepRows(evs: seq<Event>, p: string)
    ensures AnyWindowHas(Group(evs), p) <==> HasRowFor(evs, p)
    decreases |evs|
  {
    if evs != [] {
      var n := |evs|;
      WindowsKeepRows(evs[..n - 1], p);
      assert evs == evs[..n - 1] + [evs[n - 1]];
      HasRowForSnoc(evs[..n - 1], evs[n - 1], p);
      WindowsKeepRowsStep(Group(evs[..n - 1]), evs[n - 1], p);
    }
  }

  lemma WindowsKeepRowsStep(log: Log, e: Event, p: string)
    ensures AnyWindowHas(Extend(log, e), p) <==> AnyWindowHas(log, p) || (e.Row? && e.cmd == p)
  {
    var log' := Extend(log, e);
    var n := |log.snaps|;
    if e.Head? {
      if log.snaps == [] {
        assert HasRowFor(log.prelude, p) <==> HasRowFor(log'.snaps[0].rows, p);
      } else {
        assert HasRowFor(log'.snaps[n].rows, p) == false;
        assert forall i :: 0 <= i < n ==> log'.snaps[i] == log.snaps[i];
      }
    } else if log.snaps == [] {
      HasRowForSnoc(log.prelude, e, p);
    } else {
      HasRowForSnoc(log.snaps[n - 1].rows, e, p);
      assert forall i :: 0 <= i < n - 1 ==> log'.snaps[i] == log.snaps[i];
      if AnyWindowHas(log, p) {
        if !HasRowFor(log.prelude, p) {
          var i :| 0 <= i < n && HasRowFor(log.snaps[i].rows, p);
          assert HasRowFor(log'.snaps[i].rows, p);
        }
      }
      assert log'.snaps[n - 1].rows == log.snaps[n - 1].rows + [e];
      if e.Row? && e.cmd == p {
        assert HasRowFor(log'.snaps[n - 1].rows, p);
      }
      if AnyWindowHas(log', p) && !(e.Row? && e.cmd == p) {
        if !HasRowFor(log'.prelude, p) {
          var i :| 0 <= i < n && HasRowFor(log'.snaps[i].rows, p);
          if i < n - 1 {
            assert HasRowFor(log.snaps[i].rows, p);
          } else {
            assert HasRowFor(log.snaps[n - 1].rows, p);
          }
        }
      }
    }
  }


  /** A name no collected row carries keeps its CPU and memory sentinels. */
  lemma {:induction false} UnseenKeepsSentinel(evs: seq<Event>, p: string, m: Metric)
    requires forall i :: 0 <= i < |evs| && evs[i].Row? ==> evs[i].cmd != p
    ensures RowReadings(evs, p, m) == []
    ensures RunMax(NoReading, RowReadings(evs, p, m)) == NoReading
    decreases |evs|
  {
    if evs != [] {
      UnseenKeepsSentinel(evs[..|evs| - 1], p, m);
    }
  }

  /** With `p` watched, a window adds to its counter exactly when it has a row for `p`. */
  lemma {:induction false} HitsPositive(names: seq<string>, rows: seq<Event>, p: string)
    requires p in names
    ensures Hits(names, rows, p) > 0 <==> HasRowFor(rows, p)
    decreases |rows|
  {
    if rows != [] {
      var n := |rows|;
      HitsPositive(names, rows[..n - 1], p);
      assert multiset(names)[p] > 0;
      if HasRowFor(rows[..n - 1], p) {
        var j :| 0 <= j < n - 1 && rows[..n - 1][j].Row? && rows[..n - 1][j].cmd == p;
        assert rows[j] == rows[..n - 1][j];
      }
      if HasRowFor(rows, p) && !(rows[n - 1].Row? && rows[n - 1].cmd == p) {
        var j :| 0 <= j < n && rows[j].Row? && rows[j].cmd == p;
        assert rows[..n - 1][j] == rows[j];
      }
    }
  }

  /** The instance peak of a watched name after snapshots are finalised:
      -1 exactly when there were none; otherwise at least 0, and 0 exactly
      when no finalised snapshot had a row for it. */
  lemma InstPeakSentinels(names: seq<string>, snaps: seq<Snapshot>, p: string)
    requires p in names
    ensures var r := RunMax(NoReading, InstReadings(names, snaps, p));
            && (snaps == [] <==> r == NoReading)
            && (snaps != [] ==> r.value >= 0.0)
            && (snaps != [] ==> (r.value == 0.0 <==> forall i :: 0 <= i < |snaps| ==> !HasRowFor(snaps[i].rows, p)))
  {
    var xs := InstReadings(names, snaps, p);
    var r := RunMax(NoReading, xs);
    RunMaxIsFirstPeak(NoReading, xs);
    if snaps != [] {
      assert xs[0].value >= 0.0;
      if forall i :: 0 <= i < |snaps| ==> !HasRowFor(snaps[i].rows, p) {
        forall i | 0 <= i < |xs| ensures xs[i].value == 0.0 {
          HitsPositive(names, snaps[i].rows, p);
        }
      } else {
        var i :| 0 <= i < |snaps| && HasRowFor(snaps[i].rows, p);
        HitsPositive(names, snaps[i].rows, p);
        assert xs[i].value >= 1.0;
      }
    }
  }
}
