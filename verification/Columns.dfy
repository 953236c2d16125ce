/**
 What the columns of getResults hold for a set that createEventSet filled in (src/c/measurement.c, src/c/measure.c,
 src/c/events.c): the header is the list of requested names, and the value of each name is the difference of the
 readings of the probe that the name stands for.
 */
module Columns {
  import opened Common
  import opened Snapshots
  import opened Events
  import opened EventSets
  import opened Registration

  // Set s has been created for these names.
  ghost predicate CreatedFor(s: EventSet, names: seq<string>, lookup: PapiLookup) {
    var c := Collect(names, ResolutionBy(lookup));
    c.Complete? && s.mask == c.registry.mask && s.events == c.registry.events && s.papiIds == c.registry.ids
  }

  lemma EventOfName(s: EventSet, names: seq<string>, lookup: PapiLookup, e: nat)
    requires CreatedFor(s, names, lookup) && e < |names|
    ensures |s.events| == |names|
    ensures Some(s.events[e].(papiIndex := 0)) == Resolve(names[e], lookup, BLANK)
    ensures WellPaired(s.events[e]) && Uses(s.mask, s.events[e].backend)
  {
    CompleteIsRegistered(names, lookup);
    assert ResolutionBy(lookup)(names[e]) == Resolve(names[e], lookup, BLANK);
    assert HasBackend(s.events, s.events[e].backend);
    PairedBackend(s.events[e]);
  }

  // The column headers are the names as they were requested.
  lemma HeaderIsTheRequest(s: EventSet, names: seq<string>, lookup: PapiLookup)
    requires CreatedFor(s, names, lookup)
    ensures EventNames(s.events) == names
  {
    CompleteIsRegistered(names, lookup);
    forall e | 0 <= e < |names| ensures EventNames(s.events)[e] == names[e] {
      EventOfName(s, names, lookup, e);
      ResolvedIsWellPaired(names[e], lookup, BLANK);
    }
  }

  // ---------- the last row ----------

  // The snapshots of a start at call number t0 and a stop at t1.
  ghost function StartCell(s: EventSet, r: Readings, t0: nat): Snapshot
    requires Usable(s)
  {
    Act(s, Start, r, t0).data[Cell(s, Start)]
  }

  ghost predicate CanStop(s: EventSet, r: Readings, t0: nat)
    requires Usable(s)
  {
    InBounds(Act(s, Start, r, t0), Stop)
  }

  ghost function StopCell(s: EventSet, r: Readings, t0: nat, t1: nat): Snapshot
    requires Usable(s) && CanStop(s, r, t0)
  {
    var s1 := Act(s, Start, r, t0);
    Act(s1, Stop, r, t1).data[Cell(s1, Stop)]
  }

  ghost function LastRow(s: EventSet, r: Readings, t0: nat, t1: nat): (row: seq<int>)
    requires Canonical(s) && Alternates(s.log)
  {
    PairOfActs(s, t0, t1, r);
    var rows := Results(Act(Act(s, Start, r, t0), Stop, r, t1));
    if rows == [] then [] else rows[|rows| - 1]
  }

  lemma LastRowIs(s: EventSet, r: Readings, t0: nat, t1: nat)
    requires Canonical(s) && Alternates(s.log)
    ensures CanStop(s, r, t0)
    ensures Results(Act(Act(s, Start, r, t0), Stop, r, t1)) != []
    ensures LastRow(s, r, t0, t1) == Row(s.events, StartCell(s, r, t0), StopCell(s, r, t0, t1))
  {
    PairOfActs(s, t0, t1, r);
    var s1 := Act(s, Start, r, t0);
    var s2 := Act(s1, Stop, r, t1);
    var x := OneMore(s, Start, r, t0, s1);
    var y := OneMore(s1, Stop, r, t1, s2);
    LastResult(s2, s.log, x, y, |s.log| / 2);
  }

  lemma LastResult(s: EventSet, log: seq<Snapshot>, x: Snapshot, y: Snapshot, k: nat)
    requires Canonical(s) && Alternates(s.log) && s.log == log + [x] + [y] && |log| == 2 * k
    ensures Results(s) != [] && Results(s)[|Results(s)| - 1] == Row(s.events, x, y)
  {
    ResultsOfAlternatingLog(s);
    LastMeasured(s.events, log, x, y, k);
    assert |s.log| / 2 == k + 1;
  }

  lemma LastMeasured(events: seq<EventInfo>, log: seq<Snapshot>, x: Snapshot, y: Snapshot, k: nat)
    requires |log| == 2 * k
    ensures Measured(events, log + [x] + [y], k) == Row(events, x, y)
  {
  }

  // ---------- the values ----------

  // What the two cells hold in the fields of enabled backends.
  lemma MeasuredCells(s: EventSet, r: Readings, t0: nat, t1: nat, x: Snapshot, y: Snapshot)
    requires Usable(s) && CanStop(s, r, t0) && x == StartCell(s, r, t0) && y == StopCell(s, r, t0, t1)
    ensures Uses(s.mask, WALLCLOCK) ==>
              && x.timestamp == r.wall(StartTick(s.mask, WallClock, t0))
              && y.timestamp == r.wall(StopTick(s.mask, WallClock, t1))
    ensures Uses(s.mask, THREADTIME) ==>
              && x.threadtime == r.cpu(StartTick(s.mask, CpuTime, t0))
              && y.threadtime == r.cpu(StopTick(s.mask, CpuTime, t1))
    ensures Uses(s.mask, RESOURCE_USAGE) ==>
              x.usage == r.usage(StartTick(s.mask, Usage, t0)) && y.usage == r.usage(StopTick(s.mask, Usage, t1))
    ensures Uses(s.mask, COMPILATIONS) ==>
              && x.compilations == r.compilations(StartTick(s.mask, Compiled, t0))
              && y.compilations == r.compilations(StopTick(s.mask, Compiled, t1))
  {
    CellAfter(s, Start, r, t0);
    CellAfter(Act(s, Start, r, t0), Stop, r, t1);
  }

  lemma MeasuredCounters(s: EventSet, r: Readings, t0: nat, t1: nat, x: Snapshot, y: Snapshot, i: nat)
    requires Usable(s) && CanStop(s, r, t0) && x == StartCell(s, r, t0) && y == StopCell(s, r, t0, t1)
    requires Uses(s.mask, PAPI) && i < |s.papiIds|
    ensures x.rc2 == r.papi(t0).rc
    ensures x.rc1 == r.papi(StartTick(s.mask, Counters, t0)).rc && y.rc1 == r.papi(StopTick(s.mask, Counters, t1)).rc
    ensures x.rc1 == 0 ==> x.papi[i] == r.papi(StartTick(s.mask, Counters, t0)).values[i]
    ensures y.rc1 == 0 ==> y.papi[i] == r.papi(StopTick(s.mask, Counters, t1)).values[i]
  {
    CellAfter(s, Start, r, t0);
    CellAfter(Act(s, Start, r, t0), Stop, r, t1);
  }

  // Every built-in name, in any case and under its legacy name, gives the difference of its own probe's readings.
  lemma BuiltInColumn(s: EventSet, names: seq<string>, lookup: PapiLookup, r: Readings, t0: nat, t1: nat, e: nat)
    requires CreatedFor(s, names, lookup) && Canonical(s) && Alternates(s.log) && e < |names|
    ensures e < |LastRow(s, r, t0, t1)|
    ensures var v, name := LastRow(s, r, t0, t1)[e], names[e];
            && (IsName(name, "SYS:wallclock-time", "SYS_WALLCLOCK") ==>
                  var a, b := r.wall(StartTick(s.mask, WallClock, t0)), r.wall(StopTick(s.mask, WallClock, t1));
                  v == (b.sec - a.sec) * 1000000000 + b.nsec - a.nsec)
            && (IsName(name, "SYS:thread-time", "") ==>
                  var a, b := r.cpu(StartTick(s.mask, CpuTime, t0)), r.cpu(StopTick(s.mask, CpuTime, t1));
                  v == (b.sec - a.sec) * 1000000000 + b.nsec - a.nsec)
            && (IsName(name, "JVM:compilations", "JVM_COMPILATIONS") ==>
                  v == r.compilations(StopTick(s.mask, Compiled, t1)) - r.compilations(StartTick(s.mask, Compiled, t0)))
            && (IsName(name, "SYS:forced-context-switches", "forced-context-switch") ==>
                  v == r.usage(StopTick(s.mask, Usage, t1)).nivcsw - r.usage(StartTick(s.mask, Usage, t0)).nivcsw)
            && (IsName(name, "SYS:thread-time-rusage", "") ==>
                  var a, b := r.usage(StartTick(s.mask, Usage, t0)), r.usage(StopTick(s.mask, Usage, t1));
                  v == 1000 * (1000000 * (b.utime.sec + b.stime.sec - a.utime.sec - a.stime.sec)
                               + b.utime.usec + b.stime.usec - a.utime.usec - a.stime.usec))
  {
    EventOfName(s, names, lookup, e);
    LastRowIs(s, r, t0, t1);
    var x, y := StartCell(s, r, t0), StopCell(s, r, t0, t1);
    MeasuredCells(s, r, t0, t1, x, y);
    BuiltInValues(s.events[e], x, y);
    NameGivesGetter(names[e], lookup);
  }

  // The getter of each name; the names of different kinds are different.
  lemma NameGivesGetter(name: string, lookup: PapiLookup)
    ensures IsName(name, "SYS:wallclock-time", "SYS_WALLCLOCK") ==> Means(name, lookup, WallClockTime)
    ensures IsName(name, "SYS:thread-time", "") ==> Means(name, lookup, ThreadTime)
    ensures IsName(name, "JVM:compilations", "JVM_COMPILATIONS") ==> Means(name, lookup, JvmCompilations)
    ensures IsName(name, "SYS:forced-context-switches", "forced-context-switch") ==> Means(name, lookup, ForcedSwitches)
    ensures IsName(name, "SYS:thread-time-rusage", "") ==> Means(name, lookup, RusageTime)
  {
    forall k: nat | IsBuiltIn(k) && SameIgnoringCase(name, KNOWN_EVENTS[k].name)
      ensures Means(name, lookup, KNOWN_EVENTS[k].getter)
    {
      ResolvesAt(name, lookup, BLANK, k);
    }
    assert KNOWN_EVENTS[8].name == "SYS:wallclock-time" && KNOWN_EVENTS[1].name == "SYS_WALLCLOCK";
    assert KNOWN_EVENTS[6].name == "SYS:thread-time" && KNOWN_EVENTS[7].name == "SYS:thread-time-rusage";
    assert KNOWN_EVENTS[3].name == "JVM:compilations" && KNOWN_EVENTS[0].name == "JVM_COMPILATIONS";
    assert KNOWN_EVENTS[5].name == "SYS:forced-context-switches" && KNOWN_EVENTS[2].name == "forced-context-switch";
  }

  predicate Means(name: string, lookup: PapiLookup, getter: Getter) {
    Resolve(name, lookup, BLANK).Some? && Resolve(name, lookup, BLANK).value.getter == getter
  }

  lemma PapiIndexOfName(s: EventSet, names: seq<string>, lookup: PapiLookup, e: nat)
    requires CreatedFor(s, names, lookup) && e < |names| && e < |s.events| && s.events[e].backend == PAPI
    ensures s.events[e].papiIndex < |s.papiIds|
    ensures s.events[e].id in s.papiIds ==> s.papiIds[s.events[e].papiIndex] == s.events[e].id
  {
    CompleteIsRegistered(names, lookup);
    assert IndexOk(s.events[e], s.papiIds);
  }

  // A PAPI name gives the difference of its own counter when the calls succeed, and otherwise the code of the first
  // of PAPI_read, PAPI_start and PAPI_stop that failed, in this order.
  lemma PapiColumn(s: EventSet, names: seq<string>, lookup: PapiLookup, r: Readings, t0: nat, t1: nat, e: nat,
                   rest: string)
    requires CreatedFor(s, names, lookup) && Canonical(s) && Alternates(s.log)
    requires e < |names| && names[e] == "PAPI:" + rest && lookup(rest).Some?
    ensures e < |LastRow(s, r, t0, t1)|
    ensures var v := LastRow(s, r, t0, t1)[e];
            var started, read := r.papi(t0).rc, r.papi(StartTick(s.mask, Counters, t0));
            var stopped := r.papi(StopTick(s.mask, Counters, t1));
            && (read.rc != 0 ==> v == read.rc)
            && (read.rc == 0 && started != 0 ==> v == started)
            && (read.rc == 0 && started == 0 && stopped.rc != 0 ==> v == stopped.rc)
            && (read.rc == 0 && started == 0 && stopped.rc == 0 ==>
                  var i := s.events[e].papiIndex;
                  && i < |s.papiIds| && v == stopped.values[i] - read.values[i]
                  && (lookup(rest).value.id in s.papiIds ==> s.papiIds[i] == lookup(rest).value.id))
  {
    EventOfName(s, names, lookup, e);
    PrefixedNameResolves(rest, lookup, BLANK);
    PapiIndexOfName(s, names, lookup, e);
    LastRowIs(s, r, t0, t1);
    var x, y := StartCell(s, r, t0), StopCell(s, r, t0, t1);
    MeasuredCounters(s, r, t0, t1, x, y, s.events[e].papiIndex);
    FailedCodesWin(s.events[e], x, y);
  }

  // ---------- all rows since the creation ----------

  // The set that createEventSet leaves for m measurements: room for m pairs of snapshots, all zero, none taken.
  ghost predicate IsNew(s: EventSet, m: nat, names: seq<string>, lookup: PapiLookup) {
    && CreatedFor(s, names, lookup)
    && |s.data| == 2 * m && (forall c :: 0 <= c < |s.data| ==> s.data[c] == ZERO)
    && s.index == 0 && s.log == []
  }

  lemma NewIsCanonical(s: EventSet, m: nat, names: seq<string>, lookup: PapiLookup)
    requires m >= 1 && IsNew(s, m, names, lookup)
    ensures Canonical(s) && Alternates(s.log)
  {
  }

  // Start, stop, start, stop, ..., without a reset.
  ghost predicate IsPairs(run: seq<Timed>) {
    |run| % 2 == 0 && forall i :: 0 <= i < |run| ==> run[i].0 == if i % 2 == 0 then Start else Stop
  }

  lemma {:induction false} PairsAlternate(run: seq<Timed>)
    requires IsPairs(run)
    ensures Alternating(run)
    decreases |run|
  {
    if run != [] {
      assert run[0].0 == Start && run[1].0 == Stop;
      PairsAlternate(run[2..]);
    }
  }

  // Without a reset the log only grows.
  lemma {:induction false} LogExtends(s: EventSet, run: seq<Timed>, r: Readings)
    requires Canonical(s) && Safe(s, run, r) && forall i :: 0 <= i < |run| ==> !run[i].0.Reset?
    ensures s.log <= Run(s, run, r).log && Run(s, run, r).events == s.events
    decreases |run|
  {
    if run != [] {
      var s1 := Act(s, run[0].0, r, run[0].1);
      ActKeepsClosedForm(s, run[0].0, r, run[0].1);
      LogExtends(s1, run[1..], r);
    }
  }

  lemma {:induction false} RunInTwo(s: EventSet, run: seq<Timed>, n: nat, r: Readings)
    requires Canonical(s) && Safe(s, run, r) && n <= |run|
    ensures Safe(s, run[..n], r) && Canonical(Run(s, run[..n], r))
    ensures Safe(Run(s, run[..n], r), run[n..], r) && Run(s, run, r) == Run(Run(s, run[..n], r), run[n..], r)
    decreases n
  {
    if n > 0 {
      ActKeepsClosedForm(s, run[0].0, r, run[0].1);
      RunInTwo(Act(s, run[0].0, r, run[0].1), run[1..], n - 1, r);
      assert run[..n][1..] == run[1..][..n - 1] && run[1..][n - 1..] == run[n..];
    } else {
      assert run[..0] == [] && run[0..] == run;
    }
  }

  // The set just before pair j of the run.
  ghost function Before(s: EventSet, run: seq<Timed>, r: Readings, j: nat): (b: EventSet)
    requires Canonical(s) && Alternates(s.log) && IsPairs(run) && 2 * j <= |run|
    ensures Canonical(b) && Alternates(b.log) && |b.log| == |s.log| + 2 * j && b.events == s.events
  {
    assert IsPairs(run[..2 * j]);
    PairsAlternate(run[..2 * j]);
    AlternatingRunLogs(s, run[..2 * j], r);
    RunKeepsClosedForm(s, run[..2 * j], r);
    Run(s, run[..2 * j], r)
  }

  lemma TwoActs(b: EventSet, rest: seq<Timed>, r: Readings, b1: EventSet, b2: EventSet)
    requires Canonical(b) && |rest| >= 2 && rest[0].0 == Start && rest[1].0 == Stop && Safe(b, rest, r)
    requires b1 == Act(b, Start, r, rest[0].1) && Canonical(b1) && InBounds(b1, Stop)
    requires b2 == Act(b1, Stop, r, rest[1].1)
    ensures Canonical(b2) && Safe(b2, rest[2..], r) && Run(b, rest, r) == Run(b2, rest[2..], r)
  {
    ActKeepsClosedForm(b1, Stop, r, rest[1].1);
    assert rest[1..][0] == rest[1] && rest[1..][1..] == rest[2..];
  }

  lemma PairOfPrefix(events: seq<EventInfo>, log: seq<Snapshot>, front: seq<Snapshot>, x: Snapshot, y: Snapshot, j: nat)
    requires |front| == 2 * j && front + [x] + [y] <= log
    ensures 2 * j + 1 < |log| && Measured(events, log, j) == Row(events, x, y)
  {
    var all := front + [x] + [y];
    assert log[2 * j] == all[2 * j] == x && log[2 * j + 1] == all[2 * j + 1] == y;
  }

  // The first pair of a run without a reset stays in the log, and its row is the last one after it.
  lemma FirstPairStays(b: EventSet, rest: seq<Timed>, r: Readings, final: EventSet) returns (x: Snapshot, y: Snapshot)
    requires Canonical(b) && Alternates(b.log) && |rest| >= 2 && IsPairs(rest) && Safe(b, rest, r)
    requires final == Run(b, rest, r)
    ensures b.log + [x] + [y] <= final.log
    ensures LastRow(b, r, rest[0].1, rest[1].1) == Row(b.events, x, y)
  {
    var t0, t1 := rest[0].1, rest[1].1;
    assert rest[0].0 == Start && rest[1].0 == Stop;
    PairOfActs(b, t0, t1, r);
    var b1 := Act(b, Start, r, t0);
    var b2 := Act(b1, Stop, r, t1);
    x := OneMore(b, Start, r, t0, b1);
    y := OneMore(b1, Stop, r, t1, b2);
    TwoActs(b, rest, r, b1, b2);
    PairsDoNotReset(rest);
    LogExtends(b2, rest[2..], r);
    LastRowIs(b, r, t0, t1);
  }

  lemma PairsDoNotReset(rest: seq<Timed>)
    requires IsPairs(rest) && |rest| >= 2
    ensures forall i :: 0 <= i < |rest[2..]| ==> !rest[2..][i].0.Reset?
  {
    forall i | 0 <= i < |rest[2..]| ensures !rest[2..][i].0.Reset? {
      assert rest[2..][i] == rest[i + 2];
    }
  }

  // The row that getResults gives last when called right after pair j of the run.
  ghost function RowOfPair(s: EventSet, run: seq<Timed>, r: Readings, j: nat): seq<int>
    requires Canonical(s) && Alternates(s.log) && IsPairs(run) && 2 * j + 1 < |run|
  {
    LastRow(Before(s, run, r, j), r, run[2 * j].1, run[2 * j + 1].1)
  }

  // Measurement j of the log is the row of pair j.
  lemma MeasuredIsRowOfPair(s: EventSet, run: seq<Timed>, r: Readings, j: nat, final: EventSet)
    requires Canonical(s) && s.log == [] && IsPairs(run) && 2 * j + 1 < |run|
    requires Safe(s, run, r) && final == Run(s, run, r)
    ensures 2 * j + 1 < |final.log| && Measured(s.events, final.log, j) == RowOfPair(s, run, r, j)
  {
    RunInTwo(s, run, 2 * j, r);
    var b, rest := Before(s, run, r, j), run[2 * j..];
    assert rest[0] == run[2 * j] && rest[1] == run[2 * j + 1];
    PairsFrom(run, j);
    var x, y := FirstPairStays(b, rest, r, final);
    PairOfPrefix(s.events, final.log, b.log, x, y, j);
  }

  lemma PairsFrom(run: seq<Timed>, j: nat)
    requires IsPairs(run) && 2 * j <= |run|
    ensures IsPairs(run[2 * j..])
  {
    forall i | 0 <= i < |run[2 * j..]| ensures run[2 * j..][i].0 == if i % 2 == 0 then Start else Stop {
      assert run[2 * j..][i] == run[2 * j + i] && (2 * j + i) % 2 == i % 2;
    }
  }

  // Which of k pairs row j comes from, with room for m: the first ones from their own, the last from the last.
  function PairShown(k: nat, m: nat, j: nat): nat {
    if k > m && j == m - 1 then k - 1 else j
  }

  lemma ShownRows(s: EventSet, k: nat, m: nat, j: nat)
    requires Canonical(s) && Alternates(s.log) && |s.log| == 2 * k && |s.data| == 2 * m && j < Min(k, m)
    ensures |Results(s)| == Min(k, m) && Results(s)[j] == Measured(s.events, s.log, PairShown(k, m, j))
  {
    ResultsOfAlternatingLog(s);
  }

  lemma RunOfPairs(s: EventSet, run: seq<Timed>, r: Readings)
    requires Canonical(s) && s.log == [] && IsPairs(run)
    ensures Safe(s, run, r)
    ensures var s' := Run(s, run, r);
            && Canonical(s') && Alternates(s'.log) && |s'.log| == |run|
            && s'.events == s.events && |s'.data| == |s.data|
  {
    PairsAlternate(run);
    AlternatingRunLogs(s, run, r);
    RunKeepsClosedForm(s, run, r);
  }

  // For the m that was passed to createEventSet: after k start/stop pairs getResults gives min(k, m) rows, row j being
  // the row of pair j while k <= m; beyond that they are the rows of the first m - 1 pairs and of the last.
  lemma RowsOfCreatedSet(s: EventSet, m: nat, names: seq<string>, lookup: PapiLookup, run: seq<Timed>, r: Readings,
                         k: nat)
    requires m >= 1 && IsNew(s, m, names, lookup) && IsPairs(run) && |run| == 2 * k
    ensures Canonical(s) && Safe(s, run, r)
    ensures var rows := Results(Run(s, run, r));
            && |rows| == Min(k, m)
            && forall j :: 0 <= j < Min(k, m) ==> rows[j] == RowOfPair(s, run, r, PairShown(k, m, j))
  {
    NewIsCanonical(s, m, names, lookup);
    RunOfPairs(s, run, r);
    var s' := Run(s, run, r);
    ResultsOfAlternatingLog(s');
    forall j | 0 <= j < Min(k, m) ensures Results(s')[j] == RowOfPair(s, run, r, PairShown(k, m, j)) {
      ShownRows(s', k, m, j);
      MeasuredIsRowOfPair(s, run, r, PairShown(k, m, j), s');
    }
  }

  // ---------- raw rows ----------

  // The last raw row after a start, sample or stop ends with the type: -1, the user's id, or -2.
  lemma RawTypeOfLast(s: EventSet, a: Action, r: Readings, t: nat)
    requires Usable(s) && InBounds(s, a) && !a.Reset?
    ensures var rows, n := RawResults(Act(s, a, r, t)), |s.events|;
            && |rows| == Cell(s, a) + 1 && |rows[|rows| - 1]| == n + 1
            && rows[|rows| - 1][n] == (match a case Start => -1 case Stop => -2 case Sample(user) => user)
  {
    CellAfter(s, a, r, t);
  }

  // The last raw row after a start, sample or stop gives for every built-in name the reading of its own probe.
  lemma RawBuiltInColumn(s: EventSet, names: seq<string>, lookup: PapiLookup, a: Action, r: Readings, t: nat, e: nat)
    requires CreatedFor(s, names, lookup) && Usable(s) && InBounds(s, a) && !a.Reset? && e < |names|
    ensures var rows := RawResults(Act(s, a, r, t)); rows != [] && e < |rows[|rows| - 1]|
    ensures var rows := RawResults(Act(s, a, r, t));
            var v, name := rows[|rows| - 1][e], names[e];
            && (IsName(name, "SYS:wallclock-time", "SYS_WALLCLOCK") ==>
                  var x := r.wall(TickOf(s.mask, a, WallClock, t)); v == x.sec * 1000000000 + x.nsec)
            && (IsName(name, "SYS:thread-time", "") ==>
                  var x := r.cpu(TickOf(s.mask, a, CpuTime, t)); v == x.sec * 1000000000 + x.nsec)
            && (IsName(name, "JVM:compilations", "JVM_COMPILATIONS") ==>
                  v == r.compilations(TickOf(s.mask, a, Compiled, t)))
            && (IsName(name, "SYS:forced-context-switches", "forced-context-switch") ==>
                  v == r.usage(TickOf(s.mask, a, Usage, t)).nivcsw)
            && (IsName(name, "SYS:thread-time-rusage", "") ==>
                  var x := r.usage(TickOf(s.mask, a, Usage, t));
                  v == 1000 * (1000000 * (x.utime.sec + x.stime.sec) + x.utime.usec + x.stime.usec))
  {
    EventOfName(s, names, lookup, e);
    NameGivesGetter(names[e], lookup);
    var x := Act(s, a, r, t).data[Cell(s, a)];
    CellAfter(s, a, r, t);
    RawBuiltInValues(s.events[e], x);
  }
}
