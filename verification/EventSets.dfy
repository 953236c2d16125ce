/**
 One event set as a value: its snapshot buffer, the step back by two when the buffer is full, and the
 closed form of what the buffer holds after any run (src/c/measurement.c).
 */
module EventSets {
  import opened Common
  import opened Snapshots
  import opened Events
  import opened Pairing

  // The log is the history of all snapshots since creation or the last reset; the program keeps only data.
  datatype EventSet = EventSet(
    mask: Mask, events: seq<EventInfo>, papiIds: seq<int>,
    data: seq<Snapshot>, index: nat, log: seq<Snapshot>)

  predicate Usable(s: EventSet) {
    |s.data| >= 2 && s.index <= |s.data| && |s.papiIds| <= MAX_PAPI_EVENTS
  }

  datatype Action = Start | Stop | Sample(user: int) | Reset

  // start and sample step back by two in a full buffer; stop does not look.
  function Cell(s: EventSet, a: Action): nat
    requires Usable(s)
  {
    if !a.Stop? && s.index >= |s.data| then s.index - 2 else s.index
  }

  predicate InBounds(s: EventSet, a: Action) {
    a.Stop? ==> s.index < |s.data|
  }

  // The snapshot that action a leaves in a cell holding s when its first probe is call number t.
  function Taken(mask: Mask, count: nat, a: Action, s: Snapshot, r: Readings, t: nat): Snapshot
    requires count <= MAX_PAPI_EVENTS
  {
    match a
    case Start => Started(mask, count, s, r, t)
    case Stop => Stopped(mask, count, s, r, t)
    case Sample(user) => Sampled(mask, count, user, s, r, t)
    case Reset => s
  }

  function TickAfter(mask: Mask, a: Action, t: nat): nat {
    match a
    case Start => StartEnd(mask, t)
    case Stop => StopEnd(mask, t)
    case Sample(_) => SampleEnd(mask, t)
    case Reset => t
  }

  function Act(s: EventSet, a: Action, r: Readings, t: nat): EventSet
    requires Usable(s) && InBounds(s, a)
  {
    if a.Reset? then s.(index := 0, log := [])
    else
      var at := Cell(s, a);
      var x := Taken(s.mask, |s.papiIds|, a, s.data[at], r, t);
      s.(data := s.data[at := x], index := at + 1, log := s.log + [x])
  }

  // The call number at which an action runs a probe.
  function TickOf(mask: Mask, a: Action, p: Probe, t: nat): nat {
    match a
    case Start => StartTick(mask, p, t)
    case Stop => StopTick(mask, p, t)
    case Sample(_) => SampleTick(mask, p, t)
    case Reset => t
  }

  // What every action but reset leaves in its cell: the type, in each field of an enabled backend the reading of that
  // field's own probe, and in all other fields what was there before. Only start writes the PAPI_start code.
  lemma CellAfter(s: EventSet, a: Action, r: Readings, t: nat)
    requires Usable(s) && InBounds(s, a) && !a.Reset?
    ensures var x, y := Act(s, a, r, t).data[Cell(s, a)], s.data[Cell(s, a)];
            && x.kind == (match a case Start => -1 case Stop => -2 case Sample(user) => user)
            && x.timestamp == (if Uses(s.mask, WALLCLOCK) then r.wall(TickOf(s.mask, a, WallClock, t)) else y.timestamp)
            && x.threadtime == (if Uses(s.mask, THREADTIME) then r.cpu(TickOf(s.mask, a, CpuTime, t)) else y.threadtime)
            && x.usage == (if Uses(s.mask, RESOURCE_USAGE) then r.usage(TickOf(s.mask, a, Usage, t)) else y.usage)
            && x.compilations == (if Uses(s.mask, COMPILATIONS) then r.compilations(TickOf(s.mask, a, Compiled, t))
                                  else y.compilations)
            && x.collections == r.collections(TickOf(s.mask, a, Collected, t))
            && x.rc1 == (if Uses(s.mask, PAPI) then r.papi(TickOf(s.mask, a, Counters, t)).rc else y.rc1)
            && x.rc2 == (if Uses(s.mask, PAPI) && a.Start? then r.papi(t).rc else y.rc2)
            && (forall i :: 0 <= i < MAX_PAPI_EVENTS ==>
                  x.papi[i] == if Uses(s.mask, PAPI) && x.rc1 == 0 && i < |s.papiIds|
                               then r.papi(TickOf(s.mask, a, Counters, t)).values[i] else y.papi[i])
  {
    var at := Cell(s, a);
    TakenFields(s.mask, |s.papiIds|, a, s.data[at], r, t);
    forall i: nat | i < MAX_PAPI_EVENTS
      ensures var x := Taken(s.mask, |s.papiIds|, a, s.data[at], r, t);
              x.papi[i] == if Uses(s.mask, PAPI) && x.rc1 == 0 && i < |s.papiIds|
                           then r.papi(TickOf(s.mask, a, Counters, t)).values[i] else s.data[at].papi[i]
    {
      TakenCounters(s.mask, |s.papiIds|, a, s.data[at], r, t, i);
    }
  }

  lemma TakenFields(mask: Mask, count: nat, a: Action, y: Snapshot, r: Readings, t: nat)
    requires count <= MAX_PAPI_EVENTS && !a.Reset?
    ensures var x := Taken(mask, count, a, y, r, t);
            && x.kind == (match a case Start => -1 case Stop => -2 case Sample(user) => user)
            && x.timestamp == (if Uses(mask, WALLCLOCK) then r.wall(TickOf(mask, a, WallClock, t)) else y.timestamp)
            && x.threadtime == (if Uses(mask, THREADTIME) then r.cpu(TickOf(mask, a, CpuTime, t)) else y.threadtime)
            && x.usage == (if Uses(mask, RESOURCE_USAGE) then r.usage(TickOf(mask, a, Usage, t)) else y.usage)
            && x.compilations == (if Uses(mask, COMPILATIONS) then r.compilations(TickOf(mask, a, Compiled, t))
                                  else y.compilations)
            && x.collections == r.collections(TickOf(mask, a, Collected, t))
            && x.rc1 == (if Uses(mask, PAPI) then r.papi(TickOf(mask, a, Counters, t)).rc else y.rc1)
            && x.rc2 == (if Uses(mask, PAPI) && a.Start? then r.papi(t).rc else y.rc2)
  {
  }

  lemma TakenCounters(mask: Mask, count: nat, a: Action, y: Snapshot, r: Readings, t: nat, i: nat)
    requires count <= MAX_PAPI_EVENTS && !a.Reset? && i < MAX_PAPI_EVENTS
    ensures var x := Taken(mask, count, a, y, r, t);
            x.papi[i] == if Uses(mask, PAPI) && x.rc1 == 0 && i < count
                         then r.papi(TickOf(mask, a, Counters, t)).values[i] else y.papi[i]
  {
    OverlayAt(y.papi, r.papi(TickOf(mask, a, Counters, t)), count, i);
  }

  lemma OverlayAt(stale: PapiValues, reading: PapiReading, count: nat, i: nat)
    requires count <= MAX_PAPI_EVENTS && i < MAX_PAPI_EVENTS
    ensures Overlay(stale, reading, count)[i] == if reading.rc == 0 && i < count then reading.values[i] else stale[i]
  {
  }

  // ---------- closed form ----------

  // data_index after n snapshots in a buffer of the given even size.
  function IndexAfter(n: nat, size: nat): nat
    requires size >= 2
  {
    if n <= size then n else size - n % 2
  }

  // What is left of the log in the buffer: all of it, or all but the last two cells plus the newest one or two.
  function Retained<T>(log: seq<T>, size: nat): seq<T>
    requires size >= 2
  {
    if |log| <= size then log
    else log[..size - 2] + log[|log| - (2 - |log| % 2)..]
  }

  predicate Canonical(s: EventSet) {
    && Usable(s)
    && |s.data| % 2 == 0
    && s.index == IndexAfter(|s.log|, |s.data|)
    && s.data[..s.index] == Retained(s.log, |s.data|)
  }

  // The closed form holds after every action whose stop is in bounds.
  lemma ActKeepsClosedForm(s: EventSet, a: Action, r: Readings, t: nat)
    requires Canonical(s) && InBounds(s, a)
    ensures Canonical(Act(s, a, r, t))
  {
    if !a.Reset? {
      var s' := Act(s, a, r, t);
      var at, n, size := Cell(s, a), |s.log|, |s.data|;
      assert s'.data[..s'.index] == s.data[..at] + [s'.data[at]];
      if n > size {
        assert at == size - 2 + n % 2;
        assert s.data[..at] == s.data[..s.index][..at];
        if n % 2 == 1 {
          assert s'.log[n - 1..] == s.log[n - 1..] + [s'.data[at]];
        }
      } else if n == size {
        assert s.data[..at] == s.data[..s.index][..at];
      }
    }
  }

  // Exactly when stop is in bounds: fewer than `size` snapshots so far, or an odd number of them.
  lemma StopIsInBoundsIff(s: EventSet)
    requires Canonical(s)
    ensures InBounds(s, Stop) <==> |s.log| < |s.data| || |s.log| % 2 == 1
  {
  }

  // start and sample always write inside the buffer.
  lemma StartAndSampleAreInBounds(s: EventSet, a: Action)
    requires Canonical(s) && !a.Stop?
    ensures InBounds(s, a) && Cell(s, a) < |s.data|
  {
  }

  // ---------- runs ----------

  type Timed = (Action, nat)

  ghost predicate Safe(s: EventSet, run: seq<Timed>, r: Readings)
    requires Usable(s)
    decreases |run|
  {
    run != [] ==> InBounds(s, run[0].0) && Safe(Act(s, run[0].0, r, run[0].1), run[1..], r)
  }

  ghost function Run(s: EventSet, run: seq<Timed>, r: Readings): (s': EventSet)
    requires Usable(s) && Safe(s, run, r)
    ensures Usable(s')
    decreases |run|
  {
    if run == [] then s else Run(Act(s, run[0].0, r, run[0].1), run[1..], r)
  }

  // The closed form holds after every run whose stops are in bounds.
  lemma {:induction false} RunKeepsClosedForm(s: EventSet, run: seq<Timed>, r: Readings)
    requires Canonical(s) && Safe(s, run, r)
    ensures Canonical(Run(s, run, r))
    decreases |run|
  {
    if run != [] {
      ActKeepsClosedForm(s, run[0].0, r, run[0].1);
      RunKeepsClosedForm(Act(s, run[0].0, r, run[0].1), run[1..], r);
    }
  }

  // Number of snapshots since the last reset, when n were there before the run.
  function Recorded(n: nat, run: seq<Timed>): nat
    decreases |run|
  {
    if run == [] then n else Recorded(if run[0].0.Reset? then 0 else n + 1, run[1..])
  }

  predicate StopFits(n: nat, size: nat) {
    n < size || n % 2 == 1
  }

  // A run is in bounds exactly when every stop comes after fewer than `size` or an odd number of snapshots
  // since the last reset; data_index is then a function of that number.
  lemma {:induction false} SafeExactlyWhen(s: EventSet, run: seq<Timed>, r: Readings)
    requires Canonical(s)
    ensures Safe(s, run, r) <==> StopsFit(|s.log|, run, |s.data|)
    ensures Safe(s, run, r) ==>
            var s' := Run(s, run, r);
            |s'.log| == Recorded(|s.log|, run) && s'.index == IndexAfter(|s'.log|, |s.data|)
    decreases |run|
  {
    if run != [] {
      var a, tail := run[0].0, run[1..];
      StopIsInBoundsIff(s);
      if InBounds(s, a) {
        ActKeepsClosedForm(s, a, r, run[0].1);
        var s1 := Act(s, a, r, run[0].1);
        SafeExactlyWhen(s1, tail, r);
        StopsFitShift(|s.log|, run, |s.data|);
        assert Safe(s, run, r) == Safe(s1, tail, r);
      } else {
        assert run[..0] == [];
        assert !StopFits(Recorded(|s.log|, run[..0]), |s.data|);
      }
    }
  }

  function Samples(user: int, k: nat): (run: seq<Timed>)
    ensures |run| == k && forall i :: 0 <= i < k ==> run[i] == (Sample(user), 0)
  {
    if k == 0 then [] else [(Sample(user), 0)] + Samples(user, k - 1)
  }

  lemma {:induction false} SamplesRecorded(n: nat, user: int, k: nat)
    ensures Recorded(n, Samples(user, k)) == n + k
    decreases k
  {
    if k > 0 {
      assert Samples(user, k)[1..] == Samples(user, k - 1);
      SamplesRecorded(n + 1, user, k - 1);
    }
  }

  // A run that leaves the buffer: 2m samples in an empty set, whatever m, and then a stop.
  lemma SamplesThenStopLeaveBounds(s: EventSet, user: int, r: Readings)
    requires Canonical(s) && s.log == []
    ensures !Safe(s, Samples(user, |s.data|) + [(Stop, 0)], r)
  {
    var k, run := |s.data|, Samples(user, |s.data|) + [(Stop, 0)];
    SafeExactlyWhen(s, run, r);
    SamplesRecorded(0, user, k);
    assert run[..k] == Samples(user, k) && run[k].0.Stop?;
    assert !StopFits(Recorded(0, run[..k]), k);
  }

  ghost predicate StopsFit(n: nat, run: seq<Timed>, size: nat) {
    forall i :: 0 <= i < |run| && run[i].0.Stop? ==> StopFits(Recorded(n, run[..i]), size)
  }

  lemma StopsFitShift(n: nat, run: seq<Timed>, size: nat)
    requires run != [] && (run[0].0.Stop? ==> StopFits(n, size))
    ensures StopsFit(n, run, size) <==> StopsFit(if run[0].0.Reset? then 0 else n + 1, run[1..], size)
  {
    var n1, tail := if run[0].0.Reset? then 0 else n + 1, run[1..];
    forall i | 0 < i < |run| ensures Recorded(n, run[..i]) == Recorded(n1, tail[..i - 1]) {
      assert run[..i][1..] == tail[..i - 1];
    }
    assert Recorded(n, run[..0]) == n;
    assert forall i :: 0 <= i < |tail| ==> tail[i] == run[i + 1];
    if StopsFit(n, run, size) {
      forall i | 0 <= i < |tail| && tail[i].0.Stop? ensures StopFits(Recorded(n1, tail[..i]), size) {
        assert run[i + 1].0.Stop?;
      }
    }
  }

  // Start, stop, start, stop, ... with resets only between a stop and a start.
  ghost predicate Alternating(run: seq<Timed>) {
    run == []
    || (run[0].0.Reset? && Alternating(run[1..]))
    || (|run| >= 2 && run[0].0.Start? && run[1].0.Stop? && Alternating(run[2..]))
  }

  // Every alternating run of any length stays in bounds, whatever the buffer size.
  lemma {:induction false} AlternatingRunsAreSafe(s: EventSet, run: seq<Timed>, r: Readings)
    requires Canonical(s) && |s.log| % 2 == 0 && Alternating(run)
    ensures Safe(s, run, r)
    decreases |run|
  {
    if run != [] {
      var s1 := Act(s, run[0].0, r, run[0].1);
      ActKeepsClosedForm(s, run[0].0, r, run[0].1);
      if run[0].0.Reset? {
        AlternatingRunsAreSafe(s1, run[1..], r);
      } else {
        assert InBounds(s1, Stop);
        var s2 := Act(s1, run[1].0, r, run[1].1);
        ActKeepsClosedForm(s1, run[1].0, r, run[1].1);
        assert run[1..][0] == run[1] && run[1..][1..] == run[2..];
        AlternatingRunsAreSafe(s2, run[2..], r);
        assert Safe(s1, run[1..], r);
      }
    }
  }

  // ---------- results ----------

  function Row(events: seq<EventInfo>, start: Snapshot, end: Snapshot): (row: seq<int>)
    ensures |row| == |events| && forall e :: 0 <= e < |row| ==> row[e] == Get(events[e], start, end)
  {
    seq(|events|, e requires 0 <= e < |events| => Get(events[e], start, end))
  }

  // The rows of getResults for the snapshots up to data_index.
  function Rows(events: seq<EventInfo>, live: seq<Snapshot>): (rows: seq<seq<int>>)
    ensures var pairs := Pairs(Kinds(live));
            && |rows| == |pairs|
            && (forall k :: 0 <= k < |pairs| ==> pairs[k].0 < pairs[k].1 < |live|)
            && (forall k :: 0 <= k < |rows| ==> rows[k] == Row(events, live[pairs[k].0], live[pairs[k].1]))
  {
    var pairs := Pairs(Kinds(live));
    PairsAreDisjointAndTight(Kinds(live));
    seq(|pairs|, k requires 0 <= k < |pairs| => Row(events, live[pairs[k].0], live[pairs[k].1]))
  }

  function Results(s: EventSet): seq<seq<int>>
    requires Usable(s)
  {
    Rows(s.events, s.data[..s.index])
  }

  // The rows of getRawResults: the raw values and the type of every retained snapshot.
  function RawRows(events: seq<EventInfo>, live: seq<Snapshot>): (rows: seq<seq<int>>)
    ensures |rows| == |live| && forall i :: 0 <= i < |rows| ==> rows[i] == RawRow(events, live[i])
  {
    seq(|live|, i requires 0 <= i < |live| => RawRow(events, live[i]))
  }

  function RawResults(s: EventSet): seq<seq<int>>
    requires Usable(s)
  {
    RawRows(s.events, s.data[..s.index])
  }

  function RawRow(events: seq<EventInfo>, x: Snapshot): (row: seq<int>)
    ensures |row| == |events| + 1 && row[|events|] == x.kind
    ensures forall e :: 0 <= e < |events| ==> row[e] == GetRaw(events[e], x)
  {
    seq(|events| + 1, e requires 0 <= e <= |events| => if e < |events| then GetRaw(events[e], x) else x.kind)
  }

  // Measurement j of a log that alternates START and END.
  function Measured(events: seq<EventInfo>, log: seq<Snapshot>, j: nat): seq<int>
    requires 2 * j + 1 < |log|
  {
    Row(events, log[2 * j], log[2 * j + 1])
  }

  ghost predicate Alternates(log: seq<Snapshot>) {
    |log| % 2 == 0 && forall i :: 0 <= i < |log| ==> log[i].kind == if i % 2 == 0 then START else END
  }

  lemma RetainedAlternates(s: EventSet)
    requires Canonical(s) && Alternates(s.log)
    ensures s.index == 2 * Min(|s.log| / 2, |s.data| / 2)
    ensures Alternates(s.data[..s.index])
  {
    var live, n, size := s.data[..s.index], |s.log|, |s.data|;
    if n > size {
      var shift := n - size;
      assert shift % 2 == 0 && |live| == size;
      forall i | 0 <= i < size ensures live[i] == s.log[if i < size - 2 then i else i + shift] {
      }
    }
  }

  // The rows of alternating snapshots are their pairs, one after another.
  lemma RowsOfAlternating(events: seq<EventInfo>, live: seq<Snapshot>)
    requires Alternates(live)
    ensures |Rows(events, live)| == |live| / 2
    ensures forall j :: 0 <= j < |live| / 2 ==> Rows(events, live)[j] == Measured(events, live, j)
  {
    AlternatingPairs(Kinds(live), 0);
    forall j | 0 <= j < |live| / 2 ensures Rows(events, live)[j] == Measured(events, live, j) {
      assert Pairs(Kinds(live))[j] == (2 * j, 2 * j + 1);
    }
  }

  // Where the retained snapshots of an even log come from: the first ones from the same place, the last pair of a
  // full buffer from the end of the log.
  lemma RetainedAt<T>(log: seq<T>, size: nat, i: nat)
    requires size >= 2 && size % 2 == 0 && |log| % 2 == 0 && i < |Retained(log, size)|
    ensures |Retained(log, size)| == Min(|log|, size)
    ensures Retained(log, size)[i] == log[if |log| > size && i >= size - 2 then i + |log| - size else i]
  {
  }

  // Pair j of the retained pairs, when k were taken and there is room for m.
  lemma RetainedPair(events: seq<EventInfo>, log: seq<Snapshot>, k: nat, m: nat, j: nat)
    requires |log| == 2 * k && m >= 1 && j < Min(k, m)
    ensures |Retained(log, 2 * m)| == 2 * Min(k, m)
    ensures Measured(events, Retained(log, 2 * m), j) ==
              Measured(events, log, if k > m && j == m - 1 then k - 1 else j)
  {
    RetainedAt(log, 2 * m, 2 * j);
    RetainedAt(log, 2 * m, 2 * j + 1);
  }

  lemma RowsOfRetained(events: seq<EventInfo>, log: seq<Snapshot>, k: nat, m: nat, live: seq<Snapshot>)
    requires |log| == 2 * k && m >= 1 && live == Retained(log, 2 * m) && Alternates(live)
    ensures |Rows(events, live)| == Min(k, m)
    ensures forall j :: 0 <= j < Min(k, m) ==>
              Rows(events, live)[j] == Measured(events, log, if k > m && j == m - 1 then k - 1 else j)
  {
    RowsOfAlternating(events, live);
    if k > 0 { RetainedPair(events, log, k, m, 0); }
    forall j | 0 <= j < Min(k, m)
      ensures Rows(events, live)[j] == Measured(events, log, if k > m && j == m - 1 then k - 1 else j)
    {
      RetainedPair(events, log, k, m, j);
    }
  }

  // After k start/stop pairs all k rows come back in order while k <= m; beyond that exactly the first m - 1
  // measurements and the k-th.
  lemma ResultsOfAlternatingLog(s: EventSet)
    requires Canonical(s) && Alternates(s.log)
    ensures var k, m := |s.log| / 2, |s.data| / 2;
            && |Results(s)| == Min(k, m)
            && (forall j :: 0 <= j < Min(k, m) && (k <= m || j < m - 1) ==>
                  Results(s)[j] == Measured(s.events, s.log, j))
            && (k > m ==> Results(s)[m - 1] == Measured(s.events, s.log, k - 1))
  {
    RetainedAlternates(s);
    RowsOfRetained(s.events, s.log, |s.log| / 2, |s.data| / 2, s.data[..s.index]);
  }

  lemma TwoMore(log: seq<Snapshot>, x: Snapshot, y: Snapshot)
    requires Alternates(log) && x.kind == START && y.kind == END
    ensures Alternates(log + [x] + [y])
  {
  }

  // An action other than reset appends one snapshot of its type to the log.
  lemma OneMore(s: EventSet, a: Action, r: Readings, t: nat, s1: EventSet) returns (x: Snapshot)
    requires Usable(s) && InBounds(s, a) && !a.Reset? && s1 == Act(s, a, r, t)
    ensures s1.log == s.log + [x] && s1.events == s.events && |s1.data| == |s.data|
    ensures x == s1.data[Cell(s, a)] && s1.mask == s.mask && s1.papiIds == s.papiIds
    ensures x.kind == match a case Start => START case Stop => END case Sample(user) => user
  {
    x := s1.data[Cell(s, a)];
  }

  // One start/stop pair in a set whose log is even.
  lemma PairOfActs(s: EventSet, t0: nat, t1: nat, r: Readings)
    requires Canonical(s) && Alternates(s.log)
    ensures var s1 := Act(s, Start, r, t0);
            && Canonical(s1) && InBounds(s1, Stop)
            && var s2 := Act(s1, Stop, r, t1);
            && Canonical(s2) && Alternates(s2.log) && |s2.log| == |s.log| + 2
            && s2.events == s.events && |s2.data| == |s.data|
  {
    var s1 := Act(s, Start, r, t0);
    ActKeepsClosedForm(s, Start, r, t0);
    var x := OneMore(s, Start, r, t0, s1);
    StopIsInBoundsIff(s1);
    var s2 := Act(s1, Stop, r, t1);
    ActKeepsClosedForm(s1, Stop, r, t1);
    var y := OneMore(s1, Stop, r, t1, s2);
    TwoMore(s.log, x, y);
  }

  // An alternating run from an empty log leaves an alternating log: of all its snapshots if it has no reset.
  lemma {:induction false} AlternatingRunLogs(s: EventSet, run: seq<Timed>, r: Readings)
    requires Canonical(s) && Alternates(s.log) && Alternating(run)
    ensures Safe(s, run, r) && Alternates(Run(s, run, r).log)
    ensures Run(s, run, r).events == s.events && |Run(s, run, r).data| == |s.data|
    ensures (forall i :: 0 <= i < |run| ==> !run[i].0.Reset?) ==> |Run(s, run, r).log| == |s.log| + |run|
    decreases |run|
  {
    AlternatingRunsAreSafe(s, run, r);
    if run != [] {
      var s1 := Act(s, run[0].0, r, run[0].1);
      ActKeepsClosedForm(s, run[0].0, r, run[0].1);
      assert Run(s, run, r) == Run(s1, run[1..], r);
      if run[0].0.Reset? {
        AlternatingRunLogs(s1, run[1..], r);
      } else {
        PairOfActs(s, run[0].1, run[1].1, r);
        var s2 := Act(s1, run[1].0, r, run[1].1);
        assert run[1..][0] == run[1] && run[1..][1..] == run[2..];
        assert Run(s1, run[1..], r) == Run(s2, run[2..], r);
        AlternatingRunLogs(s2, run[2..], r);
      }
    }
  }
}
