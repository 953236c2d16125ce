/**
 The snapshot record and the three procedures that fill it in (src/c/measure.c), in the Linux
 configuration with PAPI. The foreign probes (clocks, getrusage, PAPI, the JVM counters) are an oracle
 that maps the number of the probe call to the value it returns.
 */
module Snapshots {
  import opened Common

  const START: int := -1
  const END: int := -2

  const MAX_PAPI_EVENTS: nat := 20
  const PAPI_OK: int := 0

  // Backend bit masks of src/c/ubench.h. Only the low six bits of the unsigned int are ever used.
  type Mask = bv8
  const RESOURCE_USAGE: Mask := 2
  const PAPI: Mask := 4
  const WALLCLOCK: Mask := 8
  const COMPILATIONS: Mask := 16
  const THREADTIME: Mask := 32

  // The test (used_backends & backend) > 0.
  predicate Uses(mask: Mask, backend: Mask) {
    mask & backend != 0
  }

  datatype Timespec = Timespec(sec: int, nsec: int)
  datatype Timeval = Timeval(sec: int, usec: int)
  datatype Rusage = Rusage(utime: Timeval, stime: Timeval, nivcsw: int)

  const ZEROS: seq<int> := [0, 0, 0, 0, 0, 0, 0, 0, 0, 0, 0, 0, 0, 0, 0, 0, 0, 0, 0, 0]

  type PapiValues = s: seq<int> | |s| == MAX_PAPI_EVENTS witness ZEROS

  datatype Snapshot = Snapshot(
    timestamp: Timespec,
    threadtime: Timespec,
    usage: Rusage,
    compilations: int,
    collections: int,
    papi: PapiValues,
    rc1: int,
    rc2: int,
    kind: int)

  // What calloc stores in a snapshot.
  const ZERO: Snapshot := Snapshot(
    Timespec(0, 0), Timespec(0, 0), Rusage(Timeval(0, 0), Timeval(0, 0), 0),
    0, 0, ZEROS, 0, 0, 0)

  datatype PapiReading = PapiReading(rc: int, values: PapiValues)

  // Probe call number t returns the value of the probe's function at t.
  datatype Readings = Readings(
    wall: nat -> Timespec,
    cpu: nat -> Timespec,
    usage: nat -> Rusage,
    compilations: nat -> int,
    collections: nat -> int,
    papi: nat -> PapiReading)

  class Platform {
    const readings: Readings
    var tick: nat

    constructor (readings: Readings)
      ensures this.readings == readings && tick == 0
    {
      this.readings := readings;
      tick := 0;
    }
  }

  datatype Probe = WallClock | Counters | CpuTime | Compiled | Collected | Usage

  predicate Enabled(mask: Mask, p: Probe) {
    match p
    case WallClock => Uses(mask, WALLCLOCK)
    case Counters => Uses(mask, PAPI)
    case CpuTime => Uses(mask, THREADTIME)
    case Compiled => Uses(mask, COMPILATIONS)
    case Collected => true
    case Usage => Uses(mask, RESOURCE_USAGE)
  }

  // How deep inside the measured window a probe sits: 0 is next to the measured code.
  function Depth(p: Probe): nat {
    match p
    case WallClock => 0
    case Counters => 1
    case CpuTime => 2
    case Compiled => 3
    case Collected => 3
    case Usage => 4
  }

  // Number of the call that runs probe p when do_snapshot begins with call number t.
  function SampleTick(mask: Mask, p: Probe, t: nat): nat {
    var usage, compiled := Count(Enabled(mask, Usage)), Count(Enabled(mask, Compiled));
    var cpu, counters := Count(Enabled(mask, CpuTime)), Count(Enabled(mask, Counters));
    match p
    case Usage => t
    case Compiled => t + usage
    case Collected => t + usage + compiled
    case CpuTime => t + usage + compiled + 1
    case Counters => t + usage + compiled + 1 + cpu
    case WallClock => t + usage + compiled + 1 + cpu + counters
  }

  // The first call number after a do_snapshot that begins with call number t.
  function SampleEnd(mask: Mask, t: nat): nat {
    SampleTick(mask, WallClock, t) + Count(Enabled(mask, WallClock))
  }

  // ubench_measure_start calls PAPI_start before do_snapshot.
  function StartTick(mask: Mask, p: Probe, t: nat): nat {
    SampleTick(mask, p, t + Count(Enabled(mask, Counters)))
  }

  function StartEnd(mask: Mask, t: nat): nat {
    SampleEnd(mask, t + Count(Enabled(mask, Counters)))
  }

  function StopTick(mask: Mask, p: Probe, t: nat): nat {
    var wall, counters := Count(Enabled(mask, WallClock)), Count(Enabled(mask, Counters));
    var cpu, compiled := Count(Enabled(mask, CpuTime)), Count(Enabled(mask, Compiled));
    match p
    case WallClock => t
    case Counters => t + wall
    case CpuTime => t + wall + counters
    case Compiled => t + wall + counters + cpu
    case Collected => t + wall + counters + cpu + compiled
    case Usage => t + wall + counters + cpu + compiled + 1
  }

  function StopEnd(mask: Mask, t: nat): nat {
    StopTick(mask, Usage, t) + Count(Enabled(mask, Usage))
  }

  // PAPI_read and PAPI_stop overwrite the counters of the `count` events of the set when they succeed.
  function Overlay(stale: PapiValues, reading: PapiReading, count: nat): PapiValues
    requires count <= MAX_PAPI_EVENTS
  {
    if reading.rc == PAPI_OK then reading.values[..count] + stale[count..] else stale
  }

  // Snapshot s after every enabled probe p has been read at call number at(p).
  function Probed(mask: Mask, count: nat, s: Snapshot, r: Readings, at: Probe -> nat): Snapshot
    requires count <= MAX_PAPI_EVENTS
  {
    Snapshot(
      if Enabled(mask, WallClock) then r.wall(at(WallClock)) else s.timestamp,
      if Enabled(mask, CpuTime) then r.cpu(at(CpuTime)) else s.threadtime,
      if Enabled(mask, Usage) then r.usage(at(Usage)) else s.usage,
      if Enabled(mask, Compiled) then r.compilations(at(Compiled)) else s.compilations,
      r.collections(at(Collected)),
      if Enabled(mask, Counters) then Overlay(s.papi, r.papi(at(Counters)), count) else s.papi,
      if Enabled(mask, Counters) then r.papi(at(Counters)).rc else s.rc1,
      s.rc2,
      s.kind)
  }

  function Started(mask: Mask, count: nat, s: Snapshot, r: Readings, t: nat): Snapshot
    requires count <= MAX_PAPI_EVENTS
  {
    Probed(mask, count, s, r, p => StartTick(mask, p, t)).(
      kind := START,
      rc2 := if Enabled(mask, Counters) then r.papi(t).rc else s.rc2)
  }

  function Sampled(mask: Mask, count: nat, user: int, s: Snapshot, r: Readings, t: nat): Snapshot
    requires count <= MAX_PAPI_EVENTS
  {
    Probed(mask, count, s, r, p => SampleTick(mask, p, t)).(kind := user)
  }

  function Stopped(mask: Mask, count: nat, s: Snapshot, r: Readings, t: nat): Snapshot
    requires count <= MAX_PAPI_EVENTS
  {
    Probed(mask, count, s, r, p => StopTick(mask, p, t)).(kind := END)
  }

  // do_snapshot: the pointed-to snapshot s is overwritten field by field.
  method DoSnapshot(mask: Mask, count: nat, s: Snapshot, platform: Platform) returns (snapshot: Snapshot)
    requires count <= MAX_PAPI_EVENTS
    modifies platform`tick
    ensures snapshot == Probed(mask, count, s, platform.readings, p => SampleTick(mask, p, old(platform.tick)))
    ensures platform.tick == SampleEnd(mask, old(platform.tick))
  {
    var r := platform.readings;
    ghost var t := platform.tick;
    snapshot := s;
    if Uses(mask, RESOURCE_USAGE) {
      snapshot := snapshot.(usage := r.usage(platform.tick));
      platform.tick := platform.tick + 1;
    }
    assert platform.tick == SampleTick(mask, Compiled, t);
    if Uses(mask, COMPILATIONS) {
      snapshot := snapshot.(compilations := r.compilations(platform.tick));
      platform.tick := platform.tick + 1;
    }
    assert platform.tick == SampleTick(mask, Collected, t);
    snapshot := snapshot.(collections := r.collections(platform.tick));
    platform.tick := platform.tick + 1;
    assert platform.tick == SampleTick(mask, CpuTime, t);
    if Uses(mask, THREADTIME) {
      snapshot := snapshot.(threadtime := r.cpu(platform.tick));
      platform.tick := platform.tick + 1;
    }
    assert platform.tick == SampleTick(mask, Counters, t);
    if Uses(mask, PAPI) {
      var reading := r.papi(platform.tick);
      snapshot := snapshot.(rc1 := reading.rc, papi := Overlay(snapshot.papi, reading, count));
      platform.tick := platform.tick + 1;
    }
    assert platform.tick == SampleTick(mask, WallClock, t);
    if Uses(mask, WALLCLOCK) {
      snapshot := snapshot.(timestamp := r.wall(platform.tick));
      platform.tick := platform.tick + 1;
    }
  }

  method MeasureStart(mask: Mask, count: nat, s: Snapshot, platform: Platform) returns (snapshot: Snapshot)
    requires count <= MAX_PAPI_EVENTS
    modifies platform`tick
    ensures snapshot == Started(mask, count, s, platform.readings, old(platform.tick))
    ensures platform.tick == StartEnd(mask, old(platform.tick))
  {
    snapshot := s;
    if Uses(mask, PAPI) {
      snapshot := snapshot.(rc2 := platform.readings.papi(platform.tick).rc);
      platform.tick := platform.tick + 1;
    }
    snapshot := snapshot.(kind := START);
    snapshot := DoSnapshot(mask, count, snapshot, platform);
  }

  method MeasureSample(mask: Mask, count: nat, user: int, s: Snapshot, platform: Platform)
    returns (snapshot: Snapshot)
    requires count <= MAX_PAPI_EVENTS
    modifies platform`tick
    ensures snapshot == Sampled(mask, count, user, s, platform.readings, old(platform.tick))
    ensures platform.tick == SampleEnd(mask, old(platform.tick))
  {
    snapshot := s.(kind := user);
    snapshot := DoSnapshot(mask, count, snapshot, platform);
  }

  method MeasureStop(mask: Mask, count: nat, s: Snapshot, platform: Platform) returns (snapshot: Snapshot)
    requires count <= MAX_PAPI_EVENTS
    modifies platform`tick
    ensures snapshot == Stopped(mask, count, s, platform.readings, old(platform.tick))
    ensures platform.tick == StopEnd(mask, old(platform.tick))
  {
    var r := platform.readings;
    ghost var t := platform.tick;
    snapshot := s;
    if Uses(mask, WALLCLOCK) {
      snapshot := snapshot.(timestamp := r.wall(platform.tick));
      platform.tick := platform.tick + 1;
    }
    assert platform.tick == StopTick(mask, Counters, t);
    if Uses(mask, PAPI) {
      var reading := r.papi(platform.tick);
      snapshot := snapshot.(rc1 := reading.rc, papi := Overlay(snapshot.papi, reading, count));
      platform.tick := platform.tick + 1;
    }
    assert platform.tick == StopTick(mask, CpuTime, t);
    if Uses(mask, THREADTIME) {
      snapshot := snapshot.(threadtime := r.cpu(platform.tick));
      platform.tick := platform.tick + 1;
    }
    assert platform.tick == StopTick(mask, Compiled, t);
    if Uses(mask, COMPILATIONS) {
      snapshot := snapshot.(compilations := r.compilations(platform.tick));
      platform.tick := platform.tick + 1;
    }
    assert platform.tick == StopTick(mask, Collected, t);
    snapshot := snapshot.(collections := r.collections(platform.tick));
    platform.tick := platform.tick + 1;
    assert platform.tick == StopTick(mask, Usage, t);
    if Uses(mask, RESOURCE_USAGE) {
      snapshot := snapshot.(usage := r.usage(platform.tick));
      platform.tick := platform.tick + 1;
    }
    snapshot := snapshot.(kind := END);
  }

  // The probe windows nest: a probe closer to the measured code starts later and stops earlier. So a
  // monotone count read by an outer probe is at least what happened between the readings of an inner one.
  lemma WindowsNest(mask: Mask, inner: Probe, outer: Probe, t0: nat, t1: nat)
    requires Enabled(mask, inner) && Enabled(mask, outer) && Depth(inner) < Depth(outer)
    requires StartEnd(mask, t0) <= t1
    ensures StartTick(mask, outer, t0) < StartTick(mask, inner, t0)
         < StopTick(mask, inner, t1) < StopTick(mask, outer, t1)
    ensures forall f: nat -> int | (forall i: nat, j: nat :: i <= j ==> f(i) <= f(j)) ::
              f(StopTick(mask, outer, t1)) - f(StartTick(mask, outer, t0))
              >= f(StopTick(mask, inner, t1)) - f(StartTick(mask, inner, t0)) >= 0
  {
  }

  // ---------- the order of the probes ----------

  // The probes of a start or a sample, and those of a stop, in the order in which they run.
  const SAMPLE_ORDER: seq<Probe> := [Usage, Compiled, Collected, CpuTime, Counters, WallClock]
  const STOP_ORDER: seq<Probe> := [WallClock, Counters, CpuTime, Compiled, Collected, Usage]

  function EnabledAmong(mask: Mask, probes: seq<Probe>): nat {
    if probes == [] then 0
    else EnabledAmong(mask, probes[..|probes| - 1]) + Count(Enabled(mask, probes[|probes| - 1]))
  }

  lemma Shorter(mask: Mask, order: seq<Probe>, k: nat)
    requires k < |order|
    ensures EnabledAmong(mask, order[..k + 1]) == EnabledAmong(mask, order[..k]) + Count(Enabled(mask, order[k]))
  {
    assert order[..k + 1][..k] == order[..k];
  }

  lemma SampleProbesRunInOrder(mask: Mask, k: nat, t: nat)
    requires k < 6
    ensures SampleTick(mask, SAMPLE_ORDER[k], t) == t + EnabledAmong(mask, SAMPLE_ORDER[..k])
  {
    Shorter(mask, SAMPLE_ORDER, 0);
    Shorter(mask, SAMPLE_ORDER, 1);
    Shorter(mask, SAMPLE_ORDER, 2);
    Shorter(mask, SAMPLE_ORDER, 3);
    Shorter(mask, SAMPLE_ORDER, 4);
    assert SAMPLE_ORDER[..0] == [];
    assert k in {0, 1, 2, 3, 4, 5};
  }

  lemma StopProbesRunInOrder(mask: Mask, k: nat, t: nat)
    requires k < 6
    ensures StopTick(mask, STOP_ORDER[k], t) == t + EnabledAmong(mask, STOP_ORDER[..k])
  {
    Shorter(mask, STOP_ORDER, 0);
    Shorter(mask, STOP_ORDER, 1);
    Shorter(mask, STOP_ORDER, 2);
    Shorter(mask, STOP_ORDER, 3);
    Shorter(mask, STOP_ORDER, 4);
    assert STOP_ORDER[..0] == [];
    assert k in {0, 1, 2, 3, 4, 5};
  }

  // A probe's call number counts the enabled probes before it in this order; PAPI_start is one call more.
  lemma ProbesRunInOrder(mask: Mask, k: nat, t: nat)
    requires k < 6
    ensures SampleTick(mask, SAMPLE_ORDER[k], t) == t + EnabledAmong(mask, SAMPLE_ORDER[..k])
    ensures StartTick(mask, SAMPLE_ORDER[k], t) ==
              t + Count(Uses(mask, PAPI)) + EnabledAmong(mask, SAMPLE_ORDER[..k])
    ensures StopTick(mask, STOP_ORDER[k], t) == t + EnabledAmong(mask, STOP_ORDER[..k])
  {
    SampleProbesRunInOrder(mask, k, t);
    SampleProbesRunInOrder(mask, k, t + Count(Uses(mask, PAPI)));
    StopProbesRunInOrder(mask, k, t);
  }

  // Each of the three ends with the call after its last enabled probe.
  lemma ProbesEnd(mask: Mask, t: nat)
    ensures SampleEnd(mask, t) == t + EnabledAmong(mask, SAMPLE_ORDER)
    ensures StartEnd(mask, t) == t + Count(Uses(mask, PAPI)) + EnabledAmong(mask, SAMPLE_ORDER)
    ensures StopEnd(mask, t) == t + EnabledAmong(mask, STOP_ORDER)
  {
    ProbesRunInOrder(mask, 5, t);
    Shorter(mask, SAMPLE_ORDER, 5);
    Shorter(mask, STOP_ORDER, 5);
    assert SAMPLE_ORDER[..6] == SAMPLE_ORDER && STOP_ORDER[..6] == STOP_ORDER;
  }
}
