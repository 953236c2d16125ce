/**
 Event table, name resolution, and the getters that turn snapshots into numbers (src/c/events.c).
 Function pointers become the enumeration Getter. PAPI's own name database is the oracle PapiLookup.
 Products and sums are taken to fit in 64 bits.
 */
module Events {
  import opened Common
  import opened Snapshots

  datatype Getter = NoGetter | WallClockTime | ThreadTime | JvmCompilations | ForcedSwitches | RusageTime | PapiValue

  type PapiIndex = n: nat | n < MAX_PAPI_EVENTS witness 0

  datatype EventInfo = EventInfo(
    backend: Mask, id: int, component: int, papiIndex: PapiIndex, getter: Getter, name: string)

  // What calloc stores in an event description.
  const BLANK: EventInfo := EventInfo(0, 0, 0, 0, NoGetter, "")

  // The names of events, as the column headers.
  function EventNames(events: seq<EventInfo>): (names: seq<string>)
    ensures |names| == |events| && forall e :: 0 <= e < |names| ==> names[e] == events[e].name
  {
    seq(|events|, e requires 0 <= e < |events| => events[e].name)
  }

  // ---------- getters ----------

  function Nanos(t: Timespec): int {
    t.sec * 1000000000 + t.nsec
  }

  function Micros(t: Timeval): int {
    t.sec * 1000000 + t.usec
  }

  function TimespecDiff(a: Timespec, b: Timespec): int {
    var secDiff := b.sec - a.sec;
    var nsecDiff := b.nsec - a.nsec;
    secDiff * 1000000000 + nsecDiff
  }

  function TimevalDiff(a: Timeval, b: Timeval): int {
    var secDiff := b.sec - a.sec;
    var usecDiff := b.usec - a.usec;
    secDiff * 1000000 + usecDiff
  }

  // getter_papi: the first failed return code wins over the difference.
  function PapiDifference(start: Snapshot, end: Snapshot, index: PapiIndex): int {
    if start.rc1 != PAPI_OK then start.rc1
    else if start.rc2 != PAPI_OK then start.rc2
    else if end.rc1 != PAPI_OK then end.rc1
    else end.papi[index] - start.papi[index]
  }

  function Get(info: EventInfo, start: Snapshot, end: Snapshot): int {
    match info.getter
    case NoGetter => 0
    case WallClockTime => TimespecDiff(start.timestamp, end.timestamp)
    case ThreadTime => TimespecDiff(start.threadtime, end.threadtime)
    case JvmCompilations => end.compilations - start.compilations
    case ForcedSwitches => end.usage.nivcsw - start.usage.nivcsw
    case RusageTime =>
      (TimevalDiff(start.usage.utime, end.usage.utime) + TimevalDiff(start.usage.stime, end.usage.stime)) * 1000
    case PapiValue => PapiDifference(start, end, info.papiIndex)
  }

  function GetRaw(info: EventInfo, value: Snapshot): int {
    match info.getter
    case NoGetter => 0
    case WallClockTime => Nanos(value.timestamp)
    case ThreadTime => value.threadtime.sec * 1000000000 + value.threadtime.nsec
    case JvmCompilations => value.compilations
    case ForcedSwitches => value.usage.nivcsw
    case RusageTime => (Micros(value.usage.utime) + Micros(value.usage.stime)) * 1000
    case PapiValue =>
      if value.rc1 != PAPI_OK then value.rc1
      else if value.rc2 != PAPI_OK then value.rc2
      else value.papi[info.papiIndex]
  }

  // For every event the reported difference is exactly the difference of the raw values. For PAPI events this takes
  // successful codes, among them the PAPI_start code in the end snapshot, a leftover that no stop writes.
  lemma DifferenceOfRaws(info: EventInfo, start: Snapshot, end: Snapshot)
    requires info.getter.PapiValue? ==>
               start.rc1 == start.rc2 == end.rc1 == end.rc2 == PAPI_OK
    ensures Get(info, start, end) == GetRaw(info, end) - GetRaw(info, start)
  {
  }

  // For a PAPI event without failed calls: exactly when that leftover is harmless.
  lemma DifferenceOfRawsIff(info: EventInfo, start: Snapshot, end: Snapshot)
    requires info.getter.PapiValue? && start.rc1 == start.rc2 == end.rc1 == PAPI_OK
    ensures Get(info, start, end) == end.papi[info.papiIndex] - start.papi[info.papiIndex]
    ensures Get(info, start, end) == GetRaw(info, end) - GetRaw(info, start) <==>
              end.rc2 == PAPI_OK || end.rc2 == end.papi[info.papiIndex]
  {
  }

  predicate IsEmpty(x: Snapshot) {
    && x.timestamp == Timespec(0, 0) && x.threadtime == Timespec(0, 0)
    && x.usage == Rusage(Timeval(0, 0), Timeval(0, 0), 0) && x.compilations == 0
    && x.rc1 == 0 && x.rc2 == 0 && forall i :: 0 <= i < |x.papi| ==> x.papi[i] == 0
  }

  lemma ZeroIsEmpty()
    ensures IsEmpty(ZERO)
  {
    assert forall i :: 0 <= i < MAX_PAPI_EVENTS ==> ZEROS[i] == 0;
  }

  // The raw value of an empty snapshot is 0, so with the differences above every raw value is fixed.
  lemma RawOfEmpty(info: EventInfo, x: Snapshot)
    requires IsEmpty(x)
    ensures GetRaw(info, x) == 0
  {
  }

  // A PAPI value with a failed call is the code of the first one that failed.
  lemma FailedCodesWin(info: EventInfo, start: Snapshot, end: Snapshot)
    requires info.getter.PapiValue?
    ensures start.rc1 != 0 ==> Get(info, start, end) == start.rc1
    ensures start.rc1 == 0 && start.rc2 != 0 ==> Get(info, start, end) == start.rc2
    ensures start.rc1 == 0 && start.rc2 == 0 && end.rc1 != 0 ==> Get(info, start, end) == end.rc1
    ensures start.rc1 == 0 && start.rc2 == 0 && end.rc1 == 0 ==>
              Get(info, start, end) == end.papi[info.papiIndex] - start.papi[info.papiIndex]
    ensures end.rc1 != 0 ==> GetRaw(info, end) == end.rc1
    ensures end.rc1 == 0 && end.rc2 != 0 ==> GetRaw(info, end) == end.rc2
  {
  }

  // The reported values of the built-in events, in units of their clocks.
  lemma BuiltInValues(info: EventInfo, start: Snapshot, end: Snapshot)
    ensures info.getter.WallClockTime? ==>
              Get(info, start, end) == (end.timestamp.sec - start.timestamp.sec) * 1000000000
                                       + end.timestamp.nsec - start.timestamp.nsec
    ensures info.getter.ThreadTime? ==>
              Get(info, start, end) == (end.threadtime.sec - start.threadtime.sec) * 1000000000
                                       + end.threadtime.nsec - start.threadtime.nsec
    ensures info.getter.JvmCompilations? ==> Get(info, start, end) == end.compilations - start.compilations
    ensures info.getter.ForcedSwitches? ==> Get(info, start, end) == end.usage.nivcsw - start.usage.nivcsw
    ensures info.getter.RusageTime? ==>
              Get(info, start, end) ==
                1000 * (1000000 * (end.usage.utime.sec + end.usage.stime.sec
                                   - start.usage.utime.sec - start.usage.stime.sec)
                        + end.usage.utime.usec + end.usage.stime.usec - start.usage.utime.usec - start.usage.stime.usec)
  {
  }

  // The raw values of the built-in events.
  lemma RawBuiltInValues(info: EventInfo, x: Snapshot)
    ensures info.getter.WallClockTime? ==> GetRaw(info, x) == x.timestamp.sec * 1000000000 + x.timestamp.nsec
    ensures info.getter.ThreadTime? ==> GetRaw(info, x) == x.threadtime.sec * 1000000000 + x.threadtime.nsec
    ensures info.getter.JvmCompilations? ==> GetRaw(info, x) == x.compilations
    ensures info.getter.ForcedSwitches? ==> GetRaw(info, x) == x.usage.nivcsw
    ensures info.getter.RusageTime? ==>
              GetRaw(info, x) == 1000 * (1000000 * (x.usage.utime.sec + x.usage.stime.sec)
                                         + x.usage.utime.usec + x.usage.stime.usec)
  {
  }

  // ---------- Windows forms ----------

  // C division truncates toward zero.
  function TruncDiv(a: int, b: int): int
    requires b != 0
  {
    if a >= 0 then a / b else -((-a) / b)
  }

  // timestamp_diff_ns with QueryPerformanceCounter values a and b and timer frequency f.
  function CounterDiff(a: int, b: int, f: int): int {
    if f == 0 then -1 else TruncDiv((b - a) * 1000000000, f)
  }

  function CounterRaw(a: int, f: int): int {
    if f == 0 then -1 else TruncDiv(a * 1000000000, f)
  }

  datatype Filetimes = Filetimes(kernel: int, user: int)

  function FiletimesDiff(a: Filetimes, b: Filetimes): int {
    (TruncDiv(b.user - a.user, 10) + TruncDiv(b.kernel - a.kernel, 10)) * 1000
  }

  function FiletimesRaw(a: Filetimes): int {
    (TruncDiv(a.kernel, 10) + TruncDiv(a.user, 10)) * 1000
  }

  lemma SmallQuotient(d: int, e: int)
    requires d > 0 && -d < d * e < 2 * d
    ensures 0 <= e <= 1
  {
    if e >= 2 { MulGrows(d, 2, e); }
    if e <= -1 { MulGrows(d, e, -1); }
  }

  lemma MulGrows(d: int, a: int, b: int)
    requires d > 0 && a <= b
    ensures d * a <= d * b
  {
  }

  // Floor of a difference against the difference of the floors.
  lemma FloorOfDifference(x: int, y: int, d: int)
    requires d > 0
    ensures 0 <= y / d - x / d - (y - x) / d <= 1
  {
    var qx, qy, q := x / d, y / d, (y - x) / d;
    Distribute(d, qx, qy, q);
    SmallQuotient(d, qy - qx - q);
  }

  lemma Distribute(d: int, a: int, b: int, c: int)
    ensures d * (b - a - c) == d * b - d * a - d * c
  {
  }

  lemma CounterError(a: int, b: int, f: int)
    requires 0 <= a <= b && f > 0
    ensures 0 <= CounterRaw(b, f) - CounterRaw(a, f) - CounterDiff(a, b, f) <= 1
  {
    FloorOfDifference(a * 1000000000, b * 1000000000, f);
    assert (b - a) * 1000000000 == b * 1000000000 - a * 1000000000;
  }

  lemma FiletimesError(a: Filetimes, b: Filetimes)
    requires 0 <= a.kernel <= b.kernel && 0 <= a.user <= b.user
    ensures FiletimesRaw(b) - FiletimesRaw(a) - FiletimesDiff(a, b) in {0, 1000, 2000}
  {
    FloorOfDifference(a.kernel, b.kernel, 10);
    FloorOfDifference(a.user, b.user, 10);
  }

  // Sum of the wall-clock values of the adjacent intervals t[0]..t[1], t[1]..t[2], ...
  function IntervalSum(t: seq<int>, f: int): int {
    if |t| < 2 then 0 else IntervalSum(t[..|t| - 1], f) + CounterDiff(t[|t| - 2], t[|t| - 1], f)
  }

  // Splitting a measurement into k adjacent ones loses at most k - 1 nanoseconds in total.
  lemma {:induction false} AdjacentIntervals(t: seq<int>, f: int)
    requires |t| >= 2 && f > 0 && t[0] >= 0
    requires forall i, j :: 0 <= i <= j < |t| ==> t[i] <= t[j]
    ensures 0 <= CounterDiff(t[0], t[|t| - 1], f) - IntervalSum(t, f) <= |t| - 2
  {
    var n := |t| - 1;
    var front := t[..n];
    if n == 1 {
      assert IntervalSum(front, f) == 0;
    } else {
      AdjacentIntervals(front, f);
      var whole, last := (t[n] - t[0]) * 1000000000, (t[n - 1] - t[0]) * 1000000000;
      assert whole - last == (t[n] - t[n - 1]) * 1000000000;
      FloorOfDifference(last, whole, f);
    }
  }

  // ---------- name resolution ----------

  datatype PapiCode = PapiCode(id: int, component: int)
  type PapiLookup = string -> Option<PapiCode>

  datatype Resolver = NoResolver | PapiWithPrefix | PapiPlain

  datatype KnownEvent = KnownEvent(
    name: string, obsolete: bool, resolver: Resolver, listed: bool, backend: Mask, getter: Getter)

  const KNOWN_EVENTS: seq<KnownEvent> := [
    KnownEvent("JVM_COMPILATIONS", true, NoResolver, false, COMPILATIONS, JvmCompilations),
    KnownEvent("SYS_WALLCLOCK", true, NoResolver, false, WALLCLOCK, WallClockTime),
    KnownEvent("forced-context-switch", true, NoResolver, false, RESOURCE_USAGE, ForcedSwitches),
    KnownEvent("JVM:compilations", false, NoResolver, false, COMPILATIONS, JvmCompilations),
    KnownEvent("PAPI:", false, PapiWithPrefix, true, PAPI, PapiValue),
    KnownEvent("SYS:forced-context-switches", false, NoResolver, false, RESOURCE_USAGE, ForcedSwitches),
    KnownEvent("SYS:thread-time", false, NoResolver, false, THREADTIME, ThreadTime),
    KnownEvent("SYS:thread-time-rusage", false, NoResolver, false, RESOURCE_USAGE, RusageTime),
    KnownEvent("SYS:wallclock-time", false, NoResolver, false, WALLCLOCK, WallClockTime),
    KnownEvent("", true, PapiPlain, false, PAPI, PapiValue)]

  function Lower(c: char): char {
    if 'A' <= c <= 'Z' then ((c as int) + 32) as char else c
  }

  predicate SameIgnoringCase(a: string, b: string) {
    |a| == |b| && forall i :: 0 <= i < |a| ==> Lower(a[i]) == Lower(b[i])
  }

  // The same letter, or the upper and lower case of one: 32 apart in ASCII.
  predicate SameLetter(a: char, b: char) {
    || a == b
    || ('A' <= a <= 'Z' && b as int == a as int + 32)
    || ('A' <= b <= 'Z' && a as int == b as int + 32)
  }

  lemma IgnoringCaseIs(a: string, b: string)
    ensures SameIgnoringCase(a, b) <==> |a| == |b| && forall i :: 0 <= i < |a| ==> SameLetter(a[i], b[i])
  {
    if |a| == |b| {
      forall i | 0 <= i < |a| ensures Lower(a[i]) == Lower(b[i]) <==> SameLetter(a[i], b[i]) {}
    }
  }

  predicate StartsWithIgnoringCase(s: string, prefix: string) {
    |prefix| <= |s| && SameIgnoringCase(s[..|prefix|], prefix)
  }

  // What one table entry makes of a name: the PAPI code it found, or PapiCode(info.id, info.component)
  // unchanged for an entry without a resolver.
  function Try(e: KnownEvent, name: string, lookup: PapiLookup, info: EventInfo): Option<PapiCode> {
    match e.resolver
    case NoResolver =>
      if SameIgnoringCase(name, e.name) then Some(PapiCode(info.id, info.component)) else None
    case PapiWithPrefix =>
      if StartsWithIgnoringCase(name, e.name) && |name| >= 5 then lookup(name[5..]) else None
    case PapiPlain =>
      if StartsWithIgnoringCase(name, e.name) then lookup(name) else None
  }

  // Index of the first entry from k on that accepts the name, or the table length.
  function FirstAccepting(table: seq<KnownEvent>, name: string, lookup: PapiLookup, info: EventInfo, k: nat): (r: nat)
    requires k <= |table|
    ensures k <= r <= |table|
    ensures forall j :: k <= j < r ==> Try(table[j], name, lookup, info).None?
    ensures r < |table| ==> Try(table[r], name, lookup, info).Some?
    decreases |table| - k
  {
    if k == |table| || Try(table[k], name, lookup, info).Some? then k
    else FirstAccepting(table, name, lookup, info, k + 1)
  }

  // The description that a name resolves to, written over `info`.
  function ResolveIn(table: seq<KnownEvent>, name: string, lookup: PapiLookup, info: EventInfo): Option<EventInfo> {
    var k := FirstAccepting(table, name, lookup, info, 0);
    if k == |table| then None
    else
      var e, code := table[k], Try(table[k], name, lookup, info).value;
      Some(EventInfo(e.backend, code.id, code.component, info.papiIndex, e.getter, name))
  }

  function Resolve(name: string, lookup: PapiLookup, info: EventInfo): Option<EventInfo> {
    ResolveIn(KNOWN_EVENTS, name, lookup, info)
  }

  // The backend whose probe writes the fields a getter reads.
  function BackendOf(g: Getter): Mask {
    match g
    case NoGetter => 0
    case WallClockTime => WALLCLOCK
    case ThreadTime => THREADTIME
    case JvmCompilations => COMPILATIONS
    case ForcedSwitches => RESOURCE_USAGE
    case RusageTime => RESOURCE_USAGE
    case PapiValue => PAPI
  }

  predicate WellPaired(info: EventInfo) {
    info.getter != NoGetter && info.backend == BackendOf(info.getter)
  }

  // Resolution never combines a getter with a foreign backend, keeps the caller's name and papi_index, and
  // takes id and component from PAPI alone.
  lemma ResolvedIsWellPaired(name: string, lookup: PapiLookup, info: EventInfo)
    requires Resolve(name, lookup, info).Some?
    ensures var e := Resolve(name, lookup, info).value;
            && WellPaired(e) && e.name == name && e.papiIndex == info.papiIndex
            && (e.backend == PAPI <==> e.getter.PapiValue?)
            && (e.backend == PAPI ==>
                  (Some(PapiCode(e.id, e.component)) == lookup(name)
                   || (|name| >= 5 && Some(PapiCode(e.id, e.component)) == lookup(name[5..]))))
  {
    TableIsWellPaired(FirstAccepting(KNOWN_EVENTS, name, lookup, info, 0));
  }

  // The names that stand for each kind of value, in any case.
  predicate IsName(name: string, current: string, legacy: string) {
    SameIgnoringCase(name, current) || (legacy != "" && SameIgnoringCase(name, legacy))
  }

  // The entries that are neither a prefix nor the catch-all. They differ in length, or in one character ignoring case.
  predicate IsBuiltIn(k: int) {
    k in {0, 1, 2, 3, 5, 6, 7, 8}
  }

  lemma EntriesDiffer(j: nat, k: nat)
    requires IsBuiltIn(j) && IsBuiltIn(k) && j != k && |KNOWN_EVENTS[j].name| == |KNOWN_EVENTS[k].name|
    ensures |KNOWN_EVENTS[j].name| == 16
    ensures KNOWN_EVENTS[j].name[3] in {':', '_'} && KNOWN_EVENTS[k].name[3] in {':', '_'}
    ensures KNOWN_EVENTS[j].name[3] != KNOWN_EVENTS[k].name[3]
  {
    assert |"JVM_COMPILATIONS"| == 16 && |"SYS_WALLCLOCK"| == 13 && |"forced-context-switch"| == 21;
    assert |"JVM:compilations"| == 16 && |"SYS:forced-context-switches"| == 27 && |"SYS:thread-time"| == 15;
    assert |"SYS:thread-time-rusage"| == 22 && |"SYS:wallclock-time"| == 18;
    assert "JVM_COMPILATIONS"[3] == '_' && "JVM:compilations"[3] == ':';
  }

  // A name is, ignoring case, that of at most one built-in entry.
  lemma OneBuiltIn(name: string, j: nat, k: nat)
    requires IsBuiltIn(j) && IsBuiltIn(k)
    requires SameIgnoringCase(name, KNOWN_EVENTS[j].name) && SameIgnoringCase(name, KNOWN_EVENTS[k].name)
    ensures j == k
  {
    assert |KNOWN_EVENTS[j].name| == |name| == |KNOWN_EVENTS[k].name|;
    assert |name| > 3 ==> Lower(KNOWN_EVENTS[j].name[3]) == Lower(name[3]) == Lower(KNOWN_EVENTS[k].name[3]);
    if j != k {
      EntriesDiffer(j, k);
    }
  }

  lemma EarlierRefuse(name: string, lookup: PapiLookup, info: EventInfo, j: nat, k: nat)
    requires IsBuiltIn(k) && j < k && SameIgnoringCase(name, KNOWN_EVENTS[k].name)
    ensures Try(KNOWN_EVENTS[j], name, lookup, info).None?
  {
    if j == 4 {
      assert KNOWN_EVENTS[k].name[0] in {'J', 'S', 'f'} && Lower(name[0]) == Lower(KNOWN_EVENTS[k].name[0]) != 'p';
      assert Lower("PAPI:"[0]) == 'p' && name[..5][0] == name[0];
    } else if SameIgnoringCase(name, KNOWN_EVENTS[j].name) {
      OneBuiltIn(name, j, k);
    }
  }

  lemma ResolvesAt(name: string, lookup: PapiLookup, info: EventInfo, k: nat)
    requires IsBuiltIn(k) && SameIgnoringCase(name, KNOWN_EVENTS[k].name)
    ensures var resolved := Resolve(name, lookup, info);
            resolved.Some? && resolved.value.getter == KNOWN_EVENTS[k].getter && resolved.value.name == name
  {
    forall j: nat | j < k ensures Try(KNOWN_EVENTS[j], name, lookup, info).None? {
      EarlierRefuse(name, lookup, info, j, k);
    }
    SkipsRefusing(KNOWN_EVENTS, name, lookup, info, 0, k);
  }

  // A name with the prefix resolves to what PAPI says of the rest of it.
  lemma PrefixedNameResolves(rest: string, lookup: PapiLookup, info: EventInfo)
    requires lookup(rest).Some?
    ensures Resolve("PAPI:" + rest, lookup, info) ==
              Some(EventInfo(PAPI, lookup(rest).value.id, lookup(rest).value.component, info.papiIndex, PapiValue,
                             "PAPI:" + rest))
  {
    var name := "PAPI:" + rest;
    assert name[0] == 'P' && name[..5] == "PAPI:" && name[5..] == rest;
    assert Lower('P') == 'p' && Lower('J') == 'j' && Lower('S') == 's' && Lower('f') == 'f';
    forall j: nat | j < 4 ensures Try(KNOWN_EVENTS[j], name, lookup, info).None? {
      assert KNOWN_EVENTS[j].name[0] in {'J', 'S', 'f'};
    }
    assert Try(KNOWN_EVENTS[4], name, lookup, info).Some?;
    assert FirstAccepting(KNOWN_EVENTS, name, lookup, info, 0) == 4 by {
      SkipsRefusing(KNOWN_EVENTS, name, lookup, info, 0, 4);
    }
  }

  predicate IsBuiltInName(name: string) {
    || IsName(name, "SYS:wallclock-time", "SYS_WALLCLOCK") || IsName(name, "SYS:thread-time", "")
    || IsName(name, "JVM:compilations", "JVM_COMPILATIONS") || IsName(name, "SYS:thread-time-rusage", "")
    || IsName(name, "SYS:forced-context-switches", "forced-context-switch")
  }

  lemma OthersRefuse(name: string, lookup: PapiLookup, info: EventInfo, k: nat)
    requires IsBuiltIn(k) && !IsBuiltInName(name)
    ensures Try(KNOWN_EVENTS[k], name, lookup, info).None?
  {
  }

  // All other names are for PAPI: first without the prefix, if they have it in any case, and then as they are.
  lemma OtherNamesResolve(name: string, lookup: PapiLookup, info: EventInfo)
    requires !IsBuiltInName(name)
    ensures var prefixed := |name| >= 5 && SameIgnoringCase(name[..5], "PAPI:") && lookup(name[5..]).Some?;
            var code := if prefixed then lookup(name[5..]) else lookup(name);
            Resolve(name, lookup, info) ==
              if code.None? then None
              else Some(EventInfo(PAPI, code.value.id, code.value.component, info.papiIndex, PapiValue, name))
  {
    forall j: nat | IsBuiltIn(j) ensures Try(KNOWN_EVENTS[j], name, lookup, info).None? {
      OthersRefuse(name, lookup, info, j);
    }
    assert name[..0] == "" && SameIgnoringCase(name[..0], "");
    assert Try(KNOWN_EVENTS[9], name, lookup, info) == lookup(name);
    if Try(KNOWN_EVENTS[4], name, lookup, info).Some? {
      SkipsRefusing(KNOWN_EVENTS, name, lookup, info, 0, 4);
    } else if lookup(name).Some? {
      SkipsRefusing(KNOWN_EVENTS, name, lookup, info, 0, 9);
    } else {
      assert forall j: nat :: j < 10 ==> IsBuiltIn(j) || j == 4 || j == 9;
    }
  }

  lemma {:induction false} SkipsRefusing(table: seq<KnownEvent>, name: string, lookup: PapiLookup, info: EventInfo,
      k: nat, at: nat)
    requires k <= at < |table| && Try(table[at], name, lookup, info).Some?
    requires forall j :: k <= j < at ==> Try(table[j], name, lookup, info).None?
    ensures FirstAccepting(table, name, lookup, info, k) == at
    decreases at - k
  {
    if k < at { SkipsRefusing(table, name, lookup, info, k + 1, at); }
  }

  lemma TableIsWellPaired(k: nat)
    requires k < |KNOWN_EVENTS|
    ensures var e := KNOWN_EVENTS[k];
            && e.getter != NoGetter && e.backend == BackendOf(e.getter)
            && (e.backend == PAPI <==> e.getter.PapiValue?)
            && (e.backend == PAPI <==> !e.resolver.NoResolver?)
  {
  }

  // ubench_event_resolve on a table of known events
  method ResolveEvent(table: seq<KnownEvent>, name: string, lookup: PapiLookup, info: EventInfo)
    returns (ok: bool, result: EventInfo)
    ensures ok == ResolveIn(table, name, lookup, info).Some?
    ensures result == if ok then ResolveIn(table, name, lookup, info).value else info
  {
    result := info;
    var it := 0;
    while it < |table|
      invariant 0 <= it <= |table|
      invariant result == info
      invariant FirstAccepting(table, name, lookup, info, 0) == FirstAccepting(table, name, lookup, info, it)
    {
      var e := table[it];
      var found := Try(e, name, lookup, info);
      if found.Some? {
        result := result.(id := found.value.id, component := found.value.component);
        result := result.(backend := e.backend, getter := e.getter, name := name);
        return true, result;
      }
      it := it + 1;
    }
    return false, info;
  }

  function Prefixed(names: seq<string>): (r: seq<string>)
    ensures |r| == |names| && forall i :: 0 <= i < |r| ==> r[i] == "PAPI:" + names[i]
  {
    seq(|names|, i requires 0 <= i < |names| => "PAPI:" + names[i])
  }

  // The names reported by the entries of a table when PAPI lists papiNames.
  function Listed(table: seq<KnownEvent>, papiNames: seq<string>): seq<string> {
    if table == [] then []
    else Listed(table[..|table| - 1], papiNames) + EntryNames(table[|table| - 1], papiNames)
  }

  function EntryNames(e: KnownEvent, papiNames: seq<string>): seq<string> {
    if e.obsolete then []
    else if e.listed then Prefixed(papiNames)
    else if e.resolver.NoResolver? then [e.name]
    else []
  }

  // `seen` is what a callback sees that stops the listing of `all` as soon as terminate holds.
  ghost predicate SeenUntil(seen: seq<string>, all: seq<string>, terminate: string -> bool, stopped: bool) {
    && seen <= all
    && (if stopped
        then seen != [] && NeverStops(seen[..|seen| - 1], terminate) && terminate(seen[|seen| - 1])
        else seen == all && NeverStops(seen, terminate))
  }

  ghost predicate NeverStops(seen: seq<string>, terminate: string -> bool) {
    forall i :: 0 <= i < |seen| ==> !terminate(seen[i])
  }

  lemma ListedGrows(table: seq<KnownEvent>, papiNames: seq<string>, k: nat)
    requires k <= |table|
    ensures Listed(table[..k], papiNames) <= Listed(table, papiNames)
  {
    if k < |table| {
      ListedGrows(table[..|table| - 1], papiNames, k);
      assert table[..|table| - 1][..k] == table[..k];
    } else {
      assert table[..k] == table;
    }
  }

  lemma PrefixedConcat(a: seq<string>, b: seq<string>)
    ensures Prefixed(a + b) == Prefixed(a) + Prefixed(b)
  {
  }

  // A listing that stopped inside the part listed after `before` has stopped for good.
  lemma StoppedInside(before: seq<string>, names: seq<string>, part: seq<string>, all: seq<string>,
      terminate: string -> bool)
    requires SeenUntil(names, part, terminate, true)
    requires NeverStops(before, terminate)
    requires before + part <= all
    ensures SeenUntil(before + names, all, terminate, true)
  {
    assert before + names <= before + part;
  }

  // What PAPI's enumeration gives: preset codes with their name and counter count as far as PAPI tells them, and the
  // names of the native codes component by component.
  datatype Preset = Preset(name: Option<string>, counters: Option<nat>)
  datatype PapiCatalog = PapiCatalog(presets: seq<Preset>, natives: seq<seq<Option<string>>>)

  // Presets without name, description or counters are skipped.
  predicate IsShown(p: Preset) {
    p.name.Some? && p.counters.Some? && p.counters.value != 0
  }

  function PresetNames(presets: seq<Preset>): seq<string> {
    if presets == [] then []
    else
      var p := presets[|presets| - 1];
      PresetNames(presets[..|presets| - 1]) + if IsShown(p) then [p.name.value] else []
  }

  function NativeNames(codes: seq<Option<string>>): seq<string> {
    if codes == [] then []
    else
      var name := codes[|codes| - 1];
      NativeNames(codes[..|codes| - 1]) + if name.Some? then [name.value] else []
  }

  function AllNativeNames(natives: seq<seq<Option<string>>>): seq<string> {
    if natives == [] then [] else AllNativeNames(natives[..|natives| - 1]) + NativeNames(natives[|natives| - 1])
  }

  function PapiNames(catalog: PapiCatalog): seq<string> {
    PresetNames(catalog.presets) + AllNativeNames(catalog.natives)
  }

  lemma PrefixedGrows(a: seq<string>, b: seq<string>)
    requires a <= b
    ensures Prefixed(a) <= Prefixed(b)
  {
  }

  // Where the listing of the first codes ends in the listing of all.
  lemma {:induction false} PresetsGrow(presets: seq<Preset>, k: nat)
    requires k <= |presets|
    ensures PresetNames(presets[..k]) <= PresetNames(presets)
  {
    if k < |presets| {
      PresetsGrow(presets[..|presets| - 1], k);
      assert presets[..|presets| - 1][..k] == presets[..k];
    } else {
      assert presets[..k] == presets;
    }
  }

  lemma {:induction false} NativesGrow(codes: seq<Option<string>>, k: nat)
    requires k <= |codes|
    ensures NativeNames(codes[..k]) <= NativeNames(codes)
  {
    if k < |codes| {
      NativesGrow(codes[..|codes| - 1], k);
      assert codes[..|codes| - 1][..k] == codes[..k];
    } else {
      assert codes[..k] == codes;
    }
  }

  lemma {:induction false} AllNativesGrow(natives: seq<seq<Option<string>>>, k: nat)
    requires k <= |natives|
    ensures AllNativeNames(natives[..k]) <= AllNativeNames(natives)
  {
    if k < |natives| {
      AllNativesGrow(natives[..|natives| - 1], k);
      assert natives[..|natives| - 1][..k] == natives[..k];
    } else {
      assert natives[..k] == natives;
    }
  }

  // The loop over the preset codes.
  method ListPresets(presets: seq<Preset>, terminate: string -> bool) returns (seen: seq<string>, stopped: bool)
    ensures SeenUntil(seen, Prefixed(PresetNames(presets)), terminate, stopped)
  {
    seen := [];
    for i := 0 to |presets|
      invariant seen == Prefixed(PresetNames(presets[..i])) && NeverStops(seen, terminate)
    {
      assert presets[..i + 1][..i] == presets[..i];
      PresetsGrow(presets, i + 1);
      PrefixedGrows(PresetNames(presets[..i + 1]), PresetNames(presets));
      if IsShown(presets[i]) {
        var full := "PAPI:" + presets[i].name.value;
        PrefixedConcat(PresetNames(presets[..i]), [presets[i].name.value]);
        seen := seen + [full];
        if terminate(full) {
          return seen, true;
        }
      }
    }
    assert presets[..|presets|] == presets;
    stopped := false;
  }

  // The loop over the native codes of a component.
  method ListNatives(codes: seq<Option<string>>, terminate: string -> bool) returns (seen: seq<string>, stopped: bool)
    ensures SeenUntil(seen, Prefixed(NativeNames(codes)), terminate, stopped)
  {
    seen := [];
    for i := 0 to |codes|
      invariant seen == Prefixed(NativeNames(codes[..i])) && NeverStops(seen, terminate)
    {
      assert codes[..i + 1][..i] == codes[..i];
      NativesGrow(codes, i + 1);
      PrefixedGrows(NativeNames(codes[..i + 1]), NativeNames(codes));
      if codes[i].Some? {
        var full := "PAPI:" + codes[i].value;
        PrefixedConcat(NativeNames(codes[..i]), [codes[i].value]);
        seen := seen + [full];
        if terminate(full) {
          return seen, true;
        }
      }
    }
    assert codes[..|codes|] == codes;
    stopped := false;
  }

  // The loop over the components.
  method ListComponents(natives: seq<seq<Option<string>>>, terminate: string -> bool)
    returns (seen: seq<string>, stopped: bool)
    ensures SeenUntil(seen, Prefixed(AllNativeNames(natives)), terminate, stopped)
  {
    seen := [];
    for component := 0 to |natives|
      invariant seen == Prefixed(AllNativeNames(natives[..component])) && NeverStops(seen, terminate)
    {
      var names, stop := ListNatives(natives[component], terminate);
      assert natives[..component + 1][..component] == natives[..component];
      AllNativesGrow(natives, component + 1);
      PrefixedGrows(AllNativeNames(natives[..component + 1]), AllNativeNames(natives));
      PrefixedConcat(AllNativeNames(natives[..component]), NativeNames(natives[component]));
      if stop {
        StoppedInside(seen, names, Prefixed(NativeNames(natives[component])), Prefixed(AllNativeNames(natives)),
                      terminate);
        return seen + names, true;
      }
      seen := seen + names;
    }
    assert natives[..|natives|] == natives;
    stopped := false;
  }

  // list_papi_events: first the presets, then the native events of each component.
  method ListPapiEvents(catalog: PapiCatalog, terminate: string -> bool)
    returns (seen: seq<string>, stopped: bool)
    ensures SeenUntil(seen, Prefixed(PapiNames(catalog)), terminate, stopped)
  {
    seen, stopped := ListPresets(catalog.presets, terminate);
    PrefixedConcat(PresetNames(catalog.presets), AllNativeNames(catalog.natives));
    if stopped {
      return;
    }
    var names, stop := ListComponents(catalog.natives, terminate);
    if stop {
      StoppedInside(seen, names, Prefixed(AllNativeNames(catalog.natives)), Prefixed(PapiNames(catalog)), terminate);
    }
    return seen + names, stop;
  }

  // ubench_event_iterate on a table of known events
  method IterateEvents(table: seq<KnownEvent>, catalog: PapiCatalog, terminate: string -> bool)
    returns (seen: seq<string>, stopped: bool)
    ensures SeenUntil(seen, Listed(table, PapiNames(catalog)), terminate, stopped)
  {
    ghost var papiNames := PapiNames(catalog);
    seen := [];
    var it := 0;
    while it < |table|
      invariant 0 <= it <= |table|
      invariant seen == Listed(table[..it], papiNames)
      invariant NeverStops(seen, terminate)
    {
      var names, stop := VisitEntry(table[it], catalog, terminate);
      ListedStep(table, papiNames, it);
      if stop {
        StoppedInside(seen, names, EntryNames(table[it], papiNames), Listed(table, papiNames), terminate);
        return seen + names, true;
      }
      seen := seen + names;
      it := it + 1;
    }
    assert table[..it] == table;
    stopped := false;
  }

  lemma ListedStep(table: seq<KnownEvent>, papiNames: seq<string>, it: nat)
    requires it < |table|
    ensures Listed(table[..it + 1], papiNames) == Listed(table[..it], papiNames) + EntryNames(table[it], papiNames)
    ensures Listed(table[..it + 1], papiNames) <= Listed(table, papiNames)
  {
    assert table[..it + 1][..it] == table[..it];
    ListedGrows(table, papiNames, it + 1);
  }

  // The body of the loop of ubench_event_iterate for one table entry.
  method VisitEntry(e: KnownEvent, catalog: PapiCatalog, terminate: string -> bool)
    returns (seen: seq<string>, stopped: bool)
    ensures SeenUntil(seen, EntryNames(e, PapiNames(catalog)), terminate, stopped)
  {
    if e.obsolete {
      return [], false;
    }
    if e.listed {
      seen, stopped := ListPapiEvents(catalog, terminate);
    } else if e.resolver.NoResolver? {
      seen := [e.name];
      stopped := terminate(e.name);
    } else {
      return [], false;
    }
  }

  // Every name the agent reports as supported resolves: built-in names always, PAPI names whenever PAPI
  // finds the code of a name it listed.
  lemma ListedNamesResolve(papiNames: seq<string>, lookup: PapiLookup, info: EventInfo, name: string)
    requires name in Listed(KNOWN_EVENTS, papiNames)
    requires forall n :: n in papiNames ==> lookup(n).Some?
    ensures Resolve(name, lookup, info).Some?
  {
    var k := ListedBy(KNOWN_EVENTS, papiNames, name);
    ListedEntryAccepts(k, papiNames, lookup, info, name);
  }

  lemma ListedEntryAccepts(k: nat, papiNames: seq<string>, lookup: PapiLookup, info: EventInfo, name: string)
    requires k < |KNOWN_EVENTS| && name in EntryNames(KNOWN_EVENTS[k], papiNames)
    requires forall n :: n in papiNames ==> lookup(n).Some?
    ensures Try(KNOWN_EVENTS[k], name, lookup, info).Some?
  {
    if KNOWN_EVENTS[k].listed {
      var i :| 0 <= i < |papiNames| && Prefixed(papiNames)[i] == name;
      assert name[..5] == "PAPI:" && name[5..] == papiNames[i];
    }
  }

  lemma ListedBy(table: seq<KnownEvent>, papiNames: seq<string>, name: string) returns (j: nat)
    requires name in Listed(table, papiNames)
    ensures j < |table| && name in EntryNames(table[j], papiNames)
  {
    var n := |table| - 1;
    if name in Listed(table[..n], papiNames) {
      j := ListedBy(table[..n], papiNames, name);
    } else {
      j := n;
    }
  }
}
