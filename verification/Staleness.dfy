/**
 When result rows depend on what the snapshot cells held before. Only fields written by the paired start and stop calls
 are read; the one way to break this is a user sample whose id is -1, the type of a START, in a cell that holds an old
 PAPI_start code.
 */
module Staleness {
  import opened Common
  import opened Snapshots
  import opened Events
  import opened Pairing
  import opened EventSets
  import Registration

  // Two snapshots with the same type agree on everything a getter may read from them, but for the PAPI_start code.
  ghost predicate Agree(mask: Mask, count: nat, a: Snapshot, b: Snapshot)
    requires count <= MAX_PAPI_EVENTS
  {
    && a.kind == b.kind
    && (Uses(mask, WALLCLOCK) ==> a.timestamp == b.timestamp)
    && (Uses(mask, THREADTIME) ==> a.threadtime == b.threadtime)
    && (Uses(mask, RESOURCE_USAGE) ==> a.usage == b.usage)
    && (Uses(mask, COMPILATIONS) ==> a.compilations == b.compilations)
    && (Uses(mask, PAPI) ==>
          && a.rc1 == b.rc1
          && (a.rc1 == PAPI_OK ==> a.papi[..count] == b.papi[..count]))
  }

  // Every used event has its backend in the mask and its PAPI index among the counters of the set.
  ghost predicate Covered(s: EventSet) {
    forall e :: 0 <= e < |s.events| ==>
      && WellPaired(s.events[e])
      && Uses(s.mask, s.events[e].backend)
      && (s.events[e].getter.PapiValue? ==> s.events[e].papiIndex < |s.papiIds|)
  }

  // A set that createEventSet filled in is covered, even with more than 20 PAPI ids.
  lemma CreatedSetsAreCovered(names: seq<string>, lookup: PapiLookup, s: EventSet)
    requires Registration.Collect(names, Registration.ResolutionBy(lookup)).Complete?
    requires var reg := Registration.Collect(names, Registration.ResolutionBy(lookup)).registry;
             s.mask == reg.mask && s.events == reg.events && s.papiIds == reg.ids
    ensures Covered(s)
  {
    Registration.CompleteIsRegistered(names, lookup);
    forall e | 0 <= e < |s.events|
      ensures && WellPaired(s.events[e]) && Uses(s.mask, s.events[e].backend)
              && (s.events[e].getter.PapiValue? ==> s.events[e].papiIndex < |s.papiIds|)
    {
      assert Registration.HasBackend(s.events, s.events[e].backend);
      Registration.PairedBackend(s.events[e]);
      assert s.events[e].backend == PAPI ==> Registration.IndexOk(s.events[e], s.papiIds);
    }
  }

  // ---------- what the actions alone say about the cells ----------

  // The types in the cells, and which cells hold a PAPI_start code that does not come from old contents: those that
  // were live before the run and those that a start of the run has written.
  datatype Shadow = Shadow(kinds: seq<int>, written: seq<bool>, index: nat)

  function KindOf(a: Action): int
    requires !a.Reset?
  {
    match a
    case Start => START
    case Stop => END
    case Sample(user) => user
  }

  function ShadowOf(s: EventSet): (sh: Shadow)
    ensures |sh.kinds| == |sh.written| == |s.data| && sh.index == s.index
    ensures forall c :: 0 <= c < |s.data| ==> (sh.written[c] <==> c < s.index)
    ensures forall c :: 0 <= c < |s.data| && c < s.index ==> sh.kinds[c] == s.data[c].kind
  {
    Shadow(
      seq(|s.data|, c requires 0 <= c < |s.data| => if c < s.index then s.data[c].kind else 0),
      seq(|s.data|, c => c < s.index),
      s.index)
  }

  // An action on the shadow; one that is out of bounds is ignored.
  function ShadowAct(sh: Shadow, a: Action): Shadow
    requires |sh.kinds| == |sh.written| >= 2
  {
    if a.Reset? then sh.(index := 0)
    else
      var at := if !a.Stop? && sh.index >= |sh.kinds| then sh.index - 2 else sh.index;
      if at >= |sh.kinds| then sh
      else Shadow(sh.kinds[at := KindOf(a)], sh.written[at := sh.written[at] || a.Start?], at + 1)
  }

  function ShadowRun(sh: Shadow, run: seq<Timed>): (sh': Shadow)
    requires sh.index <= |sh.kinds| == |sh.written| && |sh.kinds| >= 2
    ensures sh'.index <= |sh'.kinds| == |sh'.written| == |sh.kinds|
    decreases |run|
  {
    if run == [] then sh else ShadowRun(ShadowAct(sh, run[0].0), run[1..])
  }

  // No row begins at a sample taken for a START in a cell without a code of its own.
  ghost predicate StartsWritten(sh: Shadow)
    requires sh.index <= |sh.kinds| == |sh.written|
  {
    forall p :: p in Pairs(sh.kinds[..sh.index]) && p.0 < |sh.written| ==> sh.written[p.0]
  }

  ghost predicate Shadows(sh: Shadow, s: EventSet)
    requires Usable(s)
  {
    && |sh.kinds| == |sh.written| == |s.data| && sh.index == s.index
    && forall c :: 0 <= c < s.index ==> s.data[c].kind == sh.kinds[c]
  }

  lemma ActKeepsShadow(sh: Shadow, s: EventSet, a: Action, r: Readings, t: nat)
    requires Usable(s) && InBounds(s, a) && Shadows(sh, s)
    ensures Shadows(ShadowAct(sh, a), Act(s, a, r, t))
  {
    if !a.Reset? {
      assert Taken(s.mask, |s.papiIds|, a, s.data[Cell(s, a)], r, t).kind == KindOf(a);
    }
  }

  // ---------- two sets with different old contents ----------

  // The same set twice, up to what the cells held before: the live cells agree, and so do the codes where the shadow
  // says that they are written.
  ghost predicate Twins(s: EventSet, g: EventSet, sh: Shadow)
    requires Usable(s) && Usable(g)
  {
    && s.mask == g.mask && s.events == g.events && s.papiIds == g.papiIds
    && |s.data| == |g.data| && s.index == g.index && |s.log| == |g.log|
    && Shadows(sh, s)
    && (forall i :: 0 <= i < s.index ==> Agree(s.mask, |s.papiIds|, s.data[i], g.data[i]))
    && (forall c :: 0 <= c < |s.data| && sh.written[c] && Uses(s.mask, PAPI) ==> s.data[c].rc2 == g.data[c].rc2)
  }

  lemma TakenAgree(mask: Mask, count: nat, a: Action, x: Snapshot, y: Snapshot, r: Readings, t: nat)
    requires count <= MAX_PAPI_EVENTS && !a.Reset?
    ensures var x', y' := Taken(mask, count, a, x, r, t), Taken(mask, count, a, y, r, t);
            && Agree(mask, count, x', y')
            && (Uses(mask, PAPI) && a.Start? ==> x'.rc2 == y'.rc2)
            && (!a.Start? ==> x'.rc2 == x.rc2 && y'.rc2 == y.rc2)
  {
  }

  lemma ActKeepsTwins(s: EventSet, g: EventSet, sh: Shadow, a: Action, r: Readings, t: nat)
    requires Usable(s) && Usable(g) && Twins(s, g, sh) && InBounds(s, a)
    ensures InBounds(g, a) && Twins(Act(s, a, r, t), Act(g, a, r, t), ShadowAct(sh, a))
  {
    ActKeepsShadow(sh, s, a, r, t);
    if !a.Reset? {
      var at := Cell(s, a);
      TakenAgree(s.mask, |s.papiIds|, a, s.data[at], g.data[at], r, t);
    }
  }

  lemma {:induction false} RunKeepsTwins(s: EventSet, g: EventSet, sh: Shadow, run: seq<Timed>, r: Readings)
    requires Canonical(s) && Canonical(g) && Twins(s, g, sh) && Safe(s, run, r)
    ensures Safe(g, run, r) && Twins(Run(s, run, r), Run(g, run, r), ShadowRun(sh, run))
    decreases |run|
  {
    if run != [] {
      var a, t := run[0].0, run[0].1;
      ActKeepsTwins(s, g, sh, a, r, t);
      ActKeepsClosedForm(s, a, r, t);
      ActKeepsClosedForm(g, a, r, t);
      RunKeepsTwins(Act(s, a, r, t), Act(g, a, r, t), ShadowAct(sh, a), run[1..], r);
    }
  }

  lemma AgreeingValues(mask: Mask, count: nat, e: EventInfo, a: Snapshot, a': Snapshot, b: Snapshot, b': Snapshot)
    requires count <= MAX_PAPI_EVENTS && WellPaired(e) && Uses(mask, e.backend)
    requires e.getter.PapiValue? ==> e.papiIndex < count
    requires Agree(mask, count, a, a') && Agree(mask, count, b, b')
    requires Uses(mask, PAPI) ==> a.rc2 == a'.rc2
    ensures Get(e, a, b) == Get(e, a', b')
  {
    if e.getter.PapiValue? {
      var i := e.papiIndex;
      assert a.rc1 == PAPI_OK ==> a.papi[..count][i] == a'.papi[..count][i];
      assert b.rc1 == PAPI_OK ==> b.papi[..count][i] == b'.papi[..count][i];
    }
  }

  lemma SameResults(s: EventSet, g: EventSet, sh: Shadow)
    requires Usable(s) && Usable(g) && Twins(s, g, sh) && Covered(s)
    requires Uses(s.mask, PAPI) ==> StartsWritten(sh)
    ensures Results(s) == Results(g)
  {
    var x, y := s.data[..s.index], g.data[..g.index];
    assert Kinds(x) == Kinds(y) == sh.kinds[..sh.index];
    var pairs := Pairs(Kinds(x));
    PairsAreDisjointAndTight(Kinds(x));
    forall k | 0 <= k < |pairs| ensures Results(s)[k] == Results(g)[k] {
      var (i, j) := pairs[k];
      assert Tight(Kinds(x), pairs[k]) && pairs[k] in pairs;
      forall e | 0 <= e < |s.events| ensures Get(s.events[e], x[i], x[j]) == Get(s.events[e], y[i], y[j]) {
        AgreeingValues(s.mask, |s.papiIds|, s.events[e], x[i], y[i], x[j], y[j]);
      }
    }
  }

  lemma {:induction false} ConfigurationStays(s: EventSet, run: seq<Timed>, r: Readings)
    requires Canonical(s) && Safe(s, run, r)
    ensures var s' := Run(s, run, r);
            s'.mask == s.mask && s'.events == s.events && s'.papiIds == s.papiIds && |s'.data| == |s.data|
    decreases |run|
  {
    if run != [] {
      ActKeepsClosedForm(s, run[0].0, r, run[0].1);
      ConfigurationStays(Act(s, run[0].0, r, run[0].1), run[1..], r);
    }
  }

  // ---------- exactly which runs are clean ----------

  // Other contents for the cells that are not live.
  predicate SameLive(s: EventSet, garbage: seq<Snapshot>)
    requires Usable(s)
  {
    |garbage| == |s.data| && garbage[..s.index] == s.data[..s.index]
  }

  ghost function ResultsAfter(s: EventSet, run: seq<Timed>, r: Readings): seq<seq<int>>
    requires Canonical(s) && StopsFit(|s.log|, run, |s.data|)
  {
    SafeExactlyWhen(s, run, r);
    Results(Run(s, run, r))
  }

  // Whatever the probes return, the rows after the run do not depend on what the cells held before.
  ghost predicate RowsAreClean(s: EventSet, run: seq<Timed>)
    requires Canonical(s) && StopsFit(|s.log|, run, |s.data|)
  {
    forall r: Readings, garbage: seq<Snapshot> | SameLive(s, garbage) ::
      ResultsAfter(s.(data := garbage), run, r) == ResultsAfter(s, run, r)
  }

  lemma CleanRun(s: EventSet, garbage: seq<Snapshot>, run: seq<Timed>, r: Readings)
    requires Canonical(s) && Covered(s) && StopsFit(|s.log|, run, |s.data|) && SameLive(s, garbage)
    requires Uses(s.mask, PAPI) ==> StartsWritten(ShadowRun(ShadowOf(s), run))
    ensures ResultsAfter(s.(data := garbage), run, r) == ResultsAfter(s, run, r)
  {
    var g := s.(data := garbage);
    forall i | 0 <= i < s.index ensures s.data[i] == g.data[i] {
      assert s.data[..s.index][i] == garbage[..s.index][i];
    }
    SafeExactlyWhen(s, run, r);
    RunKeepsTwins(s, g, ShadowOf(s), run, r);
    ConfigurationStays(s, run, r);
    SameResults(Run(s, run, r), Run(g, run, r), ShadowRun(ShadowOf(s), run));
  }

  // The cells without a code of their own still hold the old one, and what was sampled there was read successfully.
  ghost predicate Leaks(s: EventSet, before: seq<Snapshot>, sh: Shadow)
    requires Usable(s)
  {
    && Shadows(sh, s) && |before| == |s.data| && Uses(s.mask, PAPI)
    && forall c :: 0 <= c < |s.data| && !sh.written[c] ==>
         s.data[c].rc2 == before[c].rc2 && (c < s.index ==> s.data[c].rc1 == PAPI_OK)
  }

  lemma ActKeepsLeaks(s: EventSet, before: seq<Snapshot>, sh: Shadow, a: Action, r: Readings, t: nat)
    requires Usable(s) && Leaks(s, before, sh) && InBounds(s, a) && forall k: nat :: r.papi(k).rc == PAPI_OK
    ensures Leaks(Act(s, a, r, t), before, ShadowAct(sh, a))
  {
    ActKeepsShadow(sh, s, a, r, t);
    if !a.Reset? {
      var at := Cell(s, a);
      var x := Taken(s.mask, |s.papiIds|, a, s.data[at], r, t);
      assert x.rc1 == PAPI_OK && (!a.Start? ==> x.rc2 == s.data[at].rc2);
    }
  }

  lemma {:induction false} RunKeepsLeaks(s: EventSet, before: seq<Snapshot>, sh: Shadow, run: seq<Timed>, r: Readings)
    requires Canonical(s) && Safe(s, run, r) && Leaks(s, before, sh) && forall k: nat :: r.papi(k).rc == PAPI_OK
    ensures Leaks(Run(s, run, r), before, ShadowRun(sh, run))
    decreases |run|
  {
    if run != [] {
      ActKeepsLeaks(s, before, sh, run[0].0, r, run[0].1);
      ActKeepsClosedForm(s, run[0].0, r, run[0].1);
      RunKeepsLeaks(Act(s, run[0].0, r, run[0].1), before, ShadowAct(sh, run[0].0), run[1..], r);
    }
  }

  // A row that begins at such a cell: its PAPI columns report the PAPI_start code that was in the cell before the run.
  lemma LeakedCode(s: EventSet, run: seq<Timed>, r: Readings, k: nat, e: nat)
    requires Canonical(s) && Covered(s) && StopsFit(|s.log|, run, |s.data|)
    requires forall t: nat :: r.papi(t).rc == PAPI_OK
    requires e < |s.events| && s.events[e].getter.PapiValue?
    requires var sh := ShadowRun(ShadowOf(s), run);
             && k < |Pairs(sh.kinds[..sh.index])|
             && var i := Pairs(sh.kinds[..sh.index])[k].0; i < |s.data| && !sh.written[i] && s.data[i].rc2 != PAPI_OK
    ensures var sh, rows := ShadowRun(ShadowOf(s), run), ResultsAfter(s, run, r);
            && k < |rows| && e < |rows[k]| && rows[k][e] == s.data[Pairs(sh.kinds[..sh.index])[k].0].rc2
  {
    var sh := ShadowRun(ShadowOf(s), run);
    assert Uses(s.mask, PAPI);
    SafeExactlyWhen(s, run, r);
    RunKeepsLeaks(s, s.data, ShadowOf(s), run, r);
    ConfigurationStays(s, run, r);
    var s' := Run(s, run, r);
    var live := s'.data[..s'.index];
    assert Kinds(live) == sh.kinds[..sh.index];
    PairsAreDisjointAndTight(Kinds(live));
    assert Tight(Kinds(live), Pairs(Kinds(live))[k]);
  }

  // The same cells with a given code in those that are not live.
  function WithCode(s: EventSet, code: int): (g: EventSet)
    requires Canonical(s)
    ensures Canonical(g) && SameLive(s, g.data) && g == s.(data := g.data)
    ensures forall c :: s.index <= c < |s.data| ==> g.data[c].rc2 == code
  {
    var g := s.(data := s.data[..s.index] + seq(|s.data| - s.index, _ => ZERO.(rc2 := code)));
    assert g.data[..s.index] == s.data[..s.index];
    g
  }

  lemma SameShadow(s: EventSet, code: int)
    requires Canonical(s)
    ensures ShadowOf(WithCode(s, code)) == ShadowOf(s)
  {
    var g := WithCode(s, code);
    forall c | 0 <= c < s.index ensures g.data[c] == s.data[c] {
      assert g.data[..s.index][c] == s.data[..s.index][c];
    }
    assert ShadowOf(g).kinds == ShadowOf(s).kinds && ShadowOf(g).written == ShadowOf(s).written;
  }

  lemma {:induction false} WrittenStays(sh: Shadow, run: seq<Timed>, c: nat)
    requires sh.index <= |sh.kinds| == |sh.written| && |sh.kinds| >= 2 && c < |sh.written| && sh.written[c]
    ensures ShadowRun(sh, run).written[c]
    decreases |run|
  {
    if run != [] { WrittenStays(ShadowAct(sh, run[0].0), run[1..], c); }
  }

  lemma CodedRow(s: EventSet, code: int, run: seq<Timed>, r: Readings, k: nat, e: nat)
    requires Canonical(s) && Covered(s) && StopsFit(|s.log|, run, |s.data|) && code != PAPI_OK
    requires forall t: nat :: r.papi(t).rc == PAPI_OK
    requires e < |s.events| && s.events[e].getter.PapiValue?
    requires var sh := ShadowRun(ShadowOf(s), run);
             && k < |Pairs(sh.kinds[..sh.index])|
             && var i := Pairs(sh.kinds[..sh.index])[k].0; i < |s.data| && !sh.written[i]
    ensures var rows := ResultsAfter(WithCode(s, code), run, r); k < |rows| && e < |rows[k]| && rows[k][e] == code
  {
    var g, sh := WithCode(s, code), ShadowRun(ShadowOf(s), run);
    SameShadow(s, code);
    var i := Pairs(sh.kinds[..sh.index])[k].0;
    if i < s.index { WrittenStays(ShadowOf(s), run, i); }
    LeakedCode(g, run, r, k, e);
  }

  lemma NotClean(s: EventSet, run: seq<Timed>, r: Readings, one: seq<Snapshot>, two: seq<Snapshot>)
    requires Canonical(s) && StopsFit(|s.log|, run, |s.data|) && SameLive(s, one) && SameLive(s, two)
    requires ResultsAfter(s.(data := one), run, r) != ResultsAfter(s.(data := two), run, r)
    ensures !RowsAreClean(s, run)
  {
  }

  lemma UnwrittenStartLeaks(s: EventSet, run: seq<Timed>, k: nat, e: nat)
    requires Canonical(s) && Covered(s) && StopsFit(|s.log|, run, |s.data|)
    requires e < |s.events| && s.events[e].getter.PapiValue?
    requires var sh := ShadowRun(ShadowOf(s), run);
             && k < |Pairs(sh.kinds[..sh.index])|
             && var i := Pairs(sh.kinds[..sh.index])[k].0; i < |s.data| && !sh.written[i]
    ensures !RowsAreClean(s, run)
  {
    var r := Readings(_ => Timespec(0, 0), _ => Timespec(0, 0), _ => ZERO.usage, _ => 0, _ => 0,
                      _ => PapiReading(PAPI_OK, ZERO.papi));
    CodedRow(s, 1, run, r, k, e);
    CodedRow(s, 2, run, r, k, e);
    var one, two := WithCode(s, 1), WithCode(s, 2);
    NotClean(s, run, r, one.data, two.data);
  }

  // Exactly which runs are clean in a set with a PAPI event: those after which no row begins at a sample with id -1
  // in a cell that no start of the run had written.
  lemma RunIsCleanIff(s: EventSet, run: seq<Timed>)
    requires Canonical(s) && Covered(s) && StopsFit(|s.log|, run, |s.data|)
    requires exists e :: 0 <= e < |s.events| && s.events[e].getter.PapiValue?
    ensures RowsAreClean(s, run) <==> StartsWritten(ShadowRun(ShadowOf(s), run))
  {
    var sh := ShadowRun(ShadowOf(s), run);
    if StartsWritten(sh) {
      forall r: Readings, garbage: seq<Snapshot> | SameLive(s, garbage)
        ensures ResultsAfter(s.(data := garbage), run, r) == ResultsAfter(s, run, r)
      {
        CleanRun(s, garbage, run, r);
      }
    } else {
      var pairs := Pairs(sh.kinds[..sh.index]);
      var p :| p in pairs && p.0 < |sh.written| && !sh.written[p.0];
      var k :| 0 <= k < |pairs| && pairs[k] == p;
      var e :| 0 <= e < |s.events| && s.events[e].getter.PapiValue?;
      UnwrittenStartLeaks(s, run, k, e);
    }
  }

  // ---------- runs without the id -1 ----------

  // A sample id that cannot be taken for a START, or a set without PAPI events.
  predicate HarmlessSample(mask: Mask, a: Action) {
    a.Sample? && a.user == START ==> !Uses(mask, PAPI)
  }

  lemma {:induction false} HarmlessStartsWritten(sh: Shadow, run: seq<Timed>)
    requires sh.index <= |sh.kinds| == |sh.written| && |sh.kinds| >= 2
    requires forall c :: 0 <= c < sh.index && sh.kinds[c] == START ==> sh.written[c]
    requires forall i :: 0 <= i < |run| ==> run[i].0 != Sample(START)
    ensures var sh' := ShadowRun(sh, run);
            sh'.index <= |sh'.kinds| && forall c :: 0 <= c < sh'.index && sh'.kinds[c] == START ==> sh'.written[c]
    decreases |run|
  {
    if run != [] { HarmlessStartsWritten(ShadowAct(sh, run[0].0), run[1..]); }
  }

  // No stale data: two sets that differ only in the cells from data_index on (a reused slot, the leftovers of before
  // a reset, cells reused in mid-run) give the same rows after the same run with the same readings.
  lemma NoStaleData(s: EventSet, garbage: seq<Snapshot>, run: seq<Timed>, r: Readings)
    requires Canonical(s) && Covered(s) && StopsFit(|s.log|, run, |s.data|) && SameLive(s, garbage)
    requires forall i :: 0 <= i < |run| ==> HarmlessSample(s.mask, run[i].0)
    ensures ResultsAfter(s.(data := garbage), run, r) == ResultsAfter(s, run, r)
  {
    if Uses(s.mask, PAPI) {
      var sh := ShadowRun(ShadowOf(s), run);
      HarmlessStartsWritten(ShadowOf(s), run);
      PairsAreDisjointAndTight(sh.kinds[..sh.index]);
      forall p | p in Pairs(sh.kinds[..sh.index]) && p.0 < |sh.written| ensures sh.written[p.0] {
        assert Tight(sh.kinds[..sh.index], p);
      }
    }
    CleanRun(s, garbage, run, r);
  }

  // A sample followed by a stop in a set with a PAPI event: all ids but -1 are harmless.
  lemma SampleIsCleanIff(s: EventSet, user: int, t0: nat, t1: nat)
    requires Canonical(s) && s.index == 0 && Covered(s)
    requires exists e :: 0 <= e < |s.events| && s.events[e].getter.PapiValue?
    ensures StopsFit(|s.log|, [(Sample(user), t0), (Stop, t1)], |s.data|)
    ensures RowsAreClean(s, [(Sample(user), t0), (Stop, t1)]) <==> user != START
  {
    var run: seq<Timed> := [(Sample(user), t0), (Stop, t1)];
    assert |s.log| == 0;
    forall i | 0 <= i < |run| && run[i].0.Stop? ensures StopFits(Recorded(0, run[..i]), |s.data|) {
      assert run[..i] == [run[0]] && run[..i][1..] == [];
    }
    RunIsCleanIff(s, run);
    SampleStopShadow(s, run, user);
    SampleStopPairs(ShadowRun(ShadowOf(s), run).kinds[..2], user);
  }

  lemma SampleStopShadow(s: EventSet, run: seq<Timed>, user: int)
    requires Usable(s) && s.index == 0 && |run| == 2 && run[0].0 == Sample(user) && run[1].0 == Stop
    ensures var sh := ShadowRun(ShadowOf(s), run);
            sh.index == 2 <= |sh.kinds| && sh.kinds[..2] == [user, END] && !sh.written[0] && !sh.written[1]
  {
    var first := ShadowAct(ShadowOf(s), Sample(user));
    var rest: seq<Timed> := [run[1]];
    assert run[1..] == rest && rest[1..] == [];
    assert ShadowRun(ShadowOf(s), run) == ShadowRun(first, rest) == ShadowAct(first, Stop);
  }

  lemma SampleStopPairs(kinds: seq<int>, user: int)
    requires kinds == [user, END]
    ensures Pairs(kinds) == if user == START then [(0, 1)] else []
  {
    if user == START {
      FirstPair(kinds, 0, 0, 1);
      assert Scan(kinds, 2, None) == [];
    } else {
      assert Scan(kinds, 0, None) == Scan(kinds, 1, None) == Scan(kinds, 2, None) == [];
    }
  }
}
