/**
 The compilation counters (src/c/counter.c, src/c/myatomic.h): the C procedures, every interleaving of their atomic
 steps, and the JVM:compilations column that comes out of a run.
 */
module Counters {
  import opened Common
  import opened Snapshots
  import opened Events
  import opened Pairing
  import opened EventSets

  const INT_LIMIT: int := 0x8000_0000
  const INT_WIDTH: int := 0x1_0000_0000

  // The C int that x overflows to.
  function Wrap(x: int): int {
    (x + INT_LIMIT) % INT_WIDTH - INT_LIMIT
  }

  // What an atomic increment stores.
  function Incremented(value: int): int {
    Wrap(value + 1)
  }

  // ---------- the procedures ----------

  class AtomicInt {
    var value: int

    constructor ()
      ensures value == 0
    {
      value := 0;
    }

    method Get() returns (r: int)
      ensures r == value
    {
      return value;
    }

    // fetch-and-add of 1
    method Inc() returns (r: int)
      modifies this
      ensures r == old(value) && value == Incremented(old(value))
    {
      r := value;
      value := Incremented(value);
    }

    // fetch-and-and with 0
    method Reset() returns (r: int)
      modifies this
      ensures r == old(value) && value == 0
    {
      r := value;
      value := 0;
    }
  }

  class CounterAgent {
    const compilation: AtomicInt
    const compilationTotal: AtomicInt
    const gcTotal: AtomicInt

    constructor ()
      ensures Valid() && fresh(compilation) && fresh(compilationTotal) && fresh(gcTotal)
      ensures compilation.value == compilationTotal.value == gcTotal.value == 0
    {
      compilation := new AtomicInt();
      compilationTotal := new AtomicInt();
      gcTotal := new AtomicInt();
    }

    ghost predicate Valid() {
      compilation != compilationTotal && compilation != gcTotal && compilationTotal != gcTotal
    }

    method OnCompiledMethodLoad()
      requires Valid()
      modifies compilation, compilationTotal
      ensures compilation.value == Incremented(old(compilation.value))
      ensures compilationTotal.value == Incremented(old(compilationTotal.value))
    {
      var _ := compilation.Inc();
      var _ := compilationTotal.Inc();
    }

    method OnGarbageCollectionFinish()
      modifies gcTotal
      ensures gcTotal.value == Incremented(old(gcTotal.value))
    {
      var _ := gcTotal.Inc();
    }

    method GetCompilationCountAndReset() returns (r: int)
      modifies compilation
      ensures r == old(compilation.value) && compilation.value == 0
    {
      r := compilation.Reset();
    }
  }

  // ---------- interleavings ----------

  // The three counters and who is between the two increments of the compilation callback; then the history: what the
  // resets returned, what reads of the total saw, how many compilation callbacks began and how many collections ended.
  datatype State = State(
    compilation: int, total: int, gc: int, between: seq<bool>,
    returned: seq<int>, observed: seq<int>, begun: nat, collections: nat)

  function Initial(threads: nat): State {
    State(0, 0, 0, seq(threads, _ => false), [], [], 0, 0)
  }

  // One atomic operation of a thread. A thread inside the compilation callback can only make its second increment.
  datatype Step =
    | FirstInc(thread: nat)
    | SecondInc(thread: nat)
    | DrainBy(thread: nat)
    | ReadBy(thread: nat)
    | GcInc(thread: nat)

  predicate Enabled(s: State, step: Step) {
    step.thread < |s.between| && s.between[step.thread] == step.SecondInc?
  }

  function Next(s: State, step: Step): State {
    if !Enabled(s, step) then s
    else
      match step
      case FirstInc(t) =>
        s.(compilation := Incremented(s.compilation), between := s.between[t := true], begun := s.begun + 1)
      case SecondInc(t) => s.(total := Incremented(s.total), between := s.between[t := false])
      case DrainBy(t) => s.(compilation := 0, returned := s.returned + [s.compilation])
      case ReadBy(t) => s.(observed := s.observed + [s.total])
      case GcInc(t) => s.(gc := Incremented(s.gc), collections := s.collections + 1)
  }

  function Run(threads: nat, steps: seq<Step>): State {
    if steps == [] then Initial(threads) else Next(Run(threads, steps[..|steps| - 1]), steps[|steps| - 1])
  }

  // Number of callbacks between their two increments.
  function Between(s: State): nat {
    multiset(s.between)[true]
  }

  predicate Congruent(a: int, b: int) {
    (a - b) % INT_WIDTH == 0
  }

  ghost predicate Sorted(xs: seq<int>) {
    forall i, j :: 0 <= i <= j < |xs| ==> xs[i] <= xs[j]
  }

  // Conservation: exact as long as fewer than 2^31 callbacks began, and modulo 2^32 always.
  ghost predicate Conserved(s: State) {
    && Congruent(Sum(s.returned) + s.compilation, s.total + Between(s))
    && Congruent(s.total + Between(s), s.begun)
    && Congruent(s.gc, s.collections) && (s.collections < INT_LIMIT ==> s.gc == s.collections)
    && (s.begun < INT_LIMIT ==>
          && Sum(s.returned) + s.compilation == s.total + Between(s) == s.begun
          && s.compilation >= 0 && s.total >= 0 && Sum(s.returned) >= 0
          && (forall i :: 0 <= i < |s.returned| ==> s.returned[i] >= 0)
          && Sorted(s.observed) && (forall i :: 0 <= i < |s.observed| ==> 0 <= s.observed[i] <= s.total))
  }

  lemma WrapIs(x: int)
    ensures Congruent(Wrap(x), x) && -INT_LIMIT <= Wrap(x) < INT_LIMIT
    ensures -INT_LIMIT <= x < INT_LIMIT ==> Wrap(x) == x
  {
  }

  // An increment, wrapped, on one side or on both sides of a congruence.
  lemma WrappedIncrement(c: int, rest: int, sum: int)
    requires Congruent(rest + c, sum)
    ensures Congruent(rest + Wrap(c + 1), sum + 1) && Congruent(sum + 1, rest + Wrap(c + 1))
  {
    WrapIs(c + 1);
  }

  lemma FirstIncConserves(s: State, t: nat, s': State)
    requires Conserved(s) && Enabled(s, FirstInc(t)) && s' == Next(s, FirstInc(t))
    ensures Conserved(s')
  {
    assert Between(s') == Between(s) + 1;
    WrappedIncrement(s.compilation, Sum(s.returned), s.total + Between(s));
    WrapIs(s.compilation + 1);
  }

  lemma SecondIncConserves(s: State, t: nat, s': State)
    requires Conserved(s) && Enabled(s, SecondInc(t)) && s' == Next(s, SecondInc(t))
    ensures Conserved(s')
  {
    assert Between(s') + 1 == Between(s);
    WrapIs(s.total + 1);
    SameClass(s.total + Between(s), s'.total + Between(s'), Sum(s.returned) + s.compilation, s.begun);
  }

  lemma SameClass(a: int, b: int, c: int, d: int)
    requires Congruent(c, a) && Congruent(a, d) && Congruent(b, a)
    ensures Congruent(c, b) && Congruent(b, d)
  {
  }

  lemma GcIncConserves(s: State, t: nat, s': State)
    requires Conserved(s) && Enabled(s, GcInc(t)) && s' == Next(s, GcInc(t))
    ensures Conserved(s')
  {
    WrapIs(s.gc + 1);
    WrappedIncrement(s.gc, 0, s.collections);
  }

  lemma DrainConserves(s: State, t: nat, s': State)
    requires Conserved(s) && Enabled(s, DrainBy(t)) && s' == Next(s, DrainBy(t))
    ensures Conserved(s')
  {
    assert s'.returned[..|s.returned|] == s.returned;
  }

  lemma ReadConserves(s: State, t: nat, s': State)
    requires Conserved(s) && Enabled(s, ReadBy(t)) && s' == Next(s, ReadBy(t))
    ensures Conserved(s')
  {
  }

  lemma NextKeepsConserved(s: State, step: Step, s': State)
    requires Conserved(s) && s' == Next(s, step)
    ensures Conserved(s')
  {
    if Enabled(s, step) {
      match step {
        case FirstInc(t) => FirstIncConserves(s, t, s');
        case SecondInc(t) => SecondIncConserves(s, t, s');
        case DrainBy(t) => DrainConserves(s, t, s');
        case ReadBy(t) => ReadConserves(s, t, s');
        case GcInc(t) => GcIncConserves(s, t, s');
      }
    }
  }

  lemma {:induction false} AllOut(threads: nat)
    ensures multiset(seq(threads, _ => false))[true] == 0
  {
    assert true !in seq(threads, _ => false);
  }

  // In every interleaving of any number of threads the sum of the returned counts plus the counter is the total
  // plus the callbacks between their two increments; the reads of the total never decrease.
  lemma {:induction false} EveryInterleavingConserves(threads: nat, steps: seq<Step>)
    ensures Conserved(Run(threads, steps))
  {
    if steps == [] {
      AllOut(threads);
    } else {
      EveryInterleavingConserves(threads, steps[..|steps| - 1]);
      NextKeepsConserved(Run(threads, steps[..|steps| - 1]), steps[|steps| - 1], Run(threads, steps));
    }
  }

  // When no callback is running nothing is lost and nothing is counted twice.
  lemma QuiescentCountsAgree(threads: nat, steps: seq<Step>)
    requires var s := Run(threads, steps); s.begun < INT_LIMIT && forall t :: 0 <= t < |s.between| ==> !s.between[t]
    ensures var s := Run(threads, steps); Sum(s.returned) + s.compilation == s.total == s.begun
  {
    EveryInterleavingConserves(threads, steps);
    var s := Run(threads, steps);
    assert true !in multiset(s.between);
  }

  // ---------- the JVM:compilations column ----------

  function CompilationsOf(snapshots: seq<Snapshot>): (r: seq<int>)
    ensures |r| == |snapshots| && forall i :: 0 <= i < |r| ==> r[i] == snapshots[i].compilations
  {
    seq(|snapshots|, i requires 0 <= i < |snapshots| => snapshots[i].compilations)
  }

  function Column(rows: seq<seq<int>>, e: nat): (r: seq<int>)
    requires forall k :: 0 <= k < |rows| ==> e < |rows[k]|
    ensures |r| == |rows| && forall k :: 0 <= k < |r| ==> r[k] == rows[k][e]
  {
    seq(|rows|, k requires 0 <= k < |rows| => rows[k][e])
  }

  // Increments over disjoint increasing intervals of a nondecreasing sequence add up to at most the whole.
  lemma {:induction false} DisjointIncrements(c: seq<int>, pairs: seq<Pair>, column: seq<int>)
    requires Sorted(c) && |column| == |pairs| > 0
    requires forall k :: 0 <= k < |pairs| ==> pairs[k].0 < pairs[k].1 < |c|
    requires forall k, l :: 0 <= k < l < |pairs| ==> pairs[k].1 < pairs[l].0
    requires forall k :: 0 <= k < |pairs| ==> column[k] == c[pairs[k].1] - c[pairs[k].0]
    ensures forall k :: 0 <= k < |column| ==> column[k] >= 0
    ensures 0 <= Sum(column) <= c[pairs[|pairs| - 1].1] - c[0]
  {
    var n := |pairs| - 1;
    if n > 0 {
      DisjointIncrements(c, pairs[..n], column[..n]);
      assert pairs[..n][n - 1] == pairs[n - 1] && pairs[n - 1].1 < pairs[n].0;
      assert forall k :: 0 <= k < n ==> column[..n][k] == column[k];
    } else {
      assert column[..0] == [];
    }
  }

  // The column is non-negative and adds up to at most the last retained snapshot minus the first.
  lemma ColumnIsConsistent(events: seq<EventInfo>, live: seq<Snapshot>, e: nat)
    requires e < |events| && events[e].getter == JvmCompilations && Sorted(CompilationsOf(live))
    ensures var column := Column(Rows(events, live), e);
            && (forall k :: 0 <= k < |column| ==> column[k] >= 0)
            && (live != [] ==> 0 <= Sum(column) <= live[|live| - 1].compilations - live[0].compilations)
  {
    var c, pairs, column := CompilationsOf(live), Pairs(Kinds(live)), Column(Rows(events, live), e);
    PairsAreDisjointAndTight(Kinds(live));
    if pairs != [] {
      DisjointIncrements(c, pairs, column);
      assert c[pairs[|pairs| - 1].1] <= c[|live| - 1];
    }
  }

  // The actions of a run happen one after another in time, from time t on.
  ghost predicate InTime(mask: Mask, t: nat, run: seq<Timed>)
    decreases |run|
  {
    run != [] ==> t <= run[0].1 && InTime(mask, TickAfter(mask, run[0].0, run[0].1), run[1..])
  }

  ghost predicate Nondecreasing(f: nat -> int) {
    forall i, j | i <= j :: f(i) <= f(j)
  }

  ghost predicate LogGrows(s: EventSet, r: Readings, t: nat) {
    && Sorted(CompilationsOf(s.log))
    && forall i :: 0 <= i < |s.log| ==> s.log[i].compilations <= r.compilations(t)
  }

  // The call number at which an action reads the total.
  function CompiledAt(mask: Mask, a: Action, t: nat): (at: nat)
    requires !a.Reset?
    ensures t <= at <= TickAfter(mask, a, t)
  {
    match a
    case Start => StartTick(mask, Compiled, t)
    case Stop => StopTick(mask, Compiled, t)
    case Sample(_) => SampleTick(mask, Compiled, t)
  }

  lemma ActKeepsLogGrowing(s: EventSet, a: Action, r: Readings, t0: nat, t: nat)
    requires Canonical(s) && InBounds(s, a) && Snapshots.Enabled(s.mask, Compiled)
    requires Nondecreasing(r.compilations) && LogGrows(s, r, t0) && t0 <= t
    ensures LogGrows(Act(s, a, r, t), r, TickAfter(s.mask, a, t))
  {
    var s', t' := Act(s, a, r, t), TickAfter(s.mask, a, t);
    if !a.Reset? {
      var n := |s.log|;
      var at := CompiledAt(s.mask, a, t);
      assert s'.log[n].compilations == r.compilations(at);
      assert forall i :: 0 <= i < n ==> s'.log[i] == s.log[i];
      forall i | 0 <= i < n ensures s.log[i].compilations <= r.compilations(at) <= r.compilations(t') {
        assert r.compilations(t0) <= r.compilations(at);
      }
      assert r.compilations(at) <= r.compilations(t');
    }
  }

  lemma {:induction false} RunKeepsLogGrowing(s: EventSet, run: seq<Timed>, r: Readings, t: nat)
    requires Canonical(s) && Safe(s, run, r) && Snapshots.Enabled(s.mask, Compiled)
    requires Nondecreasing(r.compilations) && LogGrows(s, r, t) && InTime(s.mask, t, run)
    ensures Sorted(CompilationsOf(EventSets.Run(s, run, r).log))
    decreases |run|
  {
    if run != [] {
      var a, at := run[0].0, run[0].1;
      ActKeepsClosedForm(s, a, r, at);
      ActKeepsLogGrowing(s, a, r, t, at);
      RunKeepsLogGrowing(Act(s, a, r, at), run[1..], r, TickAfter(s.mask, a, at));
    }
  }

  // After every run in order of time that reads a nondecreasing total, whatever mix of start, sample, stop and
  // reset, overwritten slots included, the JVM:compilations column of getResults is consistent.
  lemma ColumnAfterRun(s: EventSet, run: seq<Timed>, r: Readings, t: nat, e: nat)
    requires Canonical(s) && s.log == [] && Safe(s, run, r) && Snapshots.Enabled(s.mask, Compiled)
    requires Nondecreasing(r.compilations) && InTime(s.mask, t, run)
    requires var s' := EventSets.Run(s, run, r); e < |s'.events| && s'.events[e].getter == JvmCompilations
    ensures var s' := EventSets.Run(s, run, r);
            var live, column := s'.data[..s'.index], Column(Results(s'), e);
            && (forall k :: 0 <= k < |column| ==> column[k] >= 0)
            && (live != [] ==> 0 <= Sum(column) <= live[|live| - 1].compilations - live[0].compilations)
  {
    var s' := EventSets.Run(s, run, r);
    RunKeepsClosedForm(s, run, r);
    RunKeepsLogGrowing(s, run, r, t);
    RetainedGrows(s'.log, |s'.data|);
    ColumnIsConsistent(s'.events, s'.data[..s'.index], e);
  }

  lemma RetainedGrows(log: seq<Snapshot>, size: nat)
    requires size >= 2 && Sorted(CompilationsOf(log))
    ensures Sorted(CompilationsOf(Retained(log, size)))
  {
    var live, c := Retained(log, size), CompilationsOf(log);
    if |log| > size {
      var shift := |log| - (2 - |log| % 2) - (size - 2);
      forall i | 0 <= i < |live| ensures CompilationsOf(live)[i] == c[if i < size - 2 then i else i + shift] {
      }
    }
  }
}
