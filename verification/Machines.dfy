/**
 The event-set table as a value, and what calls with arrays of ids, creation and destruction do to it
 (src/c/measurement.c). None in the table is a slot that is not valid.
 */
module Machines {
  import opened Common
  import opened Snapshots
  import opened EventSets

  type Table = seq<Option<EventSet>>

  // The table and the number of the next probe call.
  datatype Machine = Machine(table: Table, tick: nat)

  datatype Outcome = Done | InvalidId

  predicate IsLive(t: Table, id: int) {
    0 <= id < |t| && t[id].Some?
  }

  ghost predicate AllUsable(t: Table) {
    forall i :: 0 <= i < |t| && t[i].Some? ==> Usable(t[i].value)
  }

  ghost predicate AllCanonical(t: Table) {
    forall i :: 0 <= i < |t| && t[i].Some? ==> Canonical(t[i].value)
  }

  ghost function ApplyOne(m: Machine, a: Action, id: int, r: Readings): (m': Machine)
    requires AllUsable(m.table) && IsLive(m.table, id) && InBounds(m.table[id].value, a)
    ensures AllUsable(m'.table)
  {
    var s := m.table[id].value;
    Machine(m.table[id := Some(Act(s, a, r, m.tick))], TickAfter(s.mask, a, m.tick))
  }

  // Every stop made for this id array is in bounds when its turn comes.
  ghost predicate AllInBounds(m: Machine, a: Action, ids: seq<int>, r: Readings)
    requires AllUsable(m.table)
    decreases |ids|
  {
    ids != [] && IsLive(m.table, ids[0]) ==>
      InBounds(m.table[ids[0]].value, a) && AllInBounds(ApplyOne(m, a, ids[0], r), a, ids[1..], r)
  }

  // The single-id operation folded over the ids up to the first invalid one.
  ghost function Apply(m: Machine, a: Action, ids: seq<int>, r: Readings): (res: (Machine, Outcome))
    requires AllUsable(m.table) && AllInBounds(m, a, ids, r)
    ensures AllUsable(res.0.table)
    decreases |ids|
  {
    if ids == [] then (m, Done)
    else if !IsLive(m.table, ids[0]) then (m, InvalidId)
    else Apply(ApplyOne(m, a, ids[0], r), a, ids[1..], r)
  }

  // Putting the acted set back into the table, and letting the clock run, is one such action.
  lemma ApplyOneIs(m: Machine, a: Action, id: int, r: Readings, after: EventSet, m': Machine)
    requires AllUsable(m.table) && IsLive(m.table, id) && InBounds(m.table[id].value, a)
    requires after == Act(m.table[id].value, a, r, m.tick)
    requires m'.table == m.table[id := Some(after)] && m'.tick == TickAfter(m.table[id].value.mask, a, m.tick)
    ensures m' == ApplyOne(m, a, id, r)
  {
  }

  lemma ApplyOneFrame(m: Machine, a: Action, id: int, r: Readings, m': Machine)
    requires AllUsable(m.table) && IsLive(m.table, id) && InBounds(m.table[id].value, a)
    requires m' == ApplyOne(m, a, id, r)
    ensures |m'.table| == |m.table| && forall i :: 0 <= i < |m.table| && i != id ==> m'.table[i] == m.table[i]
    ensures forall i: int :: IsLive(m'.table, i) <==> IsLive(m.table, i)
    ensures AllCanonical(m.table) ==> AllCanonical(m'.table)
  {
    if AllCanonical(m.table) {
      ActKeepsClosedForm(m.table[id].value, a, r, m.tick);
    }
  }

  // A call leaves liveness and every set it does not name alone, keeps the closed form, and succeeds exactly
  // when all its ids are live.
  lemma {:induction false} ApplyFrame(m: Machine, a: Action, ids: seq<int>, r: Readings)
    requires AllUsable(m.table) && AllInBounds(m, a, ids, r)
    ensures var (m', outcome) := Apply(m, a, ids, r);
            && |m'.table| == |m.table|
            && (forall i :: 0 <= i < |m.table| ==> (m'.table[i].Some? <==> m.table[i].Some?))
            && (forall i :: 0 <= i < |m.table| && i !in ids ==> m'.table[i] == m.table[i])
            && (outcome.Done? <==> forall id :: id in ids ==> IsLive(m.table, id))
            && (AllCanonical(m.table) ==> AllCanonical(m'.table))
    decreases |ids|
  {
    if ids != [] {
      assert ids[0] in ids;
      if IsLive(m.table, ids[0]) {
        var m1 := ApplyOne(m, a, ids[0], r);
        ApplyOneFrame(m, a, ids[0], r, m1);
        ApplyFrame(m1, a, ids[1..], r);
        assert ids == [ids[0]] + ids[1..];
      }
    }
  }

  ghost predicate LiveIds(t: Table, ids: seq<int>) {
    forall id :: id in ids ==> IsLive(t, id)
  }

  // One more id at the end: the single-id operation comes after everything the call did before, or the call throws.
  lemma {:induction false} ApplyAppend(m: Machine, a: Action, ids: seq<int>, id: int, r: Readings)
    requires AllUsable(m.table) && AllInBounds(m, a, ids + [id], r) && LiveIds(m.table, ids)
    ensures AllInBounds(m, a, ids, r)
    ensures var before := Apply(m, a, ids, r).0;
            && (IsLive(before.table, id) <==> IsLive(m.table, id))
            && (IsLive(m.table, id) ==>
                  && InBounds(before.table[id].value, a)
                  && Apply(m, a, ids + [id], r) == (ApplyOne(before, a, id, r), Done))
            && (!IsLive(m.table, id) ==> Apply(m, a, ids + [id], r) == (before, InvalidId))
    decreases |ids|
  {
    if ids != [] {
      var m1 := ApplyOne(m, a, ids[0], r);
      assert ids[0] in ids && (ids + [id])[1..] == ids[1..] + [id];
      ApplyOneFrame(m, a, ids[0], r, m1);
      ApplyAppend(m1, a, ids[1..], id, r);
    } else {
      assert (ids + [id])[1..] == [];
    }
  }

  // The first invalid id ends the call: the ids before it have been acted on, those behind it have not.
  lemma {:induction false} ApplyStopsAtInvalid(m: Machine, a: Action, ids: seq<int>, k: nat, r: Readings)
    requires AllUsable(m.table) && AllInBounds(m, a, ids, r)
    requires k < |ids| && LiveIds(m.table, ids[..k]) && !IsLive(m.table, ids[k])
    ensures AllInBounds(m, a, ids[..k], r)
    ensures Apply(m, a, ids, r) == (Apply(m, a, ids[..k], r).0, InvalidId)
    decreases |ids|
  {
    if k > 0 {
      var m1 := ApplyOne(m, a, ids[0], r);
      assert ids[0] in ids[..k] && ids[..k][1..] == ids[1..][..k - 1];
      ApplyOneFrame(m, a, ids[0], r, m1);
      ApplyStopsAtInvalid(m1, a, ids[1..], k - 1, r);
    }
  }

  // A call with one id keeps the shape of the table and succeeds exactly when the set is live.
  lemma OneIdKeepsShape(m: Machine, a: Action, id: int, r: Readings, m': Machine, outcome: Outcome)
    requires AllUsable(m.table) && AllInBounds(m, a, [id], r) && (m', outcome) == Apply(m, a, [id], r)
    ensures |m'.table| == |m.table| && forall i: int :: IsLive(m'.table, i) <==> IsLive(m.table, i)
    ensures outcome.Done? <==> IsLive(m.table, id)
  {
    ApplyFrame(m, a, [id], r);
  }

  // start, sample and reset are always in bounds.
  lemma {:induction false} OnlyStopCanLeaveBounds(m: Machine, a: Action, ids: seq<int>, r: Readings)
    requires AllUsable(m.table) && !a.Stop?
    ensures AllInBounds(m, a, ids, r)
    decreases |ids|
  {
    if ids != [] && IsLive(m.table, ids[0]) {
      OnlyStopCanLeaveBounds(ApplyOne(m, a, ids[0], r), a, ids[1..], r);
    }
  }

  // ---------- allocation of slots ----------

  // The slot a creation claims: the first one from k on that is not valid, else a new one at the end.
  function FirstFreeFrom(t: Table, k: nat): (r: nat)
    requires k <= |t|
    ensures k <= r <= |t|
    ensures forall i :: k <= i < r ==> IsLive(t, i)
    ensures !IsLive(t, r)
    decreases |t| - k
  {
    if k == |t| || t[k].None? then k else FirstFreeFrom(t, k + 1)
  }

  function FirstFree(t: Table): nat {
    FirstFreeFrom(t, 0)
  }

  function Place(t: Table, id: nat, x: Option<EventSet>): Table
    requires id <= |t|
  {
    if id < |t| then t[id := x] else t + [x]
  }

  function LiveCount(t: Table): (n: nat)
    ensures n <= |t|
  {
    if t == [] then 0 else LiveCount(t[..|t| - 1]) + Count(t[|t| - 1].Some?)
  }

  ghost predicate SameLiveness(t: Table, t': Table) {
    |t| == |t'| && forall i :: 0 <= i < |t| ==> (t[i].Some? <==> t'[i].Some?)
  }

  // What one call can do to the table: create (succeeding, failing early, failing after claiming a slot),
  // destroy, or work on live sets.
  ghost predicate TableStep(t: Table, t': Table) {
    || (exists s :: t' == Place(t, FirstFree(t), Some(s)))
    || t' == Place(t, FirstFree(t), None)
    || (exists id :: IsLive(t, id) && t' == t[id := None])
    || SameLiveness(t, t')
  }

  // start, stop, sample and reset are such steps.
  lemma ApplyIsTableStep(m: Machine, a: Action, ids: seq<int>, r: Readings)
    requires AllUsable(m.table) && AllInBounds(m, a, ids, r)
    ensures TableStep(m.table, Apply(m, a, ids, r).0.table)
  {
    ApplyFrame(m, a, ids, r);
    assert SameLiveness(m.table, Apply(m, a, ids, r).0.table);
  }

  lemma {:induction false} AllLive(t: Table)
    requires forall i :: 0 <= i < |t| ==> t[i].Some?
    ensures LiveCount(t) == |t|
  {
    if t != [] { AllLive(t[..|t| - 1]); }
  }

  lemma GrowsOnlyWhenFull(t: Table, t': Table)
    requires TableStep(t, t') && |t'| > |t|
    ensures |t'| == |t| + 1 && LiveCount(t) == |t|
  {
    var free := FirstFree(t);
    assert |t'| > |t| ==> free == |t|;
    forall i | 0 <= i < |t| ensures t[i].Some? {
      assert IsLive(t, i);
    }
    AllLive(t);
  }

  // The index of the largest element.
  lemma {:induction false} Peak(xs: seq<nat>) returns (p: nat)
    requires xs != []
    ensures p < |xs| && forall k :: 0 <= k < |xs| ==> xs[k] <= xs[p]
  {
    var n := |xs| - 1;
    p := 0;
    if n > 0 {
      p := Peak(xs[..n]);
      assert forall k :: 0 <= k < n ==> xs[k] == xs[..n][k];
      if xs[n] > xs[p] { p := n; }
    }
  }

  lemma {:induction false} SizesStayBelow(sizes: seq<nat>, lives: seq<nat>, peak: nat)
    requires |sizes| == |lives| > 0 && sizes[0] == 0
    requires forall k :: 0 <= k < |lives| ==> lives[k] <= peak
    requires forall k :: 0 < k < |sizes| ==>
               sizes[k] <= sizes[k - 1] || (sizes[k] == sizes[k - 1] + 1 && lives[k - 1] == sizes[k - 1])
    ensures sizes[|sizes| - 1] <= 1 + peak
  {
    var n := |sizes| - 1;
    if n > 0 { SizesStayBelow(sizes[..n], lives[..n], peak); }
  }

  function Sizes(run: seq<Table>): (r: seq<nat>)
    ensures |r| == |run| && forall k :: 0 <= k < |r| ==> r[k] == |run[k]|
  {
    seq(|run|, k requires 0 <= k < |run| => |run[k]|)
  }

  function LiveCounts(run: seq<Table>): (r: seq<nat>)
    ensures |r| == |run| && forall k :: 0 <= k < |r| ==> r[k] == LiveCount(run[k])
  {
    seq(|run|, k requires 0 <= k < |run| => LiveCount(run[k]))
  }

  // The table never has more than one slot beyond the largest number of simultaneously live sets so far.
  lemma TableIsBounded(run: seq<Table>) returns (peak: nat)
    requires run != [] && run[0] == []
    requires forall k :: 0 < k < |run| ==> TableStep(run[k - 1], run[k])
    ensures peak < |run| && |run[|run| - 1]| <= 1 + LiveCount(run[peak])
    ensures forall k :: 0 <= k < |run| ==> LiveCount(run[k]) <= LiveCount(run[peak])
  {
    var sizes, lives := Sizes(run), LiveCounts(run);
    peak := Peak(lives);
    forall k | 0 < k < |run|
      ensures sizes[k] <= sizes[k - 1] || (sizes[k] == sizes[k - 1] + 1 && lives[k - 1] == sizes[k - 1])
    {
      if sizes[k] > sizes[k - 1] { GrowsOnlyWhenFull(run[k - 1], run[k]); }
    }
    SizesStayBelow(sizes, lives, lives[peak]);
  }
}
