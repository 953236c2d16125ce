/**
 The client pattern of the demo: k rounds of start(ids); stop(ids) over several event sets, then all results
 side by side in one merger (src/demo-java/.../UbenchDemo.java with src/c/measurement.c).
 */
module Rounds {
  import opened Common
  import opened Snapshots
  import opened EventSets
  import opened Events
  import opened Columns
  import opened Machines
  import Merger

  ghost predicate Distinct(ids: seq<int>) {
    forall i, j :: 0 <= i < j < |ids| ==> ids[i] != ids[j]
  }

  // s' is s after action a, measured at some point in time.
  ghost predicate Acted(s: EventSet, a: Action, r: Readings, s': EventSet) {
    Usable(s) && InBounds(s, a) && exists t: nat :: s' == Act(s, a, r, t)
  }

  ghost predicate ActedAt(t: Table, t': Table, id: int, a: Action, r: Readings) {
    IsLive(t, id) && IsLive(t', id) && Acted(t[id].value, a, r, t'[id].value)
  }

  ghost predicate Ready(t: Table, a: Action, ids: seq<int>) {
    AllCanonical(t) && Distinct(ids) && LiveIds(t, ids) && forall id :: id in ids ==> InBounds(t[id].value, a)
  }

  // The first set of the array; the others stay as they are and ready.
  lemma FirstOfDistinct(m: Machine, a: Action, ids: seq<int>, r: Readings, m1: Machine)
    requires Ready(m.table, a, ids) && ids != []
    requires m1 == ApplyOne(m, a, ids[0], r)
    ensures Ready(m1.table, a, ids[1..]) && ids[0] !in ids[1..] && |m1.table| == |m.table|
    ensures forall id :: id in ids[1..] ==> m1.table[id] == m.table[id]
    ensures ActedAt(m.table, m1.table, ids[0], a, r)
  {
    ApplyOneFrame(m, a, ids[0], r, m1);
    forall id | id in ids[1..] ensures id in ids && id != ids[0] {
    }
  }

  // With distinct ids an array call acts once on each of its sets.
  lemma {:induction false} ApplyDistinct(m: Machine, a: Action, ids: seq<int>, r: Readings)
    requires Ready(m.table, a, ids)
    ensures AllInBounds(m, a, ids, r)
    ensures var (m', outcome) := Apply(m, a, ids, r);
            && outcome.Done? && |m'.table| == |m.table|
            && (forall id :: id in ids ==> ActedAt(m.table, m'.table, id, a, r))
            && (forall i :: 0 <= i < |m.table| && i !in ids ==> m'.table[i] == m.table[i])
    decreases |ids|
  {
    if ids != [] {
      var m1 := ApplyOne(m, a, ids[0], r);
      FirstOfDistinct(m, a, ids, r, m1);
      ApplyDistinct(m1, a, ids[1..], r);
      var m' := Apply(m1, a, ids[1..], r).0;
      assert Apply(m, a, ids, r) == Apply(m1, a, ids[1..], r);
      Untouched(m1, a, ids[1..], r, ids[0], m');
      forall id | id in ids ensures ActedAt(m.table, m'.table, id, a, r) {
        assert id == ids[0] || id in ids[1..];
      }
      ApplyFrame(m, a, ids, r);
    }
  }

  lemma Untouched(m: Machine, a: Action, ids: seq<int>, r: Readings, id: int, m': Machine)
    requires AllUsable(m.table) && AllInBounds(m, a, ids, r) && m' == Apply(m, a, ids, r).0
    requires IsLive(m.table, id) && id !in ids
    ensures IsLive(m'.table, id) && m'.table[id] == m.table[id]
  {
    ApplyFrame(m, a, ids, r);
  }

  // A log of k start/stop pairs in a buffer for m of them.
  ghost predicate Closed(s: EventSet, k: nat, m: nat) {
    Canonical(s) && Alternates(s.log) && |s.log| == 2 * k && |s.data| == 2 * m
  }

  // A set just created for m measurements is one with k == 0.
  lemma CreatedIsClosed(s: EventSet, m: nat, names: seq<string>, lookup: PapiLookup)
    requires m >= 1 && IsNew(s, m, names, lookup)
    ensures Closed(s, 0, m) && EventNames(s.events) == names
  {
    NewIsCanonical(s, m, names, lookup);
    HeaderIsTheRequest(s, names, lookup);
  }

  // The same with one more start.
  ghost predicate Opened(s: EventSet, k: nat, m: nat) {
    && Canonical(s) && |s.log| == 2 * k + 1 && |s.data| == 2 * m
    && Alternates(s.log[..2 * k]) && s.log[2 * k].kind == START
  }

  ghost predicate Measured(t: Table, ids: seq<int>, k: nat, m: nat) {
    AllCanonical(t) && LiveIds(t, ids) && forall id :: id in ids ==> Closed(t[id].value, k, m)
  }

  ghost predicate Started(t: Table, ids: seq<int>, k: nat, m: nat) {
    AllCanonical(t) && LiveIds(t, ids) && forall id :: id in ids ==> Opened(t[id].value, k, m)
  }

  lemma StartOpens(s: EventSet, s1: EventSet, r: Readings, k: nat, m: nat)
    requires Closed(s, k, m) && Acted(s, Start, r, s1)
    ensures Opened(s1, k, m) && s1.events == s.events
  {
    var t: nat :| s1 == Act(s, Start, r, t);
    ActKeepsClosedForm(s, Start, r, t);
    var x := OneMore(s, Start, r, t, s1);
    assert s1.log[..2 * k] == s.log;
  }

  lemma StopCloses(s: EventSet, s1: EventSet, r: Readings, k: nat, m: nat)
    requires Opened(s, k, m) && Acted(s, Stop, r, s1)
    ensures Closed(s1, k + 1, m) && s1.events == s.events
  {
    var t: nat :| s1 == Act(s, Stop, r, t);
    ActKeepsClosedForm(s, Stop, r, t);
    var y := OneMore(s, Stop, r, t, s1);
    assert s.log == s.log[..2 * k] + [s.log[2 * k]];
    TwoMore(s.log[..2 * k], s.log[2 * k], y);
  }

  ghost predicate EventsKept(t: Table, t': Table, ids: seq<int>)
    requires LiveIds(t, ids) && LiveIds(t', ids)
  {
    forall id :: id in ids ==> t'[id].value.events == t[id].value.events
  }

  // One action on each of the sets of an array, and nothing else.
  ghost predicate AllActed(t: Table, t': Table, ids: seq<int>, a: Action, r: Readings) {
    AllCanonical(t') && forall id :: id in ids ==> ActedAt(t, t', id, a, r)
  }

  lemma CallActs(m: Machine, a: Action, ids: seq<int>, r: Readings)
    requires Ready(m.table, a, ids)
    ensures AllInBounds(m, a, ids, r) && AllActed(m.table, Apply(m, a, ids, r).0.table, ids, a, r)
  {
    ApplyDistinct(m, a, ids, r);
    ApplyFrame(m, a, ids, r);
  }

  lemma AllOpened(t: Table, t': Table, ids: seq<int>, r: Readings, k: nat, size: nat)
    requires Measured(t, ids, k, size) && AllActed(t, t', ids, Start, r)
    ensures Started(t', ids, k, size) && EventsKept(t, t', ids)
  {
    forall id | id in ids
      ensures IsLive(t', id) && Opened(t'[id].value, k, size) && t'[id].value.events == t[id].value.events
    {
      assert ActedAt(t, t', id, Start, r);
      StartOpens(t[id].value, t'[id].value, r, k, size);
    }
  }

  lemma AllClosed(t: Table, t': Table, ids: seq<int>, r: Readings, k: nat, size: nat)
    requires Started(t, ids, k, size) && AllActed(t, t', ids, Stop, r)
    ensures Measured(t', ids, k + 1, size) && EventsKept(t, t', ids)
  {
    forall id | id in ids
      ensures IsLive(t', id) && Closed(t'[id].value, k + 1, size) && t'[id].value.events == t[id].value.events
    {
      assert ActedAt(t, t', id, Stop, r);
      StopCloses(t[id].value, t'[id].value, r, k, size);
    }
  }

  lemma StopsFitAll(t: Table, ids: seq<int>, k: nat, size: nat)
    requires Distinct(ids) && Started(t, ids, k, size)
    ensures Ready(t, Stop, ids)
  {
    forall id | id in ids ensures InBounds(t[id].value, Stop) {
      StopIsInBoundsIff(t[id].value);
    }
  }

  lemma StartAll(m: Machine, ids: seq<int>, r: Readings, k: nat, size: nat)
    requires Distinct(ids) && Measured(m.table, ids, k, size)
    ensures AllInBounds(m, Start, ids, r)
    ensures var t := Apply(m, Start, ids, r).0.table; Started(t, ids, k, size) && EventsKept(m.table, t, ids)
  {
    CallActs(m, Start, ids, r);
    AllOpened(m.table, Apply(m, Start, ids, r).0.table, ids, r, k, size);
  }

  lemma StopAll(m: Machine, ids: seq<int>, r: Readings, k: nat, size: nat)
    requires Distinct(ids) && Started(m.table, ids, k, size)
    ensures AllInBounds(m, Stop, ids, r)
    ensures var t := Apply(m, Stop, ids, r).0.table; Measured(t, ids, k + 1, size) && EventsKept(m.table, t, ids)
  {
    StopsFitAll(m.table, ids, k, size);
    CallActs(m, Stop, ids, r);
    AllClosed(m.table, Apply(m, Stop, ids, r).0.table, ids, r, k, size);
  }

  lemma KeptTwice(t0: Table, t1: Table, t2: Table, ids: seq<int>)
    requires LiveIds(t0, ids) && LiveIds(t1, ids) && LiveIds(t2, ids)
    requires EventsKept(t0, t1, ids) && EventsKept(t1, t2, ids)
    ensures EventsKept(t0, t2, ids)
  {
  }

  // One round: start(ids); stop(ids).
  ghost function Round(m: Machine, ids: seq<int>, r: Readings, k: nat, size: nat): (m': Machine)
    requires Distinct(ids) && Measured(m.table, ids, k, size)
    ensures Measured(m'.table, ids, k + 1, size) && EventsKept(m.table, m'.table, ids)
  {
    StartAll(m, ids, r, k, size);
    var started := Apply(m, Start, ids, r).0;
    StopAll(started, ids, r, k, size);
    var stopped := Apply(started, Stop, ids, r).0;
    KeptTwice(m.table, started.table, stopped.table, ids);
    stopped
  }

  // k rounds
  ghost function Measure(m: Machine, ids: seq<int>, r: Readings, k: nat, size: nat): (m': Machine)
    requires Distinct(ids) && Measured(m.table, ids, 0, size)
    ensures Measured(m'.table, ids, k, size) && EventsKept(m.table, m'.table, ids)
  {
    if k == 0 then m
    else
      var before := Measure(m, ids, r, k - 1, size);
      var after := Round(before, ids, r, k - 1, size);
      KeptTwice(m.table, before.table, after.table, ids);
      after
  }

  // The results of one set, as a table.
  ghost function ResultsOf(s: EventSet): Merger.ResultTable
    requires Usable(s)
  {
    Merger.ResultTable(EventNames(s.events), Results(s))
  }

  // Never out of bounds, whatever k: every set then gives min(k, m) rows of its own width.
  lemma EverySetHasItsRows(m: Machine, ids: seq<int>, r: Readings, k: nat, size: nat, id: int)
    requires Distinct(ids) && Measured(m.table, ids, 0, size) && id in ids
    ensures var s := Measure(m, ids, r, k, size).table[id].value;
            && |Results(s)| == Min(k, size)
            && (forall j :: 0 <= j < |Results(s)| ==> |Results(s)[j]| == |m.table[id].value.events|)
  {
    var t := Measure(m, ids, r, k, size).table;
    assert Closed(t[id].value, k, size);
    ResultsOfAlternatingLog(t[id].value);
  }

  ghost function PartsOf(t: Table, ids: seq<int>): (parts: seq<Merger.Part>)
    requires AllCanonical(t) && LiveIds(t, ids)
    ensures |parts| == |ids| && forall i :: 0 <= i < |ids| ==>
        IsLive(t, ids[i]) && parts[i] == Merger.Part(ResultsOf(t[ids[i]].value), "")
  {
    assert forall i :: 0 <= i < |ids| ==> IsLive(t, ids[i]);
    seq(|ids|, i requires 0 <= i < |ids| && IsLive(t, ids[i]) => Merger.Part(ResultsOf(t[ids[i]].value), ""))
  }

  // All rows of the given tables, concatenated row by row.
  ghost function RowConcat(parts: seq<Merger.Part>, j: nat): seq<int> {
    if parts == [] then []
    else
      var n := |parts| - 1;
      RowConcat(parts[..n], j) + if j < |parts[n].table.rows| then parts[n].table.rows[j] else []
  }

  // All names of the given tables with their prefixes.
  ghost function NameConcat(parts: seq<Merger.Part>): seq<string> {
    if parts == [] then []
    else
      var n := |parts| - 1;
      NameConcat(parts[..n]) + Merger.LabelledAll(parts[n].prefix, Merger.NamesOf(parts[n].table))
  }

  function Flat(lists: seq<seq<string>>): seq<string> {
    if lists == [] then [] else Flat(lists[..|lists| - 1]) + lists[|lists| - 1]
  }

  // Name j of list i stands behind all names of the lists before it.
  lemma {:induction false} FlatAt(lists: seq<seq<string>>, i: nat, j: nat)
    requires i < |lists| && j < |lists[i]|
    ensures var at := |Flat(lists[..i])| + j; at < |Flat(lists)| && Flat(lists)[at] == lists[i][j]
  {
    var n := |lists| - 1;
    if i < n {
      FlatAt(lists[..n], i, j);
      assert lists[..n][..i] == lists[..i];
    }
  }

  // Value c of row j of table i stands behind all values that the tables before it have in their rows j.
  lemma {:induction false} RowConcatAt(parts: seq<Merger.Part>, j: nat, i: nat, c: nat)
    requires i < |parts| && j < |parts[i].table.rows| && c < |parts[i].table.rows[j]|
    ensures var at := |RowConcat(parts[..i], j)| + c;
            at < |RowConcat(parts, j)| && RowConcat(parts, j)[at] == parts[i].table.rows[j][c]
  {
    var n := |parts| - 1;
    if i < n {
      RowConcatAt(parts[..n], j, i, c);
      assert parts[..n][..i] == parts[..i];
    }
  }

  // The event names of each set.
  ghost function SetNames(t: Table, ids: seq<int>): (r: seq<seq<string>>)
    requires AllCanonical(t) && LiveIds(t, ids)
    ensures |r| == |ids|
    ensures forall i :: 0 <= i < |r| ==> IsLive(t, ids[i]) && r[i] == ResultsOf(t[ids[i]].value).names
  {
    assert forall i :: 0 <= i < |ids| ==> IsLive(t, ids[i]);
    seq(|ids|, i requires 0 <= i < |ids| && IsLive(t, ids[i]) => ResultsOf(t[ids[i]].value).names)
  }

  lemma UnprefixedNames(u: Merger.ResultTable)
    requires u.names != []
    ensures Merger.LabelledAll("", Merger.NamesOf(u)) == u.names
  {
    forall i | 0 <= i < |u.names| ensures Merger.Labelled("", Some(u.names[i])) == u.names[i] {
      assert "" + u.names[i] == u.names[i];
    }
  }

  lemma {:induction false} UnprefixedConcat(parts: seq<Merger.Part>, lists: seq<seq<string>>)
    requires |parts| == |lists|
    requires forall i :: 0 <= i < |parts| ==>
               parts[i].prefix == "" && parts[i].table.names == lists[i] && lists[i] != []
    ensures NameConcat(parts) == Flat(lists)
  {
    if parts != [] {
      var n := |parts| - 1;
      UnprefixedConcat(parts[..n], lists[..n]);
      UnprefixedNames(parts[n].table);
    }
  }

  // Tables with the same number of rows can always be added to an empty merger.
  lemma {:induction false} SameHeightsJoin(parts: seq<Merger.Part>, height: nat)
    requires Merger.Parts(parts) && parts != []
    requires forall i :: 0 <= i < |parts| ==> |parts[i].table.rows| == height
    ensures var all := Merger.JoinAll(Merger.NO_COLUMNS, parts);
            && all.Some? && |all.value.rows| == height && all.value.names == NameConcat(parts)
            && (forall j :: 0 <= j < height ==> all.value.rows[j] == RowConcat(parts, j))
  {
    var n := |parts| - 1;
    assert Merger.Parts(parts[..n]);
    if n > 0 {
      SameHeightsJoin(parts[..n], height);
    } else {
      assert parts[..n] == [];
    }
  }

  // Every set gives a table with columns and min(k, size) rows.
  lemma PartIsReady(t: Table, ids: seq<int>, k: nat, size: nat, i: nat)
    requires Measured(t, ids, k, size) && i < |ids|
    requires forall id :: id in ids ==> t[id].value.events != []
    ensures var part := PartsOf(t, ids)[i];
            && Merger.WellFormed(part.table) && part.table.names != [] && part.prefix == ""
            && |part.table.rows| == Min(k, size) && part.table.names == SetNames(t, ids)[i]
  {
    assert ids[i] in ids;
    ResultsOfAlternatingLog(t[ids[i]].value);
  }

  lemma SetsMerge(t: Table, ids: seq<int>, k: nat, size: nat)
    requires ids != [] && Measured(t, ids, k, size)
    requires forall id :: id in ids ==> t[id].value.events != []
    ensures var parts := PartsOf(t, ids);
            && Merger.Parts(parts)
            && var all := Merger.JoinAll(Merger.NO_COLUMNS, parts);
            && all.Some? && |all.value.rows| == Min(k, size)
            && all.value.names == Flat(SetNames(t, ids))
            && (forall j :: 0 <= j < Min(k, size) ==> all.value.rows[j] == RowConcat(parts, j))
  {
    var parts, names := PartsOf(t, ids), SetNames(t, ids);
    forall i | 0 <= i < |ids|
      ensures Merger.WellFormed(parts[i].table) && parts[i].table.names == names[i] != []
      ensures parts[i].prefix == "" && |parts[i].table.rows| == Min(k, size)
    {
      PartIsReady(t, ids, k, size, i);
    }
    SameHeightsJoin(parts, Min(k, size));
    UnprefixedConcat(parts, names);
  }

  lemma SameNames(t: Table, t': Table, ids: seq<int>)
    requires AllCanonical(t) && AllCanonical(t') && LiveIds(t, ids) && LiveIds(t', ids) && EventsKept(t, t', ids)
    ensures SetNames(t, ids) == SetNames(t', ids)
  {
    forall i | 0 <= i < |ids| ensures SetNames(t, ids)[i] == SetNames(t', ids)[i] {
      assert ids[i] in ids;
    }
  }

  // After k rounds all results can be merged: no addition throws, the names of the merged table are those of the sets
  // in order, and its row j is row j of every set, side by side.
  lemma RoundsMerge(m: Machine, ids: seq<int>, r: Readings, k: nat, size: nat)
    requires Distinct(ids) && ids != [] && Measured(m.table, ids, 0, size)
    requires forall id :: id in ids ==> m.table[id].value.events != []
    ensures var parts := PartsOf(Measure(m, ids, r, k, size).table, ids);
            && Merger.Parts(parts)
            && var all := Merger.JoinAll(Merger.NO_COLUMNS, parts);
            && all.Some? && |all.value.rows| == Min(k, size)
            && all.value.names == Flat(SetNames(m.table, ids))
            && (forall j :: 0 <= j < Min(k, size) ==> all.value.rows[j] == RowConcat(parts, j))
  {
    var t := Measure(m, ids, r, k, size).table;
    SetsMerge(t, ids, k, size);
    SameNames(m.table, t, ids);
  }

  ghost predicate CreatedSets(t: Table, ids: seq<int>, size: nat, requests: seq<seq<string>>, lookup: PapiLookup) {
    && |requests| == |ids| && LiveIds(t, ids)
    && (forall i :: 0 <= i < |ids| ==> requests[i] != [] && IsLive(t, ids[i])
                                       && IsNew(t[ids[i]].value, size, requests[i], lookup))
  }

  lemma CreatedSetsAreMeasured(t: Table, ids: seq<int>, size: nat, requests: seq<seq<string>>, lookup: PapiLookup)
    requires size >= 1 && AllCanonical(t) && CreatedSets(t, ids, size, requests, lookup)
    ensures Measured(t, ids, 0, size) && SetNames(t, ids) == requests
    ensures forall id :: id in ids ==> t[id].value.events != []
  {
    forall i | 0 <= i < |ids|
      ensures Closed(t[ids[i]].value, 0, size) && t[ids[i]].value.events != [] && SetNames(t, ids)[i] == requests[i]
    {
      CreatedIsClosed(t[ids[i]].value, size, requests[i], lookup);
    }
  }

  // From the creations to the merged table: sets created for the same number of measurements, k rounds and one merger
  // give the requested names in order and, with k at most that number, one row for each round.
  lemma CreatedSetsMerge(m: Machine, ids: seq<int>, r: Readings, k: nat, size: nat, requests: seq<seq<string>>,
                         lookup: PapiLookup)
    requires size >= 1 && Distinct(ids) && ids != [] && AllCanonical(m.table)
    requires CreatedSets(m.table, ids, size, requests, lookup)
    ensures Measured(m.table, ids, 0, size)
    ensures var parts := PartsOf(Measure(m, ids, r, k, size).table, ids);
            && Merger.Parts(parts)
            && var all := Merger.JoinAll(Merger.NO_COLUMNS, parts);
            all.Some? && all.value.names == Flat(requests) && |all.value.rows| == Min(k, size)
  {
    CreatedSetsAreMeasured(m.table, ids, size, requests, lookup);
    RoundsMerge(m, ids, r, k, size);
  }
}
