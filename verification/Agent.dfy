/**
 The agent's table of event sets and the native methods of class Measurement (src/c/measurement.c). The
 memory allocator and PAPI are parameters that say which calls succeed; throws are results.
 */
module Agent {
  import opened Common
  import opened Snapshots
  import opened Events
  import opened Pairing
  import opened EventSets
  import opened Registration
  import opened Columns
  import opened Machines
  import opened Results

  // An entry of all_eventsets. The pointers of a slot that is not valid may dangle.
  datatype Slot = Slot(
    valid: bool, mask: Mask, events: array?<EventInfo>, papiIds: seq<int>, component: int,
    data: array?<Snapshot>, index: nat)

  // A new entry at the end of the reallocated table.
  const UNUSED: Slot := Slot(false, 0, null, [], 0, null, 0)

  // Which allocations of a creation succeed, and the return codes of its PAPI calls.
  datatype Luck = Luck(table: bool, data: bool, events: bool, papi: nat -> int)

  datatype CreateError = NotPositive | NoEvents | OutOfMemory | Unrecognized | ComponentsDiffer | PapiFailed

  datatype Created = Id(id: nat) | Failed(error: CreateError)

  const THREAD_INHERIT: int := 1

  function CountInherit(options: seq<int>): nat {
    if options == [] then 0
    else CountInherit(options[..|options| - 1]) + Count(options[|options| - 1] == THREAD_INHERIT)
  }

  // Number of PAPI calls a creation makes for a set with PAPI events.
  function PapiCalls(options: seq<int>, ids: seq<int>): nat {
    2 + CountInherit(options) + |ids|
  }

  ghost predicate PapiCallsSucceed(papi: nat -> int, n: nat) {
    forall k: nat :: k < n ==> papi(k) == PAPI_OK
  }

  // The PAPI part of createEventSet: create, assign the component, one option per flag, one add per id.
  method SetUpPapi(options: seq<int>, ids: seq<int>, papi: nat -> int) returns (ok: bool)
    ensures ok <==> PapiCallsSucceed(papi, PapiCalls(options, ids))
  {
    if papi(0) != PAPI_OK {
      return false;
    }
    if papi(1) != PAPI_OK {
      return false;
    }
    var calls := 2;
    for i := 0 to |options|
      invariant calls == 2 + CountInherit(options[..i]) && PapiCallsSucceed(papi, calls)
    {
      assert options[..i + 1][..i] == options[..i];
      if options[i] == THREAD_INHERIT {
        if papi(calls) != PAPI_OK {
          MoreCalls(options, ids, i + 1);
          return false;
        }
        calls := calls + 1;
      }
    }
    assert options[..|options|] == options;
    for i := 0 to |ids|
      invariant calls == 2 + CountInherit(options) + i && PapiCallsSucceed(papi, calls)
    {
      if papi(calls) != PAPI_OK {
        return false;
      }
      calls := calls + 1;
    }
    return true;
  }

  lemma MoreCalls(options: seq<int>, ids: seq<int>, i: nat)
    requires i <= |options|
    ensures 2 + CountInherit(options[..i]) <= PapiCalls(options, ids)
  {
    if i < |options| {
      MoreCalls(options[..|options| - 1], ids, i);
      assert options[..|options| - 1][..i] == options[..i];
    } else {
      assert options[..i] == options;
    }
  }

  lemma {:induction false} InheritIs(options: seq<int>)
    ensures CountInherit(options) == multiset(options)[1]
  {
    if options != [] {
      var n := |options| - 1;
      InheritIs(options[..n]);
      assert options == options[..n] + [options[n]];
    }
  }

  // The call that adds recorded id i: behind the creation, the component and one call for each inherit flag.
  function AddCall(options: seq<int>, i: nat): nat {
    2 + multiset(options)[1] + i
  }

  // All PAPI calls of the creation, up to the one that adds the last of n ids.
  ghost predicate EveryPapiCallSucceeds(options: seq<int>, n: nat, papi: nat -> int) {
    forall k: nat :: k < AddCall(options, n) ==> papi(k) == 0
  }

  lemma PapiCallsAre(options: seq<int>, ids: seq<int>, papi: nat -> int)
    ensures PapiCallsSucceed(papi, PapiCalls(options, ids)) <==> EveryPapiCallSucceeds(options, |ids|, papi)
  {
    InheritIs(options);
  }

  // The outcome of createEventSet on table t: the checks in their order, then the smallest id that is not live.
  ghost function CreateOutcome(t: Table, measurements: int, names: seq<string>, options: seq<int>, luck: Luck,
                               resolve: Resolution): Created
  {
    if measurements <= 0 then Failed(NotPositive)
    else if names == [] then Failed(NoEvents)
    else if (FirstFree(t) == |t| && !luck.table) || !luck.data || !luck.events then Failed(OutOfMemory)
    else FillOutcome(FirstFree(t), names, options, luck.papi, resolve)
  }

  ghost function FillOutcome(id: nat, names: seq<string>, options: seq<int>, papi: nat -> int,
      resolve: Resolution): Created {
    match Collect(names, resolve)
    case UnknownEvent => Failed(Unrecognized)
    case MixedComponents => Failed(ComponentsDiffer)
    case Complete(reg) =>
      if Uses(reg.mask, PAPI) && !PapiCallsSucceed(papi, PapiCalls(options, reg.ids)) then Failed(PapiFailed)
      else Id(id)
  }

  // The event set that a successful creation leaves in its slot.
  function NewSet(measurements: nat, reg: Registry): EventSet {
    FreshSet(reg, Zeros(measurements * 2))
  }

  function FreshSet(reg: Registry, data: seq<Snapshot>): EventSet {
    EventSet(reg.mask, reg.events, reg.ids, data, 0, [])
  }

  function Zeros(n: nat): (r: seq<Snapshot>)
    ensures |r| == n && forall i :: 0 <= i < n ==> r[i] == ZERO
  {
    if n == 0 then [] else Zeros(n - 1) + [ZERO]
  }

  // That set has room for the requested number of pairs, and nothing in it.
  lemma NewSetIsNew(measurements: nat, names: seq<string>, lookup: PapiLookup)
    requires Collect(names, ResolutionBy(lookup)).Complete?
    ensures IsNew(NewSet(measurements, Collect(names, ResolutionBy(lookup)).registry), measurements, names, lookup)
  {
  }

  // There is a slot that is not live, or room for another one, and both blocks can be allocated.
  ghost predicate Granted(t: Table, luck: Luck) {
    luck.data && luck.events && (luck.table || exists i :: 0 <= i < |t| && !IsLive(t, i))
  }

  ghost predicate UsesPapi(names: seq<string>, lookup: PapiLookup) {
    exists k :: 0 <= k < |names| && ResolutionBy(lookup)(names[k]).Some? &&
                ResolutionBy(lookup)(names[k]).value.backend == PAPI
  }

  // When each outcome comes about.
  lemma OutcomeOfCreate(t: Table, measurements: int, names: seq<string>, options: seq<int>, luck: Luck,
                        lookup: PapiLookup)
    ensures var resolve := ResolutionBy(lookup);
            var r := CreateOutcome(t, measurements, names, options, luck, resolve);
            var tried := measurements > 0 && names != [];
            && (r == Failed(NotPositive) <==> measurements <= 0)
            && (r == Failed(NoEvents) <==> measurements > 0 && names == [])
            && (r == Failed(OutOfMemory) <==> tried && !Granted(t, luck))
            && (r == Failed(Unrecognized) <==> tried && Granted(t, luck) && UnknownFirst(names, resolve))
            && (r == Failed(ComponentsDiffer) <==> tried && Granted(t, luck) && MixedFirst(names, resolve))
            && (r == Failed(PapiFailed) ==> tried && Granted(t, luck) && UsesPapi(names, lookup))
            && (r.Id? ==> tried && Granted(t, luck) && r.id <= |t| && !IsLive(t, r.id)
                          && forall i :: 0 <= i < r.id ==> IsLive(t, i))
  {
    CollectFailsIff(names, ResolutionBy(lookup));
    if Collect(names, ResolutionBy(lookup)).Complete? {
      UsesPapiIff(names, lookup);
    }
  }

  lemma UsesPapiIff(names: seq<string>, lookup: PapiLookup)
    requires Collect(names, ResolutionBy(lookup)).Complete?
    ensures Uses(Collect(names, ResolutionBy(lookup)).registry.mask, PAPI) <==> UsesPapi(names, lookup)
  {
    CompleteIsRegistered(names, lookup);
    var reg, resolve := Collect(names, ResolutionBy(lookup)).registry, ResolutionBy(lookup);
    assert Uses(reg.mask, PAPI) <==> HasBackend(reg.events, PAPI);
    forall k | 0 <= k < |names|
      ensures resolve(names[k]).Some? && resolve(names[k]).value.backend == reg.events[k].backend
    {
      assert Some(reg.events[k].(papiIndex := 0)) == resolve(names[k]);
    }
  }

  // With all events known and of one component, the creation fails exactly when an event uses PAPI and one of its
  // calls fails.
  lemma PapiDecides(t: Table, measurements: int, names: seq<string>, options: seq<int>, luck: Luck, lookup: PapiLookup)
    requires measurements > 0 && names != [] && Granted(t, luck) && Collect(names, ResolutionBy(lookup)).Complete?
    ensures var r := CreateOutcome(t, measurements, names, options, luck, ResolutionBy(lookup));
            var ids := Collect(names, ResolutionBy(lookup)).registry.ids;
            && (r == Failed(PapiFailed) <==>
                  UsesPapi(names, lookup) && !EveryPapiCallSucceeds(options, |ids|, luck.papi))
            && (r.Id? <==> r != Failed(PapiFailed))
            && (forall i: nat :: i < |ids| && UsesPapi(names, lookup) && luck.papi(AddCall(options, i)) != 0 ==>
                  r == Failed(PapiFailed))
  {
    UsesPapiIff(names, lookup);
    PapiCallsAre(options, Collect(names, ResolutionBy(lookup)).registry.ids, luck.papi);
  }

  lemma PlaceTwice(t: Table, id: nat, x: Option<EventSet>)
    requires id <= |t|
    ensures Place(t, id, None)[id := x] == Place(t, id, x)
  {
  }

  // Who will free an allocated block: the slot it belongs to, or nobody (yet).
  datatype Owner = OwnedBy(slot: int) | Unowned

  // The blocks after one that nobody will free has been added.
  ghost predicate LeaksOne<T>(before: map<T, Owner>, after: map<T, Owner>, b: T) {
    b !in before && after == before[b := Unowned]
  }

  // A new block that gets an owner, or is freed again.
  lemma NewBlock<T>(before: map<T, Owner>, b: T, owner: Owner)
    requires b !in before
    ensures before[b := Unowned][b := owner] == before[b := owner]
    ensures before[b := Unowned] - {b} == before
  {
  }

  class Measurement {
    const platform: Platform
    const lookup: PapiLookup
    var slots: seq<Slot>
    // The blocks that are allocated and not yet freed.
    ghost var dataBlocks: map<array<Snapshot>, Owner>
    ghost var eventBlocks: map<array<EventInfo>, Owner>
    // Snapshots taken since creation or reset, slot by slot.
    ghost var logs: seq<seq<Snapshot>>

    constructor (platform: Platform, lookup: PapiLookup)
      ensures Valid() && this.platform == platform && this.lookup == lookup
      ensures View() == [] && dataBlocks == map[] && eventBlocks == map[]
    {
      this.platform := platform;
      this.lookup := lookup;
      slots := [];
      dataBlocks, eventBlocks := map[], map[];
      logs := [];
    }

    // ---------- ownership ----------

    // The test that every native method makes of an id.
    predicate IsValidId(id: int)
      reads this
    {
      0 <= id < |slots| && slots[id].valid
    }

    // Every valid slot owns two allocated blocks of its own, and a block is owned by no other slot.
    ghost predicate Ownership()
      reads this
    {
      && (forall i :: IsValidId(i) ==>
            && slots[i].data != null && slots[i].data in dataBlocks && dataBlocks[slots[i].data] == OwnedBy(i)
            && slots[i].events != null && slots[i].events in eventBlocks && eventBlocks[slots[i].events] == OwnedBy(i))
      && (forall b :: b in dataBlocks && dataBlocks[b].OwnedBy? ==>
            IsValidId(dataBlocks[b].slot) && slots[dataBlocks[b].slot].data == b)
      && (forall b :: b in eventBlocks && eventBlocks[b].OwnedBy? ==>
            IsValidId(eventBlocks[b].slot) && slots[eventBlocks[b].slot].events == b)
    }

    ghost function SetAt(i: int): EventSet
      requires IsValidId(i) && Ownership() && |logs| == |slots|
      reads this, dataBlocks.Keys, eventBlocks.Keys
    {
      var s := slots[i];
      EventSet(s.mask, s.events[..], s.papiIds, s.data[..], s.index, logs[i])
    }

    ghost predicate Valid()
      reads this, dataBlocks.Keys, eventBlocks.Keys
    {
      && |logs| == |slots|
      && Ownership()
      && forall i :: IsValidId(i) ==> Canonical(SetAt(i)) && slots[i].data.Length < NOT_FOUND
    }

    ghost function View(): (t: Table)
      requires Valid()
      reads this, dataBlocks.Keys, eventBlocks.Keys
      ensures |t| == |slots|
      ensures forall i :: 0 <= i < |t| ==> t[i] == if slots[i].valid then Some(SetAt(i)) else None
      ensures AllCanonical(t)
    {
      seq(|slots|, i requires 0 <= i < |slots| && Valid() reads this, dataBlocks.Keys, eventBlocks.Keys =>
        if slots[i].valid then Some(SetAt(i)) else None)
    }

    ghost function State(): (m: Machine)
      requires Valid()
      reads this, dataBlocks.Keys, eventBlocks.Keys, platform
      ensures AllCanonical(m.table)
    {
      Machine(View(), platform.tick)
    }

    // ---------- start, stop, sample, reset ----------

    // Puts the snapshot into cell `at` of set id and moves data_index behind it.
    method Store(id: int, at: nat, x: Snapshot, ghost after: EventSet)
      requires Valid() && IsValidId(id) && at < slots[id].data.Length
      requires after == SetAt(id).(data := SetAt(id).data[at := x], index := at + 1, log := SetAt(id).log + [x])
      requires Canonical(after)
      modifies this`slots, this`logs, slots[id].data
      ensures Valid() && View() == old(View())[id := Some(after)]
    {
      var s := slots[id];
      s.data[at] := x;
      slots := slots[id := s.(index := at + 1)];
      logs := logs[id := logs[id] + [x]];
      OneSetChanged(id);
      assert SetAt(id) == after;
    }

    // Work on live sets does not touch what the slots own.
    twostate lemma SameOwners()
      requires old(Ownership())
      requires |slots| == |old(slots)|
      requires forall i :: 0 <= i < |slots| ==>
                 && slots[i].valid == old(slots)[i].valid
                 && slots[i].data == old(slots)[i].data && slots[i].events == old(slots)[i].events
      requires dataBlocks == old(dataBlocks) && eventBlocks == old(eventBlocks)
      ensures Ownership()
    {
      assert forall i :: IsValidId(i) <==> old(IsValidId(i));
    }

    // Slots that are as they were, with blocks that are as they were, hold the same sets.
    twostate lemma SetsKept()
      requires old(Valid()) && Ownership() && |logs| == |slots|
      requires forall i :: IsValidId(i) ==>
                 old(IsValidId(i)) && slots[i] == old(slots)[i] && logs[i] == old(logs)[i]
      requires forall b: array<Snapshot> :: b in old(dataBlocks) ==> unchanged(b)
      requires forall b: array<EventInfo> :: b in old(eventBlocks) ==> unchanged(b)
      ensures Valid() && forall i :: IsValidId(i) ==> SetAt(i) == old(SetAt(i))
    {
    }

    // After slot id and its buffer have been rewritten, all other sets are as they were.
    twostate lemma OneSetChanged(id: int)
      requires old(Valid()) && |slots| == |old(slots)| && |slots| == |logs|
      requires dataBlocks == old(dataBlocks) && eventBlocks == old(eventBlocks)
      requires IsValidId(id) && slots[id].data != null && slots[id].events != null && old(slots)[id].valid
      requires slots[id].data == old(slots)[id].data && slots[id].events == old(slots)[id].events
      requires forall i :: 0 <= i < |slots| && i != id ==> slots[i] == old(slots)[i] && logs[i] == old(logs)[i]
      requires forall b: array<Snapshot> :: b in old(dataBlocks) && b != slots[id].data ==> unchanged(b)
      requires forall b: array<EventInfo> :: b in old(eventBlocks) ==> unchanged(b)
      requires Canonical(EventSet(slots[id].mask, slots[id].events[..], slots[id].papiIds, slots[id].data[..],
                                  slots[id].index, logs[id]))
      ensures Valid() && View() == old(View())[id := Some(SetAt(id))]
    {
      SameOwners();
      assert old(IsValidId(id));
      forall i | IsValidId(i) && i != id
        ensures SetAt(i) == old(SetAt(i)) && Canonical(SetAt(i)) && slots[i].data.Length < NOT_FOUND
      {
        assert old(IsValidId(i));
        assert slots[i].data != slots[id].data;
      }
    }

    // The cell that start and sample write: data_index, two cells back when the buffer is full.
    method Room(id: int) returns (index: nat)
      requires Valid() && IsValidId(id)
      ensures index < slots[id].data.Length
      ensures forall a: Action :: !a.Stop? ==> index == Cell(SetAt(id), a)
    {
      index := slots[id].index;
      if index >= slots[id].data.Length {
        index := index - 2;
      }
    }

    method StartOne(id: int)
      requires Valid() && IsValidId(id)
      modifies this`slots, this`logs, slots[id].data, platform`tick
      ensures Valid() && State() == ApplyOne(old(State()), Action.Start, id, platform.readings)
    {
      ghost var before := State();
      var index, x, after := TakeStart(id);
      assert View() == before.table && before.table[id] == Some(SetAt(id));
      Store(id, index, x, after);
      ApplyOneIs(before, Action.Start, id, platform.readings, after, State());
    }

    // The measuring half of StartOne.
    method TakeStart(id: int) returns (index: nat, x: Snapshot, ghost after: EventSet)
      requires Valid() && IsValidId(id)
      modifies platform`tick
      ensures Canonical(after) && index < slots[id].data.Length
      ensures after == Act(SetAt(id), Action.Start, platform.readings, old(platform.tick))
      ensures after == SetAt(id).(data := SetAt(id).data[index := x], index := index + 1, log := SetAt(id).log + [x])
      ensures platform.tick == TickAfter(slots[id].mask, Action.Start, old(platform.tick))
    {
      var config := slots[id];
      index := Room(id);
      after := Act(SetAt(id), Action.Start, platform.readings, platform.tick);
      ActKeepsClosedForm(SetAt(id), Action.Start, platform.readings, platform.tick);
      x := MeasureStart(config.mask, |config.papiIds|, config.data[index], platform);
    }

    method StopOne(id: int)
      requires Valid() && IsValidId(id) && InBounds(SetAt(id), Action.Stop)
      modifies this`slots, this`logs, slots[id].data, platform`tick
      ensures Valid() && State() == ApplyOne(old(State()), Action.Stop, id, platform.readings)
    {
      ghost var s, t := SetAt(id), platform.tick;
      assert View()[id] == Some(s);
      ActKeepsClosedForm(s, Action.Stop, platform.readings, t);
      var config := slots[id];
      var index := config.index;
      var x := MeasureStop(config.mask, |config.papiIds|, config.data[index], platform);
      Store(id, index, x, Act(s, Action.Stop, platform.readings, t));
    }

    method SampleOne(id: int, user: int)
      requires Valid() && IsValidId(id)
      modifies this`slots, this`logs, slots[id].data, platform`tick
      ensures Valid() && State() == ApplyOne(old(State()), Action.Sample(user), id, platform.readings)
    {
      ghost var before := State();
      var index, x, after := TakeSample(id, user);
      assert View() == before.table && before.table[id] == Some(SetAt(id));
      Store(id, index, x, after);
      ApplyOneIs(before, Action.Sample(user), id, platform.readings, after, State());
    }

    // The measuring half of SampleOne.
    method TakeSample(id: int, user: int) returns (index: nat, x: Snapshot, ghost after: EventSet)
      requires Valid() && IsValidId(id)
      modifies platform`tick
      ensures Canonical(after) && index < slots[id].data.Length
      ensures after == Act(SetAt(id), Action.Sample(user), platform.readings, old(platform.tick))
      ensures after == SetAt(id).(data := SetAt(id).data[index := x], index := index + 1, log := SetAt(id).log + [x])
      ensures platform.tick == TickAfter(slots[id].mask, Action.Sample(user), old(platform.tick))
    {
      var config := slots[id];
      index := Room(id);
      after := Act(SetAt(id), Action.Sample(user), platform.readings, platform.tick);
      ActKeepsClosedForm(SetAt(id), Action.Sample(user), platform.readings, platform.tick);
      x := MeasureSample(config.mask, |config.papiIds|, user, config.data[index], platform);
    }

    method ResetOne(id: int)
      requires Valid() && IsValidId(id)
      modifies this`slots, this`logs, slots[id].data
      ensures Valid() && State() == ApplyOne(old(State()), Action.Reset, id, platform.readings)
    {
      slots := slots[id := slots[id].(index := 0)];
      logs := logs[id := []];
      OneSetChanged(id);
    }

    // start, stop, sample and reset on an array of ids: the single-id operation on each id in turn until the
    // first invalid one, which throws. A stop must find room in the buffer.
    method Start(ids: seq<int>) returns (r: Outcome)
      requires Valid()
      modifies this`slots, this`logs, dataBlocks.Keys, platform`tick
      ensures AllInBounds(old(State()), Action.Start, ids, platform.readings)
      ensures Valid() && (State(), r) == Apply(old(State()), Action.Start, ids, platform.readings)
    {
      OnlyStopCanLeaveBounds(State(), Action.Start, ids, platform.readings);
      var i := 0;
      while i < |ids|
        invariant 0 <= i <= |ids| && Valid()
        invariant AllInBounds(State(), Action.Start, ids[i..], platform.readings)
        invariant Apply(State(), Action.Start, ids[i..], platform.readings) ==
            Apply(old(State()), Action.Start, ids, platform.readings)
      {
        assert ids[i..][0] == ids[i] && ids[i..][1..] == ids[i + 1..];
        if !IsValidId(ids[i]) {
          return InvalidId;
        }
        if slots[ids[i]].data.Length != 0 {
          StartOne(ids[i]);
        }
        i := i + 1;
      }
      return Done;
    }

    method Stop(ids: seq<int>) returns (r: Outcome)
      requires Valid() && AllInBounds(State(), Action.Stop, ids, platform.readings)
      modifies this`slots, this`logs, dataBlocks.Keys, platform`tick
      ensures Valid() && (State(), r) == Apply(old(State()), Action.Stop, ids, platform.readings)
    {
      var i := 0;
      while i < |ids|
        invariant 0 <= i <= |ids| && Valid()
        invariant AllInBounds(State(), Action.Stop, ids[i..], platform.readings)
        invariant Apply(State(), Action.Stop, ids[i..], platform.readings) ==
            Apply(old(State()), Action.Stop, ids, platform.readings)
      {
        assert ids[i..][0] == ids[i] && ids[i..][1..] == ids[i + 1..];
        if !IsValidId(ids[i]) {
          return InvalidId;
        }
        StopOne(ids[i]);
        i := i + 1;
      }
      return Done;
    }

    method Sample(user: int, ids: seq<int>) returns (r: Outcome)
      requires Valid()
      modifies this`slots, this`logs, dataBlocks.Keys, platform`tick
      ensures AllInBounds(old(State()), Action.Sample(user), ids, platform.readings)
      ensures Valid() && (State(), r) == Apply(old(State()), Action.Sample(user), ids, platform.readings)
    {
      OnlyStopCanLeaveBounds(State(), Action.Sample(user), ids, platform.readings);
      var i := 0;
      while i < |ids|
        invariant 0 <= i <= |ids| && Valid()
        invariant AllInBounds(State(), Action.Sample(user), ids[i..], platform.readings)
        invariant Apply(State(), Action.Sample(user), ids[i..], platform.readings) ==
            Apply(old(State()), Action.Sample(user), ids, platform.readings)
      {
        assert ids[i..][0] == ids[i] && ids[i..][1..] == ids[i + 1..];
        if !IsValidId(ids[i]) {
          return InvalidId;
        }
        if slots[ids[i]].data.Length != 0 {
          SampleOne(ids[i], user);
        }
        i := i + 1;
      }
      return Done;
    }

    method Reset(ids: seq<int>) returns (r: Outcome)
      requires Valid()
      modifies this`slots, this`logs, dataBlocks.Keys, platform`tick
      ensures AllInBounds(old(State()), Action.Reset, ids, platform.readings)
      ensures Valid() && (State(), r) == Apply(old(State()), Action.Reset, ids, platform.readings)
    {
      OnlyStopCanLeaveBounds(State(), Action.Reset, ids, platform.readings);
      var i := 0;
      while i < |ids|
        invariant 0 <= i <= |ids| && Valid()
        invariant AllInBounds(State(), Action.Reset, ids[i..], platform.readings)
        invariant Apply(State(), Action.Reset, ids[i..], platform.readings) ==
            Apply(old(State()), Action.Reset, ids, platform.readings)
      {
        assert ids[i..][0] == ids[i] && ids[i..][1..] == ids[i + 1..];
        if !IsValidId(ids[i]) {
          return InvalidId;
        }
        ResetOne(ids[i]);
        i := i + 1;
      }
      return Done;
    }

    // ---------- destruction and creation ----------

    // free: only an allocated block may be freed.
    ghost method FreeData(b: array<Snapshot>)
      requires b in dataBlocks
      modifies this`dataBlocks
      ensures dataBlocks == old(dataBlocks) - {b}
    {
      dataBlocks := dataBlocks - {b};
    }

    ghost method FreeEvents(b: array<EventInfo>)
      requires b in eventBlocks
      modifies this`eventBlocks
      ensures eventBlocks == old(eventBlocks) - {b}
    {
      eventBlocks := eventBlocks - {b};
    }

    method Destroy(id: int) returns (r: Outcome)
      requires Valid()
      modifies this`slots, this`dataBlocks, this`eventBlocks
      ensures Valid()
      ensures r == if IsLive(old(View()), id) then Done else InvalidId
      ensures TableStep(old(View()), View())
      ensures r.InvalidId? ==> View() == old(View()) && dataBlocks == old(dataBlocks) && eventBlocks == old(eventBlocks)
      ensures r.Done? ==>
        && View() == old(View())[id := None]
        && old(slots)[id].data in old(dataBlocks) && dataBlocks == old(dataBlocks) - {old(slots)[id].data}
        && old(slots)[id].events in old(eventBlocks) && eventBlocks == old(eventBlocks) - {old(slots)[id].events}
    {
      if id < 0 || id >= |slots| || !slots[id].valid {
        return InvalidId;
      }
      FreeEvents(slots[id].events);
      FreeData(slots[id].data);
      slots := slots[id := slots[id].(valid := false)];
      SlotRetired(id);
      return Done;
    }

    // A slot stops being valid and its blocks leave the heap; the other sets are as they were.
    twostate lemma SlotRetired(id: int)
      requires old(Valid()) && 0 <= id < |old(slots)| && logs == old(logs)
      requires old(slots)[id].valid && slots == old(slots)[id := old(slots)[id].(valid := false)]
      requires old(slots)[id].data != null && dataBlocks == old(dataBlocks) - {old(slots)[id].data}
      requires old(slots)[id].events != null && eventBlocks == old(eventBlocks) - {old(slots)[id].events}
      requires forall b: array<Snapshot> :: b in old(dataBlocks) ==> unchanged(b)
      requires forall b: array<EventInfo> :: b in old(eventBlocks) ==> unchanged(b)
      ensures Valid() && View() == old(View())[id := None]
    {
      OwnersRetired(id);
      SetsKept();
    }

    twostate lemma OwnersRetired(id: int)
      requires old(Ownership()) && 0 <= id < |old(slots)|
      requires old(slots)[id].valid && slots == old(slots)[id := old(slots)[id].(valid := false)]
      requires old(slots)[id].data != null && dataBlocks == old(dataBlocks) - {old(slots)[id].data}
      requires old(slots)[id].events != null && eventBlocks == old(eventBlocks) - {old(slots)[id].events}
      ensures Ownership() && forall i :: IsValidId(i) <==> i != id && old(IsValidId(i))
    {
      assert old(IsValidId(id));
    }

    // Finds the first slot that is not valid or enlarges the table by one.
    method ClaimSlot(tableGrows: bool) returns (id: Option<nat>)
      requires Valid()
      modifies this`slots, this`logs
      ensures Valid()
      ensures id == if FirstFree(old(View())) < |old(View())| || tableGrows then Some(FirstFree(old(View()))) else None
      ensures id.None? ==> slots == old(slots) && logs == old(logs)
      ensures id.Some? ==> View() == Place(old(View()), id.value, None) && id.value < |slots| && !slots[id.value].valid
    {
      ghost var t := View();
      for i := 0 to |slots|
        invariant FirstFreeFrom(t, 0) == FirstFreeFrom(t, i)
      {
        if !slots[i].valid {
          assert t[i := None] == t;
          return Some(i);
        }
      }
      if !tableGrows {
        return None;
      }
      id := Some(|slots|);
      slots := slots + [UNUSED];
      logs := logs + [[]];
      TableGrown();
    }

    twostate lemma TableGrown()
      requires old(Valid()) && slots == old(slots) + [UNUSED] && logs == old(logs) + [[]]
      requires dataBlocks == old(dataBlocks) && eventBlocks == old(eventBlocks)
      requires forall b: array<Snapshot> :: b in old(dataBlocks) ==> unchanged(b)
      requires forall b: array<EventInfo> :: b in old(eventBlocks) ==> unchanged(b)
      ensures Valid() && View() == old(View()) + [None]
    {
      assert forall i :: IsValidId(i) <==> old(IsValidId(i));
      SetsKept();
    }

    // Blocks that no slot owns have come or gone.
    twostate lemma UnownedChanged()
      requires old(Valid()) && slots == old(slots) && logs == old(logs)
      requires forall b :: b in old(dataBlocks) && old(dataBlocks)[b].OwnedBy? ==>
                 b in dataBlocks && dataBlocks[b] == old(dataBlocks)[b]
      requires forall b :: b in dataBlocks && dataBlocks[b].OwnedBy? ==>
          b in old(dataBlocks) && old(dataBlocks)[b] == dataBlocks[b]
      requires forall b :: b in old(eventBlocks) && old(eventBlocks)[b].OwnedBy? ==>
                 b in eventBlocks && eventBlocks[b] == old(eventBlocks)[b]
      requires forall b :: b in eventBlocks && eventBlocks[b].OwnedBy? ==>
          b in old(eventBlocks) && old(eventBlocks)[b] == eventBlocks[b]
      requires forall b: array<Snapshot> :: b in old(dataBlocks) ==> unchanged(b)
      requires forall b: array<EventInfo> :: b in old(eventBlocks) ==> unchanged(b)
      ensures Valid() && View() == old(View())
    {
      assert forall i :: IsValidId(i) <==> old(IsValidId(i));
      SetsKept();
    }

    // calloc of the snapshot buffer
    method AllocateData(n: nat) returns (data: array<Snapshot>)
      requires Valid()
      modifies this`dataBlocks
      ensures Valid() && View() == old(View())
      ensures fresh(data) && data[..] == Zeros(n) && dataBlocks == old(dataBlocks)[data := Unowned]
    {
      data := new Snapshot[n](_ => ZERO);
      assert data[..] == Zeros(n);
      dataBlocks := dataBlocks[data := Unowned];
      UnownedChanged();
    }

    // calloc of the event descriptions
    method AllocateEvents(n: nat) returns (events: array<EventInfo>)
      requires Valid()
      modifies this`eventBlocks
      ensures Valid() && View() == old(View())
      ensures fresh(events) && events.Length == n && eventBlocks == old(eventBlocks)[events := Unowned]
    {
      events := new EventInfo[n](_ => BLANK);
      eventBlocks := eventBlocks[events := Unowned];
      UnownedChanged();
    }

    method GiveUpData(data: array<Snapshot>)
      requires Valid() && data in dataBlocks && dataBlocks[data].Unowned?
      modifies this`dataBlocks
      ensures Valid() && View() == old(View()) && dataBlocks == old(dataBlocks) - {data}
    {
      FreeData(data);
      UnownedChanged();
    }

    method GiveUpBoth(data: array<Snapshot>, events: array<EventInfo>)
      requires Valid() && data in dataBlocks && dataBlocks[data].Unowned?
      requires events in eventBlocks && eventBlocks[events].Unowned?
      modifies this`dataBlocks, this`eventBlocks
      ensures Valid() && View() == old(View())
      ensures dataBlocks == old(dataBlocks) - {data} && eventBlocks == old(eventBlocks) - {events}
    {
      FreeEvents(events);
      FreeData(data);
      UnownedChanged();
    }

    // The claimed slot becomes a set with two blocks of its own. The fields of a slot that is not valid are
    // never read, so they are written here at once when the slot becomes valid.
    method Publish(id: nat, reg: Registry, data: array<Snapshot>, events: array<EventInfo>)
      requires Valid() && id < |slots| && !slots[id].valid && |reg.ids| <= MAX_PAPI_EVENTS
      requires data in dataBlocks && dataBlocks[data].Unowned? && 2 <= data.Length < NOT_FOUND && data.Length % 2 == 0
      requires events in eventBlocks && eventBlocks[events].Unowned? && events[..] == reg.events
      modifies this`slots, this`logs, this`dataBlocks, this`eventBlocks
      ensures Valid()
      ensures View() == old(View())[id := Some(FreshSet(reg, data[..]))]
      ensures slots[id].data == data && dataBlocks == old(dataBlocks)[data := OwnedBy(id)]
      ensures slots[id].events == events && eventBlocks == old(eventBlocks)[events := OwnedBy(id)]
    {
      dataBlocks := dataBlocks[data := OwnedBy(id)];
      eventBlocks := eventBlocks[events := OwnedBy(id)];
      slots := slots[id := Slot(true, reg.mask, events, reg.ids, reg.component, data, 0)];
      logs := logs[id := []];
      SlotFilled(id);
    }

    twostate lemma SlotFilled(id: int)
      requires old(Valid()) && 0 <= id < |old(slots)| && !old(slots)[id].valid
      requires |slots| == |old(slots)| && |logs| == |old(logs)|
      requires forall i :: 0 <= i < |slots| && i != id ==> slots[i] == old(slots)[i] && logs[i] == old(logs)[i]
      requires slots[id].valid
      requires slots[id].data != null && slots[id].data in old(dataBlocks) && old(dataBlocks)[slots[id].data].Unowned?
      requires dataBlocks == old(dataBlocks)[slots[id].data := OwnedBy(id)]
      requires slots[id].events != null && slots[id].events in old(eventBlocks)
      requires old(eventBlocks)[slots[id].events].Unowned?
      requires eventBlocks == old(eventBlocks)[slots[id].events := OwnedBy(id)]
      requires forall b: array<Snapshot> :: b in old(dataBlocks) ==> unchanged(b)
      requires forall b: array<EventInfo> :: b in old(eventBlocks) ==> unchanged(b)
      requires slots[id].data.Length < NOT_FOUND
      requires Canonical(EventSet(slots[id].mask, slots[id].events[..], slots[id].papiIds, slots[id].data[..],
                                  slots[id].index, logs[id]))
      ensures Valid() && View() == old(View())[id := Some(SetAt(id))]
    {
      assert forall i :: IsValidId(i) <==> i == id || old(IsValidId(i));
      assert Ownership();
      forall i | IsValidId(i) && i != id
        ensures SetAt(i) == old(SetAt(i)) && Canonical(SetAt(i)) && slots[i].data.Length < NOT_FOUND
      {
        assert old(IsValidId(i));
      }
    }

    // Fills the claimed slot: buffers, events, PAPI. Every failing exit frees what was allocated, except the one
    // for different components.
    method FillSlot(id: nat, ghost measurements: nat, jmeasurements: nat, names: seq<string>, options: seq<int>,
        luck: Luck) returns (r: Created)
      requires Valid() && id < |slots| && !slots[id].valid
      requires jmeasurements == measurements * 2 && 2 <= jmeasurements < 0x8000_0000
      modifies this`slots, this`logs, this`dataBlocks, this`eventBlocks
      ensures Valid()
      ensures r == if !luck.data || !luck.events then Failed(OutOfMemory)
                   else FillOutcome(id, names, options, luck.papi, ResolutionBy(lookup))
      ensures r.Id? ==>
        && Collect(names, ResolutionBy(lookup)).Complete?
        && View() == old(View())[id := Some(NewSet(measurements, Collect(names, ResolutionBy(lookup)).registry))]
        && slots[id].data != null && fresh(slots[id].data)
        && dataBlocks == old(dataBlocks)[slots[id].data := OwnedBy(id)]
        && slots[id].events != null && fresh(slots[id].events)
        && eventBlocks == old(eventBlocks)[slots[id].events := OwnedBy(id)]
      ensures r.Failed? ==> View() == old(View())
      ensures r.Failed? && r.error != ComponentsDiffer ==>
        dataBlocks == old(dataBlocks) && eventBlocks == old(eventBlocks)
      ensures r == Failed(ComponentsDiffer) ==>
        && (exists d :: LeaksOne(old(dataBlocks), dataBlocks, d) && fresh(d))
        && (exists e :: LeaksOne(old(eventBlocks), eventBlocks, e) && fresh(e))
    {
      if !luck.data {
        return Failed(OutOfMemory);
      }
      var data := AllocateData(jmeasurements);
      NewBlock(old(dataBlocks), data, OwnedBy(id));
      r := FillWithData(id, data, names, options, luck);
      assert r == Failed(ComponentsDiffer) ==> LeaksOne(old(dataBlocks), dataBlocks, data);
    }

    // The rest of the creation, with the snapshot buffer allocated.
    method FillWithData(id: nat, data: array<Snapshot>, names: seq<string>, options: seq<int>, luck: Luck)
      returns (r: Created)
      requires Valid() && id < |slots| && !slots[id].valid
      requires data in dataBlocks && dataBlocks[data].Unowned? && 2 <= data.Length < NOT_FOUND && data.Length % 2 == 0
      modifies this`slots, this`logs, this`dataBlocks, this`eventBlocks
      ensures Valid()
      ensures r == if !luck.events then Failed(OutOfMemory)
                   else FillOutcome(id, names, options, luck.papi, ResolutionBy(lookup))
      ensures r.Id? ==>
        && Collect(names, ResolutionBy(lookup)).Complete?
        && View() == old(View())[id := Some(FreshSet(Collect(names, ResolutionBy(lookup)).registry, data[..]))]
        && slots[id].data == data && dataBlocks == old(dataBlocks)[data := OwnedBy(id)]
        && slots[id].events != null && fresh(slots[id].events)
        && eventBlocks == old(eventBlocks)[slots[id].events := OwnedBy(id)]
      ensures r.Failed? ==> View() == old(View())
      ensures r.Failed? && r.error != ComponentsDiffer ==>
        dataBlocks == old(dataBlocks) - {data} && eventBlocks == old(eventBlocks)
      ensures r == Failed(ComponentsDiffer) ==>
        dataBlocks == old(dataBlocks) && exists e :: LeaksOne(old(eventBlocks), eventBlocks, e) && fresh(e)
    {
      if !luck.events {
        GiveUpData(data);
        return Failed(OutOfMemory);
      }
      var usedEvents := AllocateEvents(|names|);
      NewBlock(old(eventBlocks), usedEvents, OwnedBy(id));
      r := ConfigureSlot(id, data, usedEvents, names, options, luck.papi);
      assert r == Failed(ComponentsDiffer) ==> LeaksOne(old(eventBlocks), eventBlocks, usedEvents);
    }

    // The rest of the creation, with both blocks allocated.
    method ConfigureSlot(id: nat, data: array<Snapshot>, usedEvents: array<EventInfo>, names: seq<string>,
                         options: seq<int>, papi: nat -> int)
      returns (r: Created)
      requires Valid() && id < |slots| && !slots[id].valid
      requires data in dataBlocks && dataBlocks[data].Unowned? && 2 <= data.Length < NOT_FOUND && data.Length % 2 == 0
      requires usedEvents in eventBlocks && eventBlocks[usedEvents].Unowned? && usedEvents.Length == |names|
      modifies this`slots, this`logs, this`dataBlocks, this`eventBlocks, usedEvents
      ensures Valid()
      ensures r == FillOutcome(id, names, options, papi, ResolutionBy(lookup))
      ensures r.Id? ==>
        && Collect(names, ResolutionBy(lookup)).Complete?
        && View() == old(View())[id := Some(FreshSet(Collect(names, ResolutionBy(lookup)).registry, data[..]))]
        && slots[id].data == data && dataBlocks == old(dataBlocks)[data := OwnedBy(id)]
        && slots[id].events == usedEvents && eventBlocks == old(eventBlocks)[usedEvents := OwnedBy(id)]
      ensures r.Failed? ==> View() == old(View())
      ensures r.Failed? && r.error != ComponentsDiffer ==>
        dataBlocks == old(dataBlocks) - {data} && eventBlocks == old(eventBlocks) - {usedEvents}
      ensures r == Failed(ComponentsDiffer) ==> dataBlocks == old(dataBlocks) && eventBlocks == old(eventBlocks)
    {
      var reg, failure := Configure(names, options, papi, id);
      if failure.Failed? {
        if failure.error != ComponentsDiffer {
          GiveUpBoth(data, usedEvents);
        }
        return failure;
      }
      PublishFilled(id, reg, data, usedEvents);
      return Id(id);
    }

    // Writes the event descriptions and makes the slot valid.
    method PublishFilled(id: nat, reg: Registry, data: array<Snapshot>, usedEvents: array<EventInfo>)
      requires Valid() && id < |slots| && !slots[id].valid && |reg.ids| <= MAX_PAPI_EVENTS
      requires data in dataBlocks && dataBlocks[data].Unowned? && 2 <= data.Length < NOT_FOUND && data.Length % 2 == 0
      requires usedEvents in eventBlocks && eventBlocks[usedEvents].Unowned? && usedEvents.Length == |reg.events|
      modifies this`slots, this`logs, this`dataBlocks, this`eventBlocks, usedEvents
      ensures Valid()
      ensures View() == old(View())[id := Some(FreshSet(reg, data[..]))]
      ensures slots[id].data == data && dataBlocks == old(dataBlocks)[data := OwnedBy(id)]
      ensures slots[id].events == usedEvents && eventBlocks == old(eventBlocks)[usedEvents := OwnedBy(id)]
    {
      FillEvents(reg.events, usedEvents);
      Publish(id, reg, data, usedEvents);
    }

    // The event loop and the PAPI calls. Every exit but the one for different components frees both blocks.
    method Configure(names: seq<string>, options: seq<int>, papi: nat -> int, ghost id: nat)
      returns (reg: Registry, failure: Created)
      ensures failure == FillOutcome(id, names, options, papi, ResolutionBy(lookup)) || !failure.Failed?
      ensures !failure.Failed? ==> FillOutcome(id, names, options, papi, ResolutionBy(lookup)) == Id(id)
                                   && Collect(names, ResolutionBy(lookup)) == Complete(reg)
    {
      reg, failure := EMPTY, Id(0);
      var outcome := RegisterEvents(names, lookup);
      if outcome.UnknownEvent? {
        failure := Failed(Unrecognized);
      } else if outcome.MixedComponents? {
        failure := Failed(ComponentsDiffer);
      } else {
        reg := outcome.registry;
        if Uses(reg.mask, PAPI) {
          var ok := SetUpPapi(options, reg.ids, papi);
          if !ok {
            failure := Failed(PapiFailed);
          }
        }
      }
    }

    // Writes the event descriptions into their block, which no slot owns yet.
    method FillEvents(descriptions: seq<EventInfo>, block: array<EventInfo>)
      requires Valid() && block.Length == |descriptions| && block in eventBlocks && eventBlocks[block].Unowned?
      modifies block
      ensures Valid() && View() == old(View()) && block[..] == descriptions
    {
      for i := 0 to |descriptions|
        invariant block[..i] == descriptions[..i]
      {
        block[i] := descriptions[i];
      }
      UnownedFilled();
    }

    twostate lemma UnownedFilled()
      requires old(Valid()) && slots == old(slots) && logs == old(logs)
      requires dataBlocks == old(dataBlocks) && eventBlocks == old(eventBlocks)
      requires forall b :: b in dataBlocks ==> unchanged(b)
      requires forall b :: b in eventBlocks && eventBlocks[b].OwnedBy? ==> unchanged(b)
      ensures Valid() && View() == old(View())
    {
      assert forall i :: IsValidId(i) <==> old(IsValidId(i));
      assert Ownership();
      forall i | IsValidId(i) ensures SetAt(i) == old(SetAt(i)) {
        assert old(IsValidId(i));
      }
    }

    // createEventSet
    method Create(measurements: int, names: seq<string>, options: seq<int>, luck: Luck) returns (r: Created)
      requires Valid() && -0x4000_0000 <= measurements < 0x4000_0000
      modifies this`slots, this`logs, this`dataBlocks, this`eventBlocks
      ensures Valid()
      ensures r == CreateOutcome(old(View()), measurements, names, options, luck, ResolutionBy(lookup))
      ensures TableStep(old(View()), View())
      ensures r.Id? ==>
        && Collect(names, ResolutionBy(lookup)).Complete?
        && r.id == FirstFree(old(View()))
        && View() == Place(old(View()), r.id, Some(NewSet(measurements, Collect(names, ResolutionBy(lookup)).registry)))
        && IsNew(View()[r.id].value, measurements, names, lookup)
        && slots[r.id].data != null && fresh(slots[r.id].data)
        && dataBlocks == old(dataBlocks)[slots[r.id].data := OwnedBy(r.id)]
        && slots[r.id].events != null && fresh(slots[r.id].events)
        && eventBlocks == old(eventBlocks)[slots[r.id].events := OwnedBy(r.id)]
      ensures r.Failed? ==> View() == old(View()) || View() == Place(old(View()), FirstFree(old(View())), None)
      ensures r.Failed? && r.error != ComponentsDiffer ==>
        dataBlocks == old(dataBlocks) && eventBlocks == old(eventBlocks)
      ensures r == Failed(ComponentsDiffer) ==>
        && (exists d :: LeaksOne(old(dataBlocks), dataBlocks, d) && fresh(d))
        && (exists e :: LeaksOne(old(eventBlocks), eventBlocks, e) && fresh(e))
      // A first failing name that is unknown is reported as such and costs no memory; one whose component differs is
      // reported as that.
      ensures measurements > 0 && Granted(old(View()), luck) && UnknownFirst(names, ResolutionBy(lookup)) ==>
        r == Failed(Unrecognized) && dataBlocks == old(dataBlocks) && eventBlocks == old(eventBlocks)
      ensures measurements > 0 && Granted(old(View()), luck) && MixedFirst(names, ResolutionBy(lookup)) ==>
        r == Failed(ComponentsDiffer)
    {
      var jmeasurements := measurements * 2;
      if jmeasurements <= 0 {
        return Failed(NotPositive);
      }
      if |names| == 0 {
        return Failed(NoEvents);
      }
      r := ClaimAndFill(measurements, jmeasurements, names, options, luck);
      OutcomeOfCreate(old(View()), measurements, names, options, luck, lookup);
      if r.Id? {
        NewSetIsNew(measurements, names, lookup);
      }
    }

    // The rest of the creation, with checked arguments.
    method ClaimAndFill(ghost measurements: nat, jmeasurements: nat, names: seq<string>, options: seq<int>, luck: Luck)
      returns (r: Created)
      requires Valid() && jmeasurements == measurements * 2 && 2 <= jmeasurements < 0x8000_0000 && names != []
      modifies this`slots, this`logs, this`dataBlocks, this`eventBlocks
      ensures Valid()
      ensures r == CreateOutcome(old(View()), measurements, names, options, luck, ResolutionBy(lookup))
      ensures r.Id? ==>
        && Collect(names, ResolutionBy(lookup)).Complete?
        && r.id == FirstFree(old(View()))
        && View() == Place(old(View()), r.id, Some(NewSet(measurements, Collect(names, ResolutionBy(lookup)).registry)))
        && slots[r.id].data != null && fresh(slots[r.id].data)
        && dataBlocks == old(dataBlocks)[slots[r.id].data := OwnedBy(r.id)]
        && slots[r.id].events != null && fresh(slots[r.id].events)
        && eventBlocks == old(eventBlocks)[slots[r.id].events := OwnedBy(r.id)]
      ensures r.Failed? ==> View() == old(View()) || View() == Place(old(View()), FirstFree(old(View())), None)
      ensures r.Failed? && r.error != ComponentsDiffer ==>
        dataBlocks == old(dataBlocks) && eventBlocks == old(eventBlocks)
      ensures r == Failed(ComponentsDiffer) ==>
        && (exists d :: LeaksOne(old(dataBlocks), dataBlocks, d) && fresh(d))
        && (exists e :: LeaksOne(old(eventBlocks), eventBlocks, e) && fresh(e))
    {
      var claimed := ClaimSlot(luck.table);
      if claimed.None? {
        return Failed(OutOfMemory);
      }
      r := FillSlot(claimed.value, measurements, jmeasurements, names, options, luck);
      if r.Id? {
        PlaceTwice(old(View()), r.id, Some(NewSet(measurements, Collect(names, ResolutionBy(lookup)).registry)));
      }
    }

    // ---------- results ----------

    method GetResults(id: int) returns (r: Option<BenchmarkResultsImpl>)
      requires Valid()
      ensures r.Some? <==> IsLive(View(), id)
      ensures r.Some? ==>
        && fresh(r.value) && r.value.events == EventNames(SetAt(id).events)
        && r.value.Rows() == EventSets.Results(SetAt(id))
    {
      if id < 0 || id >= |slots| || !slots[id].valid {
        return None;
      }
      var names := NamesOf(slots[id].events);
      var results := new BenchmarkResultsImpl(names);
      CollectRows(slots[id].events, slots[id].data, slots[id].index, results);
      return Some(results);
    }

    method GetRawResults(id: int) returns (r: Option<BenchmarkResultsImpl>)
      requires Valid()
      ensures r.Some? <==> IsLive(View(), id)
      ensures r.Some? ==>
        && fresh(r.value) && r.value.events == EventNames(SetAt(id).events) + ["TYPE"]
        && r.value.Rows() == RawResults(SetAt(id))
    {
      if id < 0 || id >= |slots| || !slots[id].valid {
        return None;
      }
      var names := NamesOf(slots[id].events);
      var results := new BenchmarkResultsImpl(names + ["TYPE"]);
      CollectRawRows(slots[id].events, slots[id].data, slots[id].index, results);
      assert slots[id].data[..slots[id].index] == SetAt(id).data[..SetAt(id).index];
      return Some(results);
    }
  }

  method NamesOf(events: array<EventInfo>) returns (names: seq<string>)
    ensures names == EventNames(events[..])
  {
    names := [];
    for i := 0 to events.Length
      invariant names == EventNames(events[..])[..i]
    {
      names := names + [events[i].name];
    }
  }

  // Fills the shared array of values for one pair of snapshots.
  method FillRow(events: array<EventInfo>, start: Snapshot, end: Snapshot, values: array<int>)
    requires values.Length == events.Length
    modifies values
    ensures values[..] == Row(events[..], start, end)
  {
    for ei := 0 to events.Length
      invariant values[..ei] == Row(events[..], start, end)[..ei]
    {
      values[ei] := Get(events[ei], start, end);
    }
  }

  // Where the next pair and its row are.
  lemma OneRowMore(events: seq<EventInfo>, live: seq<Snapshot>, k: nat)
    requires k < |Pairs(Kinds(live))|
    ensures var pairs, all := Pairs(Kinds(live)), Rows(events, live);
            && pairs[k..][0] == pairs[k] && pairs[k..][1..] == pairs[k + 1..]
            && all[..k + 1] == all[..k] + [Row(events, live[pairs[k].0], live[pairs[k].1])]
  {
  }

  // The loop of getResults. One array of values is refilled for every row; the results keep copies.
  method CollectRows(events: array<EventInfo>, snapshots: array<Snapshot>, iMax: nat, results: BenchmarkResultsImpl)
    requires iMax <= snapshots.Length < NOT_FOUND && results.data == []
    modifies results`data
    ensures results.Rows() == Rows(events[..], snapshots[..iMax])
  {
    var values := new int[events.Length];
    ghost var live, all := snapshots[..iMax], Rows(events[..], snapshots[..iMax]);
    ghost var pairs := Pairs(Kinds(live));
    var i := 0;
    while i < iMax
      invariant i <= iMax && values !in results.data
      invariant |results.data| <= |pairs| && pairs[|results.data|..] == Scan(Kinds(live), i, None)
      invariant results.Rows() == all[..|results.data|]
    {
      ghost var k := |results.data|;
      var next := CollectNext(events, snapshots, i, iMax, values, results);
      if next.None? {
        break;
      }
      i := next.value;
      OneRowMore(events[..], live, k);
    }
  }

  // The body of that loop: the next pair becomes a row. None when there is no further pair.
  method CollectNext(events: array<EventInfo>, snapshots: array<Snapshot>, i: nat, iMax: nat, values: array<int>,
                     results: BenchmarkResultsImpl)
    returns (next: Option<nat>)
    requires i < iMax <= snapshots.Length < NOT_FOUND && values.Length == events.Length
    requires values !in results.data && values as object != events as object && values as object != snapshots as object
    modifies results`data, values
    ensures values !in results.data
    ensures var left := Scan(Kinds(snapshots[..iMax]), i, None);
            match next
            case None => left == [] && results.data == old(results.data) && results.Rows() == old(results.Rows())
            case Some(n) =>
              && i < n <= iMax && left != [] && left[1..] == Scan(Kinds(snapshots[..iMax]), n, None)
              && left[0].0 < iMax && left[0].1 < iMax
              && |results.data| == |old(results.data)| + 1
              && results.Rows() == old(results.Rows()) + [Row(events[..], snapshots[left[0].0], snapshots[left[0].1])]
  {
    var startIndex, endIndex := NextPair(snapshots, i, iMax);
    if endIndex == NOT_FOUND {
      return None;
    }
    FillRow(events, snapshots[startIndex], snapshots[endIndex], values);
    results.AddDataRow(values);
    return Some(endIndex + 1);
  }

  // The loop of getRawResults: every snapshot is a row, its type the last value.
  method CollectRawRows(events: array<EventInfo>, snapshots: array<Snapshot>, iMax: nat, results: BenchmarkResultsImpl)
    requires iMax <= snapshots.Length && results.data == []
    modifies results`data
    ensures results.Rows() == RawRows(events[..], snapshots[..iMax])
  {
    var values := new int[events.Length + 1];
    ghost var all := RawRows(events[..], snapshots[..iMax]);
    for i := 0 to iMax
      invariant values !in results.data && |results.data| == i
      invariant results.Rows() == all[..i]
    {
      AddRawRow(events, snapshots[i], values, results);
      assert all[..i + 1] == all[..i] + [all[i]];
    }
  }

  // The body of that loop.
  method AddRawRow(events: array<EventInfo>, x: Snapshot, values: array<int>, results: BenchmarkResultsImpl)
    requires values.Length == events.Length + 1 && values !in results.data
    modifies results`data, values
    ensures values !in results.data && |results.data| == |old(results.data)| + 1
    ensures results.Rows() == old(results.Rows()) + [RawRow(events[..], x)]
  {
    FillRawRow(events, x, values);
    results.AddDataRow(values);
  }

  method FillRawRow(events: array<EventInfo>, x: Snapshot, values: array<int>)
    requires values.Length == events.Length + 1
    modifies values
    ensures values[..] == RawRow(events[..], x)
  {
    for ei := 0 to events.Length
      invariant values[..ei] == RawRow(events[..], x)[..ei]
    {
      values[ei] := GetRaw(events[ei], x);
    }
    values[events.Length] := x.kind;
  }
}
