/**
 The event loop of createEventSet (src/c/measurement.c): resolving names, collecting the backend mask,
 de-duplicating PAPI event ids and comparing PAPI components.
 */
module Registration {
  import opened Common
  import opened Snapshots
  import opened Events

  datatype Registry = Registry(mask: Mask, events: seq<EventInfo>, ids: seq<int>, component: int)

  const EMPTY: Registry := Registry(0, [], [], 0)

  // The first position of id, or the length.
  function IndexOf(ids: seq<int>, id: int): (r: nat)
    ensures r <= |ids| && id !in ids[..r]
    ensures r < |ids| ==> ids[r] == id
    ensures r < |ids| <==> id in ids
  {
    if ids == [] || ids[0] == id then 0 else 1 + IndexOf(ids[1..], id)
  }

  // The PAPI ids after `id` has joined: an id beyond the first MAX_PAPI_EVENTS distinct ones is not recorded.
  function Recorded(ids: seq<int>, id: int): (r: seq<int>)
    requires |ids| <= MAX_PAPI_EVENTS
    ensures |r| <= MAX_PAPI_EVENTS
  {
    if id in ids || |ids| == MAX_PAPI_EVENTS then ids else ids + [id]
  }

  // The papi_index that the event gets; an event whose id is not recorded keeps the one it has.
  function IndexFor(ids: seq<int>, info: EventInfo): PapiIndex
    requires |ids| <= MAX_PAPI_EVENTS
  {
    if info.id in ids || |ids| < MAX_PAPI_EVENTS then IndexOf(ids, info.id) else info.papiIndex
  }

  // One event joins the set; None is the exit for different PAPI components.
  function AddEvent(reg: Registry, info: EventInfo): Option<Registry>
    requires |reg.ids| <= MAX_PAPI_EVENTS
  {
    if info.backend != PAPI then
      Some(reg.(mask := reg.mask | info.backend, events := reg.events + [info]))
    else if |Recorded(reg.ids, info.id)| > 1 && reg.component != info.component then None
    else Some(Registry(reg.mask | info.backend, reg.events + [info.(papiIndex := IndexFor(reg.ids, info))],
                       Recorded(reg.ids, info.id), info.component))
  }

  // The resolution of names, as a value: what the rest of this module knows of the event table.
  type Resolution = string -> Option<EventInfo>

  function ResolutionBy(lookup: PapiLookup): Resolution {
    name => Resolve(name, lookup, BLANK)
  }

  datatype Collected = Complete(registry: Registry) | UnknownEvent | MixedComponents

  // The outcome of the event loop: the first event that cannot be resolved or added ends it.
  function Collect(names: seq<string>, resolve: Resolution): (c: Collected)
    ensures c.Complete? ==> |c.registry.ids| <= MAX_PAPI_EVENTS && |c.registry.events| == |names|
  {
    if names == [] then Complete(EMPTY)
    else
      var n := |names| - 1;
      match Collect(names[..n], resolve)
      case Complete(reg) => CollectOne(reg, resolve(names[n]))
      case failed => failed
  }

  function CollectOne(reg: Registry, found: Option<EventInfo>): (c: Collected)
    requires |reg.ids| <= MAX_PAPI_EVENTS
    ensures c.Complete? ==> |c.registry.ids| <= MAX_PAPI_EVENTS && |c.registry.events| == |reg.events| + 1
  {
    match found
    case None => UnknownEvent
    case Some(info) => if AddEvent(reg, info).Some? then Complete(AddEvent(reg, info).value) else MixedComponents
  }

  // A loop that stops at the first failure has the outcome of the whole list.
  lemma {:induction false} FailureIsFinal(names: seq<string>, k: nat, resolve: Resolution)
    requires k <= |names| && !Collect(names[..k], resolve).Complete?
    ensures Collect(names, resolve) == Collect(names[..k], resolve)
  {
    if k < |names| {
      var n := |names| - 1;
      assert names[..n][..k] == names[..k];
      FailureIsFinal(names[..n], k, resolve);
    } else {
      assert names[..k] == names;
    }
  }

  lemma CollectStep(names: seq<string>, i: nat, resolve: Resolution)
    requires i < |names| && Collect(names[..i], resolve).Complete?
    ensures Collect(names[..i + 1], resolve) == CollectOne(Collect(names[..i], resolve).registry, resolve(names[i]))
    ensures !Collect(names[..i + 1], resolve).Complete? ==> Collect(names, resolve) == Collect(names[..i + 1], resolve)
  {
    assert names[..i + 1][..i] == names[..i];
    if !Collect(names[..i + 1], resolve).Complete? {
      FailureIsFinal(names, i + 1, resolve);
    }
  }

  // The loop of createEventSet over the event names.
  method RegisterEvents(names: seq<string>, lookup: PapiLookup) returns (outcome: Collected)
    ensures outcome == Collect(names, ResolutionBy(lookup))
  {
    var reg := EMPTY;
    ghost var resolve := ResolutionBy(lookup);
    for i := 0 to |names|
      invariant Collect(names[..i], resolve) == Complete(reg)
    {
      CollectStep(names, i, resolve);
      var ok, info := ResolveEvent(KNOWN_EVENTS, names[i], lookup, BLANK);
      assert resolve(names[i]) == if ok then Some(info) else None;
      if !ok {
        return UnknownEvent;
      }
      var added := RegisterOne(reg, info);
      if added.None? {
        return MixedComponents;
      }
      reg := added.value;
    }
    assert names[..|names|] == names;
    return Complete(reg);
  }

  // The body of that loop for a resolved event.
  method RegisterOne(reg: Registry, resolved: EventInfo) returns (r: Option<Registry>)
    requires |reg.ids| <= MAX_PAPI_EVENTS
    ensures r == AddEvent(reg, resolved)
  {
    if resolved.backend != PAPI {
      return Some(reg.(mask := reg.mask | resolved.backend, events := reg.events + [resolved]));
    }
    var info, ids := RegisterPapi(reg.ids, resolved);
    if |ids| > 1 && reg.component != info.component {
      return None;
    }
    return Some(Registry(reg.mask | resolved.backend, reg.events + [info], ids, info.component));
  }

  // De-duplication of PAPI ids.
  method RegisterPapi(registered: seq<int>, resolved: EventInfo) returns (info: EventInfo, ids: seq<int>)
    requires |registered| <= MAX_PAPI_EVENTS
    ensures ids == Recorded(registered, resolved.id)
    ensures info == resolved.(papiIndex := IndexFor(registered, resolved))
  {
    info, ids := resolved, registered;
    var alreadyRegistered, j := FindRegistered(ids, info.id);
    if alreadyRegistered {
      info := info.(papiIndex := j);
    } else if |ids| < MAX_PAPI_EVENTS {
      info := info.(papiIndex := |ids|);
      ids := ids + [info.id];
    }
  }

  // The inner loop: is the PAPI id already there?
  method FindRegistered(ids: seq<int>, id: int) returns (alreadyRegistered: bool, j: nat)
    ensures j == IndexOf(ids, id) && (alreadyRegistered <==> j < |ids|)
  {
    alreadyRegistered := false;
    j := 0;
    while j < |ids|
      invariant 0 <= j <= |ids|
      invariant id !in ids[..j]
    {
      if ids[j] == id {
        alreadyRegistered := true;
        break;
      }
      j := j + 1;
    }
    IndexOfIs(ids, id, j);
  }

  lemma {:induction false} IndexOfIs(ids: seq<int>, id: int, j: nat)
    requires j <= |ids| && id !in ids[..j] && (j < |ids| ==> ids[j] == id)
    ensures IndexOf(ids, id) == j
  {
    if j > 0 {
      assert ids[0] == ids[..j][0] && ids[1..][..j - 1] == ids[..j][1..];
      IndexOfIs(ids[1..], id, j - 1);
    }
  }

  // ---------- what a successful registration guarantees ----------

  function PapiIds(events: seq<EventInfo>): seq<int> {
    if events == [] then []
    else
      var n := |events| - 1;
      PapiIds(events[..n]) + if events[n].backend == PAPI then [events[n].id] else []
  }

  // The values of xs in the order of their first occurrence.
  function FirstOccurrences(xs: seq<int>): (r: seq<int>)
    ensures forall x :: x in r <==> x in xs
    ensures forall i, j :: 0 <= i < j < |r| ==> r[i] != r[j]
  {
    if xs == [] then []
    else
      var n := |xs| - 1;
      var front := FirstOccurrences(xs[..n]);
      assert forall x :: x in xs <==> x in xs[..n] || x == xs[n];
      if xs[n] in front then front else front + [xs[n]]
  }

  lemma IndexInPrefix(xs: seq<int>, n: nat, x: int)
    requires n <= |xs| && x in xs[..n]
    ensures IndexOf(xs, x) == IndexOf(xs[..n], x) < n
  {
    var k := IndexOf(xs[..n], x);
    assert xs[..n][..k] == xs[..k];
    IndexOfIs(xs, x, k);
  }

  ghost predicate InOrder(xs: seq<int>, r: seq<int>) {
    forall i, j :: 0 <= i < j < |r| ==> IndexOf(xs, r[i]) < IndexOf(xs, r[j]) < |xs|
  }

  lemma {:induction false} FirstOccurrencesInOrder(xs: seq<int>)
    ensures InOrder(xs, FirstOccurrences(xs))
  {
    if xs != [] {
      var n := |xs| - 1;
      var front, r := FirstOccurrences(xs[..n]), FirstOccurrences(xs);
      FirstOccurrencesInOrder(xs[..n]);
      forall i, j | 0 <= i < j < |r| ensures IndexOf(xs, r[i]) < IndexOf(xs, r[j]) < |xs| {
        assert r[i] == front[i] && front[i] in front;
        IndexInPrefix(xs, n, r[i]);
        if j < |front| {
          assert r[j] == front[j] && front[j] in front;
          IndexInPrefix(xs, n, r[j]);
        } else {
          assert r == front + [xs[n]] && r[j] == xs[n] && xs[n] !in front;
          IndexOfIs(xs, xs[n], n);
        }
      }
    }
  }

  predicate IsBackend(b: Mask) {
    b == RESOURCE_USAGE || b == PAPI || b == WALLCLOCK || b == COMPILATIONS || b == THREADTIME
  }

  lemma BitsOfUnion(mask: Mask, x: Mask, b: Mask)
    requires IsBackend(x) && IsBackend(b)
    ensures Uses(mask | x, b) <==> Uses(mask, b) || x == b
  {
    assert (mask | x) & b == (mask & b) | (x & b);
    assert x & b == if x == b then b else 0;
    UnionIsZeroIff(mask & b, x & b);
  }

  lemma UnionIsZeroIff(a: Mask, b: Mask)
    ensures a | b == 0 <==> a == 0 && b == 0
  {
  }

  ghost predicate HasBackend(events: seq<EventInfo>, b: Mask) {
    exists e :: 0 <= e < |events| && events[e].backend == b
  }

  lemma HasBackendAppend(events: seq<EventInfo>, x: EventInfo, b: Mask)
    ensures HasBackend(events + [x], b) <==> HasBackend(events, b) || x.backend == b
  {
    if HasBackend(events, b) {
      var e :| 0 <= e < |events| && events[e].backend == b;
      assert (events + [x])[e].backend == b;
    }
    if x.backend == b {
      assert (events + [x])[|events|].backend == b;
    }
  }

  // used_backends has a backend's bit exactly when some used event has that backend.
  ghost predicate MaskIsExact(mask: Mask, events: seq<EventInfo>) {
    forall b :: IsBackend(b) ==> (Uses(mask, b) <==> HasBackend(events, b))
  }

  ghost predicate Registered(reg: Registry) {
    && MaskIsExact(reg.mask, reg.events)
    && reg.ids == RecordedIds(reg.events)
    && AllPaired(reg.events)
    && IndicesOk(reg.events, reg.ids)
  }

  ghost predicate AllPaired(events: seq<EventInfo>) {
    forall e :: 0 <= e < |events| ==> WellPaired(events[e])
  }

  // The distinct PAPI ids of the events in order of first occurrence, at most MAX_PAPI_EVENTS of them.
  function RecordedIds(events: seq<EventInfo>): seq<int> {
    var all := FirstOccurrences(PapiIds(events));
    all[..Min(MAX_PAPI_EVENTS, |all|)]
  }

  lemma AddedMask(mask: Mask, events: seq<EventInfo>, x: EventInfo)
    requires MaskIsExact(mask, events) && IsBackend(x.backend)
    ensures MaskIsExact(mask | x.backend, events + [x])
  {
    forall b | IsBackend(b) ensures Uses(mask | x.backend, b) <==> HasBackend(events + [x], b) {
      BitsOfUnion(mask, x.backend, b);
      HasBackendAppend(events, x, b);
    }
  }

  lemma PairedBackend(info: EventInfo)
    requires WellPaired(info)
    ensures IsBackend(info.backend)
  {
  }

  // Every PAPI event has an index among the recorded ids, the index of its id if that is recorded.
  ghost predicate IndicesOk(events: seq<EventInfo>, ids: seq<int>) {
    forall e :: 0 <= e < |events| && events[e].backend == PAPI ==> IndexOk(events[e], ids)
  }

  ghost predicate IndexOk(info: EventInfo, ids: seq<int>) {
    info.papiIndex < |ids| && (info.id in ids ==> ids[info.papiIndex] == info.id)
  }

  lemma AddedEvent(reg: Registry, info: EventInfo, reg': Registry) returns (last: EventInfo)
    requires |reg.ids| <= MAX_PAPI_EVENTS && WellPaired(info) && AddEvent(reg, info) == Some(reg')
    ensures reg'.events == reg.events + [last] && reg'.mask == reg.mask | last.backend
    ensures last == info.(papiIndex := last.papiIndex) && WellPaired(last)
  {
    last := reg'.events[|reg.events|];
  }

  lemma AddKeepsRegistered(reg: Registry, info: EventInfo, reg': Registry)
    requires |reg.ids| <= MAX_PAPI_EVENTS && Registered(reg)
    requires WellPaired(info) && info.papiIndex == 0
    requires AddEvent(reg, info) == Some(reg')
    ensures Registered(reg')
  {
    AddedIndices(reg, info, reg');
    var last := AddedEvent(reg, info, reg');
    PairedBackend(last);
    AddedMask(reg.mask, reg.events, last);
    AddedIds(reg, info, reg');
    AddedPaired(reg.events, last);
  }

  lemma AddedPaired(events: seq<EventInfo>, last: EventInfo)
    requires AllPaired(events) && WellPaired(last)
    ensures AllPaired(events + [last])
  {
  }

  lemma AddedIndices(reg: Registry, info: EventInfo, reg': Registry)
    requires |reg.ids| <= MAX_PAPI_EVENTS && Registered(reg)
    requires info.papiIndex == 0 && AddEvent(reg, info) == Some(reg')
    ensures IndicesOk(reg'.events, reg'.ids)
  {
    var n := |reg.events|;
    forall e | 0 <= e < |reg'.events| && reg'.events[e].backend == PAPI ensures IndexOk(reg'.events[e], reg'.ids) {
      if e < n {
        InPapiIds(reg.events, e);
        assert IndexOk(reg.events[e], reg.ids);
      }
    }
  }

  lemma AddedIds(reg: Registry, info: EventInfo, reg': Registry)
    requires |reg.ids| <= MAX_PAPI_EVENTS && Registered(reg)
    requires AddEvent(reg, info) == Some(reg')
    requires reg'.events == reg.events + [reg'.events[|reg.events|]]
    ensures reg'.ids == RecordedIds(reg'.events)
  {
    var xs := PapiIds(reg.events);
    var all := FirstOccurrences(xs);
    assert reg'.events[..|reg.events|] == reg.events;
    if info.backend == PAPI {
      var xs' := PapiIds(reg'.events);
      assert xs' == xs + [info.id];
      assert xs'[..|xs|] == xs;
      var all' := FirstOccurrences(xs');
      if info.id in all {
        assert all' == all;
      } else {
        assert all' == all + [info.id];
      }
    } else {
      assert PapiIds(reg'.events) == xs;
    }
  }

  // All the resolved events together; None when a component differs.
  function AddAll(infos: seq<EventInfo>): (r: Option<Registry>)
    ensures r.Some? ==> |r.value.ids| <= MAX_PAPI_EVENTS && |r.value.events| == |infos|
  {
    if infos == [] then Some(EMPTY)
    else
      var n := |infos| - 1;
      match AddAll(infos[..n])
      case None => None
      case Some(reg) => AddEvent(reg, infos[n])
  }

  // Freshly resolved descriptions.
  ghost predicate Fresh(infos: seq<EventInfo>) {
    forall k :: 0 <= k < |infos| ==> WellPaired(infos[k]) && infos[k].papiIndex == 0
  }

  // Every successful registration: exact mask, first-occurrence list of PAPI ids, in-range PAPI indices, and
  // the events themselves in order with only their papi_index changed.
  lemma {:induction false} AddAllIsRegistered(infos: seq<EventInfo>)
    requires Fresh(infos) && AddAll(infos).Some?
    ensures Registered(AddAll(infos).value)
    ensures forall k :: 0 <= k < |infos| ==> AddAll(infos).value.events[k].(papiIndex := 0) == infos[k]
  {
    if infos != [] {
      var n := |infos| - 1;
      AddAllIsRegistered(infos[..n]);
      AddKeepsRegistered(AddAll(infos[..n]).value, infos[n], AddAll(infos).value);
    }
  }

  // Every PAPI event finds its own id at its papi_index.
  ghost predicate IndicesRight(reg: Registry) {
    forall e :: 0 <= e < |reg.events| && reg.events[e].backend == PAPI ==>
      reg.events[e].papiIndex < |reg.ids| && reg.ids[reg.events[e].papiIndex] == reg.events[e].id
  }

  // That holds exactly when the set has at most 20 distinct ids.
  lemma IndicesAreRightIff(reg: Registry)
    requires Registered(reg)
    ensures IndicesRight(reg) <==> |FirstOccurrences(PapiIds(reg.events))| <= MAX_PAPI_EVENTS
  {
    var all := FirstOccurrences(PapiIds(reg.events));
    if |all| <= MAX_PAPI_EVENTS {
      forall e | 0 <= e < |reg.events| && reg.events[e].backend == PAPI ensures reg.events[e].id in reg.ids {
        InPapiIds(reg.events, e);
      }
    } else {
      var id := all[MAX_PAPI_EVENTS];
      assert id !in reg.ids;
      var e := EventWithId(reg.events, id);
    }
  }

  lemma InPapiIds(events: seq<EventInfo>, e: nat)
    requires e < |events| && events[e].backend == PAPI
    ensures events[e].id in PapiIds(events)
  {
    var n := |events| - 1;
    if e < n { InPapiIds(events[..n], e); }
  }

  lemma EventWithId(events: seq<EventInfo>, id: int) returns (e: nat)
    requires id in PapiIds(events)
    ensures e < |events| && events[e].backend == PAPI && events[e].id == id
  {
    var n := |events| - 1;
    if events[n].backend == PAPI && events[n].id == id { e := n; } else { e := EventWithId(events[..n], id); }
  }

  ghost predicate BothPapi(infos: seq<EventInfo>, d: int, e: int) {
    0 <= d < |infos| && 0 <= e < |infos| && infos[d].backend == PAPI == infos[e].backend
  }

  // An id belongs to one component.
  ghost predicate IdDeterminesComponent(infos: seq<EventInfo>) {
    forall d, e :: BothPapi(infos, d, e) && infos[d].id == infos[e].id ==> infos[d].component == infos[e].component
  }

  ghost predicate OneComponent(infos: seq<EventInfo>) {
    forall d, e :: BothPapi(infos, d, e) ==> infos[d].component == infos[e].component
  }

  lemma ComponentsOfPrefix(infos: seq<EventInfo>)
    requires infos != []
    ensures OneComponent(infos) ==> OneComponent(infos[..|infos| - 1])
    ensures IdDeterminesComponent(infos) ==> IdDeterminesComponent(infos[..|infos| - 1])
    ensures infos[|infos| - 1].backend != PAPI ==> (OneComponent(infos) <==> OneComponent(infos[..|infos| - 1]))
  {
    var n := |infos| - 1;
    forall d: int, e: int | BothPapi(infos[..n], d, e) ensures BothPapi(infos, d, e) {}
    if infos[n].backend != PAPI {
      forall d: int, e: int | BothPapi(infos, d, e) ensures BothPapi(infos[..n], d, e) {}
    }
  }

  // The events can be put together exactly when all PAPI events share a component.
  lemma {:induction false} ComponentsAgreeIff(infos: seq<EventInfo>)
    requires Fresh(infos) && IdDeterminesComponent(infos)
    ensures AddAll(infos).Some? <==> OneComponent(infos)
    ensures AddAll(infos).Some? ==> ComponentIs(infos, AddAll(infos).value.component)
  {
    if infos != [] {
      var n := |infos| - 1;
      var before := infos[..n];
      ComponentsOfPrefix(infos);
      ComponentsAgreeIff(before);
      if AddAll(before).Some? {
        AddAllIsRegistered(before);
        OneMoreComponent(infos, AddAll(before).value, AddAll(infos));
      }
    }
  }

  ghost predicate ComponentIs(infos: seq<EventInfo>, component: int) {
    forall k :: 0 <= k < |infos| && infos[k].backend == PAPI ==> component == infos[k].component
  }

  lemma OneMoreComponent(infos: seq<EventInfo>, reg: Registry, after: Option<Registry>)
    requires infos != [] && IdDeterminesComponent(infos)
    requires |reg.ids| <= MAX_PAPI_EVENTS && |reg.events| == |infos| - 1 && Registered(reg)
    requires forall k :: 0 <= k < |reg.events| ==> reg.events[k].(papiIndex := 0) == infos[..|infos| - 1][k]
    requires ComponentIs(infos[..|infos| - 1], reg.component) && OneComponent(infos[..|infos| - 1])
    requires after == AddEvent(reg, infos[|infos| - 1])
    ensures after.Some? <==> OneComponent(infos)
    ensures after.Some? ==> ComponentIs(infos, after.value.component)
  {
    var n := |infos| - 1;
    ComponentsOfPrefix(infos);
    forall k | 0 <= k < n ensures infos[..n][k] == infos[k] {}
    if infos[n].backend == PAPI {
      LastComponent(infos, reg);
      if OneComponent(infos) {
        forall k | 0 <= k < n && infos[k].backend == PAPI ensures infos[n].component == infos[k].component {
          assert BothPapi(infos, k, n);
        }
      }
    }
  }

  // With PAPI events of one component c before it, the last event fits exactly when its component is c.
  lemma LastFitsIff(infos: seq<EventInfo>, k: nat, c: int)
    requires k < |infos| - 1 && BothPapi(infos, k, |infos| - 1)
    requires forall j :: 0 <= j < |infos| - 1 && infos[j].backend == PAPI ==> infos[j].component == c
    ensures OneComponent(infos) <==> infos[|infos| - 1].component == c
  {
    if infos[|infos| - 1].component == c {
      forall d, e | BothPapi(infos, d, e) ensures infos[d].component == c == infos[e].component {}
    }
  }

  lemma OnlyLast(infos: seq<EventInfo>)
    requires infos != [] && forall j :: 0 <= j < |infos| - 1 ==> infos[j].backend != PAPI
    ensures OneComponent(infos)
  {
    forall d, e | BothPapi(infos, d, e) ensures d == e == |infos| - 1 {}
  }

  // The check of the last event, a PAPI event. It is skipped only for the first id or its repetition.
  lemma LastComponent(infos: seq<EventInfo>, reg: Registry)
    requires infos != [] && infos[|infos| - 1].backend == PAPI && IdDeterminesComponent(infos)
    requires |reg.ids| <= MAX_PAPI_EVENTS && |reg.events| == |infos| - 1 && Registered(reg)
    requires forall k :: 0 <= k < |reg.events| ==> reg.events[k].(papiIndex := 0) == infos[k]
    requires forall k :: 0 <= k < |infos| - 1 && infos[k].backend == PAPI ==> reg.component == infos[k].component
    ensures AddEvent(reg, infos[|infos| - 1]).Some? <==> OneComponent(infos)
  {
    var n := |infos| - 1;
    if k :| 0 <= k < n && infos[k].backend == PAPI {
      SecondPapiEvent(infos, reg, k);
      LastFitsIff(infos, k, reg.component);
    } else {
      forall k | 0 <= k < n ensures infos[k].backend != PAPI && reg.events[k].backend != PAPI {
        assert reg.events[k].(papiIndex := 0) == infos[k];
      }
      NoPapiIds(reg.events);
      OnlyLast(infos);
    }
  }

  lemma SecondPapiEvent(infos: seq<EventInfo>, reg: Registry, k: nat)
    requires infos != [] && infos[|infos| - 1].backend == PAPI && IdDeterminesComponent(infos)
    requires |reg.ids| <= MAX_PAPI_EVENTS && Registered(reg) && |reg.events| == |infos| - 1
    requires k < |reg.events| && reg.events[k].(papiIndex := 0) == infos[k] && infos[k].backend == PAPI
    requires reg.component == infos[k].component
    ensures AddEvent(reg, infos[|infos| - 1]).Some? <==> reg.component == infos[|infos| - 1].component
  {
    var last := infos[|infos| - 1];
    InPapiIds(reg.events, k);
    var all := FirstOccurrences(PapiIds(reg.events));
    assert reg.events[k].id in all;
    if |all| == 1 && last.id == all[0] {
      assert infos[k].id == last.id;
      assert BothPapi(infos, k, |infos| - 1);
    }
  }

  lemma {:induction false} NoPapiIds(events: seq<EventInfo>)
    requires forall k :: 0 <= k < |events| ==> events[k].backend != PAPI
    ensures PapiIds(events) == []
  {
    if events != [] { NoPapiIds(events[..|events| - 1]); }
  }

  // The descriptions the names stand for, if all are known.
  function ResolveAll(names: seq<string>, resolve: Resolution): (r: Option<seq<EventInfo>>)
    ensures r.Some? <==> forall k :: 0 <= k < |names| ==> resolve(names[k]).Some?
    ensures r.Some? ==> |r.value| == |names| && forall k :: 0 <= k < |names| ==> resolve(names[k]) == Some(r.value[k])
  {
    if names == [] then Some([])
    else
      var n := |names| - 1;
      assert forall k :: 0 <= k < n ==> names[..n][k] == names[k];
      match ResolveAll(names[..n], resolve)
      case None => None
      case Some(infos) => if resolve(names[n]).Some? then Some(infos + [resolve(names[n]).value]) else None
  }

  // The loop is complete exactly when every name is known and the events can be put together.
  lemma {:induction false} CollectIs(names: seq<string>, resolve: Resolution)
    ensures var c, infos := Collect(names, resolve), ResolveAll(names, resolve);
            && (c.Complete? <==> infos.Some? && AddAll(infos.value).Some?)
            && (c.Complete? ==> AddAll(infos.value) == Some(c.registry))
            && (c.UnknownEvent? ==> infos.None?)
  {
    if names != [] {
      var n := |names| - 1;
      CollectIs(names[..n], resolve);
      var infos := ResolveAll(names, resolve);
      if infos.Some? {
        assert infos.value[..n] == ResolveAll(names[..n], resolve).value;
      }
    }
  }

  // Name k is unknown, and those before it are known and can be put together.
  ghost predicate UnknownAt(names: seq<string>, resolve: Resolution, k: nat) {
    && k < |names| && resolve(names[k]).None?
    && ResolveAll(names[..k], resolve).Some? && AddAll(ResolveAll(names[..k], resolve).value).Some?
  }

  // Names 0 to k are known; the first k can be put together and the first k + 1 cannot.
  ghost predicate MixedAt(names: seq<string>, resolve: Resolution, k: nat) {
    && k < |names| && ResolveAll(names[..k + 1], resolve).Some?
    && AddAll(ResolveAll(names[..k + 1], resolve).value[..k]).Some?
    && AddAll(ResolveAll(names[..k + 1], resolve).value).None?
  }

  lemma ResolveOneMore(names: seq<string>, resolve: Resolution, k: nat)
    requires k < |names|
    ensures ResolveAll(names[..k + 1], resolve).Some? <==>
              ResolveAll(names[..k], resolve).Some? && resolve(names[k]).Some?
    ensures ResolveAll(names[..k + 1], resolve).Some? ==>
              var infos := ResolveAll(names[..k + 1], resolve).value;
              infos[..k] == ResolveAll(names[..k], resolve).value && infos[k] == resolve(names[k]).value
  {
    assert names[..k + 1][..k] == names[..k];
  }

  // One more name: how the loop goes on from a registry.
  lemma CollectsOneMore(names: seq<string>, resolve: Resolution, k: nat)
    requires k < |names| && Collect(names[..k], resolve).Complete?
    ensures Collect(names[..k + 1], resolve).UnknownEvent? <==> UnknownAt(names, resolve, k)
    ensures Collect(names[..k + 1], resolve).MixedComponents? <==> MixedAt(names, resolve, k)
  {
    CollectIs(names[..k], resolve);
    CollectIs(names[..k + 1], resolve);
    ResolveOneMore(names, resolve, k);
    assert names[..k + 1][..k] == names[..k];
  }

  // Where the loop fails.
  lemma {:induction false} FailsAt(names: seq<string>, resolve: Resolution) returns (k: nat)
    requires !Collect(names, resolve).Complete?
    ensures k < |names| && Collect(names[..k], resolve).Complete?
    ensures Collect(names[..k + 1], resolve) == Collect(names, resolve)
  {
    var n := |names| - 1;
    assert names[..n + 1] == names;
    if Collect(names[..n], resolve).Complete? {
      k := n;
    } else {
      k := FailsAt(names[..n], resolve);
      assert names[..n][..k] == names[..k] && names[..n][..k + 1] == names[..k + 1];
      FailureIsFinal(names, n, resolve);
    }
  }

  // The first name at which the loop cannot go on is unknown.
  ghost predicate UnknownFirst(names: seq<string>, resolve: Resolution) {
    exists k: nat :: UnknownAt(names, resolve, k)
  }

  // It is known, but of another component than those before it.
  ghost predicate MixedFirst(names: seq<string>, resolve: Resolution) {
    exists k: nat :: MixedAt(names, resolve, k)
  }

  // The loop reports an unknown event exactly when one comes up before components differ, and differing components
  // exactly when they come up before an unknown event.
  lemma CollectFailsIff(names: seq<string>, resolve: Resolution)
    ensures Collect(names, resolve).UnknownEvent? <==> UnknownFirst(names, resolve)
    ensures Collect(names, resolve).MixedComponents? <==> MixedFirst(names, resolve)
  {
    if !Collect(names, resolve).Complete? {
      var k := FailsAt(names, resolve);
      CollectsOneMore(names, resolve, k);
    }
    forall k: nat | UnknownAt(names, resolve, k) || MixedAt(names, resolve, k)
      ensures UnknownAt(names, resolve, k) ==> Collect(names, resolve).UnknownEvent?
      ensures MixedAt(names, resolve, k) ==> Collect(names, resolve).MixedComponents?
    {
      ResolveOneMore(names, resolve, k);
      CollectIs(names[..k], resolve);
      CollectsOneMore(names, resolve, k);
      FailureIsFinal(names, k + 1, resolve);
    }
  }

  lemma ResolvedAreFresh(names: seq<string>, lookup: PapiLookup)
    requires ResolveAll(names, ResolutionBy(lookup)).Some?
    ensures Fresh(ResolveAll(names, ResolutionBy(lookup)).value)
  {
    forall k | 0 <= k < |names| ensures WellPaired(ResolveAll(names, ResolutionBy(lookup)).value[k]) &&
                                        ResolveAll(names, ResolutionBy(lookup)).value[k].papiIndex == 0 {
      assert ResolutionBy(lookup)(names[k]) == Resolve(names[k], lookup, BLANK);
      ResolvedIsWellPaired(names[k], lookup, BLANK);
    }
  }

  // What createEventSet knows when the loop is through.
  lemma CompleteIsRegistered(names: seq<string>, lookup: PapiLookup)
    requires Collect(names, ResolutionBy(lookup)).Complete?
    ensures Registered(Collect(names, ResolutionBy(lookup)).registry)
    ensures forall k :: 0 <= k < |names| ==>
              Some(Collect(names, ResolutionBy(lookup)).registry.events[k].(papiIndex := 0)) ==
                  ResolutionBy(lookup)(names[k])
  {
    CollectIs(names, ResolutionBy(lookup));
    ResolvedAreFresh(names, lookup);
    AddAllIsRegistered(ResolveAll(names, ResolutionBy(lookup)).value);
  }

  // ---------- many PAPI events ----------

  lemma {:induction false} AllPapiIds(events: seq<EventInfo>)
    requires forall e :: 0 <= e < |events| ==> events[e].backend == PAPI
    ensures |PapiIds(events)| == |events| && forall e :: 0 <= e < |events| ==> PapiIds(events)[e] == events[e].id
  {
    if events != [] { AllPapiIds(events[..|events| - 1]); }
  }

  lemma {:induction false} DistinctOccurOnce(xs: seq<int>)
    requires forall i, j :: 0 <= i < j < |xs| ==> xs[i] != xs[j]
    ensures FirstOccurrences(xs) == xs
  {
    if xs != [] { DistinctOccurOnce(xs[..|xs| - 1]); }
  }

  lemma PrefixedResolve(rests: seq<string>, lookup: PapiLookup)
    requires forall i :: 0 <= i < |rests| ==> lookup(rests[i]).Some?
    ensures var infos := ResolveAll(Prefixed(rests), ResolutionBy(lookup));
            && infos.Some? && Fresh(infos.value)
            && (forall i :: 0 <= i < |rests| ==>
                  && infos.value[i].backend == PAPI && infos.value[i].id == lookup(rests[i]).value.id
                  && infos.value[i].component == lookup(rests[i]).value.component)
  {
    var names, resolve := Prefixed(rests), ResolutionBy(lookup);
    forall i | 0 <= i < |rests|
      ensures resolve(names[i]) == Resolve(names[i], lookup, BLANK) && resolve(names[i]).Some?
    {
      PrefixedNameResolves(rests[i], lookup, BLANK);
    }
    ResolvedAreFresh(names, lookup);
    var infos := ResolveAll(names, resolve).value;
    forall i | 0 <= i < |rests|
      ensures infos[i].backend == PAPI && infos[i].id == lookup(rests[i]).value.id
      ensures infos[i].component == lookup(rests[i]).value.component
    {
      assert resolve(names[i]) == Some(infos[i]);
      PrefixedNameResolves(rests[i], lookup, BLANK);
    }
  }

  // Any number of different PAPI events of one component can be put together, and their columns show the right
  // counters exactly when there are at most 20 of them.
  lemma DifferentPapiEvents(rests: seq<string>, lookup: PapiLookup, component: int)
    requires forall i :: 0 <= i < |rests| ==> lookup(rests[i]).Some? && lookup(rests[i]).value.component == component
    requires forall i, j :: 0 <= i < j < |rests| ==> lookup(rests[i]).value.id != lookup(rests[j]).value.id
    ensures var c := Collect(Prefixed(rests), ResolutionBy(lookup));
            c.Complete? && (IndicesRight(c.registry) <==> |rests| <= MAX_PAPI_EVENTS)
  {
    var names, resolve := Prefixed(rests), ResolutionBy(lookup);
    PrefixedResolve(rests, lookup);
    var infos := ResolveAll(names, resolve).value;
    ComponentsAgreeIff(infos);
    CollectIs(names, resolve);
    CompleteIsRegistered(names, lookup);
    var reg := Collect(names, resolve).registry;
    AddAllIsRegistered(infos);
    forall i | 0 <= i < |rests| ensures reg.events[i].backend == PAPI && reg.events[i].id == lookup(rests[i]).value.id {
      assert reg.events[i].(papiIndex := 0) == infos[i];
    }
    AllPapiIds(reg.events);
    DistinctOccurOnce(PapiIds(reg.events));
    IndicesAreRightIff(reg);
  }

  function Letters(n: nat): (s: string)
    ensures |s| == n
  {
    if n == 0 then "" else "x" + Letters(n - 1)
  }

  // Twenty-one event names, one more than there is room for: the creation succeeds and an index is wrong.
  lemma TwentyOneEvents() returns (names: seq<string>, lookup: PapiLookup)
    ensures |names| == 21
    ensures var c := Collect(names, ResolutionBy(lookup)); c.Complete? && !IndicesRight(c.registry)
  {
    lookup := name => Some(PapiCode(|name|, 0));
    var rests := seq(MAX_PAPI_EVENTS + 1, i requires 0 <= i => Letters(i));
    names := Prefixed(rests);
    DifferentPapiEvents(rests, lookup, 0);
  }
}
