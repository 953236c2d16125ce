/**
 What the thread map holds when it is fed by the life of threads (src/c/threads.c): the start and end callbacks,
 threads that register themselves, and lookups.
 */
module ThreadLife {
  import opened ThreadMaps
  import opened ThreadMapSteps

  // Thread start and end callbacks, registerCurrentJavaThread, registerJavaThread with any native id, getNativeId.
  // Each happens when its operation takes the lock; a thread runs its own end callback, so its native id can only
  // be reused afterwards.
  datatype Event =
    | Started(java: int, native: int)
    | Ended(java: int)
    | Adopted(java: int)
    | Foreign(java: int, native: int)
    | Queried(java: int)

  // The live threads with their native ids, and the ids under which threads are registered until they end. Threads
  // born before the callbacks were enabled are live and not registered.
  datatype World = World(live: Bindings, bound: Bindings)

  // A new thread has ids that no live thread has.
  predicate Enabled(w: World, e: Event) {
    match e
    case Started(java, native) => java !in w.live && native !in w.live.Values
    case Ended(java) => java in w.live
    case Adopted(java) => java in w.live
    case Foreign(_, _) => true
    case Queried(_) => true
  }

  function OpOf(w: World, e: Event): Op
    requires Enabled(w, e)
  {
    match e
    case Started(java, native) => Register(java, native)
    case Ended(java) => Unregister(w.live[java])
    case Adopted(java) => Register(java, w.live[java])
    case Foreign(java, native) => Register(java, native)
    case Queried(java) => Lookup(java)
  }

  function Bound(m: Bindings, java: int, native: int): Bindings {
    if java in m then m else m[java := native]
  }

  function Happens(w: World, e: Event): World
    requires Enabled(w, e)
  {
    match e
    case Started(java, native) => World(w.live[java := native], Bound(w.bound, java, native))
    case Ended(java) => World(w.live - {java}, w.bound - {java})
    case Adopted(java) => w.(bound := Bound(w.bound, java, w.live[java]))
    case Foreign(java, native) => w.(bound := Bound(w.bound, java, native))
    case Queried(_) => w
  }

  // worlds[k + 1] follows worlds[k] by the event k; nobody is registered at the beginning.
  ghost predicate Life(worlds: seq<World>, events: seq<Event>) {
    && |worlds| == |events| + 1 && worlds[0].bound == map[]
    && forall k :: 0 <= k < |events| ==> Enabled(worlds[k], events[k]) && worlds[k + 1] == Happens(worlds[k], events[k])
  }

  // A run of the map with the operations of a life, and memory for all of them.
  ghost predicate Fed(worlds: seq<World>, events: seq<Event>, ops: seq<Op>, replies: seq<Reply>, maps: seq<Bindings>)
    requires Life(worlds, events)
  {
    && AtomicRun(ops, replies, maps) && |ops| == |events|
    && forall k :: 0 <= k < |events| ==> ops[k] == OpOf(worlds[k], events[k]) && replies[k] != NoMemory
  }

  // ---------- when the map is right ----------

  // The unregistration of a thread by its native id removes that thread's binding, whichever binding with the id
  // is taken, exactly when no other binding has the id.
  lemma UnregisterIsExactIff(m: Bindings, java: int)
    requires java in m
    ensures (forall reply: Reply, m': Bindings ::
               AtomicStep(m, Unregister(m[java]), reply, m') ==> m' == m - {java}) <==>
            (forall other :: other in m && other != java ==> m[other] != m[java])
  {
    assert m[java] in m.Values;
    forall other | other in m && other != java && m[other] == m[java]
      ensures AtomicStep(m, Unregister(m[java]), Removed, m - {other}) && m - {other} != m - {java}
    {
      assert java in m - {other};
    }
  }

  // The end of a thread meets its own binding and no other: if it is registered, then under its native id, and
  // nobody else is registered under that id.
  predicate EndsOwn(w: World, java: int)
    requires java in w.live
  {
    && (java in w.bound ==> w.bound[java] == w.live[java])
    && forall other :: other in w.bound && other != java ==> w.bound[other] != w.live[java]
  }

  ghost predicate Separate(worlds: seq<World>, events: seq<Event>, n: nat)
    requires Life(worlds, events) && n <= |events|
  {
    forall k :: 0 <= k < n && events[k].Ended? ==> EndsOwn(worlds[k], events[k].java)
  }

  // What the caller is told while the map is right.
  function ReplyTo(w: World, e: Event): Reply {
    match e
    case Started(java, _) => if java in w.bound then Exists else Added
    case Ended(java) => if java in w.bound then Removed else Missing
    case Adopted(java) => if java in w.bound then Exists else Added
    case Foreign(java, _) => if java in w.bound then Exists else Added
    case Queried(java) => Native(if java in w.bound then w.bound[java] else INVALID)
  }

  lemma EventStep(w: World, e: Event, reply: Reply, m': Bindings)
    requires Enabled(w, e) && reply != NoMemory && AtomicStep(w.bound, OpOf(w, e), reply, m')
    requires e.Ended? ==> EndsOwn(w, e.java)
    ensures m' == Happens(w, e).bound && reply == ReplyTo(w, e)
  {
    if e.Ended? {
      if e.java in w.bound {
        assert w.bound[e.java] in w.bound.Values;
      } else {
        assert w.live[e.java] !in w.bound.Values;
      }
    }
  }

  // As long as every end meets its own binding, the map is right at every moment, and so is every reply.
  lemma {:induction false} SeparateSuffices(
    worlds: seq<World>, events: seq<Event>, ops: seq<Op>, replies: seq<Reply>, maps: seq<Bindings>, k: nat)
    requires Life(worlds, events) && Fed(worlds, events, ops, replies, maps)
    requires k <= |events| && Separate(worlds, events, k)
    ensures maps[k] == worlds[k].bound
    ensures forall j :: 0 <= j < k ==> replies[j] == ReplyTo(worlds[j], events[j])
  {
    if k > 0 {
      SeparateSuffices(worlds, events, ops, replies, maps, k - 1);
      EventStep(worlds[k - 1], events[k - 1], replies[k - 1], maps[k]);
    }
  }

  // An end that does not can leave the map with the wrong bindings.
  lemma WrongStep(w: World, java: int) returns (reply: Reply, m': Bindings)
    requires java in w.live && !EndsOwn(w, java)
    ensures reply != NoMemory && AtomicStep(w.bound, Unregister(w.live[java]), reply, m')
    ensures m' != Happens(w, Ended(java)).bound
  {
    var m, native := w.bound, w.live[java];
    if other :| other in m && other != java && m[other] == native {
      assert m[other] in m.Values;
      reply, m' := Removed, m - {other};
      assert if java in m then java in m' else other in m - {java};
    } else {
      assert forall j :: j in m ==> m[j] != native;
      assert native !in m.Values;
      reply, m' := Missing, m;
    }
  }

  // Any operation can be executed.
  lemma SomeStep(m: Bindings, op: Op) returns (reply: Reply, m': Bindings)
    ensures reply != NoMemory && AtomicStep(m, op, reply, m')
  {
    match op {
      case Register(java, native) =>
        reply, m' := if java in m then Exists else Added, Bound(m, java, native);
      case Lookup(java) =>
        reply, m' := Native(if java in m then m[java] else INVALID), m;
      case Unregister(native) =>
        if java :| java in m && m[java] == native {
          assert m[java] in m.Values;
          reply, m' := Removed, m - {java};
        } else {
          assert forall j :: j in m ==> m[j] != native;
          assert native !in m.Values;
          reply, m' := Missing, m;
        }
    }
  }

  // Every run of the first operations goes on to a run of all of them.
  lemma {:induction false} GoesOn(ops: seq<Op>, replies: seq<Reply>, maps: seq<Bindings>)
    returns (allReplies: seq<Reply>, allMaps: seq<Bindings>)
    requires |replies| <= |ops| && AtomicRun(ops[..|replies|], replies, maps) && NoMemory !in replies
    ensures AtomicRun(ops, allReplies, allMaps) && NoMemory !in allReplies && maps <= allMaps
    decreases |ops| - |replies|
  {
    var n := |replies|;
    if n == |ops| {
      assert ops[..n] == ops;
      allReplies, allMaps := replies, maps;
    } else {
      var reply, m' := SomeStep(maps[n], ops[n]);
      OneMore(ops, replies, maps, reply, m');
      allReplies, allMaps := GoesOn(ops, replies + [reply], maps + [m']);
    }
  }

  lemma OneMore(ops: seq<Op>, replies: seq<Reply>, maps: seq<Bindings>, reply: Reply, m': Bindings)
    requires |replies| < |ops| && AtomicRun(ops[..|replies|], replies, maps)
    requires AtomicStep(maps[|replies|], ops[|replies|], reply, m')
    ensures AtomicRun(ops[..|replies| + 1], replies + [reply], maps + [m'])
  {
  }

  function OpsOf(worlds: seq<World>, events: seq<Event>): (ops: seq<Op>)
    requires Life(worlds, events)
    ensures |ops| == |events| && forall k :: 0 <= k < |ops| ==> ops[k] == OpOf(worlds[k], events[k])
  {
    seq(|events|, k requires 0 <= k < |events| => OpOf(worlds[k], events[k]))
  }

  // If some end does not meet its own binding only, some run goes wrong at the first such end.
  lemma SeparateNeeded(worlds: seq<World>, events: seq<Event>)
    returns (ops: seq<Op>, replies: seq<Reply>, maps: seq<Bindings>, k: nat)
    requires Life(worlds, events) && !Separate(worlds, events, |events|)
    ensures Fed(worlds, events, ops, replies, maps) && k < |maps| && maps[k] != worlds[k].bound
  {
    ops := OpsOf(worlds, events);
    var first := FirstWrong(worlds, events, 0);
    replies, maps := GoesOn(ops, [], [map[]]);
    SeparateSuffices(worlds, events, ops, replies, maps, first);
    var reply, m' := WrongStep(worlds[first], events[first].java);
    OneMore(ops, replies[..first], maps[..first + 1], reply, m');
    replies, maps := GoesOn(ops, replies[..first] + [reply], maps[..first + 1] + [m']);
    k := first + 1;
  }

  lemma FirstWrong(worlds: seq<World>, events: seq<Event>, from: nat) returns (k: nat)
    requires Life(worlds, events) && !Separate(worlds, events, |events|)
    requires from <= |events| && Separate(worlds, events, from)
    ensures k < |events| && Separate(worlds, events, k) && events[k].Ended? && !EndsOwn(worlds[k], events[k].java)
    decreases |events| - from
  {
    if events[from].Ended? && !EndsOwn(worlds[from], events[from].java) {
      k := from;
    } else {
      k := FirstWrong(worlds, events, from + 1);
    }
  }

  ghost predicate AlwaysRight(worlds: seq<World>, events: seq<Event>)
    requires Life(worlds, events)
  {
    forall ops: seq<Op>, replies: seq<Reply>, maps: seq<Bindings> :: Fed(worlds, events, ops, replies, maps) ==>
      forall k :: 0 <= k < |maps| ==> maps[k] == worlds[k].bound
  }

  // In all runs of the atomic map fed by a life of threads, where an unregister may drop any binding with the id, the
  // map is at every moment exactly the registered threads that have not ended, if and only if every thread that ends
  // meets its own binding and no other. This condition does not depend on the order of the entries; CodeIsRightIff
  // below is the exact one for the code.
  lemma MapIsRightIff(worlds: seq<World>, events: seq<Event>)
    requires Life(worlds, events)
    ensures AlwaysRight(worlds, events) <==> Separate(worlds, events, |events|)
  {
    if Separate(worlds, events, |events|) {
      forall ops: seq<Op>, replies: seq<Reply>, maps: seq<Bindings>, k: nat
        | Fed(worlds, events, ops, replies, maps) && k < |maps|
        ensures maps[k] == worlds[k].bound
      {
        SeparateSuffices(worlds, events, ops, replies, maps, k);
      }
    } else {
      var ops, replies, maps, k := SeparateNeeded(worlds, events);
      assert Fed(worlds, events, ops, replies, maps);
    }
  }

  // ---------- threads registered under their own ids ----------

  ghost predicate DistinctNative(m: Bindings) {
    forall a, b :: a in m && b in m && a != b ==> m[a] != m[b]
  }

  // registerJavaThread is only called for live threads with their own native ids.
  predicate Honest(w: World, e: Event) {
    e.Foreign? ==> e.java in w.live && w.live[e.java] == e.native
  }

  ghost predicate HonestLife(worlds: seq<World>, events: seq<Event>) {
    && Life(worlds, events) && DistinctNative(worlds[0].live)
    && forall k :: 0 <= k < |events| ==> Honest(worlds[k], events[k])
  }

  // The bindings of the live registered threads.
  function Mapped(w: World): Bindings {
    map java | java in w.live && java in w.bound :: w.live[java]
  }

  lemma HappensKeepsHonest(w: World, e: Event)
    requires Enabled(w, e) && Honest(w, e) && DistinctNative(w.live) && w.bound == Mapped(w)
    ensures DistinctNative(Happens(w, e).live) && Happens(w, e).bound == Mapped(Happens(w, e))
    ensures e.Ended? ==> EndsOwn(w, e.java)
  {
    var m := Happens(w, e).live;
    forall a, b | a in m && b in m && a != b ensures m[a] != m[b] {
      if e.Started? {
        assert a != e.java ==> w.live[a] in w.live.Values;
        assert b != e.java ==> w.live[b] in w.live.Values;
      }
    }
    assert forall java :: java in w.bound ==> java in w.live && w.bound[java] == w.live[java];
  }

  lemma {:induction false} HonestIsSeparate(worlds: seq<World>, events: seq<Event>, n: nat)
    requires HonestLife(worlds, events) && n <= |events|
    ensures Separate(worlds, events, n) && DistinctNative(worlds[n].live) && worlds[n].bound == Mapped(worlds[n])
  {
    if n > 0 {
      HonestIsSeparate(worlds, events, n - 1);
      HappensKeepsHonest(worlds[n - 1], events[n - 1]);
    }
  }

  // In every run of the map that is fed by such a life, the map is at every moment exactly the live registered
  // threads, and every caller is told the truth about its own thread.
  lemma MapIsTheLiveRegisteredThreads(
    worlds: seq<World>, events: seq<Event>, ops: seq<Op>, replies: seq<Reply>, maps: seq<Bindings>, k: nat)
    requires HonestLife(worlds, events) && Fed(worlds, events, ops, replies, maps) && k <= |events|
    ensures DistinctNative(worlds[k].live) && maps[k] == Mapped(worlds[k])
    ensures forall j :: 0 <= j < k ==> replies[j] == ReplyTo(worlds[j], events[j])
  {
    HonestIsSeparate(worlds, events, k);
    SeparateSuffices(worlds, events, ops, replies, maps, k);
  }

  // The same for every interleaving of the small steps: when the lock is free, the entries are exactly the live
  // registered threads.
  lemma EntriesAreTheLiveRegisteredThreads(threads: nat, steps: seq<Step>, worlds: seq<World>, events: seq<Event>)
    requires Run(threads, steps).lock == 0
    requires HonestLife(worlds, events)
    requires var s := Run(threads, steps); Fed(worlds, events, Ops(s.order), s.replies, Maps(s))
    ensures var s := Run(threads, steps); Abs(Live(s)) == Mapped(worlds[|events|])
  {
    var s := Run(threads, steps);
    RefinesAtomicMap(threads, steps);
    MapIsTheLiveRegisteredThreads(worlds, events, Ops(s.order), s.replies, Maps(s), |events|);
  }

  // A binding never changes while it is present, whatever the ids are.
  lemma {:induction false} BindingsDoNotChange(
    ops: seq<Op>, replies: seq<Reply>, maps: seq<Bindings>, java: int, i: nat, j: nat)
    requires AtomicRun(ops, replies, maps) && i <= j < |maps|
    requires forall k :: i <= k <= j ==> java in maps[k]
    ensures maps[i][java] == maps[j][java]
    decreases j - i
  {
    if i < j {
      BindingsDoNotChange(ops, replies, maps, java, i, j - 1);
      assert AtomicStep(maps[j - 1], ops[j - 1], replies[j - 1], maps[j]);
    }
  }

  // A native id in the map has been given to a registration.
  lemma {:induction false} BoundIdsWereGiven(ops: seq<Op>, replies: seq<Reply>, maps: seq<Bindings>, k: nat, java: int)
    returns (j: nat)
    requires AtomicRun(ops, replies, maps) && k < |maps| && java in maps[k]
    ensures j < k && ops[j] == Register(java, maps[k][java]) && replies[j] == Added
  {
    assert AtomicStep(maps[k - 1], ops[k - 1], replies[k - 1], maps[k]);
    if java in maps[k - 1] {
      j := BoundIdsWereGiven(ops, replies, maps, k - 1, java);
    } else {
      j := k - 1;
    }
  }

  // A lookup answers -1 for a thread that is not registered, and for one that is registered under -1; as long as no
  // negative id has been registered it answers a valid id exactly when the thread is registered, and that id is the
  // thread's own.
  lemma LookupIsRight(ops: seq<Op>, replies: seq<Reply>, maps: seq<Bindings>, k: nat, java: int)
    requires AtomicRun(ops, replies, maps) && k < |ops| && ops[k] == Lookup(java)
    ensures replies[k].Native?
    ensures replies[k].id == -1 <==> java !in maps[k] || maps[k][java] == -1
    ensures java in maps[k] ==> replies[k].id == maps[k][java]
    ensures (forall j :: 0 <= j < k && ops[j].Register? ==> ops[j].native >= 0) ==>
              (replies[k].id >= 0 <==> java in maps[k])
  {
    assert AtomicStep(maps[k], ops[k], replies[k], maps[k + 1]);
    if java in maps[k] {
      var j := BoundIdsWereGiven(ops, replies, maps, k, java);
    }
  }

  // ---------- the code takes the first match ----------

  // The code removes the binding of the thread at position p exactly when no entry before it has its native id.
  lemma CodeRemovesOwnIff(es: seq<Entry>, p: nat)
    requires DistinctJava(es) && p < |es|
    ensures Abs(Unregistered(es, es[p].native)) == Abs(es) - {es[p].java} <==>
            forall q :: 0 <= q < p ==> es[q].native != es[p].native
  {
    var i := FirstNative(es, es[p].native);
    SwapRemovedAbs(es, i);
    AbsRepresents(es);
    if i != p {
      assert es[p].java in Abs(es) - {es[i].java};
    }
  }

  // The operations of a life, executed by the code one at a time and with memory for all of them.
  ghost predicate CodeRun(worlds: seq<World>, events: seq<Event>, arrays: seq<seq<Entry>>)
    requires Life(worlds, events)
  {
    && |arrays| == |events| + 1 && arrays[0] == []
    && forall k :: 0 <= k < |events| ==> arrays[k + 1] == Applied(arrays[k], OpOf(worlds[k], events[k]))
  }

  // The first entry with the native id of the ending thread is its own, or there is none and it is not registered.
  predicate FindsOwn(es: seq<Entry>, w: World, java: int)
    requires java in w.live
  {
    var i := FirstNative(es, w.live[java]);
    if i < |es| then es[i].java == java else java !in w.bound
  }

  lemma AppliedRegister(es: seq<Entry>, java: int, native: int)
    requires DistinctJava(es)
    ensures var es' := Applied(es, Register(java, native));
            DistinctJava(es') && Abs(es') == Bound(Abs(es), java, native)
  {
    AbsRepresents(es);
    if HasJava(es, java) {
      var i :| 0 <= i < |es| && es[i].java == java;
      assert java in Abs(es);
    } else {
      AppendedStep(es, java, native);
    }
  }

  lemma EndStepIff(es: seq<Entry>, w: World, java: int)
    requires java in w.live && DistinctJava(es) && Abs(es) == w.bound
    ensures DistinctJava(Unregistered(es, w.live[java]))
    ensures Abs(Unregistered(es, w.live[java])) == w.bound - {java} <==> FindsOwn(es, w, java)
  {
    var i := FirstNative(es, w.live[java]);
    if i < |es| {
      SwapRemovedAbs(es, i);
      AbsRepresents(es);
      assert es[i].java in w.bound;
      if es[i].java != java {
        assert es[i].java in w.bound - {java};
      }
    } else if java in w.bound {
      assert java !in w.bound - {java};
    }
  }

  // One event: the entries stay right exactly when, if it is an end, it finds its own entry.
  lemma CodeEventIff(es: seq<Entry>, w: World, e: Event)
    requires Enabled(w, e) && DistinctJava(es) && Abs(es) == w.bound
    ensures DistinctJava(Applied(es, OpOf(w, e)))
    ensures Abs(Applied(es, OpOf(w, e))) == Happens(w, e).bound <==> (e.Ended? ==> FindsOwn(es, w, e.java))
  {
    match e {
      case Started(java, native) => AppliedRegister(es, java, native);
      case Adopted(java) => AppliedRegister(es, java, w.live[java]);
      case Foreign(java, native) => AppliedRegister(es, java, native);
      case Ended(java) => EndStepIff(es, w, java);
      case Queried(_) =>
    }
  }

  ghost predicate RightUntil(worlds: seq<World>, arrays: seq<seq<Entry>>, n: nat)
    requires n <= |worlds| == |arrays|
  {
    forall k :: 0 <= k < n ==> Abs(arrays[k]) == worlds[k].bound
  }

  ghost predicate FindsOwnUntil(worlds: seq<World>, events: seq<Event>, arrays: seq<seq<Entry>>, n: nat)
    requires Life(worlds, events) && n <= |events| && |arrays| == |worlds|
  {
    forall k :: 0 <= k < n && events[k].Ended? ==> FindsOwn(arrays[k], worlds[k], events[k].java)
  }

  lemma {:induction false} CodeIsRightUntil(worlds: seq<World>, events: seq<Event>, arrays: seq<seq<Entry>>, n: nat)
    requires Life(worlds, events) && CodeRun(worlds, events, arrays) && n <= |events|
    ensures RightUntil(worlds, arrays, n + 1) <==> FindsOwnUntil(worlds, events, arrays, n)
    ensures RightUntil(worlds, arrays, n + 1) ==> DistinctJava(arrays[n])
  {
    if n > 0 {
      CodeIsRightUntil(worlds, events, arrays, n - 1);
      if RightUntil(worlds, arrays, n) {
        CodeEventIff(arrays[n - 1], worlds[n - 1], events[n - 1]);
      }
    }
  }

  // The exact condition for the code: its entries are at every moment the registered threads that have not ended, if
  // and only if at every end the search by native id finds the thread's own entry, or nothing if it has none.
  lemma CodeIsRightIff(worlds: seq<World>, events: seq<Event>, arrays: seq<seq<Entry>>)
    requires Life(worlds, events) && CodeRun(worlds, events, arrays)
    ensures (forall k :: 0 <= k < |arrays| ==> Abs(arrays[k]) == worlds[k].bound) <==>
            (forall k :: 0 <= k < |events| && events[k].Ended? ==> FindsOwn(arrays[k], worlds[k], events[k].java))
  {
    CodeIsRightUntil(worlds, events, arrays, |events|);
  }

  // Every interleaving that executes the operations of a life is such a run of the code.
  lemma InterleavingIsCodeRun(threads: nat, steps: seq<Step>, worlds: seq<World>, events: seq<Event>)
    requires Run(threads, steps).lock == 0 && NoMemory !in Run(threads, steps).replies
    requires Life(worlds, events) && Ops(Run(threads, steps).order) == OpsOf(worlds, events)
    ensures CodeRun(worlds, events, Run(threads, steps).arrays)
  {
    var s := Run(threads, steps);
    RefinesAtomicMap(threads, steps);
    forall k | 0 <= k < |events| ensures s.arrays[k + 1] == Applied(s.arrays[k], OpOf(worlds[k], events[k])) {
      RefinesSequentialCode(threads, steps, k);
      assert Ops(s.order)[k] == OpsOf(worlds, events)[k];
      assert s.replies[k] in s.replies;
    }
  }

  // With the foreign entry behind the own one the code is right although two threads have the native id 7.
  lemma OwnEntryFirst()
    ensures Unregistered([Entry(2, 7), Entry(1, 7)], 7) == [Entry(1, 7)]
  {
    assert FirstNative([Entry(2, 7), Entry(1, 7)], 7) == 0;
  }

  // registerJavaThread gave thread 1 the native id 7 of thread 2: the end of thread 2 drops thread 1 and leaves
  // thread 2 behind.
  lemma SharedNativeIdsConfuse()
    ensures Unregistered([Entry(1, 7), Entry(2, 7)], 7) == [Entry(2, 7)]
  {
    assert FirstNative([Entry(1, 7), Entry(2, 7)], 7) == 0;
  }
}
