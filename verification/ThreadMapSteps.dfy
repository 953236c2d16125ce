/**
 The thread map under its spinlock (src/c/threads.c, src/c/mylock.h): register, unregister and lookup as small
 steps of any number of threads, interleaved in any way under sequential consistency.
 */
module ThreadMapSteps {
  import opened Common
  import opened ThreadMaps

  // Where a thread is. Between Scanning and Leaving it holds the lock.
  datatype Pc =
    | Idle
    | Spinning(op: Op, invoked: nat)   // before a compare-and-swap
    | Scanning(op: Op, i: nat)         // at the head of the search loop
    | Found(op: Op, i: nat)            // the search returned i
    | NotFound(op: Op)                 // the search returned -1
    | Roomy(op: Op)                    // there is room for one more entry
    | Written(op: Op)                  // the new entry is written, the length is not
    | Shrunk(op: Op, i: nat)           // the length is decremented, entry i not yet overwritten
    | Leaving(reply: Reply)            // before the unlock
    | Returning(ticket: nat, reply: Reply)

  // One acquisition of the lock: by whom, for what, when the call began and when the lock was taken.
  datatype Ticket = Ticket(thread: nat, op: Op, invoked: nat, acquired: nat)

  datatype Call = Call(op: Op, at: nat)
  datatype Return = Return(ticket: nat, reply: Reply, at: nat)

  // Program state: lock, entries (of size capacity), length, pcs, aborted. The rest is history: the number of
  // steps so far, the highest length so far, who holds the lock, the acquisitions in order, their replies, the entries
  // after each of them, and the calls and returns of each thread.
  datatype State = State(
    lock: int, entries: seq<Entry>, length: nat, pcs: seq<Pc>, aborted: bool,
    clock: nat, peak: nat, holder: Option<nat>, order: seq<Ticket>, replies: seq<Reply>, arrays: seq<seq<Entry>>,
    calls: seq<seq<Call>>, returned: seq<seq<Return>>)

  function Initial(threads: nat): State {
    State(0, [], 0, seq(threads, _ => Idle), false, 0, 0, None, [], [], [[]],
          seq(threads, _ => []), seq(threads, _ => []))
  }

  // A thread calls an operation, or takes its next step. `memory` says whether a realloc in this step succeeds
  // and `garbage` what it leaves in the new cell.
  datatype Step = Invoke(thread: nat, op: Op) | Move(thread: nat, memory: bool, garbage: Entry)

  predicate Inside(pc: Pc) {
    pc.Scanning? || pc.Found? || pc.NotFound? || pc.Roomy? || pc.Written? || pc.Shrunk? || pc.Leaving?
  }

  function Live(s: State): seq<Entry>
    requires s.length <= |s.entries|
  {
    s.entries[..s.length]
  }

  // The index of an inside thread and the cell it is about to write are in bounds.
  predicate Indexed(s: State, pc: Pc) {
    && (pc.Found? ==> pc.i < s.length)
    && (pc.Roomy? ==> pc.op.Register? && s.length < |s.entries|)
    && (pc.Written? ==> s.length < |s.entries|)
    && (pc.Shrunk? ==> pc.i <= s.length < |s.entries|)
  }

  predicate Bounded(s: State) {
    && s.length <= |s.entries| && s.length <= s.peak
    && |s.calls| == |s.returned| == |s.pcs|
    && forall t :: 0 <= t < |s.pcs| ==> Indexed(s, s.pcs[t])
  }

  function Goto(s: State, t: nat, pc: Pc): State
    requires t < |s.pcs|
  {
    s.(pcs := s.pcs[t := pc])
  }

  // The step that thread t takes from its position.
  function MoveThread(s: State, t: nat, memory: bool, garbage: Entry): State
    requires Bounded(s) && t < |s.pcs|
  {
    match s.pcs[t]
    case Idle => s
    case Spinning(op, invoked) =>
      if s.lock != 0 then s
      else Goto(s, t, Scanning(op, 0)).(
        lock := 1, holder := Some(t), order := s.order + [Ticket(t, op, invoked, s.clock)])
    case Scanning(op, i) =>
      if i >= s.length then Goto(s, t, NotFound(op))
      else if Matches(op, s.entries[i]) then Goto(s, t, Found(op, i))
      else Goto(s, t, Scanning(op, i + 1))
    case Found(op, i) => FoundStep(s, t, op, i)
    case NotFound(op) => NotFoundStep(s, t, op, memory, garbage)
    case Roomy(op) =>
      Goto(s, t, Written(op)).(entries := s.entries[s.length := Entry(op.java, op.native)])
    case Written(op) => Goto(s, t, Leaving(Added)).(length := s.length + 1, peak := Max(s.peak, s.length + 1))
    case Shrunk(op, i) => Goto(s, t, Leaving(Removed)).(entries := s.entries[i := s.entries[s.length]])
    case Leaving(reply) =>
      Goto(s, t, Returning(|s.replies|, reply)).(
        lock := 0, holder := None, replies := s.replies + [reply], arrays := s.arrays + [Live(s)])
    case Returning(ticket, reply) =>
      if reply.NoMemory? then s.(aborted := true)
      else Goto(s, t, Idle).(returned := s.returned[t := s.returned[t] + [Return(ticket, reply, s.clock)]])
  }

  function FoundStep(s: State, t: nat, op: Op, i: nat): State
    requires Bounded(s) && t < |s.pcs| && i < s.length
  {
    match op
    case Register(_, _) => Goto(s, t, Leaving(Exists))
    case Unregister(_) => Goto(s, t, Shrunk(op, i)).(length := s.length - 1)
    case Lookup(_) => Goto(s, t, Leaving(Native(s.entries[i].native)))
  }

  function NotFoundStep(s: State, t: nat, op: Op, memory: bool, garbage: Entry): State
    requires Bounded(s) && t < |s.pcs|
  {
    match op
    case Register(_, _) =>
      if s.length < |s.entries| then Goto(s, t, Roomy(op))
      else if memory then Goto(s, t, Roomy(op)).(entries := s.entries + [garbage])
      else Goto(s, t, Leaving(NoMemory))
    case Unregister(_) => Goto(s, t, Leaving(Missing))
    case Lookup(_) => Goto(s, t, Leaving(Native(INVALID)))
  }

  // Thread t calls an operation.
  function CallBy(s: State, t: nat, op: Op): State
    requires Bounded(s) && t < |s.pcs|
  {
    Goto(s, t, Spinning(op, s.clock)).(calls := s.calls[t := s.calls[t] + [Call(op, s.clock)]])
  }

  // One step of the system; a step that is not enabled changes nothing. exit(1) stops everything.
  function Next(s: State, step: Step): State
    requires Bounded(s)
  {
    if s.aborted || step.thread >= |s.pcs| then s
    else
      match step
      case Invoke(t, op) => if s.pcs[t].Idle? then CallBy(s, t, op).(clock := s.clock + 1) else s
      case Move(t, memory, garbage) => MoveThread(s, t, memory, garbage).(clock := s.clock + 1)
  }

  // ---------- the invariant ----------

  // Mutual exclusion: the lock is 1 exactly while its holder, and nobody else, is inside.
  ghost predicate Exclusive(s: State) {
    && s.lock == Count(s.holder.Some?)
    && (s.holder.Some? ==> s.holder.value < |s.pcs|)
    && forall t :: 0 <= t < |s.pcs| ==> (Inside(s.pcs[t]) <==> s.holder == Some(t))
  }

  // The replies so far are those of operations of the code executed one at a time in the order of the acquisitions.
  ghost predicate Explained(s: State) {
    && |s.order| == |s.replies| + Count(s.holder.Some?)
    && |s.arrays| == |s.replies| + 1 && s.arrays[0] == []
    && forall k :: 0 <= k < |s.replies| ==> CodeStep(s.arrays[k], s.order[k].op, s.replies[k], s.arrays[k + 1])
  }

  function LastArray(s: State): seq<Entry>
    requires s.arrays != []
  {
    s.arrays[|s.arrays| - 1]
  }

  // No entry before position i of the live entries is what op looks for.
  ghost predicate NoneBefore(s: State, op: Op, i: nat)
    requires s.length <= |s.entries|
  {
    i <= s.length && forall j :: 0 <= j < i ==> !Matches(op, s.entries[j])
  }

  // The live entries are those after the last operation.
  ghost predicate Settled(s: State)
    requires s.length <= |s.entries| && s.arrays != []
  {
    DistinctJava(Live(s)) && Live(s) == LastArray(s)
  }

  // The capacity: the highest length so far, or what the entry about to be appended needs.
  function Needed(s: State, pc: Pc): int {
    if pc.Roomy? || pc.Written? then Max(s.peak, s.length + 1) else s.peak
  }

  // What the holder knows at its position.
  ghost predicate HolderAt(s: State, op: Op, pc: Pc)
    requires s.length <= |s.entries| && s.arrays != [] && Indexed(s, pc)
  {
    |s.entries| == Needed(s, pc) && HolderKnows(s, op, pc)
  }

  ghost predicate HolderKnows(s: State, op: Op, pc: Pc)
    requires s.length <= |s.entries| && s.arrays != [] && Indexed(s, pc)
  {
    match pc
    case Scanning(o, i) => o == op && Settled(s) && NoneBefore(s, op, i)
    case Found(o, i) => o == op && Settled(s) && NoneBefore(s, op, i) && Matches(op, s.entries[i])
    case NotFound(o) => o == op && Settled(s) && NoneBefore(s, op, s.length)
    case Roomy(o) => o == op && Settled(s) && NoneBefore(s, op, s.length)
    case Written(o) =>
      && o == op && op.Register? && Settled(s) && NoneBefore(s, op, s.length)
      && s.entries[s.length] == Entry(op.java, op.native)
    case Shrunk(o, i) =>
      && o == op && op.Unregister?
      && DistinctJava(LastArray(s)) && s.entries[..s.length + 1] == LastArray(s)
      && i == FirstNative(LastArray(s), op.native)
    case Leaving(reply) => CodeStep(LastArray(s), op, reply, Live(s))
    case _ => false
  }

  ghost predicate Consistent(s: State)
    requires Bounded(s) && Exclusive(s) && Explained(s)
  {
    match s.holder
    case None => Settled(s) && |s.entries| == s.peak
    case Some(t) =>
      var ticket := s.order[|s.order| - 1];
      ticket.thread == t && HolderAt(s, ticket.op, s.pcs[t])
  }

  predicate IsCall(ticket: Ticket, t: nat, c: Call) {
    ticket.thread == t && ticket.op == c.op && ticket.invoked == c.at
  }

  // A return of thread t answers call c: the reply is that of an acquisition made by the thread for this call,
  // between call and return.
  predicate Answers(s: State, t: nat, c: Call, r: Return) {
    && r.ticket < |s.replies| && r.ticket < |s.order|
    && IsCall(s.order[r.ticket], t, c) && s.replies[r.ticket] == r.reply
    && c.at < s.order[r.ticket].acquired < r.at
  }

  // What thread t is doing serves its call c.
  predicate Pending(s: State, t: nat, c: Call)
    requires t < |s.pcs|
  {
    match s.pcs[t]
    case Idle => false
    case Spinning(op, invoked) => c == Call(op, invoked)
    case Returning(k, reply) =>
      && k < |s.replies| && k < |s.order|
      && IsCall(s.order[k], t, c) && s.replies[k] == reply && c.at < s.order[k].acquired < s.clock
    case _ => s.order != [] && IsCall(s.order[|s.order| - 1], t, c)
  }

  // The calls and returns of thread t alternate in time; its n-th return answers its n-th call, and one more call may
  // be pending.
  ghost predicate Sequential(s: State, t: nat)
    requires t < |s.pcs| == |s.calls| == |s.returned|
  {
    var cs, rs := s.calls[t], s.returned[t];
    && |rs| <= |cs| <= |rs| + 1 && (s.pcs[t].Idle? <==> |cs| == |rs|)
    && (forall n :: 0 <= n < |rs| ==> Answers(s, t, cs[n], rs[n]) && rs[n].at < s.clock)
    && (forall n :: 0 <= n < |cs| ==> cs[n].at < s.clock && (n > 0 ==> rs[n - 1].at <= cs[n].at))
    && (|cs| > |rs| ==> Pending(s, t, cs[|rs|]))
  }

  // The call that thread t is executing.
  function Current(s: State, t: nat): Call
    requires t < |s.calls| == |s.returned| && |s.returned[t]| < |s.calls[t]|
  {
    s.calls[t][|s.returned[t]|]
  }

  ghost predicate Histories(s: State)
    requires |s.calls| == |s.returned| == |s.pcs|
  {
    forall t :: 0 <= t < |s.pcs| ==> Sequential(s, t)
  }

  // The acquisitions are in the order of time.
  ghost predicate Timed(s: State) {
    && (forall k :: 0 <= k < |s.order| ==> s.order[k].invoked < s.order[k].acquired < s.clock)
    && (forall k, l :: 0 <= k < l < |s.order| ==> s.order[k].acquired < s.order[l].acquired)
  }

  ghost predicate Inv(s: State) {
    Bounded(s) && Exclusive(s) && Explained(s) && Consistent(s) && Histories(s) && Timed(s)
  }

  lemma InitialInv(threads: nat)
    ensures Inv(Initial(threads))
  {
  }

  // ---------- every step keeps the invariant ----------

  // A step of the holder inside the critical section: only entries, length and its own position change.
  ghost predicate InnerStep(s: State, t: nat, s': State) {
    && t < |s.pcs| && s.holder == Some(t)
    && |s'.pcs| == |s.pcs| && Inside(s'.pcs[t])
    && s' == s.(pcs := s.pcs[t := s'.pcs[t]], entries := s'.entries, length := s'.length, peak := s'.peak,
                clock := s.clock + 1)
  }

  // A step of thread t leaves the histories of the others alone.
  ghost predicate Extends(s: State, t: nat, s': State)
    requires |s.calls| == |s.returned| == |s.pcs|
  {
    && |s'.pcs| == |s'.calls| == |s'.returned| == |s.pcs|
    && s.order <= s'.order && s.replies <= s'.replies && s.clock <= s'.clock
    && (forall u :: 0 <= u < |s.pcs| && u != t ==>
          && s'.pcs[u] == s.pcs[u] && s'.calls[u] == s.calls[u] && s'.returned[u] == s.returned[u]
          && (Inside(s.pcs[u]) ==> s'.order == s.order))
  }

  lemma OtherSequential(s: State, t: nat, s': State, u: nat)
    requires |s.calls| == |s.returned| == |s.pcs| && Extends(s, t, s') && u != t && u < |s.pcs| && Sequential(s, u)
    ensures Sequential(s', u)
  {
    var cs, rs := s.calls[u], s.returned[u];
    forall n | 0 <= n < |rs| ensures Answers(s', u, cs[n], rs[n]) && rs[n].at < s'.clock {
      assert Answers(s, u, cs[n], rs[n]);
    }
  }

  lemma HistoriesKept(s: State, t: nat, s': State)
    requires |s.calls| == |s.returned| == |s.pcs| && Histories(s) && Extends(s, t, s')
    requires t < |s.pcs| ==> Sequential(s', t)
    ensures Histories(s')
  {
    forall u | 0 <= u < |s.pcs| && u != t ensures Sequential(s', u) {
      OtherSequential(s, t, s', u);
    }
  }

  // A step that neither begins nor ends a call of t.
  lemma SameCalls(s: State, t: nat, s': State)
    requires |s.calls| == |s.returned| == |s.pcs| && t < |s.pcs| && Histories(s) && Extends(s, t, s')
    requires s'.calls == s.calls && s'.returned == s.returned && !s.pcs[t].Idle? && !s'.pcs[t].Idle?
    requires Sequential(s, t) && Pending(s', t, Current(s, t))
    ensures Histories(s')
  {
    var cs, rs := s.calls[t], s.returned[t];
    forall n | 0 <= n < |rs| ensures Answers(s', t, cs[n], rs[n]) && rs[n].at < s'.clock {
      assert Answers(s, t, cs[n], rs[n]);
    }
    HistoriesKept(s, t, s');
  }

  // Such a step keeps everything but what the holder knows.
  lemma InnerStepKeeps(s: State, t: nat, s': State)
    requires Inv(s) && InnerStep(s, t, s')
    requires s'.length <= |s'.entries| && s'.length <= s'.peak && Indexed(s', s'.pcs[t])
    requires HolderAt(s', s.order[|s.order| - 1].op, s'.pcs[t])
    ensures Inv(s')
  {
    forall u | 0 <= u < |s'.pcs| ensures Indexed(s', s'.pcs[u]) {
      if u != t { assert !Inside(s.pcs[u]); }
    }
    assert Inside(s.pcs[t]) && Sequential(s, t) && Pending(s, t, Current(s, t));
    SameCalls(s, t, s');
  }

  // The holder's operation is the last one acquired, and it is at its position.
  lemma HolderOf(s: State, t: nat)
    requires Inv(s) && t < |s.pcs| && Inside(s.pcs[t])
    ensures s.holder == Some(t) && s.order != [] && HolderAt(s, s.order[|s.order| - 1].op, s.pcs[t])
  {
  }

  lemma ScanKeepsInv(s: State, t: nat, memory: bool, garbage: Entry)
    requires Inv(s) && t < |s.pcs| && s.pcs[t].Scanning?
    ensures Inv(MoveThread(s, t, memory, garbage).(clock := s.clock + 1))
  {
    HolderOf(s, t);
    InnerStepKeeps(s, t, MoveThread(s, t, memory, garbage).(clock := s.clock + 1));
  }

  lemma FoundKeepsInv(s: State, t: nat, memory: bool, garbage: Entry)
    requires Inv(s) && t < |s.pcs| && s.pcs[t].Found?
    ensures Inv(MoveThread(s, t, memory, garbage).(clock := s.clock + 1))
  {
    HolderOf(s, t);
    var op, i, s' := s.pcs[t].op, s.pcs[t].i, MoveThread(s, t, memory, garbage).(clock := s.clock + 1);
    match op {
      case Register(_, _) => UnchangedStep(Live(s), op, Exists, Some(i));
      case Lookup(_) => UnchangedStep(Live(s), op, Native(s.entries[i].native), Some(i));
      case Unregister(native) =>
        assert s'.entries[..s'.length + 1] == Live(s);
        FirstNativeIs(Live(s), native, i);
    }
    InnerStepKeeps(s, t, s');
  }

  // Register found nothing: there is room, or the array grows, or that fails.
  lemma RegisterMisses(s: State, t: nat, memory: bool, garbage: Entry)
    requires Inv(s) && t < |s.pcs| && s.pcs[t].NotFound? && s.pcs[t].op.Register?
    ensures Inv(MoveThread(s, t, memory, garbage).(clock := s.clock + 1))
  {
    HolderOf(s, t);
    var s' := MoveThread(s, t, memory, garbage).(clock := s.clock + 1);
    UnchangedStep(Live(s), s.pcs[t].op, NoMemory, None);
    assert Live(s') == Live(s);
    InnerStepKeeps(s, t, s');
  }

  lemma OthersMiss(s: State, t: nat, memory: bool, garbage: Entry)
    requires Inv(s) && t < |s.pcs| && s.pcs[t].NotFound? && !s.pcs[t].op.Register?
    ensures Inv(MoveThread(s, t, memory, garbage).(clock := s.clock + 1))
  {
    HolderOf(s, t);
    var op := s.pcs[t].op;
    UnchangedStep(Live(s), op, if op.Lookup? then Native(INVALID) else Missing, None);
    InnerStepKeeps(s, t, MoveThread(s, t, memory, garbage).(clock := s.clock + 1));
  }

  lemma NotFoundKeepsInv(s: State, t: nat, memory: bool, garbage: Entry)
    requires Inv(s) && t < |s.pcs| && s.pcs[t].NotFound?
    ensures Inv(MoveThread(s, t, memory, garbage).(clock := s.clock + 1))
  {
    if s.pcs[t].op.Register? {
      RegisterMisses(s, t, memory, garbage);
    } else {
      OthersMiss(s, t, memory, garbage);
    }
  }

  lemma RoomyKeepsInv(s: State, t: nat, memory: bool, garbage: Entry)
    requires Inv(s) && t < |s.pcs| && s.pcs[t].Roomy?
    ensures Inv(MoveThread(s, t, memory, garbage).(clock := s.clock + 1))
  {
    HolderOf(s, t);
    var s' := MoveThread(s, t, memory, garbage).(clock := s.clock + 1);
    assert Live(s') == Live(s);
    InnerStepKeeps(s, t, s');
  }

  lemma WrittenKeepsInv(s: State, t: nat, memory: bool, garbage: Entry)
    requires Inv(s) && t < |s.pcs| && s.pcs[t].Written?
    ensures Inv(MoveThread(s, t, memory, garbage).(clock := s.clock + 1))
  {
    HolderOf(s, t);
    var op, s' := s.pcs[t].op, MoveThread(s, t, memory, garbage).(clock := s.clock + 1);
    assert Live(s') == Live(s) + [Entry(op.java, op.native)];
    forall i | 0 <= i < |Live(s)| ensures Live(s)[i].java != op.java {
      assert !Matches(op, s.entries[i]);
    }
    AppendedStep(Live(s), op.java, op.native);
    InnerStepKeeps(s, t, s');
  }

  lemma SwappedLive(s: State, i: nat)
    requires i <= s.length < |s.entries|
    ensures s.entries[i := s.entries[s.length]][..s.length] == SwapRemoved(s.entries[..s.length + 1], i)
  {
  }

  lemma SwapKeepsInv(s: State, t: nat, i: nat, s': State)
    requires Inv(s) && t < |s.pcs| && s.pcs[t].Shrunk? && s.pcs[t].i == i
    requires i <= s.length < |s.entries|
    requires s' == s.(pcs := s.pcs[t := Leaving(Removed)], entries := s.entries[i := s.entries[s.length]],
                      clock := s.clock + 1)
    ensures Inv(s')
  {
    HolderOf(s, t);
    SwappedLive(s, i);
    RemovedStep(LastArray(s), s.pcs[t].op.native, i);
    InnerStepKeeps(s, t, s');
  }

  lemma ShrunkKeepsInv(s: State, t: nat, memory: bool, garbage: Entry)
    requires Inv(s) && t < |s.pcs| && s.pcs[t].Shrunk?
    ensures Inv(MoveThread(s, t, memory, garbage).(clock := s.clock + 1))
  {
    SwapKeepsInv(s, t, s.pcs[t].i, MoveThread(s, t, memory, garbage).(clock := s.clock + 1));
  }

  // A failed compare-and-swap only lets time pass; a successful one takes the lock.
  lemma SpinKeepsInv(s: State, t: nat, memory: bool, garbage: Entry)
    requires Inv(s) && t < |s.pcs| && s.pcs[t].Spinning?
    ensures Inv(MoveThread(s, t, memory, garbage).(clock := s.clock + 1))
  {
    if s.lock != 0 {
      WaitKeepsInv(s, s.aborted);
    } else {
      LockTaken(s, t, MoveThread(s, t, memory, garbage).(clock := s.clock + 1));
    }
  }

  ghost predicate Takes(s: State, t: nat, s': State) {
    && t < |s.pcs| && s.pcs[t].Spinning?
    && s' == s.(pcs := s.pcs[t := Scanning(s.pcs[t].op, 0)], lock := 1, holder := Some(t),
                order := s.order + [Ticket(t, s.pcs[t].op, s.pcs[t].invoked, s.clock)], clock := s.clock + 1)
  }

  lemma LockTakenCore(s: State, t: nat, s': State)
    requires Inv(s) && s.lock == 0 && Takes(s, t, s')
    ensures Bounded(s') && Exclusive(s') && Explained(s') && Consistent(s')
  {
    assert s.holder.None?;
    assert forall k :: 0 <= k < |s.replies| ==> s'.order[k] == s.order[k];
  }

  lemma LockTakenInTime(s: State, t: nat, s': State)
    requires Timed(s) && Takes(s, t, s') && s.pcs[t].invoked < s.clock
    ensures Timed(s')
  {
    assert forall k :: 0 <= k < |s.order| ==> s'.order[k] == s.order[k];
  }

  lemma LockTaken(s: State, t: nat, s': State)
    requires Inv(s) && s.lock == 0 && Takes(s, t, s')
    ensures Inv(s')
  {
    assert Sequential(s, t) && Pending(s, t, Current(s, t));
    LockTakenCore(s, t, s');
    LockTakenInTime(s, t, s');
    assert Extends(s, t, s') by {
      assert forall u :: 0 <= u < |s.pcs| ==> !Inside(s.pcs[u]);
    }
    SameCalls(s, t, s');
  }

  ghost predicate Unlocks(s: State, t: nat, s': State)
    requires s.length <= |s.entries|
  {
    && t < |s.pcs| && s.pcs[t].Leaving?
    && s' == s.(pcs := s.pcs[t := Returning(|s.replies|, s.pcs[t].reply)], lock := 0, holder := None,
                replies := s.replies + [s.pcs[t].reply], arrays := s.arrays + [Live(s)], clock := s.clock + 1)
  }

  lemma UnlockedExplained(s: State, t: nat, s': State)
    requires Bounded(s) && Exclusive(s) && Explained(s) && s.holder.Some? && Unlocks(s, t, s')
    requires CodeStep(LastArray(s), s.order[|s.order| - 1].op, s.pcs[t].reply, Live(s))
    ensures Explained(s')
  {
    var n := |s.replies|;
    assert forall k :: 0 <= k < n ==> s'.replies[k] == s.replies[k] && s'.arrays[k + 1] == s.arrays[k + 1];
    assert s'.arrays[n] == LastArray(s) && s'.arrays[n + 1] == Live(s);
  }

  lemma UnlockedCore(s: State, t: nat, s': State)
    requires Inv(s) && Unlocks(s, t, s')
    ensures Bounded(s') && Exclusive(s') && Explained(s') && Consistent(s') && Timed(s')
  {
    HolderOf(s, t);
    UnlockedExplained(s, t, s');
    assert Live(s') == Live(s);
  }

  lemma UnlockedHistories(s: State, t: nat, s': State)
    requires Bounded(s) && Exclusive(s) && Explained(s) && Histories(s) && Timed(s) && Unlocks(s, t, s')
    ensures Histories(s')
  {
    assert Inside(s.pcs[t]) && s.holder == Some(t);
    assert Sequential(s, t) && Pending(s, t, Current(s, t));
    SameCalls(s, t, s');
  }

  lemma Unlocked(s: State, t: nat, s': State)
    requires Inv(s) && Unlocks(s, t, s')
    ensures Inv(s')
  {
    UnlockedCore(s, t, s');
    UnlockedHistories(s, t, s');
  }

  lemma UnlockKeepsInv(s: State, t: nat, memory: bool, garbage: Entry)
    requires Inv(s) && t < |s.pcs| && s.pcs[t].Leaving?
    ensures Inv(MoveThread(s, t, memory, garbage).(clock := s.clock + 1))
  {
    Unlocked(s, t, MoveThread(s, t, memory, garbage).(clock := s.clock + 1));
  }

  lemma CalledHistories(s: State, t: nat, op: Op, s': State)
    requires Bounded(s) && Histories(s) && t < |s.pcs| && s.pcs[t].Idle?
    requires s' == CallBy(s, t, op).(clock := s.clock + 1)
    ensures Histories(s')
  {
    var cs, rs := s'.calls[t], s.returned[t];
    assert Sequential(s, t);
    assert cs == s.calls[t] + [Call(op, s.clock)];
    forall n | 0 <= n < |rs| ensures Answers(s', t, cs[n], rs[n]) && rs[n].at < s'.clock {
      assert Answers(s, t, s.calls[t][n], rs[n]);
    }
    HistoriesKept(s, t, s');
  }

  lemma InvokeKeepsInv(s: State, t: nat, op: Op, s': State)
    requires Inv(s) && t < |s.pcs| && s.pcs[t].Idle? && s' == CallBy(s, t, op).(clock := s.clock + 1)
    ensures Inv(s')
  {
    assert !Inside(s.pcs[t]);
    CalledHistories(s, t, op, s');
  }

  // Only time passes, or the process exits.
  lemma WaitKeepsInv(s: State, aborted: bool)
    requires Inv(s)
    ensures Inv(s.(aborted := aborted, clock := s.clock + 1))
  {
    HistoriesKept(s, |s.pcs|, s.(aborted := aborted, clock := s.clock + 1));
  }

  // The call returns: the reply of the thread's own ticket is recorded.
  ghost predicate Returns(s: State, t: nat, s': State) {
    && t < |s.pcs| && s.pcs[t].Returning? && t < |s.returned|
    && s' == s.(pcs := s.pcs[t := Idle], clock := s.clock + 1,
                returned := s.returned[t := s.returned[t] + [Return(s.pcs[t].ticket, s.pcs[t].reply, s.clock)]])
  }

  lemma ReturnedHistories(s: State, t: nat, s': State)
    requires |s.calls| == |s.returned| == |s.pcs| && Histories(s) && Returns(s, t, s')
    ensures Histories(s')
  {
    var cs, rs := s.calls[t], s'.returned[t];
    var m := |s.returned[t]|;
    assert Sequential(s, t) && Pending(s, t, cs[m]);
    forall n | 0 <= n < |rs| ensures Answers(s', t, cs[n], rs[n]) && rs[n].at < s'.clock {
      assert n < m ==> Answers(s, t, cs[n], s.returned[t][n]);
    }
    HistoriesKept(s, t, s');
  }

  lemma ReturnsOutside(s: State, t: nat, s': State)
    requires Bounded(s) && Exclusive(s) && Explained(s) && Consistent(s) && Timed(s) && Returns(s, t, s')
    ensures Bounded(s') && Exclusive(s') && Explained(s') && Consistent(s') && Timed(s')
  {
    assert !Inside(s.pcs[t]);
  }

  lemma ReturnKeepsInv(s: State, t: nat, memory: bool, garbage: Entry)
    requires Inv(s) && t < |s.pcs| && s.pcs[t].Returning? && !s.pcs[t].reply.NoMemory?
    ensures Inv(MoveThread(s, t, memory, garbage).(clock := s.clock + 1))
  {
    var s' := MoveThread(s, t, memory, garbage).(clock := s.clock + 1);
    ReturnsOutside(s, t, s');
    ReturnedHistories(s, t, s');
  }

  lemma AbortKeepsInv(s: State, t: nat, memory: bool, garbage: Entry)
    requires Inv(s) && t < |s.pcs| && s.pcs[t].Returning? && s.pcs[t].reply.NoMemory?
    ensures Inv(MoveThread(s, t, memory, garbage).(clock := s.clock + 1))
  {
    WaitKeepsInv(s, true);
  }

  lemma InsideMoveKeepsInv(s: State, t: nat, memory: bool, garbage: Entry)
    requires Inv(s) && t < |s.pcs| && Inside(s.pcs[t]) && !s.pcs[t].Leaving?
    ensures Inv(MoveThread(s, t, memory, garbage).(clock := s.clock + 1))
  {
    match s.pcs[t] {
      case Scanning(_, _) => ScanKeepsInv(s, t, memory, garbage);
      case Found(_, _) => FoundKeepsInv(s, t, memory, garbage);
      case NotFound(_) => NotFoundKeepsInv(s, t, memory, garbage);
      case Roomy(_) => RoomyKeepsInv(s, t, memory, garbage);
      case Written(_) => WrittenKeepsInv(s, t, memory, garbage);
      case Shrunk(_, _) => ShrunkKeepsInv(s, t, memory, garbage);
    }
  }

  lemma MoveKeepsInv(s: State, t: nat, memory: bool, garbage: Entry)
    requires Inv(s) && t < |s.pcs|
    ensures Inv(MoveThread(s, t, memory, garbage).(clock := s.clock + 1))
  {
    match s.pcs[t] {
      case Idle => WaitKeepsInv(s, s.aborted);
      case Spinning(_, _) => SpinKeepsInv(s, t, memory, garbage);
      case Leaving(_) => UnlockKeepsInv(s, t, memory, garbage);
      case Returning(_, reply) =>
        if reply.NoMemory? { AbortKeepsInv(s, t, memory, garbage); } else { ReturnKeepsInv(s, t, memory, garbage); }
      case _ => InsideMoveKeepsInv(s, t, memory, garbage);
    }
  }

  // What a step can amount to.
  lemma NextIs(s: State, step: Step)
    requires Bounded(s)
    ensures var s' := Next(s, step);
            || s' == s
            || (step.Invoke? && step.thread < |s.pcs| && s.pcs[step.thread].Idle?
                && s' == CallBy(s, step.thread, step.op).(clock := s.clock + 1))
            || (step.Move? && step.thread < |s.pcs|
                && s' == MoveThread(s, step.thread, step.memory, step.garbage).(clock := s.clock + 1))
  {
  }

  lemma NextKeepsInv(s: State, step: Step, s': State)
    requires Inv(s) && s' == Next(s, step)
    ensures Inv(s')
  {
    NextIs(s, step);
    if s' != s {
      match step {
        case Invoke(t, op) => InvokeKeepsInv(s, t, op, s');
        case Move(t, memory, garbage) => MoveKeepsInv(s, t, memory, garbage);
      }
    }
  }

  // ---------- every run ----------

  ghost function Run(threads: nat, steps: seq<Step>): (s: State)
    ensures Inv(s)
  {
    if steps == [] then
      InitialInv(threads);
      Initial(threads)
    else
      var n := |steps| - 1;
      var s := Run(threads, steps[..n]);
      var s' := Next(s, steps[n]);
      NextKeepsInv(s, steps[n], s');
      s'
  }

  // Mutual exclusion in every interleaving: at most one thread is inside, and the lock is 1 exactly when one is.
  lemma MutualExclusion(threads: nat, steps: seq<Step>)
    ensures var s := Run(threads, steps);
            && (s.lock == 0 || s.lock == 1)
            && (s.lock == 1 <==> exists t :: 0 <= t < |s.pcs| && Inside(s.pcs[t]))
            && (forall t, u :: 0 <= t < |s.pcs| && 0 <= u < |s.pcs| && Inside(s.pcs[t]) && Inside(s.pcs[u]) ==> t == u)
  {
    var s := Run(threads, steps);
    if s.holder.Some? {
      assert Inside(s.pcs[s.holder.value]);
    }
  }

  // A sequence of atomic operations on a finite map, executed one after another from the empty map.
  ghost predicate AtomicRun(ops: seq<Op>, replies: seq<Reply>, maps: seq<Bindings>) {
    && |ops| == |replies| && |maps| == |ops| + 1 && maps[0] == map[]
    && forall k :: 0 <= k < |ops| ==> AtomicStep(maps[k], ops[k], replies[k], maps[k + 1])
  }

  function Ops(order: seq<Ticket>): (r: seq<Op>)
    ensures |r| == |order| && forall k :: 0 <= k < |r| ==> r[k] == order[k].op
  {
    seq(|order|, k requires 0 <= k < |order| => order[k].op)
  }

  // The map after each operation.
  function Maps(s: State): (r: seq<Bindings>)
    ensures |r| == |s.arrays| && forall k :: 0 <= k < |r| ==> r[k] == Abs(s.arrays[k])
  {
    seq(|s.arrays|, k requires 0 <= k < |s.arrays| => Abs(s.arrays[k]))
  }

  // ---------- when there is no memory ----------

  // The step is a realloc that fails: a register found nothing, the array is full and there is no memory.
  predicate Refused(s: State, step: Step) {
    && !s.aborted && step.Move? && !step.memory && step.thread < |s.pcs|
    && s.pcs[step.thread].NotFound? && s.pcs[step.thread].op.Register? && s.length >= |s.entries|
  }

  // Some call has been or is about to be answered that there is no memory.
  ghost predicate Denied(s: State) {
    NoMemory in s.replies || exists t :: 0 <= t < |s.pcs| && s.pcs[t] == Leaving(NoMemory)
  }

  lemma OwnRefusal(s: State, step: Step, s': State)
    requires Bounded(s) && !s.aborted && step.Move? && step.thread < |s.pcs| && s' == Next(s, step)
    ensures s'.pcs[step.thread] == Leaving(NoMemory) <==> Refused(s, step)
    ensures s'.replies == s.replies + if s.pcs[step.thread].Leaving? then [s.pcs[step.thread].reply] else []
  {
  }

  lemma FoundMovesOnly(s: State, t: nat, op: Op, i: nat, s': State)
    requires Bounded(s) && t < |s.pcs| && i < s.length && s' == FoundStep(s, t, op, i)
    ensures |s'.pcs| == |s.pcs| && s'.pcs == s.pcs[t := s'.pcs[t]]
  {
  }

  lemma NotFoundMovesOnly(s: State, t: nat, op: Op, memory: bool, garbage: Entry, s': State)
    requires Bounded(s) && t < |s.pcs| && s' == NotFoundStep(s, t, op, memory, garbage)
    ensures |s'.pcs| == |s.pcs| && s'.pcs == s.pcs[t := s'.pcs[t]]
  {
  }

  lemma MovesOnly(s: State, t: nat, memory: bool, garbage: Entry, s': State)
    requires Bounded(s) && t < |s.pcs| && s' == MoveThread(s, t, memory, garbage)
    ensures |s'.pcs| == |s.pcs| && s'.pcs == s.pcs[t := s'.pcs[t]]
  {
    match s.pcs[t] {
      case Found(op, i) => FoundMovesOnly(s, t, op, i, s');
      case NotFound(op) => NotFoundMovesOnly(s, t, op, memory, garbage, s');
      case _ =>
    }
  }

  lemma OthersStay(s: State, step: Step, s': State)
    requires Bounded(s) && s' == Next(s, step)
    ensures |s'.pcs| == |s.pcs| && forall u :: 0 <= u < |s.pcs| && u != step.thread ==> s'.pcs[u] == s.pcs[u]
  {
    NextIs(s, step);
    if s' != s && step.Move? {
      MovesOnly(s, step.thread, step.memory, step.garbage, MoveThread(s, step.thread, step.memory, step.garbage));
    }
  }

  lemma NoMoveNoReply(s: State, step: Step, s': State)
    requires Bounded(s) && s' == Next(s, step) && (s.aborted || step.Invoke? || step.thread >= |s.pcs|)
    ensures s'.replies == s.replies && |s'.pcs| == |s.pcs|
    ensures forall u :: 0 <= u < |s.pcs| ==> (s'.pcs[u] == Leaving(NoMemory) <==> s.pcs[u] == Leaving(NoMemory))
  {
    NextIs(s, step);
  }

  lemma DeniedByRefusal(s: State, step: Step, s': State)
    requires Bounded(s) && s' == Next(s, step)
    ensures Denied(s') <==> Denied(s) || Refused(s, step)
  {
    var t := step.thread;
    OthersStay(s, step, s');
    if !s.aborted && step.Move? && t < |s.pcs| {
      OwnRefusal(s, step, s');
      if u :| 0 <= u < |s.pcs| && s.pcs[u] == Leaving(NoMemory) {
        assert u != t ==> s'.pcs[u] == Leaving(NoMemory);
        assert u == t ==> NoMemory in s'.replies;
      }
      if u :| 0 <= u < |s'.pcs| && s'.pcs[u] == Leaving(NoMemory) {
        assert u != t ==> s.pcs[u] == Leaving(NoMemory);
      }
      if NoMemory in s'.replies && NoMemory !in s.replies {
        assert s.pcs[t] == Leaving(NoMemory);
      }
    } else {
      NoMoveNoReply(s, step, s');
    }
  }

  // The states of a run, one after another.
  ghost predicate IsTrace(states: seq<State>, steps: seq<Step>) {
    && |states| == |steps| + 1 && (forall i :: 0 <= i < |states| ==> Bounded(states[i]))
    && forall i :: 0 <= i < |steps| ==> states[i + 1] == Next(states[i], steps[i])
  }

  lemma TraceGrows(states: seq<State>, steps: seq<Step>, s': State)
    requires steps != [] && IsTrace(states, steps[..|steps| - 1]) && Bounded(s')
    requires s' == Next(states[|steps| - 1], steps[|steps| - 1])
    ensures IsTrace(states + [s'], steps)
  {
    var n, all := |steps| - 1, states + [s'];
    forall i | 0 <= i < |all| ensures Bounded(all[i]) {
      assert i <= n ==> all[i] == states[i];
    }
    forall i | 0 <= i < |steps| ensures all[i + 1] == Next(all[i], steps[i]) {
      assert all[i] == states[i];
      assert i < n ==> all[i + 1] == states[i + 1] && steps[..n][i] == steps[i];
    }
  }

  ghost function Trace(threads: nat, steps: seq<Step>): (states: seq<State>)
    ensures IsTrace(states, steps) && states[0] == Initial(threads) && states[|steps|] == Run(threads, steps)
  {
    if steps == [] then [Run(threads, steps)]
    else
      var states := Trace(threads, steps[..|steps| - 1]);
      TraceGrows(states, steps, Run(threads, steps));
      states + [Run(threads, steps)]
  }

  ghost predicate RefusedBefore(states: seq<State>, steps: seq<Step>, n: nat) {
    exists i :: 0 <= i < n && i < |states| && i < |steps| && Refused(states[i], steps[i])
  }

  lemma {:induction false} DeniedExactly(states: seq<State>, steps: seq<Step>, n: nat)
    requires IsTrace(states, steps) && n <= |steps| && !Denied(states[0])
    ensures Denied(states[n]) <==> RefusedBefore(states, steps, n)
  {
    if n > 0 {
      DeniedExactly(states, steps, n - 1);
      DeniedByRefusal(states[n - 1], steps[n - 1], states[n]);
    }
  }

  // ---------- refinement ----------

  // Refinement: in every interleaving the completed operations are an atomic run in lock-acquisition order. Each
  // thread's n-th return answers its n-th call with the reply of that run, and calls and returns alternate. A call is
  // denied memory exactly when a realloc has failed. Whenever the lock is free, the entries mean the final map and the
  // capacity is the highest length so far.
  lemma RefinesAtomicMap(threads: nat, steps: seq<Step>)
    ensures var s := Run(threads, steps);
            && |s.replies| <= |s.order| <= |s.replies| + 1
            && AtomicRun(Ops(s.order[..|s.replies|]), s.replies, Maps(s))
            && (forall t :: 0 <= t < |s.pcs| ==> Sequential(s, t))
            && (Denied(s) <==> RefusedBefore(Trace(threads, steps), steps, |steps|))
            && (s.lock == 0 ==> |s.order| == |s.replies| && DistinctJava(Live(s)) && Live(s) == LastArray(s))
            && (s.lock == 0 ==> |s.entries| == s.peak)
  {
    var s := Run(threads, steps);
    forall t | 0 <= t < |s.pcs| ensures Sequential(s, t) {}
    DeniedExactly(Trace(threads, steps), steps, |steps|);
  }

  // The same for the entries: they are those of the code, executed one operation at a time in the same order.
  lemma RefinesSequentialCode(threads: nat, steps: seq<Step>, k: nat)
    requires k < |Run(threads, steps).replies|
    ensures var s := Run(threads, steps);
            s.arrays[0] == [] && CodeStep(s.arrays[k], s.order[k].op, s.replies[k], s.arrays[k + 1])
  {
  }

  lemma EarlierReturnEarlierTicket(s: State, t: nat, n: nat, k: nat)
    requires Bounded(s) && Timed(s) && Histories(s) && t < |s.pcs| && n < |s.returned[t]| && k < |s.order|
    requires s.returned[t][n].at <= s.order[k].invoked
    ensures s.returned[t][n].ticket < k
  {
    assert Sequential(s, t) && Answers(s, t, s.calls[t][n], s.returned[t][n]);
    var i := s.returned[t][n].ticket;
    assert s.order[i].acquired < s.order[k].acquired;
  }

  // Linearizability: an operation that returned before another was called comes first in the acquisition order,
  // and every lock is taken between call and return.
  lemma OrderRespectsTime(threads: nat, steps: seq<Step>, t: nat, n: nat)
    requires var s := Run(threads, steps); t < |s.pcs| && n < |s.returned[t]|
    ensures var s := Run(threads, steps);
            var r := s.returned[t][n];
            && Sequential(s, t) && Answers(s, t, s.calls[t][n], r)
            && (forall k :: 0 <= k < |s.order| && r.at <= s.order[k].invoked ==> r.ticket < k)
  {
    var s := Run(threads, steps);
    assert Sequential(s, t);
    forall k | 0 <= k < |s.order| && s.returned[t][n].at <= s.order[k].invoked ensures s.returned[t][n].ticket < k {
      EarlierReturnEarlierTicket(s, t, n, k);
    }
  }

  // The history variable peak is the highest length of all states so far.
  lemma {:induction false} PeakIsHighestLength(states: seq<State>, steps: seq<Step>, n: nat) returns (at: nat)
    requires IsTrace(states, steps) && n <= |steps| && states[0].peak == states[0].length
    ensures at <= n && states[at].length == states[n].peak
    ensures forall i :: 0 <= i <= n ==> states[i].length <= states[n].peak
  {
    if n == 0 {
      at := 0;
    } else {
      at := PeakIsHighestLength(states, steps, n - 1);
      PeakStep(states[n - 1], steps[n - 1], states[n]);
      if states[n].peak != states[n - 1].peak {
        at := n;
      }
    }
  }

  // So whenever the lock is free the capacity is the highest length ever reached.
  lemma CapacityIsHighestLength(threads: nat, steps: seq<Step>) returns (at: nat)
    requires Run(threads, steps).lock == 0
    ensures var states, capacity := Trace(threads, steps), |Run(threads, steps).entries|;
            && at <= |steps| && states[at].length == capacity
            && forall i :: 0 <= i <= |steps| ==> states[i].length <= capacity
  {
    at := PeakIsHighestLength(Trace(threads, steps), steps, |steps|);
  }

  lemma PeakStep(s: State, step: Step, s': State)
    requires Bounded(s) && s' == Next(s, step)
    ensures s'.peak == Max(s.peak, s'.length)
  {
  }

  // ---------- progress ----------

  // How many moves a thread at this position needs at most to free the lock.
  function Remaining(s: State, pc: Pc): (n: nat)
    ensures n <= s.length + 5
  {
    match pc
    case Scanning(_, i) => (if i <= s.length then s.length - i else 0) + 5
    case NotFound(_) => 4
    case Found(_, _) => 3
    case Roomy(_) => 3
    case Written(_) => 2
    case Shrunk(_, _) => 2
    case Leaving(_) => 1
    case _ => 0
  }

  lemma HolderMoves(s: State, t: nat, step: Step, s': State)
    requires Bounded(s) && !s.aborted && t < |s.pcs| && Inside(s.pcs[t]) && s.holder == Some(t)
    requires step.Move? && step.thread == t && s' == Next(s, step)
    ensures s'.lock == 0 ||
            (s'.holder == Some(t) && |s'.pcs| == |s.pcs| && Remaining(s', s'.pcs[t]) < Remaining(s, s.pcs[t]))
  {
  }

  // Nobody else's step keeps the holder from its way.
  lemma OthersMove(s: State, t: nat, step: Step, s': State)
    requires Inv(s) && s.holder == Some(t) && !(step.Move? && step.thread == t) && s' == Next(s, step)
    ensures s'.holder == Some(t) && |s'.pcs| == |s.pcs| && Remaining(s', s'.pcs[t]) == Remaining(s, s.pcs[t])
  {
    assert Inside(s.pcs[t]);
    assert step.thread < |s.pcs| && step.thread != t ==> !Inside(s.pcs[step.thread]);
  }

  ghost function After(s: State, steps: seq<Step>): (s': State)
    requires Inv(s)
    ensures Inv(s')
    decreases |steps|
  {
    if steps == [] then s
    else
      var s1 := Next(s, steps[0]);
      NextKeepsInv(s, steps[0], s1);
      After(s1, steps[1..])
  }

  function MovesOf(t: nat, steps: seq<Step>): nat
    decreases |steps|
  {
    if steps == [] then 0 else Count(steps[0].Move? && steps[0].thread == t) + MovesOf(t, steps[1..])
  }

  lemma HolderStep(s: State, t: nat, step: Step, s': State)
    requires Inv(s) && s.holder == Some(t) && !s.aborted && s' == Next(s, step)
    ensures Inv(s')
    ensures s'.lock == 0 ||
            (s'.holder == Some(t) &&
             Remaining(s, s.pcs[t]) >= Remaining(s', s'.pcs[t]) + Count(step.Move? && step.thread == t))
  {
    assert Inside(s.pcs[t]);
    NextKeepsInv(s, step, s');
    if step.Move? && step.thread == t {
      HolderMoves(s, t, step, s');
    } else {
      OthersMove(s, t, step, s');
    }
  }

  lemma AfterFirst(s: State, steps: seq<Step>, n: nat)
    requires Inv(s) && 0 < n <= |steps|
    ensures Inv(Next(s, steps[0])) && After(s, steps[..n]) == After(Next(s, steps[0]), steps[1..][..n - 1])
  {
    NextKeepsInv(s, steps[0], Next(s, steps[0]));
    assert steps[..n][1..] == steps[1..][..n - 1];
  }

  // From every reachable state, in every interleaving, the lock is free after at most length + 5 moves of its holder,
  // unless a failed allocation has ended the process before.
  lemma {:induction false} HolderGetsOut(s: State, t: nat, steps: seq<Step>) returns (n: nat)
    requires Inv(s) && s.holder == Some(t) && MovesOf(t, steps) >= Remaining(s, s.pcs[t])
    ensures n <= |steps| && (After(s, steps[..n]).lock == 0 || After(s, steps[..n]).aborted)
    decreases |steps|
  {
    assert Inside(s.pcs[t]);
    if s.aborted {
      n := 0;
    } else {
      var s1 := Next(s, steps[0]);
      HolderStep(s, t, steps[0], s1);
      AfterFirst(s, steps, 1);
      if s1.lock == 0 {
        n := 1;
      } else {
        var rest := HolderGetsOut(s1, t, steps[1..]);
        n := rest + 1;
        AfterFirst(s, steps, n);
      }
    }
  }
}
