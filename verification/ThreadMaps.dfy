/**
 The map from Java thread ids to native thread ids: its meaning as a finite map, the atomic operations on it,
 and the sequential code on a growable array (src/c/threads.c).
 */
module ThreadMaps {
  import opened Common

  datatype Entry = Entry(java: int, native: int)

  // UBENCH_THREAD_ID_INVALID
  const INVALID: int := -1

  type Bindings = map<int, int>

  datatype Op = Register(java: int, native: int) | Unregister(native: int) | Lookup(java: int)

  datatype Reply = Added | Exists | NoMemory | Removed | Missing | Native(id: int)

  // One atomic operation on the finite map. Unregister removes exactly one binding with the native id.
  ghost predicate AtomicStep(m: Bindings, op: Op, reply: Reply, m': Bindings) {
    match op
    case Register(java, native) =>
      if java in m then reply == Exists && m' == m
      else (reply == Added && m' == m[java := native]) || (reply == NoMemory && m' == m)
    case Unregister(native) =>
      if native in m.Values
      then reply == Removed && exists java :: java in m && m[java] == native && m' == m - {java}
      else reply == Missing && m' == m
    case Lookup(java) =>
      reply == Native(if java in m then m[java] else INVALID) && m' == m
  }

  // What the linear search of an operation looks for.
  predicate Matches(op: Op, e: Entry) {
    match op
    case Register(java, _) => e.java == java
    case Unregister(native) => e.native == native
    case Lookup(java) => e.java == java
  }

  // ---------- entries as a finite map ----------

  ghost predicate DistinctJava(es: seq<Entry>) {
    forall i, j :: 0 <= i < j < |es| ==> es[i].java != es[j].java
  }

  function Abs(es: seq<Entry>): Bindings {
    if es == [] then map[] else Abs(es[..|es| - 1])[es[|es| - 1].java := es[|es| - 1].native]
  }

  ghost predicate Represents(es: seq<Entry>, m: Bindings) {
    && (forall i :: 0 <= i < |es| ==> es[i].java in m && m[es[i].java] == es[i].native)
    && (forall java :: java in m ==> exists i :: 0 <= i < |es| && es[i].java == java)
  }

  lemma {:induction false} AbsRepresents(es: seq<Entry>)
    requires DistinctJava(es)
    ensures Represents(es, Abs(es))
  {
    if es != [] {
      var n := |es| - 1;
      AbsRepresents(es[..n]);
      forall java | java in Abs(es) ensures exists i :: 0 <= i < |es| && es[i].java == java {
        if java == es[n].java {
          assert es[n].java == java;
        } else {
          var i :| 0 <= i < n && es[..n][i].java == java;
          assert es[i].java == java;
        }
      }
    }
  }

  lemma RepresentsOne(es: seq<Entry>, m: Bindings, m': Bindings)
    requires Represents(es, m) && Represents(es, m')
    ensures m == m'
  {
    assert m.Keys == m'.Keys by {
      forall java | java in m ensures java in m' {
        var i :| 0 <= i < |es| && es[i].java == java;
      }
      forall java | java in m' ensures java in m {
        var i :| 0 <= i < |es| && es[i].java == java;
      }
    }
    forall java | java in m ensures m[java] == m'[java] {
      var i :| 0 <= i < |es| && es[i].java == java;
    }
  }

  // Swap-with-last removal of entry i.
  function SwapRemoved(es: seq<Entry>, i: nat): seq<Entry>
    requires i < |es|
  {
    es[i := es[|es| - 1]][..|es| - 1]
  }

  lemma SwapRemovedParts(es: seq<Entry>, i: nat)
    requires i < |es| - 1
    ensures var n := |es| - 1;
            && es == es[..i] + [es[i]] + es[i + 1..n] + [es[n]]
            && SwapRemoved(es, i) == es[..i] + [es[n]] + es[i + 1..n]
  {
  }

  lemma RemovedByOne(es: seq<Entry>, i: nat)
    requires i < |es|
    ensures multiset(SwapRemoved(es, i)) == multiset(es) - multiset{es[i]}
  {
    var n := |es| - 1;
    if i == n {
      assert es == es[..n] + [es[n]] && SwapRemoved(es, i) == es[..n];
    } else {
      SwapRemovedParts(es, i);
      SameParts(es[..i], es[i], es[i + 1..n], es[n]);
    }
  }

  lemma SameParts(front: seq<Entry>, removed: Entry, back: seq<Entry>, last: Entry)
    ensures multiset(front + [last] + back) == multiset(front + [removed] + back + [last]) - multiset{removed}
  {
    var rest := multiset(front) + multiset(back);
    assert multiset(front + [last] + back) == rest + multiset{last};
    assert multiset(front + [removed] + back + [last]) == rest + multiset{removed} + multiset{last};
  }

  // Appending and swap-removing change the entries by exactly one.
  lemma EntriesChangeByOne(es: seq<Entry>, e: Entry, i: nat)
    ensures multiset(es + [e]) == multiset(es) + multiset{e}
    ensures i < |es| ==> multiset(SwapRemoved(es, i)) == multiset(es) - multiset{es[i]}
  {
    if i < |es| {
      RemovedByOne(es, i);
    }
  }

  // Position of the first entry with a native id, or the length.
  function FirstNative(es: seq<Entry>, native: int): (i: nat)
    ensures i <= |es| && (i < |es| ==> es[i].native == native)
    ensures forall j :: 0 <= j < i ==> es[j].native != native
  {
    if es == [] || es[0].native == native then 0 else 1 + FirstNative(es[1..], native)
  }

  // What the removal of a native id leaves: the first entry with it goes, if there is one.
  function Unregistered(es: seq<Entry>, native: int): seq<Entry> {
    var i := FirstNative(es, native);
    if i < |es| then SwapRemoved(es, i) else es
  }

  lemma {:induction false} FirstNativeIs(es: seq<Entry>, native: int, i: nat)
    requires i <= |es| && (i < |es| ==> es[i].native == native)
    requires forall j :: 0 <= j < i ==> es[j].native != native
    ensures FirstNative(es, native) == i
  {
    if i > 0 { FirstNativeIs(es[1..], native, i - 1); }
  }

  predicate HasJava(es: seq<Entry>, java: int) {
    exists i :: 0 <= i < |es| && es[i].java == java
  }

  // What an operation of the code leaves of the entries, when there is memory: register appends, unregister removes
  // the first match.
  function Applied(es: seq<Entry>, op: Op): seq<Entry> {
    match op
    case Register(java, native) => if HasJava(es, java) then es else es + [Entry(java, native)]
    case Unregister(native) => Unregistered(es, native)
    case Lookup(_) => es
  }

  // One operation of the code: an atomic operation on the finite map, with exactly these entries.
  ghost predicate CodeStep(es: seq<Entry>, op: Op, reply: Reply, es': seq<Entry>) {
    && DistinctJava(es') && AtomicStep(Abs(es), op, reply, Abs(es'))
    && es' == if reply.NoMemory? then es else Applied(es, op)
  }

  // Where the entries are after a removal.
  lemma SwapRemovedAt(es: seq<Entry>, i: nat, k: nat)
    requires i < |es| && k < |es| - 1
    ensures SwapRemoved(es, i)[k] == es[if k == i then |es| - 1 else k]
  {
  }

  lemma SwapRemovedDistinct(es: seq<Entry>, i: nat)
    requires DistinctJava(es) && i < |es|
    ensures DistinctJava(SwapRemoved(es, i))
  {
    var es' := SwapRemoved(es, i);
    forall j, k | 0 <= j < k < |es'| ensures es'[j].java != es'[k].java {
      SwapRemovedAt(es, i, j);
      SwapRemovedAt(es, i, k);
    }
  }

  lemma SwapRemovedRepresents(es: seq<Entry>, i: nat, m: Bindings)
    requires DistinctJava(es) && i < |es| && Represents(es, m)
    ensures Represents(SwapRemoved(es, i), m - {es[i].java})
  {
    var n, es', m' := |es| - 1, SwapRemoved(es, i), m - {es[i].java};
    forall k | 0 <= k < |es'| ensures es'[k].java in m' && m'[es'[k].java] == es'[k].native {
      SwapRemovedAt(es, i, k);
    }
    forall java | java in m' ensures exists k :: 0 <= k < |es'| && es'[k].java == java {
      var k :| 0 <= k < |es| && es[k].java == java;
      var at := if k == n then i else k;
      SwapRemovedAt(es, i, at);
      assert es'[at].java == java;
    }
  }

  lemma SwapRemovedAbs(es: seq<Entry>, i: nat)
    requires DistinctJava(es) && i < |es|
    ensures DistinctJava(SwapRemoved(es, i)) && Abs(SwapRemoved(es, i)) == Abs(es) - {es[i].java}
  {
    AbsRepresents(es);
    SwapRemovedDistinct(es, i);
    SwapRemovedRepresents(es, i, Abs(es));
    AbsRepresents(SwapRemoved(es, i));
    RepresentsOne(SwapRemoved(es, i), Abs(es) - {es[i].java}, Abs(SwapRemoved(es, i)));
  }

  // The search that found nothing, and the one that found entry i, in terms of the map.
  lemma SearchMeans(es: seq<Entry>, op: Op)
    requires DistinctJava(es)
    ensures (forall i :: 0 <= i < |es| ==> !Matches(op, es[i])) ==>
              match op
              case Register(java, _) => java !in Abs(es)
              case Unregister(native) => native !in Abs(es).Values
              case Lookup(java) => java !in Abs(es)
    ensures forall i :: 0 <= i < |es| && Matches(op, es[i]) ==>
              match op
              case Register(java, _) => java in Abs(es)
              case Unregister(native) => native in Abs(es).Values && es[i].java in Abs(es) &&
                  Abs(es)[es[i].java] == native
              case Lookup(java) => java in Abs(es) && Abs(es)[java] == es[i].native
  {
    AbsRepresents(es);
  }

  lemma AppendedStep(es: seq<Entry>, java: int, native: int)
    requires DistinctJava(es) && forall i :: 0 <= i < |es| ==> es[i].java != java
    ensures CodeStep(es, Register(java, native), Added, es + [Entry(java, native)])
  {
    SearchMeans(es, Register(java, native));
    assert java !in Abs(es);
    var es' := es + [Entry(java, native)];
    assert es'[..|es|] == es && es'[|es|] == Entry(java, native);
    assert Abs(es') == Abs(es)[java := native];
  }

  lemma RemovedStep(es: seq<Entry>, native: int, i: nat)
    requires DistinctJava(es) && i < |es| && i == FirstNative(es, native)
    ensures CodeStep(es, Unregister(native), Removed, SwapRemoved(es, i))
  {
    SearchMeans(es, Unregister(native));
    SwapRemovedAbs(es, i);
    assert es[i].java in Abs(es) && Abs(es)[es[i].java] == native;
  }

  // An operation that changes nothing: a failed search, a failed allocation, a lookup.
  lemma UnchangedStep(es: seq<Entry>, op: Op, reply: Reply, found: Option<nat>)
    requires DistinctJava(es)
    requires match found
             case Some(i) => i < |es| && Matches(op, es[i])
             case None => forall i :: 0 <= i < |es| ==> !Matches(op, es[i])
    requires match op
             case Register(_, _) => reply == if found.Some? then Exists else NoMemory
             case Unregister(_) => found.None? && reply == Missing
             case Lookup(_) => reply == Native(if found.Some? then es[found.value].native else INVALID)
    ensures CodeStep(es, op, reply, es)
  {
    SearchMeans(es, op);
    if op.Unregister? {
      FirstNativeIs(es, op.native, |es|);
    }
  }

  // ---------- the sequential code ----------

  class ThreadMap {
    var length: nat
    var entries: array<Entry>
    ghost var peak: nat  // the highest length ever reached

    constructor ()
      ensures Valid() && Contents() == [] && Capacity() == 0 && fresh(entries)
    {
      length := 0;
      peak := 0;
      entries := new Entry[0];
    }

    ghost predicate Consistent()
      reads this, entries
    {
      length <= entries.Length && DistinctJava(entries[..length])
    }

    // Between calls the capacity is the highest length ever reached.
    ghost predicate Valid()
      reads this, entries
    {
      Consistent() && length <= peak == Capacity()
    }

    ghost function Contents(): seq<Entry>
      requires Consistent()
      reads this, entries
    {
      entries[..length]
    }

    function Capacity(): nat
      reads this
    {
      entries.Length
    }

    // thread_map_index_of with the predicate of the operation
    method IndexOf(op: Op) returns (index: int)
      requires Valid()
      ensures -1 <= index < length
      ensures index >= 0 ==> Matches(op, entries[index])
      ensures forall i :: 0 <= i < (if index >= 0 then index else length) ==> !Matches(op, entries[i])
    {
      for i := 0 to length
        invariant forall j :: 0 <= j < i ==> !Matches(op, entries[j])
      {
        if Matches(op, entries[i]) {
          return i;
        }
      }
      return -1;
    }

    // realloc to exactly the required capacity; the cells beyond the old ones hold anything.
    method EnsureCapacity(required: nat, memory: bool) returns (ok: bool)
      requires Valid()
      modifies this`entries
      ensures Consistent() && Contents() == old(Contents())
      ensures ok <==> required <= old(Capacity()) || memory
      ensures Capacity() == if ok then Max(old(Capacity()), required) else old(Capacity())
      ensures entries == old(entries) || fresh(entries)
    {
      if entries.Length < required {
        if !memory {
          return false;
        }
        var oldEntries, newEntries := entries, new Entry[required];
        for i := 0 to oldEntries.Length
          invariant newEntries[..i] == oldEntries[..i]
        {
          newEntries[i] := oldEntries[i];
        }
        assert newEntries[..length] == newEntries[..oldEntries.Length][..length];
        entries := newEntries;
      }
      return true;
    }

    method PutJavaThread(java: int, native: int, memory: bool) returns (r: Reply)
      requires Valid()
      modifies this, entries
      ensures Valid() && (entries == old(entries) || fresh(entries))
      ensures CodeStep(old(Contents()), Register(java, native), r, Contents())
      ensures r.NoMemory? <==> !HasJava(old(Contents()), java) && old(length == Capacity()) && !memory
      ensures peak == Max(old(peak), length)
    {
      var op := Register(java, native);
      var index := IndexOf(op);
      if index >= 0 {
        UnchangedStep(Contents(), op, Exists, Some(index));
        return Exists;
      }
      var ok := EnsureCapacity(length + 1, memory);
      if !ok {
        UnchangedStep(Contents(), op, NoMemory, None);
        return NoMemory;
      }
      AppendedStep(Contents(), java, native);
      AppendEntry(Entry(java, native));
      return Added;
    }

    // Fills the cell behind the last entry.
    method AppendEntry(e: Entry)
      requires Consistent() && length < Capacity() && Capacity() == Max(peak, length + 1)
      requires forall i :: 0 <= i < length ==> entries[i].java != e.java
      modifies this`length, this`peak, entries
      ensures Valid() && Contents() == old(Contents()) + [e] && peak == Max(old(peak), length)
    {
      entries[length] := e;
      length := length + 1;
      peak := Max(peak, length);
      assert entries[..length] == old(Contents()) + [e];
    }

    method RemoveNativeThread(native: int) returns (r: Reply)
      requires Valid()
      modifies this`length, entries
      ensures Valid() && peak == old(peak)
      ensures CodeStep(old(Contents()), Unregister(native), r, Contents())
    {
      var op := Unregister(native);
      var index := IndexOf(op);
      if index < 0 {
        UnchangedStep(Contents(), op, Missing, None);
        return Missing;
      }
      FirstNativeIs(Contents(), native, index);
      RemovedStep(Contents(), native, index);
      length := length - 1;
      entries[index] := entries[length];
      assert entries[..length] == SwapRemoved(old(Contents()), index);
      return Removed;
    }

    method NativeId(java: int) returns (r: Reply)
      requires Valid()
      ensures CodeStep(Contents(), Lookup(java), r, Contents())
    {
      var op := Lookup(java);
      var index := IndexOf(op);
      r := Native(if index >= 0 then entries[index].native else INVALID);
      UnchangedStep(Contents(), op, r, if index >= 0 then Some(index) else None);
    }
  }
}
