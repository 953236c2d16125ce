/**
 Pairing of START and END snapshots in getResults (src/c/measurement.c): two chained linear scans that
 share the sentinel (size_t) -1, against a one-pass automaton, and the optimality of the greedy choice.
 */
module Pairing {
  import opened Common
  import opened Snapshots

  // (size_t) -1
  const NOT_FOUND: nat := 0xFFFF_FFFF_FFFF_FFFF

  type Pair = (nat, nat)

  // The automaton: read the types from index i on; `open` is the START waiting for its END.
  function Scan(kinds: seq<int>, i: nat, open: Option<nat>): seq<Pair>
    requires i <= |kinds|
    decreases |kinds| - i
  {
    if i == |kinds| then []
    else match open
      case None => Scan(kinds, i + 1, if kinds[i] == START then Some(i) else None)
      case Some(s) =>
        if kinds[i] == END then [(s, i)] + Scan(kinds, i + 1, None) else Scan(kinds, i + 1, open)
  }

  function Pairs(kinds: seq<int>): seq<Pair> {
    Scan(kinds, 0, None)
  }

  function Kinds(snapshots: seq<Snapshot>): (r: seq<int>)
    ensures |r| == |snapshots| && forall i :: 0 <= i < |r| ==> r[i] == snapshots[i].kind
  {
    seq(|snapshots|, i requires 0 <= i < |snapshots| => snapshots[i].kind)
  }

  // find_first_matching_snapshot_type
  method FindFirst(snapshots: array<Snapshot>, startIndex: nat, maxIndex: nat, kind: int) returns (r: nat)
    requires maxIndex <= snapshots.Length < NOT_FOUND
    ensures startIndex == NOT_FOUND ==> r == NOT_FOUND
    ensures r != NOT_FOUND ==> startIndex <= r < maxIndex && snapshots[r].kind == kind
    ensures forall j :: startIndex <= j < Min(r, maxIndex) ==> snapshots[j].kind != kind
  {
    if startIndex == NOT_FOUND {
      return NOT_FOUND;
    }
    var i := startIndex;
    while i < maxIndex
      invariant startIndex <= i
      invariant forall j :: startIndex <= j < Min(i, maxIndex) ==> snapshots[j].kind != kind
    {
      if snapshots[i].kind == kind {
        return i;
      }
      i := i + 1;
    }
    return NOT_FOUND;
  }

  lemma {:induction false} SkipToStart(kinds: seq<int>, i: nat, s: nat)
    requires i <= s <= |kinds|
    requires forall j :: i <= j < s ==> kinds[j] != START
    ensures Scan(kinds, i, None) == Scan(kinds, s, None)
    decreases s - i
  {
    if i < s { SkipToStart(kinds, i + 1, s); }
  }

  lemma {:induction false} SkipToEnd(kinds: seq<int>, s: nat, i: nat, e: nat)
    requires i <= e <= |kinds|
    requires forall j :: i <= j < e ==> kinds[j] != END
    ensures Scan(kinds, i, Some(s)) == Scan(kinds, e, Some(s))
    decreases e - i
  {
    if i < e { SkipToEnd(kinds, s, i + 1, e); }
  }

  // One round of the loop of getResults seen by the automaton: the first START from i and the first END after.
  lemma FirstPair(kinds: seq<int>, i: nat, s: nat, e: nat)
    requires i <= s < e < |kinds| && kinds[s] == START && kinds[e] == END
    requires forall j :: i <= j < s ==> kinds[j] != START
    requires forall j :: s <= j < e ==> kinds[j] != END
    ensures Scan(kinds, i, None) == [(s, e)] + Scan(kinds, e + 1, None)
  {
    SkipToStart(kinds, i, s);
    SkipToEnd(kinds, s, s + 1, e);
  }

  // The two chained scans of getResults: NOT_FOUND in the first makes the second NOT_FOUND.
  method NextPair(snapshots: array<Snapshot>, i: nat, maxIndex: nat) returns (startIndex: nat, endIndex: nat)
    requires i < maxIndex <= snapshots.Length < NOT_FOUND
    ensures endIndex == NOT_FOUND ==> Scan(Kinds(snapshots[..maxIndex]), i, None) == []
    ensures endIndex != NOT_FOUND ==>
      && i <= startIndex < endIndex < maxIndex
      && Scan(Kinds(snapshots[..maxIndex]), i, None)
         == [(startIndex, endIndex)] + Scan(Kinds(snapshots[..maxIndex]), endIndex + 1, None)
  {
    startIndex := FindFirst(snapshots, i, maxIndex, START);
    endIndex := FindFirst(snapshots, startIndex, maxIndex, END);
    ghost var kinds := Kinds(snapshots[..maxIndex]);
    if startIndex == NOT_FOUND {
      SkipToStart(kinds, i, maxIndex);
    } else if endIndex == NOT_FOUND {
      SkipToStart(kinds, i, startIndex);
      SkipToEnd(kinds, startIndex, startIndex + 1, maxIndex);
    } else {
      FirstPair(kinds, i, startIndex, endIndex);
    }
  }

  // A measurement: START at s, END at e, s before e.
  predicate IsMeasurement(kinds: seq<int>, p: Pair) {
    p.0 < p.1 < |kinds| && kinds[p.0] == START && kinds[p.1] == END
  }

  predicate Apart(p: Pair, q: Pair) {
    p.1 < q.0 || q.1 < p.0
  }

  // What every element of Scan(kinds, i, open) satisfies.
  predicate Tight(kinds: seq<int>, p: Pair) {
    IsMeasurement(kinds, p) && forall j :: p.0 < j < p.1 ==> kinds[j] != END
  }

  ghost predicate TightFrom(kinds: seq<int>, i: nat, open: Option<nat>, r: seq<Pair>) {
    && (forall k :: 0 <= k < |r| ==> Tight(kinds, r[k]) && i <= r[k].1)
    && (forall k :: 0 <= k < |r| && (k > 0 || open.None?) ==> i <= r[k].0)
    && (open.Some? && r != [] ==> r[0].0 == open.value)
    && (forall k :: 0 < k < |r| ==> r[k - 1].1 < r[k].0)
  }

  lemma PairAndRest(kinds: seq<int>, i: nat, s: nat, rest: seq<Pair>)
    requires TightFrom(kinds, i + 1, None, rest) && Tight(kinds, (s, i))
    ensures TightFrom(kinds, i, Some(s), [(s, i)] + rest)
  {
    var r := [(s, i)] + rest;
    assert forall k :: 0 < k < |r| ==> r[k] == rest[k - 1];
  }

  lemma {:induction false} ScanIsTight(kinds: seq<int>, i: nat, open: Option<nat>)
    requires i <= |kinds|
    requires open.Some? ==> open.value < i && kinds[open.value] == START
    requires open.Some? ==> forall j :: open.value < j < i ==> kinds[j] != END
    ensures TightFrom(kinds, i, open, Scan(kinds, i, open))
    decreases |kinds| - i
  {
    if i < |kinds| {
      if open.None? {
        ScanIsTight(kinds, i + 1, if kinds[i] == START then Some(i) else None);
      } else if kinds[i] == END {
        ScanIsTight(kinds, i + 1, None);
        PairAndRest(kinds, i, open.value, Scan(kinds, i + 1, None));
      } else {
        ScanIsTight(kinds, i + 1, open);
      }
    }
  }

  // The pairs are measurements, in increasing order, pairwise apart, and none has an END strictly inside.
  lemma PairsAreDisjointAndTight(kinds: seq<int>)
    ensures var r := Pairs(kinds);
            && (forall k :: 0 <= k < |r| ==> Tight(kinds, r[k]))
            && (forall k, l :: 0 <= k < l < |r| ==> r[k].1 < r[l].0)
  {
    ScanIsTight(kinds, 0, None);
    var r := Pairs(kinds);
    assert TightFrom(kinds, 0, None, r);
    Increasing(kinds, r);
  }

  lemma {:induction false} Increasing(kinds: seq<int>, r: seq<Pair>)
    requires forall k :: 0 <= k < |r| ==> r[k].0 < r[k].1
    requires forall k :: 0 < k < |r| ==> r[k - 1].1 < r[k].0
    ensures forall k, l :: 0 <= k < l < |r| ==> r[k].1 < r[l].0
  {
    if |r| > 1 {
      Increasing(kinds, r[..|r| - 1]);
      var last := |r| - 1;
      forall k | 0 <= k < last ensures r[k].1 < r[last].0 {
        if k < last - 1 { assert r[..last][k].1 < r[..last][last - 1].0; }
      }
    }
  }

  // Where the search for pair k begins, when that for the first one begins at i.
  function SearchFrom(r: seq<Pair>, k: nat, i: nat): nat
    requires k <= |r|
  {
    if k == 0 then i else r[k - 1].1 + 1
  }

  ghost predicate NoStartBetween(kinds: seq<int>, from: nat, to: nat) {
    forall j :: from <= j < to && j < |kinds| ==> kinds[j] != START
  }

  // No START is passed over on the way to pair k.
  ghost predicate FirstStartAt(kinds: seq<int>, r: seq<Pair>, k: nat, i: nat)
    requires k < |r|
  {
    NoStartBetween(kinds, SearchFrom(r, k, i), r[k].0)
  }

  ghost predicate StartsFrom(kinds: seq<int>, i: nat, open: Option<nat>, r: seq<Pair>) {
    && (open.Some? && r != [] ==> r[0].0 == open.value)
    && (forall k :: 0 <= k < |r| && (k > 0 || open.None?) ==> FirstStartAt(kinds, r, k, i))
  }

  // One type further on that completes no pair.
  lemma StartsFromNext(kinds: seq<int>, i: nat, open: Option<nat>, next: Option<nat>, r: seq<Pair>)
    requires i < |kinds| && StartsFrom(kinds, i + 1, next, r)
    requires if open.Some? then next == open else next == if kinds[i] == START then Some(i) else None
    ensures StartsFrom(kinds, i, open, r)
  {
    forall k | 0 <= k < |r| && (k > 0 || open.None?) ensures FirstStartAt(kinds, r, k, i) {
      if k > 0 || kinds[i] != START {
        assert FirstStartAt(kinds, r, k, i + 1);
      }
    }
  }

  // One that completes a pair.
  lemma StartsFromPair(kinds: seq<int>, i: nat, s: nat, rest: seq<Pair>)
    requires i < |kinds| && StartsFrom(kinds, i + 1, None, rest)
    ensures StartsFrom(kinds, i, Some(s), [(s, i)] + rest)
  {
    var r := [(s, i)] + rest;
    forall k | 0 < k < |r| ensures FirstStartAt(kinds, r, k, i) {
      assert FirstStartAt(kinds, rest, k - 1, i + 1);
    }
  }

  lemma {:induction false} ScanStarts(kinds: seq<int>, i: nat, open: Option<nat>)
    requires i <= |kinds|
    ensures StartsFrom(kinds, i, open, Scan(kinds, i, open))
    decreases |kinds| - i
  {
    if i < |kinds| {
      if open.Some? && kinds[i] == END {
        ScanStarts(kinds, i + 1, None);
        StartsFromPair(kinds, i, open.value, Scan(kinds, i + 1, None));
      } else {
        var next := if open.Some? then open else if kinds[i] == START then Some(i) else None;
        ScanStarts(kinds, i + 1, next);
        StartsFromNext(kinds, i, open, next, Scan(kinds, i + 1, next));
      }
    }
  }

  // Each pair begins with the first START behind the pair before it.
  lemma PairsBeginAtFirstStart(kinds: seq<int>, k: nat)
    requires k < |Pairs(kinds)|
    ensures var r := Pairs(kinds);
            forall j :: (if k == 0 then 0 else r[k - 1].1 + 1) <= j < r[k].0 && j < |kinds| ==> kinds[j] != START
  {
    ScanStarts(kinds, 0, None);
    var r := Pairs(kinds);
    assert FirstStartAt(kinds, r, k, 0);
  }

  // Greedy stays ahead: pairwise disjoint measurements inside i.. are at most as many as the scan finds.
  lemma {:induction false} GreedyIsOptimal(kinds: seq<int>, i: nat, chosen: set<Pair>)
    requires i <= |kinds|
    requires forall p :: p in chosen ==> IsMeasurement(kinds, p) && i <= p.0
    requires forall p, q :: p in chosen && q in chosen && p != q ==> Apart(p, q)
    ensures |chosen| <= |Scan(kinds, i, None)|
    decreases |kinds| - i
  {
    if chosen != {} {
      var some :| some in chosen;
      var s := First(kinds, i, some.0, START);
      var e := First(kinds, s, some.1, END);
      FirstPair(kinds, i, s, e);
      var later := set p | p in chosen && p.0 > e;
      GreedyIsOptimal(kinds, e + 1, later);
      AllButOneAreLater(chosen, e, later);
    }
  }

  // Two disjoint pairs that both reach e cannot both begin at or before e.
  lemma AllButOneAreLater(chosen: set<Pair>, e: nat, later: set<Pair>)
    requires forall p :: p in chosen ==> p.0 < p.1 && p.1 >= e
    requires forall p, q :: p in chosen && q in chosen && p != q ==> Apart(p, q)
    requires forall p :: p in later <==> p in chosen && p.0 > e
    ensures |chosen| <= |later| + 1
  {
    var early := chosen - later;
    forall p, q | p in early && q in early ensures p == q {
      assert p.0 <= e <= q.1 && q.0 <= e <= p.1;
      assert !Apart(p, q);
    }
    AtMostOne(early);
    assert chosen == early + later;
  }

  lemma AtMostOne<T>(s: set<T>)
    requires forall p, q :: p in s && q in s ==> p == q
    ensures |s| <= 1
  {
    if s != {} {
      var p :| p in s;
      assert s == {p};
    }
  }

  lemma First(kinds: seq<int>, i: nat, witnessAt: nat, kind: int) returns (r: nat)
    requires i <= witnessAt < |kinds| && kinds[witnessAt] == kind
    ensures i <= r <= witnessAt && kinds[r] == kind
    ensures forall j :: i <= j < r ==> kinds[j] != kind
    decreases witnessAt - i
  {
    if kinds[i] == kind { r := i; } else { r := First(kinds, i + 1, witnessAt, kind); }
  }

  // The number of rows of getResults is the maximum possible, for every sequence of snapshot types.
  lemma PairsAreMaximum(kinds: seq<int>, chosen: set<Pair>)
    requires forall p :: p in chosen ==> IsMeasurement(kinds, p)
    requires forall p, q :: p in chosen && q in chosen && p != q ==> Apart(p, q)
    ensures |chosen| <= |Pairs(kinds)|
  {
    GreedyIsOptimal(kinds, 0, chosen);
  }

  // Alternating START and END snapshots pair up as (0, 1), (2, 3), ...
  lemma {:induction false} AlternatingPairs(kinds: seq<int>, i: nat)
    requires 2 * i <= |kinds| && |kinds| % 2 == 0
    requires forall j :: 0 <= j < |kinds| ==> kinds[j] == if j % 2 == 0 then START else END
    ensures var r := Scan(kinds, 2 * i, None);
            |r| == |kinds| / 2 - i && forall k :: 0 <= k < |r| ==> r[k] == (2 * (i + k), 2 * (i + k) + 1)
    decreases |kinds| - 2 * i
  {
    if 2 * i < |kinds| {
      assert 2 * i + 1 < |kinds|;
      FirstPair(kinds, 2 * i, 2 * i, 2 * i + 1);
      AlternatingPairs(kinds, i + 1);
    }
  }
}
