// Horizontal join of result tables (BenchmarkResultsMerger.java).
module Merger {
  import opened Common
  import opened Results

  datatype ResultTable = ResultTable(names: seq<string>, rows: seq<seq<int>>)

  const NO_COLUMNS: ResultTable := ResultTable([], [])

  predicate Rectangular(t: ResultTable) {
    forall i :: 0 <= i < |t.rows| ==> |t.rows[i]| == |t.names|
  }

  // Every table of results has at least one column; only a merger before its first addition has none.
  predicate WellFormed(t: ResultTable) {
    Rectangular(t) && (t.names == [] ==> t.rows == [])
  }

  // Java's prefix + name, where name may be null.
  function Labelled(prefix: string, name: Option<string>): string {
    prefix + match name case None => "null" case Some(text) => text
  }

  function LabelledAll(prefix: string, names: seq<Option<string>>): (r: seq<string>)
    ensures |r| == |names| && forall i :: 0 <= i < |r| ==> r[i] == Labelled(prefix, names[i])
  {
    seq(|names|, i requires 0 <= i < |names| => Labelled(prefix, names[i]))
  }

  // Row i of the first table followed by row i of the second.
  function SideBySide(left: seq<seq<int>>, right: seq<seq<int>>): (r: seq<seq<int>>)
    requires |left| == |right|
    ensures |r| == |left| && forall i :: 0 <= i < |r| ==> r[i] == left[i] + right[i]
  {
    seq(|left|, i requires 0 <= i < |left| => left[i] + right[i])
  }

  // What addColumns makes of a table: None when the numbers of rows differ.
  function Join(t: ResultTable, names: seq<Option<string>>, rows: seq<seq<int>>, prefix: string): Option<ResultTable>
    requires WellFormed(t)
  {
    if t.names == [] then Some(ResultTable(LabelledAll(prefix, names), rows))
    else if |t.rows| != |rows| then None
    else Some(ResultTable(t.names + LabelledAll(prefix, names), SideBySide(t.rows, rows)))
  }

  // Name i of the joined table, and row i: the existing names stay, each new one is prefixed, null reading "null".
  lemma JoinIs(t: ResultTable, names: seq<Option<string>>, rows: seq<seq<int>>, prefix: string)
    requires WellFormed(t)
    ensures Join(t, names, rows, prefix).None? <==> t.names != [] && |t.rows| != |rows|
    ensures Join(t, names, rows, prefix).Some? ==>
              var v, n := Join(t, names, rows, prefix).value, |t.names|;
              && |v.names| == n + |names| && v.names[..n] == t.names
              && (forall i :: 0 <= i < |names| ==>
                    v.names[n + i] == if names[i].Some? then prefix + names[i].value else prefix + "null")
    ensures Join(t, names, rows, prefix).Some? ==>
              var joined := Join(t, names, rows, prefix).value.rows;
              && (t.names == [] ==> joined == rows)
              && (t.names != [] ==>
                    |joined| == |t.rows| == |rows| && forall i :: 0 <= i < |rows| ==> joined[i] == t.rows[i] + rows[i])
  {
  }

  datatype Added = Done | RowCountsDiffer

  // Arrays.copyOf(a, n) for n not below the length
  method CopyOf(a: array<int>, n: nat) returns (copy: array<int>)
    requires a.Length <= n
    ensures fresh(copy) && copy.Length == n && copy[..a.Length] == a[..]
    ensures forall i :: a.Length <= i < n ==> copy[i] == 0
  {
    copy := new int[n](_ => 0);
    for i := 0 to a.Length
      invariant copy[..i] == a[..i]
      invariant forall j :: a.Length <= j < n ==> copy[j] == 0
    {
      copy[i] := a[i];
    }
  }

  // System.arraycopy(source, 0, target, at, source.length)
  method ArrayCopy(source: array<int>, target: array<int>, at: nat)
    requires at + source.Length <= target.Length && source != target
    modifies target
    ensures target[..at] == old(target[..at])
    ensures target[at..at + source.Length] == source[..]
    ensures target[at + source.Length..] == old(target[at + source.Length..])
  {
    for i := 0 to source.Length
      invariant target[..at] == old(target[..at])
      invariant target[at..at + i] == source[..i]
      invariant target[at + source.Length..] == old(target[at + source.Length..])
    {
      target[at + i] := source[i];
    }
  }

  // A row with the new values behind the existing ones, as a new array.
  method Widened(existing: array<int>, added: array<int>, width: nat) returns (updated: array<int>)
    requires width == existing.Length + added.Length
    ensures fresh(updated) && updated[..] == existing[..] + added[..]
  {
    updated := CopyOf(existing, width);
    ArrayCopy(added, updated, existing.Length);
    assert updated[..] == updated[..existing.Length] + updated[existing.Length..existing.Length + added.Length];
  }

  lemma NothingOnTheLeft(left: seq<seq<int>>, right: seq<seq<int>>)
    requires |left| == |right| && forall i :: 0 <= i < |left| ==> left[i] == []
    ensures SideBySide(left, right) == right
  {
    forall i | 0 <= i < |left| ensures left[i] + right[i] == right[i] {}
  }

  class BenchmarkResultsMerger {
    var events: seq<string>
    var data: seq<array<int>>

    constructor ()
      ensures Valid() && Contents() == NO_COLUMNS
    {
      events, data := [], [];
    }

    ghost function Contents(): ResultTable
      reads this, data
    {
      ResultTable(events, RowsOf(data))
    }

    ghost predicate Valid()
      reads this, data
    {
      WellFormed(Contents())
    }

    method CheckSameRowSize(sizeSoFar: nat, newRowSize: nat) returns (r: Added)
      ensures r.Done? <==> sizeSoFar == newRowSize
    {
      if sizeSoFar != newRowSize {
        return RowCountsDiffer;
      }
      return Done;
    }

    // Every row becomes a new array; neither the old rows nor the added ones are written to.
    method AddColumns(names: seq<Option<string>>, newData: seq<array<int>>, prefix: string) returns (r: Added)
      requires Valid() && names != []
      requires forall i :: 0 <= i < |newData| ==> newData[i].Length == |names|
      modifies this
      ensures Valid()
      ensures match Join(old(Contents()), names, old(RowsOf(newData)), prefix)
              case None => r.RowCountsDiffer? && Contents() == old(Contents())
              case Some(t) => r.Done? && Contents() == t && forall i :: 0 <= i < |data| ==> fresh(data[i])
      ensures r.RowCountsDiffer? <==> |old(events)| > 0 && |old(data)| != |newData|
      ensures r.Done? ==>
        var n := |old(events)|;
        && |events| == n + |names| && events[..n] == old(events)
        && (forall i :: 0 <= i < |names| ==>
              events[n + i] == if names[i].Some? then prefix + names[i].value else prefix + "null")
        && |data| == |newData|
        && (forall i :: 0 <= i < |newData| ==>
              data[i][..] == if n == 0 then old(newData[i][..]) else old(RowsOf(data)[i]) + old(newData[i][..]))
    {
      JoinIs(Contents(), names, RowsOf(newData), prefix);
      if |events| != 0 {
        r := CheckSameRowSize(|data|, |newData|);
        if r.RowCountsDiffer? {
          return;
        }
      }
      ghost var width := |events|;
      AppendNames(names, prefix);
      JoinRows(newData, width);
      r := Done;
    }

    method AppendNames(names: seq<Option<string>>, prefix: string)
      modifies this`events
      ensures events == old(events) + LabelledAll(prefix, names)
    {
      for k := 0 to |names|
        invariant events == old(events) + LabelledAll(prefix, names)[..k]
      {
        events := events + [Labelled(prefix, names[k])];
      }
    }

    // The row half of addColumns, once the names have been added.
    method JoinRows(newData: seq<array<int>>, ghost width: nat)
      requires forall i :: 0 <= i < |data| ==> data[i].Length == width
      requires width == 0 ==> data == []
      requires width != 0 ==> |data| == |newData|
      requires forall i :: 0 <= i < |newData| ==> newData[i].Length == |events| - width
      modifies this`data
      ensures RowsOf(data) == if width == 0 then old(RowsOf(newData))
          else SideBySide(old(RowsOf(data)), old(RowsOf(newData)))
      ensures forall i :: 0 <= i < |data| ==> fresh(data[i])
    {
      MakeRows(|newData|, width);
      ghost var made := RowsOf(data);
      Widen(newData, width);
      assert RowsOf(data) == SideBySide(made, RowsOf(newData));
      if width == 0 {
        NothingOnTheLeft(made, RowsOf(newData));
      }
    }

    // Rows without values when there are no rows yet.
    method MakeRows(n: nat, ghost width: nat)
      requires forall i :: 0 <= i < |data| ==> data[i].Length == width
      requires width == 0 || |data| == n
      requires width == 0 ==> data == []
      modifies this`data
      ensures |data| == n && forall i :: 0 <= i < n ==> data[i].Length == width
      ensures width == 0 ==> forall i :: 0 <= i < n ==> fresh(data[i])
      ensures width != 0 ==> data == old(data)
    {
      if |data| == 0 {
        for i := 0 to n
          invariant |data| == i && (width != 0 ==> data == old(data))
          invariant forall j :: 0 <= j < i ==> fresh(data[j]) && data[j].Length == 0
        {
          var empty := new int[0];
          data := data + [empty];
        }
      }
    }

    // Replaces row after row by a wider copy.
    method Widen(newData: seq<array<int>>, ghost width: nat)
      requires |data| == |newData|
      requires forall i :: 0 <= i < |data| ==> data[i].Length == width && newData[i].Length == |events| - width
      modifies this`data
      ensures |data| == |newData|
      ensures forall i :: 0 <= i < |data| ==> fresh(data[i]) && data[i][..] == old(data[i][..]) + newData[i][..]
    {
      ghost var rows := data;
      for i := 0 to |data|
        invariant |data| == |rows|
        invariant forall j :: 0 <= j < i ==> fresh(data[j]) && data[j][..] == rows[j][..] + newData[j][..]
        invariant forall j :: i <= j < |rows| ==> data[j] == rows[j]
      {
        var updated := Widened(data[i], newData[i], |events|);
        data := data[i := updated];
      }
    }

    // A new last column.
    method AddColumn(values: array<int>, name: string) returns (r: Added)
      requires Valid()
      modifies this
      ensures Valid()
      ensures match Join(old(Contents()), [Some(name)], Column(old(values[..])), "")
              case None => r.RowCountsDiffer? && Contents() == old(Contents())
              case Some(t) => r.Done? && Contents() == t && forall i :: 0 <= i < |data| ==> fresh(data[i])
    {
      if |events| != 0 {
        r := CheckSameRowSize(|data|, values.Length);
        if r.RowCountsDiffer? {
          return;
        }
      }
      r := Done;
      events := events + [name];
      if |data| == 0 {
        FirstColumn(values);
      } else {
        NextColumn(values);
      }
      assert "" + name == name;
      assert [name] == LabelledAll("", [Some(name)]);
      assert RowsOf(data) == if old(events) == [] then Column(values[..])
          else SideBySide(old(RowsOf(data)), Column(values[..]));
    }

    method FirstColumn(values: array<int>)
      requires data == []
      modifies this`data
      ensures |data| == values.Length && forall i :: 0 <= i < |data| ==> fresh(data[i]) && data[i][..] == [values[i]]
    {
      for i := 0 to values.Length
        invariant |data| == i && forall j :: 0 <= j < i ==> fresh(data[j]) && data[j][..] == [values[j]]
      {
        var row := new int[1];
        row[0] := values[i];
        data := data + [row];
      }
    }

    method NextColumn(values: array<int>)
      requires events != [] && |data| == values.Length
      requires forall i :: 0 <= i < |data| ==> data[i].Length == |events| - 1
      modifies this`data
      ensures |data| == values.Length
      ensures forall i :: 0 <= i < |data| ==> fresh(data[i]) && data[i][..] == old(data[i][..]) + [values[i]]
    {
      var columnIndex := |events| - 1;
      ghost var rows := data;
      for i := 0 to values.Length
        invariant |data| == |rows|
        invariant forall j :: 0 <= j < i ==> fresh(data[j]) && data[j][..] == rows[j][..] + [values[j]]
        invariant forall j :: i <= j < |rows| ==> data[j] == rows[j]
      {
        var updated := CopyOf(data[i], columnIndex + 1);
        updated[columnIndex] := values[i];
        assert updated[..] == rows[i][..] + [values[i]];
        data := data[i := updated];
      }
    }

    // toArray(new String[1]): an empty merger reports one null name.
    method GetEventNames() returns (names: seq<Option<string>>)
      ensures names == NamesOf(Contents())
    {
      if events == [] {
        return [None];
      }
      names := [];
      for i := 0 to |events|
        invariant names == NamesOf(Contents())[..i]
      {
        names := names + [Some(events[i])];
      }
    }
  }

  // The rows of a one-column table.
  function Column(values: seq<int>): (r: seq<seq<int>>)
    ensures |r| == |values| && forall i :: 0 <= i < |r| ==> r[i] == [values[i]]
  {
    seq(|values|, i requires 0 <= i < |values| => [values[i]])
  }

  // What getEventNames of a merger with this table returns.
  function NamesOf(t: ResultTable): (r: seq<Option<string>>)
    ensures t.names == [] ==> r == [None]
    ensures t.names != [] ==> |r| == |t.names| && forall i :: 0 <= i < |r| ==> r[i] == Some(t.names[i])
  {
    if t.names == [] then [None] else seq(|t.names|, i requires 0 <= i < |t.names| => Some(t.names[i]))
  }

  // ---------- merging mergers ----------

  // Adding another merger's columns.
  function JoinTable(t: ResultTable, u: ResultTable, prefix: string): Option<ResultTable>
    requires WellFormed(t)
  {
    Join(t, NamesOf(u), u.rows, prefix)
  }

  // The names of the other merger's columns are prefixed, one by one.
  lemma MergedNames(t: ResultTable, u: ResultTable, prefix: string)
    requires WellFormed(t) && u.names != [] && JoinTable(t, u, prefix).Some?
    ensures var names, n := JoinTable(t, u, prefix).value.names, |t.names|;
            && |names| == n + |u.names| && names[..n] == t.names
            && (forall i :: 0 <= i < |u.names| ==> names[n + i] == prefix + u.names[i])
  {
    JoinIs(t, NamesOf(u), u.rows, prefix);
  }

  lemma JoinIsWellFormed(t: ResultTable, u: ResultTable, prefix: string)
    requires WellFormed(t) && WellFormed(u)
    ensures JoinTable(t, u, prefix).Some? ==>
              var joined := JoinTable(t, u, prefix).value; WellFormed(joined) && joined.names != []
  {
  }

  datatype Part = Part(table: ResultTable, prefix: string)

  ghost predicate Parts(parts: seq<Part>) {
    forall i :: 0 <= i < |parts| ==> WellFormed(parts[i].table) && parts[i].table.names != []
  }

  // All parts added one after another; None when one of the additions throws.
  function JoinAll(t: ResultTable, parts: seq<Part>): (r: Option<ResultTable>)
    requires WellFormed(t) && Parts(parts)
    ensures r.Some? ==> WellFormed(r.value) && (parts != [] ==> r.value.names != [])
  {
    if parts == [] then Some(t)
    else
      var last := parts[|parts| - 1];
      match JoinAll(t, parts[..|parts| - 1])
      case None => None
      case Some(u) => JoinIsWellFormed(u, last.table, last.prefix); JoinTable(u, last.table, last.prefix)
  }

  function Relabelled(prefix: string, parts: seq<Part>): (r: seq<Part>)
    requires Parts(parts)
    ensures |r| == |parts| && Parts(r)
    ensures forall i :: 0 <= i < |r| ==> r[i] == Part(parts[i].table, prefix + parts[i].prefix)
  {
    seq(|parts|, i requires 0 <= i < |parts| => Part(parts[i].table, prefix + parts[i].prefix))
  }

  // Adding a merger is adding its parts with concatenated prefixes, including whether it throws.
  lemma {:induction false} MergingAMerger(t: ResultTable, parts: seq<Part>, merged: ResultTable, prefix: string)
    requires WellFormed(t) && Parts(parts) && parts != []
    requires JoinAll(NO_COLUMNS, parts) == Some(merged)
    ensures JoinTable(t, merged, prefix) == JoinAll(t, Relabelled(prefix, parts))
  {
    if |parts| == 1 {
      OnlyPart(t, parts, merged, prefix);
    } else {
      var front := parts[..|parts| - 1];
      var before := JoinAll(NO_COLUMNS, front).value;
      MergingAMerger(t, front, before, prefix);
      LastPart(t, parts, before, merged, prefix);
    }
  }

  lemma OnlyPart(t: ResultTable, parts: seq<Part>, merged: ResultTable, prefix: string)
    requires WellFormed(t) && Parts(parts) && |parts| == 1
    requires JoinAll(NO_COLUMNS, parts) == Some(merged)
    ensures JoinTable(t, merged, prefix) == JoinAll(t, Relabelled(prefix, parts))
  {
    JoinAllLast(NO_COLUMNS, parts);
    JoinAllLast(t, Relabelled(prefix, parts));
    assert JoinAll(NO_COLUMNS, parts[..0]) == Some(NO_COLUMNS);
    assert JoinAll(t, Relabelled(prefix, parts)[..0]) == Some(t);
    OnePart(t, parts[0], merged, prefix);
  }

  lemma LastPart(t: ResultTable, parts: seq<Part>, before: ResultTable, merged: ResultTable, prefix: string)
    requires WellFormed(t) && Parts(parts) && |parts| > 1
    requires JoinAll(NO_COLUMNS, parts) == Some(merged)
    requires JoinAll(NO_COLUMNS, parts[..|parts| - 1]) == Some(before)
    requires JoinTable(t, before, prefix) == JoinAll(t, Relabelled(prefix, parts[..|parts| - 1]))
    ensures JoinTable(t, merged, prefix) == JoinAll(t, Relabelled(prefix, parts))
  {
    var n := |parts| - 1;
    JoinAllLast(NO_COLUMNS, parts);
    JoinAllLast(t, Relabelled(prefix, parts));
    assert Relabelled(prefix, parts)[..n] == Relabelled(prefix, parts[..n]);
    OneMorePart(t, before, parts[n], merged, prefix);
  }

  // The last addition.
  lemma JoinAllLast(t: ResultTable, parts: seq<Part>)
    requires WellFormed(t) && Parts(parts) && parts != []
    ensures var n, before := |parts| - 1, JoinAll(t, parts[..|parts| - 1]);
            JoinAll(t, parts) == if before.None? then None
                                 else JoinTable(before.value, parts[n].table, parts[n].prefix)
  {
  }

  lemma OnePart(t: ResultTable, last: Part, merged: ResultTable, prefix: string)
    requires WellFormed(t) && WellFormed(last.table) && last.table.names != []
    requires JoinTable(NO_COLUMNS, last.table, last.prefix) == Some(merged)
    ensures JoinTable(t, merged, prefix) == JoinTable(t, last.table, prefix + last.prefix)
  {
    LabelTwice(prefix, last.prefix, last.table, merged.names);
  }

  // prefix + (inner + name) == (prefix + inner) + name, name by name
  lemma LabelTwice(prefix: string, inner: string, u: ResultTable, names: seq<string>)
    requires u.names != [] && names == LabelledAll(inner, NamesOf(u))
    ensures LabelledAll(prefix, NamesOf(ResultTable(names, u.rows))) == LabelledAll(prefix + inner, NamesOf(u))
  {
    forall i | 0 <= i < |names|
      ensures Labelled(prefix, Some(names[i])) == Labelled(prefix + inner, Some(u.names[i]))
    {
      assert prefix + (inner + u.names[i]) == (prefix + inner) + u.names[i];
    }
  }

  lemma OneMorePart(t: ResultTable, before: ResultTable, last: Part, merged: ResultTable, prefix: string)
    requires WellFormed(t) && WellFormed(before) && before.names != []
    requires WellFormed(last.table) && last.table.names != []
    requires JoinTable(before, last.table, last.prefix) == Some(merged)
    ensures JoinTable(t, before, prefix).None? ==> JoinTable(t, merged, prefix).None?
    ensures JoinTable(t, before, prefix).Some? ==>
              && WellFormed(JoinTable(t, before, prefix).value)
              && JoinTable(t, merged, prefix) ==
                  JoinTable(JoinTable(t, before, prefix).value, last.table, prefix + last.prefix)
  {
    JoinIsWellFormed(t, before, prefix);
    OneMoreName(before.names, last, merged.names, prefix);
    var mine, added := LabelledAll(prefix, NamesOf(before)), LabelledAll(prefix + last.prefix, NamesOf(last.table));
    assert LabelledAll(prefix, NamesOf(merged)) == mine + added;
    if t.names == [] {
      assert JoinTable(t, merged, prefix) == Some(ResultTable(mine + added, merged.rows));
    } else if |t.rows| == |before.rows| {
      BehindExisting(t, before.rows, last.table.rows, mine, added);
    }
  }

  // Two additions behind an existing table, at once or one after the other.
  lemma BehindExisting(t: ResultTable, first: seq<seq<int>>, second: seq<seq<int>>, mine: seq<string>,
      added: seq<string>)
    requires |t.rows| == |first| == |second|
    ensures ResultTable(t.names + (mine + added), SideBySide(t.rows, SideBySide(first, second))) ==
              ResultTable((t.names + mine) + added, SideBySide(SideBySide(t.rows, first), second))
  {
    assert t.names + (mine + added) == (t.names + mine) + added;
    SideBySideAssociates(t.rows, first, second);
  }

  lemma OneMoreName(names: seq<string>, last: Part, all: seq<string>, prefix: string)
    requires names != [] && last.table.names != []
    requires all == names + LabelledAll(last.prefix, NamesOf(last.table))
    ensures forall t: ResultTable, u: ResultTable :: t.names == names && u.names == all ==>
              LabelledAll(prefix, NamesOf(u)) ==
                  LabelledAll(prefix, NamesOf(t)) + LabelledAll(prefix + last.prefix, NamesOf(last.table))
  {
    LabelTwice(prefix, last.prefix, last.table, LabelledAll(last.prefix, NamesOf(last.table)));
  }

  lemma SideBySideAssociates(a: seq<seq<int>>, b: seq<seq<int>>, c: seq<seq<int>>)
    requires |a| == |b| == |c|
    ensures SideBySide(a, SideBySide(b, c)) == SideBySide(SideBySide(a, b), c)
  {
    forall i | 0 <= i < |a| ensures a[i] + (b[i] + c[i]) == (a[i] + b[i]) + c[i] {}
  }

  // Adding a merger to which nothing has been added is not neutral: it adds a column called prefix + "null",
  // and throws when there are rows.
  lemma EmptyMergerAddsAColumn(t: ResultTable, prefix: string)
    requires WellFormed(t)
    ensures JoinTable(t, NO_COLUMNS, prefix) ==
              if t.rows == [] then Some(ResultTable(t.names + [prefix + "null"], [])) else None
  {
    assert LabelledAll(prefix, [None]) == [prefix + "null"];
    assert t.names == [] ==> t.names + [prefix + "null"] == [prefix + "null"];
    assert t.rows == [] ==> SideBySide(t.rows, []) == [];
  }
}
