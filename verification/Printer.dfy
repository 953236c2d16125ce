/**
 The printing loops (BenchmarkResultsPrinter.java), on a stream that collects its text. Event names may be null,
 as they are in an empty merger.
 */
module Printer {
  import opened Common
  import opened Decimal
  import opened Merger
  import opened Csv
  import opened Aligned

  class PrintStream {
    var text: string

    constructor ()
      ensures text == ""
    {
      text := "";
    }

    method Append(s: string)
      modifies this
      ensures text == old(text) + s
    {
      text := text + s;
    }
  }

  // The fields, separated, and a newline.
  method AppendFields(fields: seq<string>, stream: PrintStream, separator: string)
    modifies stream
    ensures stream.text == old(stream.text) + Joined(fields, separator) + NEWLINE
  {
    for i := 0 to |fields|
      invariant stream.text == old(stream.text) + Joined(fields[..i], separator)
    {
      JoinedAppend(fields[..i], fields[i], separator);
      assert fields[..i + 1] == fields[..i] + [fields[i]];
      if i > 0 {
        stream.Append(separator);
      }
      stream.Append(fields[i]);
    }
    assert fields[..|fields|] == fields;
    stream.Append(NEWLINE);
  }

  // One more line behind what is already there.
  lemma LineDone(before: string, lines: seq<string>, k: nat)
    requires k < |lines|
    ensures before + Ended(lines[..k]) + lines[k] + NEWLINE == before + Ended(lines[..k + 1])
  {
    EndedAppend(lines[..k], lines[k]);
    assert lines[..k + 1] == lines[..k] + [lines[k]];
    Regroup(before, Ended(lines[..k]), lines[k], NEWLINE);
  }

  lemma Regroup(a: string, b: string, c: string, d: string)
    ensures a + b + c + d == a + (b + c + d)
  {
  }

  lemma AllLinesDone(lines: seq<string>)
    ensures Ended(lines[..|lines|]) == Ended(lines)
  {
    assert lines[..|lines|] == lines;
  }

  lemma HeaderAndRows(before: string, header: string, lines: seq<string>)
    ensures before + header + NEWLINE + Ended(lines) == before + Ended([header] + lines)
    ensures Ended([] + lines) == Ended(lines)
  {
    assert ([header] + lines)[1..] == lines && [] + lines == lines;
    Regroup(before, header, NEWLINE, Ended(lines));
  }

  lemma Nothing(before: string)
    ensures before + "" == before
  {
  }

  method AppendCsvRows(rows: seq<seq<int>>, stream: PrintStream, separator: string)
    modifies stream
    ensures stream.text == old(stream.text) + Ended(RowLines(rows, separator))
  {
    ghost var lines := RowLines(rows, separator);
    Nothing(stream.text);
    for i := 0 to |rows|
      invariant stream.text == old(stream.text) + Ended(lines[..i])
    {
      LineDone(old(stream.text), lines, i);
      AppendFields(Texts(rows[i]), stream, separator);
    }
    AllLinesDone(lines);
  }

  // A null name is appended as null.
  method ToCsv(names: seq<Option<string>>, rows: seq<seq<int>>, stream: PrintStream, separator: string,
               printHeader: bool)
    modifies stream
    ensures stream.text == old(stream.text) +
                           CsvText(ResultTable(LabelledAll("", names), rows), separator, printHeader)
  {
    if printHeader {
      AppendFields(LabelledAll("", names), stream, separator);
    }
    AppendCsvRows(rows, stream, separator);
    HeaderAndRows(old(stream.text), Joined(LabelledAll("", names), separator), RowLines(rows, separator));
  }

  // The width of a column, recycled.
  method WidthOf(columnWidths: seq<int>, index: nat, columns: nat) returns (width: int)
    requires Enough(columnWidths, columns) && index < columns
    ensures width == Recycled(columnWidths, columns)[index]
  {
    RecycledAt(columnWidths, columns, index);
    width := columnWidths[index % |columnWidths|];
  }

  method AppendHeader(names: seq<string>, stream: PrintStream, columnWidths: seq<int>)
    requires Enough(columnWidths, |names|)
    modifies stream
    ensures stream.text == old(stream.text) + HeaderLine(names, columnWidths) + NEWLINE
  {
    ghost var all := Recycled(columnWidths, |names|);
    ghost var cells := HeaderCells(names, all);
    Nothing(stream.text);
    for index := 0 to |names|
      invariant stream.text == old(stream.text) + Line(cells[..index], all[..index])
    {
      var width := WidthOf(columnWidths, index, |names|);
      var nameBeginning := names[index][..Min(|names[index]|, width - 1)];
      LineStep(old(stream.text), cells, all, index);
      stream.Append(Padded(nameBeginning, width));
    }
    LineComplete(cells, all);
    stream.Append(NEWLINE);
  }

  // A format of a width pads the decimal text of the value.
  method AppendRow(row: seq<int>, stream: PrintStream, formats: seq<int>)
    requires Enough(formats, |row|)
    modifies stream
    ensures stream.text == old(stream.text) + RowLine(row, formats) + NEWLINE
  {
    ghost var all, cells := Recycled(formats, |row|), Texts(row);
    Nothing(stream.text);
    for index := 0 to |row|
      invariant stream.text == old(stream.text) + Line(cells[..index], all[..index])
    {
      LineStep(old(stream.text), cells, all, index);
      var width := WidthOf(formats, index, |row|);
      stream.Append(Padded(Text(row[index]), width));
    }
    LineComplete(cells, all);
    stream.Append(NEWLINE);
  }

  method AppendRows(rows: seq<seq<int>>, stream: PrintStream, formats: seq<int>)
    requires EnoughForAll(formats, rows)
    modifies stream
    ensures stream.text == old(stream.text) + Ended(AlignedLines(rows, formats))
  {
    ghost var lines := AlignedLines(rows, formats);
    Nothing(stream.text);
    for i := 0 to |rows|
      invariant stream.text == old(stream.text) + Ended(lines[..i])
    {
      LineDone(old(stream.text), lines, i);
      AppendRow(rows[i], stream, formats);
    }
    AllLinesDone(lines);
  }

  // Names are looked at only when the header is printed, and must then not be null.
  method Table(names: seq<Option<string>>, rows: seq<seq<int>>, stream: PrintStream, columnWidths: seq<int>,
               printHeader: bool)
    requires EnoughForAll(columnWidths, rows)
    requires printHeader ==> None !in names && Enough(columnWidths, |names|)
    modifies stream
    ensures stream.text == old(stream.text) +
                           TableText(ResultTable(LabelledAll("", names), rows), columnWidths, printHeader)
  {
    var shown := LabelledAll("", names);
    if printHeader {
      AppendHeader(shown, stream, columnWidths);
      HeaderAndRows(old(stream.text), HeaderLine(shown, columnWidths), AlignedLines(rows, columnWidths));
    } else {
      HeaderAndRows(old(stream.text), "", AlignedLines(rows, columnWidths));
    }
    AppendRows(rows, stream, columnWidths);
  }

  // The running maximum, carried on over one more row.
  method MaxInRow(row: seq<int>, before: int) returns (maxValue: int)
    requires before >= 0
    ensures maxValue == Max(before, Largest(row))
  {
    maxValue := before;
    for j := 0 to |row|
      invariant maxValue == Max(before, Largest(row[..j]))
    {
      LargestStep(row, j);
      if row[j] > maxValue {
        maxValue := row[j];
      }
    }
    assert row[..|row|] == row;
  }

  // The running maximum over all rows, from 0.
  method MaxValue(rows: seq<seq<int>>) returns (maxValue: int)
    ensures maxValue == LargestOf(rows)
  {
    maxValue := 0;
    for i := 0 to |rows|
      invariant maxValue == LargestOf(rows[..i])
    {
      LargestOfStep(rows, i);
      maxValue := MaxInRow(rows[i], maxValue);
    }
    assert rows[..|rows|] == rows;
  }

  // None: the NullPointerException of a null name.
  method GetOptimalColumnWidths(names: seq<Option<string>>, rows: seq<seq<int>>) returns (widths: Option<seq<int>>)
    ensures widths.None? <==> None in names
    ensures widths.Some? ==> widths.value == OptimalWidths(ResultTable(LabelledAll("", names), rows))
  {
    var maxValue := MaxValue(rows);
    var minWidth := |Text(maxValue)|;
    widths := FillWidths(names, minWidth);
    if widths.Some? {
      AreOptimal(ResultTable(LabelledAll("", names), rows), widths.value, minWidth);
    }
  }

  method FillWidths(names: seq<Option<string>>, minWidth: nat) returns (widths: Option<seq<int>>)
    ensures widths.None? <==> None in names
    ensures widths.Some? ==>
      && |widths.value| == |names|
      && forall i :: 0 <= i < |names| ==> widths.value[i] == Max(|LabelledAll("", names)[i]|, minWidth) + 1
  {
    var filled: seq<int> := [];
    for i := 0 to |names|
      invariant |filled| == i && None !in names[..i]
      invariant forall k :: 0 <= k < i ==> filled[k] == Max(|LabelledAll("", names)[k]|, minWidth) + 1
    {
      match names[i] {
        case None => return None;
        case Some(name) =>
          assert LabelledAll("", names)[i] == "" + name == name;
          filled := filled + [Max(|name|, minWidth) + 1];
      }
    }
    return Some(filled);
  }

  // The table with the widths that fit it; nothing is printed when a name is null.
  method AdaptiveTable(names: seq<Option<string>>, rows: seq<seq<int>>, stream: PrintStream) returns (printed: bool)
    requires names == [] ==> forall i :: 0 <= i < |rows| ==> rows[i] == []
    modifies stream
    ensures printed <==> None !in names
    ensures var t := ResultTable(LabelledAll("", names), rows);
            stream.text == old(stream.text) + if printed then TableText(t, OptimalWidths(t), true) else ""
  {
    var widths := GetOptimalColumnWidths(names, rows);
    match widths {
      case None => return false;
      case Some(columnWidths) =>
        Table(names, rows, stream, columnWidths, true);
        return true;
    }
  }
}
