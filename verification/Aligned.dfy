/**
 The aligned text of a result table: padded cells, recycled column widths and the widths that fit the table
 (BenchmarkResultsPrinter.java).
 */
module Aligned {
  import opened Common
  import opened Decimal
  import opened Merger
  import opened Csv

  // String.format("%5s", s): padded on the left, never cut.
  function Padded(s: string, width: int): (r: string)
    ensures |r| == Max(|s|, width)
  {
    if |s| >= width then s else Blanks(width - |s|) + s
  }

  function Blanks(n: nat): (r: string)
    ensures |r| == n
  {
    if n == 0 then "" else " " + Blanks(n - 1)
  }

  lemma {:induction false} BlanksAt(n: nat, p: nat)
    requires p < n
    ensures Blanks(n)[p] == ' '
  {
    if p > 0 { BlanksAt(n - 1, p - 1); }
  }

  // Right-aligned: spaces in front of the text.
  lemma PaddedAt(s: string, width: int, p: nat)
    requires |s| <= width && p < width
    ensures Padded(s, width)[p] == if p < width - |s| then ' ' else s[p - (width - |s|)]
  {
    if p < width - |s| { BlanksAt(width - |s|, p); }
  }

  // Column widths: all positive.
  predicate Positive(ws: seq<int>) {
    forall i :: 0 <= i < |ws| ==> ws[i] >= 1
  }

  // The widths are recycled when there are more columns; without widths there must be no columns.
  predicate Enough(ws: seq<int>, columns: nat) {
    Positive(ws) && (ws == [] ==> columns == 0)
  }

  function Recycled(ws: seq<int>, columns: nat): (r: seq<int>)
    requires Enough(ws, columns)
    ensures |r| == columns && Positive(r)
  {
    if columns <= |ws| then ws[..columns] else ws + Recycled(ws, columns - |ws|)
  }

  // The index that the loops compute with a remainder.
  lemma {:induction false} RecycledAt(ws: seq<int>, columns: nat, i: nat)
    requires Enough(ws, columns) && i < columns
    ensures 0 < |ws| && i % |ws| < |ws| && Recycled(ws, columns)[i] == ws[i % |ws|]
  {
    if i < |ws| {
      SmallRemainder(i, |ws|);
    } else {
      RecycledAt(ws, columns - |ws|, i - |ws|);
      OneMoreRound(i, |ws|);
    }
  }

  lemma SmallRemainder(i: nat, n: nat)
    requires i < n
    ensures i % n == i
  {
  }

  lemma OneMoreRound(i: nat, n: nat)
    requires 0 < n <= i
    ensures (i - n) % n == i % n
  {
    var q, r := i / n, i % n;
    assert i == q * n + r && q >= 1;
    assert (q - 1) * n + r == i - n;
    SameRemainder(r, q - 1, n);
  }

  lemma SameRemainder(r: nat, q: nat, n: nat)
    requires r < n
    ensures (q * n + r) % n == r
  {
    var d: int := (q * n + r) / n - q;
    var multiple: int := d * n;
    assert (q * n + r) % n == r - multiple;
    assert multiple < n && multiple > 0 - n;
  }

  function Line(cells: seq<string>, ws: seq<int>): string
    requires |ws| == |cells|
  {
    if cells == [] then ""
    else
      var n := |cells| - 1;
      Line(cells[..n], ws[..n]) + Padded(cells[n], ws[n])
  }

  // One more cell behind what is already there, as the loops append them.
  lemma LineStep(before: string, cells: seq<string>, ws: seq<int>, k: nat)
    requires |ws| == |cells| && k < |cells|
    ensures before + Line(cells[..k], ws[..k]) + Padded(cells[k], ws[k]) == before + Line(cells[..k + 1], ws[..k + 1])
  {
    assert cells[..k + 1][..k] == cells[..k] && ws[..k + 1][..k] == ws[..k];
    Associates(before, Line(cells[..k], ws[..k]), Padded(cells[k], ws[k]));
  }

  lemma LineComplete(cells: seq<string>, ws: seq<int>)
    requires |ws| == |cells|
    ensures Line(cells[..|cells|], ws[..|cells|]) == Line(cells, ws)
  {
    assert cells[..|cells|] == cells && ws[..|cells|] == ws;
  }

  // A header is cut to one less than the width of its column.
  function Beginning(name: string, width: int): string
    requires width >= 1
  {
    name[..Min(|name|, width - 1)]
  }

  function HeaderCells(names: seq<string>, ws: seq<int>): (r: seq<string>)
    requires |ws| == |names| && Positive(ws)
    ensures |r| == |names| && forall i :: 0 <= i < |r| ==> r[i] == Beginning(names[i], ws[i])
  {
    seq(|names|, i requires 0 <= i < |names| => Beginning(names[i], ws[i]))
  }

  function HeaderLine(names: seq<string>, ws: seq<int>): string
    requires Enough(ws, |names|)
  {
    var all := Recycled(ws, |names|);
    Line(HeaderCells(names, all), all)
  }

  function RowLine(row: seq<int>, ws: seq<int>): string
    requires Enough(ws, |row|)
  {
    Line(Texts(row), Recycled(ws, |row|))
  }

  predicate EnoughForAll(ws: seq<int>, rows: seq<seq<int>>) {
    Positive(ws) && forall i :: 0 <= i < |rows| ==> Enough(ws, |rows[i]|)
  }

  function AlignedLines(rows: seq<seq<int>>, ws: seq<int>): (r: seq<string>)
    requires EnoughForAll(ws, rows)
    ensures |r| == |rows| && forall i :: 0 <= i < |r| ==> r[i] == RowLine(rows[i], ws)
  {
    seq(|rows|, i requires 0 <= i < |rows| => RowLine(rows[i], ws))
  }

  function TableLines(t: ResultTable, ws: seq<int>, printHeader: bool): seq<string>
    requires EnoughForAll(ws, t.rows) && (printHeader ==> Enough(ws, |t.names|))
  {
    (if printHeader then [HeaderLine(t.names, ws)] else []) + AlignedLines(t.rows, ws)
  }

  function TableText(t: ResultTable, ws: seq<int>, printHeader: bool): string
    requires EnoughForAll(ws, t.rows) && (printHeader ==> Enough(ws, |t.names|))
  {
    Ended(TableLines(t, ws, printHeader))
  }

  // ---------- where the cells are ----------

  // Where column k begins when everything fits.
  function Offset(ws: seq<int>, k: nat): int
    requires k <= |ws|
  {
    Sum(ws[..k])
  }

  lemma OffsetStep(ws: seq<int>, k: nat)
    requires k < |ws|
    ensures Offset(ws, k + 1) == Offset(ws, k) + ws[k]
  {
    assert ws[..k + 1][..k] == ws[..k];
  }

  predicate Fit(cells: seq<string>, ws: seq<int>)
    requires |ws| == |cells|
  {
    forall i :: 0 <= i < |cells| ==> |cells[i]| <= ws[i]
  }

  lemma FitStep(cells: seq<string>, ws: seq<int>)
    requires |ws| == |cells| > 0
    ensures var n := |cells| - 1; Fit(cells, ws) <==> Fit(cells[..n], ws[..n]) && |cells[n]| <= ws[n]
  {
  }

  // A line is as long as its columns are wide exactly when every cell fits, and longer otherwise.
  lemma {:induction false} LineLengthIff(cells: seq<string>, ws: seq<int>)
    requires |ws| == |cells|
    ensures |Line(cells, ws)| >= Sum(ws)
    ensures |Line(cells, ws)| == Sum(ws) <==> Fit(cells, ws)
  {
    if cells != [] {
      var n := |cells| - 1;
      LineLengthIff(cells[..n], ws[..n]);
      FitStep(cells, ws);
      assert |Line(cells, ws)| == |Line(cells[..n], ws[..n])| + Max(|cells[n]|, ws[n]);
    }
  }

  // In terms of the values: numbers of columns of width w lie strictly between -10^(w-1) and 10^w.
  lemma RowAlignedIff(row: seq<int>, ws: seq<int>)
    requires |ws| == |row| && Positive(ws)
    ensures |Line(Texts(row), ws)| == Sum(ws) <==>
              forall i :: 0 <= i < |row| ==> -(Pow10(ws[i] - 1) as int) < row[i] < Pow10(ws[i])
  {
    LineLengthIff(Texts(row), ws);
    forall i | 0 <= i < |row|
      ensures |Texts(row)[i]| <= ws[i] <==> -(Pow10(ws[i] - 1) as int) < row[i] < Pow10(ws[i])
    {
      TextFits(row[i], ws[i]);
    }
  }

  lemma SliceOfMiddle(a: string, b: string, c: string)
    ensures (a + b + c)[|a|..|a| + |b|] == b
  {
  }

  lemma Associates(a: string, b: string, c: string)
    ensures a + b + c == a + (b + c)
  {
  }

  // A line is the line of the first columns, the padded cell k and a rest.
  lemma {:induction false} LineSplits(cells: seq<string>, ws: seq<int>, k: nat) returns (rest: string)
    requires |ws| == |cells| && k < |cells|
    ensures Line(cells, ws) == Line(cells[..k], ws[..k]) + Padded(cells[k], ws[k]) + rest
  {
    var n := |cells| - 1;
    var last := Padded(cells[n], ws[n]);
    if k == n {
      rest := "";
      assert Line(cells, ws) + "" == Line(cells, ws);
    } else {
      var inner := LineSplits(cells[..n], ws[..n], k);
      assert cells[..n][..k] == cells[..k] && ws[..n][..k] == ws[..k];
      rest := inner + last;
      Associates(Line(cells[..k], ws[..k]) + Padded(cells[k], ws[k]), inner, last);
    }
  }

  // The characters between the offsets of column k are the padded cell k.
  lemma SliceIsCell(cells: seq<string>, ws: seq<int>, k: nat)
    requires |ws| == |cells| && Positive(ws) && Fit(cells, ws) && k < |cells|
    ensures 0 <= Offset(ws, k) < Offset(ws, k + 1) <= |Line(cells, ws)|
    ensures Line(cells, ws)[Offset(ws, k)..Offset(ws, k + 1)] == Padded(cells[k], ws[k])
  {
    var rest := LineSplits(cells, ws, k);
    LineLengthIff(cells[..k], ws[..k]);
    OffsetStep(ws, k);
    SliceOfMiddle(Line(cells[..k], ws[..k]), Padded(cells[k], ws[k]), rest);
  }

  function Trimmed(s: string): string {
    if s != "" && s[0] == ' ' then Trimmed(s[1..]) else s
  }

  lemma {:induction false} TrimBlanks(n: nat, s: string)
    requires s != "" && s[0] != ' '
    ensures Trimmed(Blanks(n) + s) == s
  {
    if n == 0 {
      assert Blanks(0) + s == s;
    } else {
      TrimBlanks(n - 1, s);
      assert (Blanks(n) + s)[1..] == Blanks(n - 1) + s;
    }
  }

  // Trimming undoes the padding.
  lemma TrimPadded(s: string, width: int)
    requires s != "" && s[0] != ' '
    ensures Trimmed(Padded(s, width)) == s
  {
    TrimBlanks(if |s| >= width then 0 else width - |s|, s);
    assert Blanks(0) + s == s;
  }

  // Slicing an aligned row at the offsets, trimming and reading the number gives back every value.
  lemma ValuesRecovered(row: seq<int>, ws: seq<int>, k: nat)
    requires |ws| == |row| && Positive(ws) && |Line(Texts(row), ws)| == Sum(ws) && k < |row|
    ensures 0 <= Offset(ws, k) < Offset(ws, k + 1) <= |Line(Texts(row), ws)|
    ensures Parse(Trimmed(Line(Texts(row), ws)[Offset(ws, k)..Offset(ws, k + 1)])) == Some(row[k])
  {
    LineLengthIff(Texts(row), ws);
    SliceIsCell(Texts(row), ws, k);
    TextCharacters(row[k]);
    TextRoundTrip(row[k]);
    assert Text(row[k])[0] != ' ';
    TrimPadded(Text(row[k]), ws[k]);
  }

  // ---------- the lines of a table ----------

  lemma PaddedApart(s: string, width: int)
    requires Apart(s, NEWLINE)
    ensures Apart(Padded(s, width), NEWLINE)
  {
    if |s| < width {
      forall p | 0 <= p < width ensures Padded(s, width)[p] != '\n' {
        PaddedAt(s, width, p);
        assert NEWLINE[0] == '\n';
      }
    }
  }

  lemma {:induction false} LineApart(cells: seq<string>, ws: seq<int>)
    requires |ws| == |cells| && forall i :: 0 <= i < |cells| ==> Apart(cells[i], NEWLINE)
    ensures Apart(Line(cells, ws), NEWLINE)
  {
    if cells != [] {
      var n := |cells| - 1;
      LineApart(cells[..n], ws[..n]);
      PaddedApart(cells[n], ws[n]);
    }
  }

  lemma RowLineApart(row: seq<int>, ws: seq<int>)
    requires Enough(ws, |row|)
    ensures Apart(RowLine(row, ws), NEWLINE)
  {
    forall i | 0 <= i < |row| ensures Apart(Texts(row)[i], NEWLINE) {
      TextCharacters(row[i]);
    }
    LineApart(Texts(row), Recycled(ws, |row|));
  }

  lemma HeaderLineApart(names: seq<string>, ws: seq<int>)
    requires Enough(ws, |names|) && forall i :: 0 <= i < |names| ==> Apart(names[i], NEWLINE)
    ensures Apart(HeaderLine(names, ws), NEWLINE)
  {
    LineApart(HeaderCells(names, Recycled(ws, |names|)), Recycled(ws, |names|));
  }

  // Split at the newlines, the text of a table is its header line, if it is printed, and then its rows in order.
  lemma LinesReadBack(t: ResultTable, ws: seq<int>, printHeader: bool)
    requires EnoughForAll(ws, t.rows) && (printHeader ==> Enough(ws, |t.names|))
    requires forall i :: 0 <= i < |t.names| ==> Apart(t.names[i], NEWLINE)
    ensures var lines, first := Split(TableText(t, ws, printHeader), "\n"), Count(printHeader);
            && |lines| == first + |t.rows| + 1 && lines[first + |t.rows|] == ""
            && (printHeader ==> lines[0] == HeaderLine(t.names, ws))
            && (forall j :: 0 <= j < |t.rows| ==> lines[first + j] == RowLine(t.rows[j], ws))
  {
    var lines := TableLines(t, ws, printHeader);
    if printHeader { HeaderLineApart(t.names, ws); }
    forall j | 0 <= j < |t.rows| ensures Apart(AlignedLines(t.rows, ws)[j], NEWLINE) {
      RowLineApart(t.rows[j], ws);
    }
    SplitEnded(lines);
  }

  // ---------- the optimal widths ----------

  // The largest value, but at least 0: negative values do not count.
  function Largest(row: seq<int>): (m: nat)
    ensures forall i :: 0 <= i < |row| ==> row[i] <= m
    ensures m == 0 || m in row
  {
    if row == [] then 0
    else
      var n := |row| - 1;
      var m := Largest(row[..n]);
      assert forall i :: 0 <= i < n ==> row[i] == row[..n][i];
      Max(m, row[n])
  }

  function LargestOf(rows: seq<seq<int>>): (m: nat)
    ensures forall i :: 0 <= i < |rows| ==> Largest(rows[i]) <= m
    ensures m == 0 || exists i :: 0 <= i < |rows| && m in rows[i]
  {
    if rows == [] then 0
    else
      var n := |rows| - 1;
      var m := LargestOf(rows[..n]);
      assert forall i :: 0 <= i < n ==> rows[i] == rows[..n][i];
      Max(m, Largest(rows[n]))
  }

  lemma LargestStep(row: seq<int>, j: nat)
    requires j < |row|
    ensures Largest(row[..j + 1]) == Max(Largest(row[..j]), row[j])
  {
    assert row[..j + 1][..j] == row[..j];
  }

  lemma LargestOfStep(rows: seq<seq<int>>, i: nat)
    requires i < |rows|
    ensures LargestOf(rows[..i + 1]) == Max(LargestOf(rows[..i]), Largest(rows[i]))
  {
    assert rows[..i + 1][..i] == rows[..i];
  }

  // One more than the longest of the name and the largest value.
  function OptimalWidths(t: ResultTable): (ws: seq<int>)
    ensures |ws| == |t.names|
    ensures forall i :: 0 <= i < |ws| ==> ws[i] == Max(|t.names[i]|, |Digits(LargestOf(t.rows))|) + 1
    ensures Positive(ws)
  {
    seq(|t.names|, i requires 0 <= i < |t.names| => Max(|t.names[i]|, |Digits(LargestOf(t.rows))|) + 1)
  }

  lemma AreOptimal(t: ResultTable, ws: seq<int>, minWidth: nat)
    requires |ws| == |t.names| && minWidth == |Digits(LargestOf(t.rows))|
    requires forall i :: 0 <= i < |ws| ==> ws[i] == Max(|t.names[i]|, minWidth) + 1
    ensures ws == OptimalWidths(t)
  {
  }

  // No limit on a value from above: a row of values up to m fits wide columns exactly when none of its negative
  // values is too long.
  lemma WideRowAlignedIff(row: seq<int>, ws: seq<int>, m: nat)
    requires |ws| == |row| && Positive(ws)
    requires forall i :: 0 <= i < |row| ==> row[i] <= m && ws[i] > |Digits(m)|
    ensures |Line(Texts(row), ws)| == Sum(ws) <==>
              forall i :: 0 <= i < |row| ==> row[i] > -(Pow10(ws[i] - 1) as int)
  {
    RowAlignedIff(row, ws);
    forall i | 0 <= i < |row| ensures row[i] < Pow10(ws[i]) {
      DigitsFit(m, ws[i]);
    }
  }

  lemma WideCells(row: seq<int>, ws: seq<int>, m: nat)
    requires |ws| == |row| && forall k :: 0 <= k < |row| ==> 0 <= row[k] <= m && ws[k] > |Digits(m)|
    ensures Fit(Texts(row), ws) && forall k :: 0 <= k < |row| ==> |Texts(row)[k]| < ws[k]
  {
    forall k | 0 <= k < |row| ensures |Texts(row)[k]| < ws[k] {
      LengthIsMonotone(row[k], m);
    }
  }

  lemma BlankInFront(s: string, width: int)
    requires |s| < width
    ensures Padded(s, width)[0] == ' '
  {
  }

  lemma FirstOfSlice(line: string, from: nat, to: nat, cell: string)
    requires from < to <= |line| && line[from..to] == cell
    ensures cell != "" && line[from] == cell[0]
  {
  }

  // A row of values from 0 to m in wide columns: a space in front of every cell, and every value recovered.
  lemma WideRowIsAligned(row: seq<int>, ws: seq<int>, m: nat, i: nat)
    requires |ws| == |row| && Positive(ws) && i < |row|
    requires forall k :: 0 <= k < |row| ==> 0 <= row[k] <= m && ws[k] > |Digits(m)|
    ensures var line, from, to := Line(Texts(row), ws), Offset(ws, i), Offset(ws, i + 1);
            && |line| == Sum(ws) && 0 <= from < to <= |line| && line[from] == ' '
            && Parse(Trimmed(line[from..to])) == Some(row[i])
  {
    WideCells(row, ws, m);
    LineLengthIff(Texts(row), ws);
    ValuesRecovered(row, ws, i);
    SliceIsCell(Texts(row), ws, i);
    BlankInFront(Texts(row)[i], ws[i]);
    FirstOfSlice(Line(Texts(row), ws), Offset(ws, i), Offset(ws, i + 1), Padded(Texts(row)[i], ws[i]));
  }

  lemma HeaderFits(names: seq<string>, ws: seq<int>)
    requires |ws| == |names| && Positive(ws)
    ensures Fit(HeaderCells(names, ws), ws)
  {
  }

  // A header line for any widths: as long as its columns, and in column k of width w the first min(|name|, w - 1)
  // characters of the name at the right end, spaces before them.
  lemma HeaderColumnIs(names: seq<string>, ws: seq<int>, all: seq<int>, k: nat, p: nat)
    requires Enough(ws, |names|) && all == Recycled(ws, |names|) && k < |names| && p < all[k]
    ensures |HeaderLine(names, ws)| == Sum(all)
    ensures 0 <= Offset(all, k) <= Offset(all, k) + p < |HeaderLine(names, ws)|
    ensures all[k] == ws[k % |ws|]
    ensures var shown := Min(|names[k]|, all[k] - 1);
            HeaderLine(names, ws)[Offset(all, k) + p] ==
              if p < all[k] - shown then ' ' else names[k][p - (all[k] - shown)]
  {
    var cells := HeaderCells(names, all);
    RecycledAt(ws, |names|, k);
    HeaderFits(names, all);
    LineLengthIff(cells, all);
    SliceIsCell(cells, all, k);
    OffsetStep(all, k);
    PaddedAt(cells[k], all[k], p);
    CharacterOfSlice(Line(cells, all), Offset(all, k), Offset(all, k + 1), Padded(cells[k], all[k]), p);
  }

  lemma CharacterOfSlice(line: string, from: nat, to: nat, cell: string, p: nat)
    requires from < to <= |line| && line[from..to] == cell && p < |cell|
    ensures from + p < |line| && line[from + p] == cell[p]
  {
  }

  lemma WholeName(name: string, width: int)
    requires width > |name|
    ensures Beginning(name, width) == name
  {
  }

  lemma WideHeaderIsWhole(names: seq<string>, ws: seq<int>)
    requires |ws| == |names| && Positive(ws) && forall i :: 0 <= i < |ws| ==> ws[i] > |names[i]|
    ensures HeaderCells(names, ws) == names && |Line(names, ws)| == Sum(ws)
  {
    forall i | 0 <= i < |names| ensures HeaderCells(names, ws)[i] == names[i] {
      WholeName(names[i], ws[i]);
    }
    LineLengthIff(names, ws);
  }

  // Value v is in the table.
  ghost predicate Holds(t: ResultTable, v: int) {
    exists j :: 0 <= j < |t.rows| && v in t.rows[j]
  }

  // The optimal width of a column is the least one above 1 that leaves room for a space before its whole header and
  // before every value of the table that is not negative.
  lemma OptimalIsLeast(t: ResultTable, k: nat, w: int)
    requires k < |t.names|
    ensures w >= OptimalWidths(t)[k] <==>
              w > 1 && w > |t.names[k]| && forall v :: Holds(t, v) && v >= 0 ==> w > |Text(v)|
  {
    var m := LargestOf(t.rows);
    forall v | Holds(t, v) && v >= 0 ensures |Text(v)| <= |Digits(m)| {
      var j :| 0 <= j < |t.rows| && v in t.rows[j];
      assert v <= Largest(t.rows[j]) <= m;
      LengthIsMonotone(v, m);
    }
    DigitsFit(m, 1);
    assert m != 0 ==> Holds(t, m);
    assert Text(m) == Digits(m);
  }

  // As many columns as widths: nothing is recycled.
  lemma OwnWidths(t: ResultTable, ws: seq<int>)
    requires Positive(ws) && |ws| == |t.names|
    ensures HeaderLine(t.names, ws) == Line(HeaderCells(t.names, ws), ws)
    ensures forall row: seq<int> :: |row| == |ws| ==> RowLine(row, ws) == Line(Texts(row), ws)
  {
    assert Recycled(ws, |ws|) == ws[..|ws|] == ws;
  }

  // With the optimal widths no header is cut and the header line is as long as the columns are wide.
  lemma NoHeaderIsCut(t: ResultTable)
    ensures var ws := OptimalWidths(t);
            && HeaderCells(t.names, ws) == t.names && HeaderLine(t.names, ws) == Line(t.names, ws)
            && |HeaderLine(t.names, ws)| == Sum(ws)
  {
    WideHeaderIsWhole(t.names, OptimalWidths(t));
    OwnWidths(t, OptimalWidths(t));
  }

  // A row keeps to the optimal widths exactly when none of its negative values is too long for its column.
  lemma OptimalRowIsAlignedIff(t: ResultTable, j: nat, row: seq<int>, ws: seq<int>)
    requires Rectangular(t) && j < |t.rows|
    requires row == t.rows[j] && ws == OptimalWidths(t)
    ensures |RowLine(row, ws)| == Sum(ws) <==> forall i :: 0 <= i < |row| ==> row[i] > -(Pow10(ws[i] - 1) as int)
  {
    assert Largest(t.rows[j]) <= LargestOf(t.rows);
    assert RowLine(row, ws) == Line(Texts(row), ws) by { OwnWidths(t, ws); }
    WideRowAlignedIff(row, ws, LargestOf(t.rows));
  }

  // With the optimal widths and no negative value, all lines have the same length, each cell has a space in front,
  // and slicing at the offsets recovers every value.
  lemma OptimalTableIsAligned(t: ResultTable, j: nat, row: seq<int>, ws: seq<int>, i: nat)
    requires Rectangular(t) && j < |t.rows| && i < |t.names|
    requires row == t.rows[j] && ws == OptimalWidths(t)
    requires forall k :: 0 <= k < |row| ==> row[k] >= 0
    ensures var line, from, to := RowLine(row, ws), Offset(ws, i), Offset(ws, i + 1);
            && |line| == Sum(ws) == |HeaderLine(t.names, ws)|
            && 0 <= from < to <= |line| && line[from] == ' '
            && Parse(Trimmed(line[from..to])) == Some(row[i])
  {
    NoHeaderIsCut(t);
    assert Largest(t.rows[j]) <= LargestOf(t.rows);
    assert RowLine(row, ws) == Line(Texts(row), ws) by { OwnWidths(t, ws); }
    WideRowIsAligned(row, ws, LargestOf(t.rows), i);
  }

  // A negative value can be wider than its column.
  lemma NegativeValuesBreakTheTable()
    ensures var t := ResultTable(["n"], [[-10]]);
            OptimalWidths(t) == [2] && RowLine(t.rows[0], OptimalWidths(t)) == "-10"
  {
    var t := ResultTable(["n"], [[-10]]);
    assert Largest([-10]) == 0 && LargestOf(t.rows) == 0;
    assert OptimalWidths(t) == [2];
    assert Recycled([2], 1) == [2][..1] == [2];
    assert Digits(10) == Digits(1) + [DigitChar(0)];
    assert Text(-10) == "-10";
    assert Texts([-10]) == ["-10"];
    assert Line(["-10"], [2]) == "" + Padded("-10", 2);
  }
}
