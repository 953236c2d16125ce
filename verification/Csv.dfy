/**
 The CSV text of a result table, a splitting parser for it, and the round trip between them
 (BenchmarkResultsPrinter.java).
 */
module Csv {
  import opened Common
  import opened Decimal
  import opened Merger

  const NEWLINE: string := "\n"

  // ---------- the text ----------

  // The fields with a separator before each but the first.
  function Joined(fields: seq<string>, separator: string): string {
    if |fields| == 0 then ""
    else if |fields| == 1 then fields[0]
    else fields[0] + separator + Joined(fields[1..], separator)
  }

  // Every line with a newline behind it.
  function Ended(lines: seq<string>): string {
    if lines == [] then "" else lines[0] + NEWLINE + Ended(lines[1..])
  }

  function Texts(row: seq<int>): (r: seq<string>)
    ensures |r| == |row| && forall i :: 0 <= i < |r| ==> r[i] == Text(row[i])
  {
    seq(|row|, i requires 0 <= i < |row| => Text(row[i]))
  }

  function RowLines(rows: seq<seq<int>>, separator: string): (r: seq<string>)
    ensures |r| == |rows| && forall i :: 0 <= i < |r| ==> r[i] == Joined(Texts(rows[i]), separator)
  {
    seq(|rows|, i requires 0 <= i < |rows| => Joined(Texts(rows[i]), separator))
  }

  function CsvLines(t: ResultTable, separator: string, printHeader: bool): seq<string> {
    (if printHeader then [Joined(t.names, separator)] else []) + RowLines(t.rows, separator)
  }

  function CsvText(t: ResultTable, separator: string, printHeader: bool): string {
    Ended(CsvLines(t, separator, printHeader))
  }

  // One more field, one more line, as the loops append them.
  lemma {:induction false} JoinedAppend(fields: seq<string>, last: string, separator: string)
    ensures Joined(fields + [last], separator) ==
              if fields == [] then last else Joined(fields, separator) + separator + last
  {
    if |fields| > 1 {
      JoinedAppend(fields[1..], last, separator);
      assert (fields + [last])[1..] == fields[1..] + [last];
    }
  }

  lemma {:induction false} EndedAppend(lines: seq<string>, last: string)
    ensures Ended(lines + [last]) == Ended(lines) + last + NEWLINE
  {
    if lines == [] {
      assert (lines + [last])[1..] == [];
    } else {
      EndedAppend(lines[1..], last);
      assert (lines + [last])[1..] == lines[1..] + [last];
    }
  }

  // The text of a small table, character by character.
  lemma SmallTable()
    ensures CsvText(ResultTable(["a", "b"], [[1, -2], [3, 4]]), ";", true) == "a;b\n1;-2\n3;4\n"
  {
    var t := ResultTable(["a", "b"], [[1, -2], [3, 4]]);
    assert Text(1) == "1" && Text(-2) == "-2" && Text(3) == "3" && Text(4) == "4";
    TwoFields("a", "b");
    TwoFields("1", "-2");
    TwoFields("3", "4");
    assert Texts(t.rows[0]) == ["1", "-2"] && Texts(t.rows[1]) == ["3", "4"];
    assert "a" + ";" + "b" == "a;b" && "1" + ";" + "-2" == "1;-2" && "3" + ";" + "4" == "3;4";
    assert RowLines(t.rows, ";") == ["1;-2", "3;4"];
    assert CsvLines(t, ";", true) == ["a;b", "1;-2", "3;4"];
    ThreeLines("a;b", "1;-2", "3;4");
  }

  lemma TwoFields(first: string, second: string)
    ensures Joined([first, second], ";") == first + ";" + second
  {
    assert [first, second][1..] == [second];
  }

  lemma ThreeLines(first: string, second: string, third: string)
    ensures Ended([first, second, third]) == first + "\n" + second + "\n" + third + "\n"
  {
    EndedAppend([], first);
    EndedAppend([first], second);
    EndedAppend([first, second], third);
    assert [first] == [] + [first] && [first, second] == [first] + [second];
    assert [first, second, third] == [first, second] + [third];
  }

  // ---------- the parser ----------

  // The pieces of text between occurrences of the separator, read from the left; piece is what the current one
  // holds so far.
  function SplitFrom(text: string, separator: string, piece: string): seq<string>
    requires separator != ""
    decreases |text|
  {
    if text == "" then [piece]
    else if separator <= text then [piece] + SplitFrom(text[|separator|..], separator, "")
    else SplitFrom(text[1..], separator, piece + [text[0]])
  }

  function Split(text: string, separator: string): seq<string>
    requires separator != ""
  {
    SplitFrom(text, separator, "")
  }

  function ParseRow(line: string, separator: string): Option<seq<int>>
    requires separator != ""
  {
    var fields := Split(line, separator);
    if forall i :: 0 <= i < |fields| ==> Parse(fields[i]).Some?
    then Some(seq(|fields|, i requires 0 <= i < |fields| && Parse(fields[i]).Some? => Parse(fields[i]).value))
    else None
  }

  function ParseRows(lines: seq<string>, separator: string): Option<seq<seq<int>>>
    requires separator != ""
  {
    if forall i :: 0 <= i < |lines| ==> ParseRow(lines[i], separator).Some?
    then Some(seq(|lines|, i requires 0 <= i < |lines| && ParseRow(lines[i], separator).Some? =>
                    ParseRow(lines[i], separator).value))
    else None
  }

  // A table with header, from its CSV text.
  function ParseTable(text: string, separator: string): Option<ResultTable>
    requires separator != ""
  {
    var lines := Split(text, NEWLINE);
    if |lines| < 2 || lines[|lines| - 1] != "" then None
    else
      match ParseRows(lines[1..|lines| - 1], separator)
      case None => None
      case Some(rows) => Some(ResultTable(Split(lines[0], separator), rows))
  }

  // ---------- the round trip ----------

  ghost predicate Apart(s: string, t: string) {
    forall i, j :: 0 <= i < |s| && 0 <= j < |t| ==> s[i] != t[j]
  }

  lemma {:induction false} SplitField(field: string, separator: string, rest: string, piece: string)
    requires separator != "" && Apart(field, separator)
    ensures SplitFrom(field + separator + rest, separator, piece) ==
              [piece + field] + SplitFrom(rest, separator, "")
    ensures SplitFrom(field, separator, piece) == [piece + field]
    decreases |field|
  {
    if field == "" {
      assert field + separator + rest == separator + rest;
      assert (separator + rest)[|separator|..] == rest;
      assert piece + field == piece;
    } else {
      var text := field + separator + rest;
      assert text[0] == field[0] != separator[0];
      assert text[1..] == field[1..] + separator + rest;
      SplitField(field[1..], separator, rest, piece + [field[0]]);
      assert piece + [field[0]] + field[1..] == piece + field;
    }
  }

  lemma {:induction false} SplitJoined(fields: seq<string>, separator: string)
    requires separator != "" && fields != []
    requires forall i :: 0 <= i < |fields| ==> Apart(fields[i], separator)
    ensures Split(Joined(fields, separator), separator) == fields
  {
    if |fields| == 1 {
      SplitField(fields[0], separator, "", "");
      assert "" + fields[0] == fields[0];
    } else {
      SplitField(fields[0], separator, Joined(fields[1..], separator), "");
      SplitJoined(fields[1..], separator);
      assert Joined(fields, separator) == fields[0] + separator + Joined(fields[1..], separator);
      assert "" + fields[0] == fields[0] && [fields[0]] + fields[1..] == fields;
    }
  }

  lemma {:induction false} SplitEnded(lines: seq<string>)
    requires forall i :: 0 <= i < |lines| ==> Apart(lines[i], NEWLINE)
    ensures Split(Ended(lines), NEWLINE) == lines + [""]
  {
    if lines != [] {
      SplitField(lines[0], NEWLINE, Ended(lines[1..]), "");
      SplitEnded(lines[1..]);
      assert "" + lines[0] == lines[0] && [lines[0]] + (lines[1..] + [""]) == lines + [""];
    }
  }

  // A separator that cannot be confused with the table: non-empty, without digits, minus sign and newline, and
  // without any character of a name; and names without newlines.
  predicate GoodSeparator(separator: string) {
    separator != "" && forall i :: 0 <= i < |separator| ==>
      !IsDigit(separator[i]) && separator[i] != '-' && separator[i] != '\n'
  }

  ghost predicate Writable(t: ResultTable, separator: string) {
    && t.names != [] && Rectangular(t)
    && forall i :: 0 <= i < |t.names| ==> Apart(t.names[i], separator) && Apart(t.names[i], NEWLINE)
  }

  lemma {:induction false} JoinedApart(fields: seq<string>, separator: string, t: string)
    requires Apart(separator, t) && forall i :: 0 <= i < |fields| ==> Apart(fields[i], t)
    ensures Apart(Joined(fields, separator), t)
  {
    if |fields| > 1 {
      JoinedApart(fields[1..], separator, t);
    }
  }

  lemma RowRoundTrip(row: seq<int>, separator: string)
    requires GoodSeparator(separator) && row != []
    ensures ParseRow(Joined(Texts(row), separator), separator) == Some(row)
    ensures Apart(Joined(Texts(row), separator), NEWLINE)
  {
    var fields := Texts(row);
    forall i | 0 <= i < |row|
      ensures Apart(fields[i], separator) && Apart(fields[i], NEWLINE) && Parse(fields[i]) == Some(row[i])
    {
      TextCharacters(row[i]);
      TextRoundTrip(row[i]);
    }
    SplitJoined(fields, separator);
    assert ParseRow(Joined(fields, separator), separator).value == row;
    JoinedApart(fields, separator, NEWLINE);
  }

  lemma RowsRoundTrip(rows: seq<seq<int>>, separator: string)
    requires GoodSeparator(separator) && forall i :: 0 <= i < |rows| ==> rows[i] != []
    ensures ParseRows(RowLines(rows, separator), separator) == Some(rows)
    ensures forall i :: 0 <= i < |rows| ==> Apart(RowLines(rows, separator)[i], NEWLINE)
  {
    forall i | 0 <= i < |rows|
      ensures ParseRow(RowLines(rows, separator)[i], separator) == Some(rows[i])
      ensures Apart(RowLines(rows, separator)[i], NEWLINE)
    {
      RowRoundTrip(rows[i], separator);
    }
    assert ParseRows(RowLines(rows, separator), separator).value == rows;
  }

  // Parsing the printed CSV gives back the names and all rows, whatever the integers.
  lemma CsvRoundTrip(t: ResultTable, separator: string)
    requires GoodSeparator(separator) && Writable(t, separator)
    ensures ParseTable(CsvText(t, separator, true), separator) == Some(t)
  {
    var lines := CsvLines(t, separator, true);
    RowsRoundTrip(t.rows, separator);
    JoinedApart(t.names, separator, NEWLINE);
    forall i | 0 <= i < |lines| ensures Apart(lines[i], NEWLINE) {
      assert i > 0 ==> lines[i] == RowLines(t.rows, separator)[i - 1];
    }
    SplitEnded(lines);
    SplitJoined(t.names, separator);
    var split := lines + [""];
    assert split[0] == Joined(t.names, separator) && split[1..|split| - 1] == RowLines(t.rows, separator);
  }

  // ---------- when the text determines the table ----------

  predicate HasNonDigit(s: string) {
    exists i :: 0 <= i < |s| && !IsDigit(s[i])
  }

  // What follows a number in a row: nothing, or a separator.
  predicate IsTail(s: string, separator: string) {
    s == "" || separator <= s
  }

  // A number ends where the next separator begins, even if that begins with digits.
  lemma NumberEnds(digits: string, tail: string, separator: string)
    requires HasNonDigit(separator) && IsNumeral(digits) && IsTail(tail, separator)
    ensures DigitRun(digits + tail) == |digits| + if tail == "" then 0 else DigitRun(separator)
    ensures tail == "" <==> DigitRun(digits + tail) == |digits + tail|
  {
    var r := DigitRun(separator);
    assert r < |separator|;
    if tail != "" {
      assert forall i :: 0 <= i <= r ==> tail[i] == separator[i];
    }
    RunIs(digits + tail, |digits| + if tail == "" then 0 else r);
  }

  lemma SameNumber(d: string, e: string, s: string, t: string, separator: string)
    requires HasNonDigit(separator) && IsNumeral(d) && IsNumeral(e) && IsTail(s, separator) && IsTail(t, separator)
    requires d + s == e + t
    ensures d == e && s == t
  {
    NumberEnds(d, s, separator);
    NumberEnds(e, t, separator);
    assert |d| == |e|;
    assert d == (d + s)[..|d|] && e == (e + t)[..|e|] && s == (d + s)[|d|..] && t == (e + t)[|e|..];
  }

  function Magnitude(v: int): nat {
    if v < 0 then -v else v
  }

  lemma TextBegins(v: int, tail: string)
    ensures (Text(v) + tail)[0] == '-' <==> v < 0
    ensures (Text(v) + tail)[Count(v < 0)..] == Digits(Magnitude(v)) + tail
  {
    DigitsRead(Magnitude(v));
    assert IsDigit(Digits(Magnitude(v))[0]);
    if v < 0 {
      assert "-" + Digits(-v) + tail == "-" + (Digits(-v) + tail);
    }
  }

  lemma SameFirstValue(v: int, w: int, s: string, t: string, separator: string)
    requires HasNonDigit(separator) && IsTail(s, separator) && IsTail(t, separator)
    requires Text(v) + s == Text(w) + t
    ensures v == w && s == t
  {
    TextBegins(v, s);
    TextBegins(w, t);
    DigitsRead(Magnitude(v));
    DigitsRead(Magnitude(w));
    SameNumber(Digits(Magnitude(v)), Digits(Magnitude(w)), s, t, separator);
  }

  function Tail(row: seq<int>, separator: string): string
    requires row != []
  {
    if |row| == 1 then "" else separator + Joined(Texts(row[1..]), separator)
  }

  lemma RowSplits(row: seq<int>, separator: string)
    requires row != []
    ensures Joined(Texts(row), separator) == Text(row[0]) + Tail(row, separator)
    ensures IsTail(Tail(row, separator), separator)
  {
    if |row| > 1 {
      assert Texts(row)[1..] == Texts(row[1..]);
      assert Text(row[0]) + separator + Joined(Texts(row[1..]), separator)
          == Text(row[0]) + (separator + Joined(Texts(row[1..]), separator));
    } else {
      assert Text(row[0]) + "" == Text(row[0]);
    }
  }

  // A separator with a non-digit in it leaves no doubt about the numbers of a row, minus signs and digits in the
  // separator included.
  lemma {:induction false} RowIsDetermined(a: seq<int>, b: seq<int>, separator: string)
    requires HasNonDigit(separator) && a != [] && b != []
    requires Joined(Texts(a), separator) == Joined(Texts(b), separator)
    ensures a == b
  {
    RowSplits(a, separator);
    RowSplits(b, separator);
    SameFirstValue(a[0], b[0], Tail(a, separator), Tail(b, separator), separator);
    if |a| > 1 {
      var x, y := Joined(Texts(a[1..]), separator), Joined(Texts(b[1..]), separator);
      assert x == (separator + x)[|separator|..] && y == (separator + y)[|separator|..];
      RowIsDetermined(a[1..], b[1..], separator);
      assert a == [a[0]] + a[1..] && b == [b[0]] + b[1..];
    }
  }

  lemma LinesApart(t: ResultTable, separator: string, printHeader: bool)
    requires Apart(separator, NEWLINE) && Writable(t, separator)
    ensures forall i :: 0 <= i < |CsvLines(t, separator, printHeader)| ==>
              Apart(CsvLines(t, separator, printHeader)[i], NEWLINE)
  {
    var lines := CsvLines(t, separator, printHeader);
    JoinedApart(t.names, separator, NEWLINE);
    forall j | 0 <= j < |t.rows| ensures Apart(RowLines(t.rows, separator)[j], NEWLINE) {
      RowApart(t.rows[j], separator);
    }
    forall i | 0 <= i < |lines| ensures Apart(lines[i], NEWLINE) {
      assert i >= Count(printHeader) ==> lines[i] == RowLines(t.rows, separator)[i - Count(printHeader)];
    }
  }

  lemma RowApart(row: seq<int>, separator: string)
    requires Apart(separator, NEWLINE)
    ensures Apart(Joined(Texts(row), separator), NEWLINE)
  {
    forall i | 0 <= i < |row| ensures Apart(Texts(row)[i], NEWLINE) {
      TextCharacters(row[i]);
    }
    JoinedApart(Texts(row), separator, NEWLINE);
  }

  lemma SameLines(t: ResultTable, u: ResultTable, separator: string, printHeader: bool)
    requires Apart(separator, NEWLINE) && Writable(t, separator) && Writable(u, separator)
    requires CsvText(t, separator, printHeader) == CsvText(u, separator, printHeader)
    ensures RowLines(t.rows, separator) == RowLines(u.rows, separator)
    ensures printHeader ==> Joined(t.names, separator) == Joined(u.names, separator)
  {
    var a, b := CsvLines(t, separator, printHeader), CsvLines(u, separator, printHeader);
    LinesApart(t, separator, printHeader);
    LinesApart(u, separator, printHeader);
    SplitEnded(a);
    SplitEnded(b);
    SameBut(a, b, "");
    assert RowLines(t.rows, separator) == a[Count(printHeader)..];
    assert RowLines(u.rows, separator) == b[Count(printHeader)..];
    assert printHeader ==> a[0] == Joined(t.names, separator) && b[0] == Joined(u.names, separator);
  }

  lemma SameBut(a: seq<string>, b: seq<string>, last: string)
    requires a + [last] == b + [last]
    ensures a == b
  {
    assert a == (a + [last])[..|a|] && b == (b + [last])[..|b|];
  }

  // Equal texts come from equal tables; without the header, from equal rows.
  lemma CsvDeterminesTheTable(t: ResultTable, u: ResultTable, separator: string, printHeader: bool)
    requires Apart(separator, NEWLINE) && HasNonDigit(separator)
    requires Writable(t, separator) && Writable(u, separator)
    requires CsvText(t, separator, printHeader) == CsvText(u, separator, printHeader)
    ensures t.rows == u.rows && (printHeader ==> t.names == u.names)
  {
    SameLines(t, u, separator, printHeader);
    if printHeader {
      SplitJoined(t.names, separator);
      SplitJoined(u.names, separator);
    }
    var lines := RowLines(t.rows, separator);
    assert |t.rows| == |lines| == |u.rows|;
    forall j | 0 <= j < |t.rows| ensures t.rows[j] == u.rows[j] {
      assert lines[j] == Joined(Texts(t.rows[j]), separator) == Joined(Texts(u.rows[j]), separator);
      RowIsDetermined(t.rows[j], u.rows[j], separator);
    }
  }

  // The number that reads 1, separator, 1.
  lemma OneSeparatorOne(separator: string) returns (w: int)
    requires !HasNonDigit(separator)
    ensures Text(w) == "1" + separator + "1" && w != 1
  {
    var middle := "1" + separator + "1";
    assert forall i :: 0 <= i < |middle| ==> IsDigit(middle[i]);
    NumeralIsText(middle);
    w := ValueOf(middle);
    assert Text(1) == "1" && |middle| >= 2;
  }

  lemma SameRowLines(v: int, w: int, separator: string)
    requires Text(v) + separator + Text(w) == Text(w) + separator + Text(v)
    ensures RowLines([[v, w]], separator) == RowLines([[w, v]], separator)
  {
    PairText(v, w, separator);
    PairText(w, v, separator);
  }

  // A separator of digits only, or none at all: the rows 1, 1s1 and 1s1, 1 read alike.
  lemma DigitSeparatorsCoincide(separator: string, printHeader: bool) returns (t: ResultTable, u: ResultTable)
    requires !HasNonDigit(separator)
    ensures Writable(t, separator) && Writable(u, separator) && t.names == u.names && t.rows != u.rows
    ensures CsvText(t, separator, printHeader) == CsvText(u, separator, printHeader)
  {
    var w := OneSeparatorOne(separator);
    t, u := ResultTable(["a", "b"], [[1, w]]), ResultTable(["a", "b"], [[w, 1]]);
    assert t.rows[0][0] != u.rows[0][0];
    assert "1" + separator + ("1" + separator + "1") == "1" + separator + "1" + separator + "1";
    SameRowLines(1, w, separator);
  }

  lemma PairText(v: int, w: int, separator: string)
    ensures Joined(Texts([v, w]), separator) == Text(v) + separator + Text(w)
  {
    assert Texts([v, w])[1..] == [Text(w)];
  }

  ghost predicate Injective(separator: string, printHeader: bool) {
    forall t: ResultTable, u: ResultTable |
      && Writable(t, separator) && Writable(u, separator)
      && CsvText(t, separator, printHeader) == CsvText(u, separator, printHeader) ::
      t.rows == u.rows && (printHeader ==> t.names == u.names)
  }

  // Exactly which separators without newline let the CSV text determine the table: those that do not consist of
  // digits alone.
  lemma CsvIsInjectiveIff(separator: string, printHeader: bool)
    requires Apart(separator, NEWLINE)
    ensures Injective(separator, printHeader) <==> HasNonDigit(separator)
  {
    if HasNonDigit(separator) {
      forall t: ResultTable, u: ResultTable |
        && Writable(t, separator) && Writable(u, separator)
        && CsvText(t, separator, printHeader) == CsvText(u, separator, printHeader)
        ensures t.rows == u.rows && (printHeader ==> t.names == u.names)
      {
        CsvDeterminesTheTable(t, u, separator, printHeader);
      }
    } else {
      var t, u := DigitSeparatorsCoincide(separator, printHeader);
      assert Writable(t, separator) && Writable(u, separator);
    }
  }

  // ---------- names that confuse ----------

  predicate Confused(t: ResultTable, u: ResultTable, separator: string) {
    t != u && Rectangular(t) && Rectangular(u) && CsvText(t, separator, true) == CsvText(u, separator, true)
  }

  // A header line above at most one row.
  lemma SmallText(names: seq<string>, rows: seq<seq<int>>, separator: string, header: string, line: string)
    requires header == Joined(names, separator) && |rows| <= 1
    requires rows != [] ==> line == Joined(Texts(rows[0]), separator)
    ensures CsvText(ResultTable(names, rows), separator, true) ==
              header + NEWLINE + if rows == [] then "" else line + NEWLINE
  {
    var lines := CsvLines(ResultTable(names, rows), separator, true);
    if rows == [] {
      assert lines == [header] && Ended(lines[1..]) == "";
      assert Ended(lines) == header + NEWLINE + "";
    } else {
      assert lines[1..] == [line] && [line][1..] == [];
      assert Ended([line]) == line + NEWLINE;
    }
  }

  // A name with the separator inside, which includes every name when the separator is empty; no columns.
  lemma NamesCoincide(separator: string)
    ensures Confused(ResultTable(["a", "b"], []), ResultTable(["a" + separator + "b"], []), separator)
    ensures Confused(ResultTable([], []), ResultTable([""], []), separator)
  {
    assert ["a", "b"][1..] == ["b"];
    SmallText(["a", "b"], [], separator, "a" + separator + "b", "");
    SmallText(["a" + separator + "b"], [], separator, "a" + separator + "b", "");
    SmallText([], [], separator, "", "");
    SmallText([""], [], separator, "", "");
  }

  // A newline inside a name.
  lemma NameAndRowCoincide(separator: string)
    ensures Confused(ResultTable(["a\n7"], []), ResultTable(["a"], [[7]]), separator)
  {
    SmallText(["a\n7"], [], separator, "a\n7", "");
    assert Texts([7]) == ["7"];
    SmallText(["a"], [[7]], separator, "a", "7");
  }
}
