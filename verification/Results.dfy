// The result object that the agent fills row by row (BenchmarkResultsImpl.java).
module Results {

  // The values in a list of arrays.
  ghost function RowsOf(data: seq<array<int>>): (r: seq<seq<int>>)
    reads data
    ensures |r| == |data| && forall i :: 0 <= i < |r| ==> r[i] == data[i][..]
  {
    seq(|data|, i requires 0 <= i < |data| reads data => data[i][..])
  }

  class BenchmarkResultsImpl {
    const events: seq<string>
    var data: seq<array<int>>

    constructor (eventNames: seq<string>)
      ensures events == eventNames && data == []
    {
      events := eventNames;
      data := [];
    }

    ghost function Rows(): (rows: seq<seq<int>>)
      reads this, data
      ensures |rows| == |data| && forall i :: 0 <= i < |rows| ==> rows[i] == data[i][..]
    {
      RowsOf(data)
    }

    // The row is copied, so the caller may go on using its array.
    method AddDataRow(row: array<int>)
      modifies this`data
      ensures |data| == |old(data)| + 1 && data[..|old(data)|] == old(data)
      ensures fresh(data[|old(data)|])
      ensures Rows() == old(Rows()) + [row[..]]
    {
      var copy := new int[row.Length](i requires 0 <= i < row.Length reads row => row[i]);
      assert copy[..] == row[..];
      data := data + [copy];
    }
  }
}
