/** Column access on frames whose cells are `Value`s. */
module Frames {
  import opened Values
  import opened Tables

  /** The cell of column `c`; a row of a pandas frame has one for every column. */
  function Get(row: Row<Value>, c: string): Value
  {
    if c in row.cells then row.cells[c] else Null
  }

  /** `self.data[c]`: the cells of column `c`, in row order. */
  function Column(rows: seq<Row<Value>>, c: string): (col: seq<Value>)
    ensures |col| == |rows| && forall i :: 0 <= i < |rows| ==> col[i] == Get(rows[i], c)
  {
    seq(|rows|, i requires 0 <= i < |rows| => Get(rows[i], c))
  }

  /** `self.data[c] = col`: replaces column `c`, row by row. */
  function SetColumn(rows: seq<Row<Value>>, c: string, col: seq<Value>): (r: seq<Row<Value>>)
    requires |col| == |rows|
    ensures |r| == |rows|
    ensures forall i :: 0 <= i < |rows| ==> r[i] == Row(rows[i].index, rows[i].cells[c := col[i]])
  {
    seq(|rows|, i requires 0 <= i < |rows| => Row(rows[i].index, rows[i].cells[c := col[i]]))
  }

  /** The index labels, in row order. */
  function Labels(rows: seq<Row<Value>>): (ls: seq<int>)
    ensures |ls| == |rows| && forall i :: 0 <= i < |rows| ==> ls[i] == rows[i].index
  {
    seq(|rows|, i requires 0 <= i < |rows| => rows[i].index)
  }
}
