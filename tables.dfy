/**
 * A pandas `DataFrame` as the preprocessing code uses it: an ordered list
 * of distinct column names and an ordered list of rows, each row carrying
 * its index label and one cell per column.
 */
module Tables {

  datatype Row<T> = Row(index: int, cells: map<string, T>)

  datatype Table<T> = Table(columns: seq<string>, rows: seq<Row<T>>)

  predicate Distinct(xs: seq<string>)
  {
    forall i, j :: 0 <= i < j < |xs| ==> xs[i] != xs[j]
  }

  /** The row has a cell for exactly the given columns. */
  predicate Fits<T(!new)>(row: Row<T>, columns: seq<string>)
  {
    row.cells.Keys == set c | c in columns
  }

  /** Column names are distinct and every row has exactly one cell per column. */
  predicate WellFormed<T(!new)>(t: Table<T>)
  {
    Distinct(t.columns) && forall i :: 0 <= i < |t.rows| ==> Fits(t.rows[i], t.columns)
  }

  /** The labels are `0 .. n-1`, as after `reset_index(drop=True)`. */
  predicate IndexReset<T(!new)>(rows: seq<Row<T>>)
  {
    forall i :: 0 <= i < |rows| ==> rows[i].index == i
  }

  /** `reset_index(drop=True)`: same cells, labels renumbered from 0. */
  function ResetIndex<T(!new)>(rows: seq<Row<T>>): (r: seq<Row<T>>)
    ensures |r| == |rows| && IndexReset(r)
    ensures forall i :: 0 <= i < |rows| ==> r[i].cells == rows[i].cells
  {
    seq(|rows|, i requires 0 <= i < |rows| => Row(i, rows[i].cells))
  }

  /**
   * Boolean-mask selection `frame[mask]` for a mask computed from the
   * cells: the rows that pass, in order, with their labels.
   */
  function Select<T(!new)>(rows: seq<Row<T>>, keep: map<string, T> -> bool): (r: seq<Row<T>>)
    ensures |r| <= |rows|
    ensures forall x :: x in r <==> x in rows && keep(x.cells)
  {
    if rows == [] then []
    else if keep(rows[0].cells) then [rows[0]] + Select(rows[1..], keep)
    else Select(rows[1..], keep)
  }

  /**
   * `frame[frame[c].map(f)]` as pandas evaluates it: the rows the mask
   * keeps, in order. On a frame without rows the mask is an empty series
   * of objects, which pandas reads as a list of column labels rather than
   * as a mask, so the frame loses every column.
   */
  function Masked<T(!new)>(t: Table<T>, keep: map<string, T> -> bool): (r: Table<T>)
    ensures r.rows == Select(t.rows, keep)
    ensures r.columns == if t.rows == [] then [] else t.columns
  {
    if t.rows == [] then Table([], []) else Table(t.columns, Select(t.rows, keep))
  }

  /** Selection keeps order: it distributes over concatenation. */
  lemma {:induction false} SelectAppend<T(!new)>(a: seq<Row<T>>, b: seq<Row<T>>, keep: map<string, T> -> bool)
    ensures Select(a + b, keep) == Select(a, keep) + Select(b, keep)
    decreases |a|
  {
    if a == [] {
      assert a + b == b;
    } else {
      assert (a + b)[1..] == a[1..] + b;
      SelectAppend(a[1..], b, keep);
    }
  }

  /** Selecting twice is selecting by both conditions. */
  lemma {:induction false} SelectSelect<T(!new)>(rows: seq<Row<T>>, p: map<string, T> -> bool, q: map<string, T> -> bool)
    ensures Select(Select(rows, p), q) == Select(rows, m => p(m) && q(m))
    decreases |rows|
  {
    if rows != [] {
      SelectSelect(rows[1..], p, q);
    }
  }

  /** Selection by a condition every row meets changes nothing. */
  lemma {:induction false} SelectAll<T(!new)>(rows: seq<Row<T>>, keep: map<string, T> -> bool)
    requires forall x :: x in rows ==> keep(x.cells)
    ensures Select(rows, keep) == rows
    decreases |rows|
  {
    if rows != [] {
      SelectAll(rows[1..], keep);
    }
  }

  /** A condition that implies another never keeps more rows. */
  lemma {:induction false} SelectMonotone<T(!new)>(rows: seq<Row<T>>, p: map<string, T> -> bool, q: map<string, T> -> bool)
    requires forall x :: x in rows && p(x.cells) ==> q(x.cells)
    ensures |Select(rows, p)| <= |Select(rows, q)|
    decreases |rows|
  {
    if rows != [] {
      SelectMonotone(rows[1..], p, q);
    }
  }

  /** Two masks that agree on the rows select the same rows. */
  lemma {:induction false} SelectEquivalent<T(!new)>(rows: seq<Row<T>>, p: map<string, T> -> bool, q: map<string, T> -> bool)
    requires forall x :: x in rows ==> p(x.cells) == q(x.cells)
    ensures Select(rows, p) == Select(rows, q)
    decreases |rows|
  {
    if rows != [] {
      assert rows[0] in rows;
      SelectEquivalent(rows[1..], p, q);
    }
  }

  /** The cells of the rows, without their labels. */
  function Cells<T(!new)>(rows: seq<Row<T>>): (cs: seq<map<string, T>>)
    ensures |cs| == |rows| && forall i :: 0 <= i < |rows| ==> cs[i] == rows[i].cells
  {
    seq(|rows|, i requires 0 <= i < |rows| => rows[i].cells)
  }

  /** Selection does not look at labels: rows with the same cells select the same cells. */
  lemma {:induction false} SelectSameCells<T(!new)>(a: seq<Row<T>>, b: seq<Row<T>>, keep: map<string, T> -> bool)
    requires Cells(a) == Cells(b)
    ensures Cells(Select(a, keep)) == Cells(Select(b, keep))
    decreases |a|
  {
    if a != [] {
      var a', b' := a[1..], b[1..];
      assert a[0].cells == b[0].cells by { assert Cells(a)[0] == Cells(b)[0]; }
      assert Cells(a') == Cells(b') by {
        forall i | 0 <= i < |a'| ensures Cells(a')[i] == Cells(b')[i] {
          assert Cells(a)[i + 1] == Cells(b)[i + 1];
        }
      }
      SelectSameCells(a', b', keep);
      var sa, sb := Select(a', keep), Select(b', keep);
      if keep(a[0].cells) {
        CellsCons(a[0], sa);
        CellsCons(b[0], sb);
      }
    }
  }

  lemma CellsCons<T(!new)>(x: Row<T>, rows: seq<Row<T>>)
    ensures Cells([x] + rows) == [x.cells] + Cells(rows)
  {
  }
}
