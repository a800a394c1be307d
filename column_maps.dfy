/**
 * The loop `for column in frame: frame[column] = <each cell mapped>` that
 * the cleaner and the trimmer run, and the `array_split` / `Pool.map` /
 * `concat` fan-out around it, played sequentially part after part.
 */
module ColumnMaps {
  import opened Wrappers
  import opened Values
  import opened Tables
  import opened Frames
  import opened Partitions

  /** A cell operation; it may depend on the column (a per-column limit, say). */
  type CellMap = (string, Value) -> Result<Value>

  /**
   * A check made once per column before its cells are visited (a
   * configuration lookup); it fails even when the frame has no rows.
   */
  type ColumnCheck = string -> Option<Error>

  /** The check of a loop that looks nothing up. */
  function NoCheck(c: string): Option<Error>
  {
    None
  }

  /**
   * How the new cells are stored: a Python list is stored by position;
   * a `pd.Series` built from a list is labelled `0 .. n-1` and stored by
   * label.
   */
  datatype Assignment = ByPosition | ByLabel

  /**
   * `frame[c] = pd.Series(values)`: the row labelled `l` receives
   * `values[l]`, and `NaN` when no value carries that label.
   */
  function Realigned(rows: seq<Row<Value>>, values: seq<Value>): (r: seq<Value>)
    ensures |r| == |rows|
    ensures forall i :: 0 <= i < |rows| ==>
      r[i] == if 0 <= rows[i].index < |values| then values[rows[i].index] else Null
  {
    seq(|rows|, i requires 0 <= i < |rows| =>
      if 0 <= rows[i].index < |values| then values[rows[i].index] else Null)
  }

  /** On a frame labelled `0 .. n-1`, storing by label is storing by position. */
  lemma RealignedWhenReset(rows: seq<Row<Value>>, values: seq<Value>)
    requires IndexReset(rows) && |values| == |rows|
    ensures Realigned(rows, values) == values
  {
  }

  function Assigned(rows: seq<Row<Value>>, values: seq<Value>, how: Assignment): (r: seq<Value>)
    requires |values| == |rows|
    ensures |r| == |rows|
  {
    if how == ByPosition then values else Realigned(rows, values)
  }

  /** `[f(c, cell) for cell in frame[c]]`, stopped by the first failing cell. */
  function MappedColumn(rows: seq<Row<Value>>, c: string, f: CellMap): (r: Result<seq<Value>>)
    ensures r.Ok? <==> forall i :: 0 <= i < |rows| ==> f(c, Get(rows[i], c)).Ok?
    ensures r.Ok? ==> |r.value| == |rows| && forall i :: 0 <= i < |rows| ==> Ok(r.value[i]) == f(c, Get(rows[i], c))
  {
    if rows == [] then Ok([])
    else
      var first := f(c, Get(rows[0], c));
      if first.Err? then Err(first.error)
      else
        var rest := MappedColumn(rows[1..], c, f);
        if rest.Err? then
          var j :| 0 <= j < |rows| - 1 && f(c, Get(rows[1..][j], c)).Err?;
          assert f(c, Get(rows[j + 1], c)).Err?;
          Err(rest.error)
        else Ok([first.value] + rest.value)
  }

  /** The column loop from the given column on. */
  function MappedFrom(t: Table<Value>, columns: seq<string>, check: ColumnCheck, f: CellMap, how: Assignment)
    : (r: Result<Table<Value>>)
    ensures r.Ok? ==> r.value.columns == t.columns && Labels(r.value.rows) == Labels(t.rows)
    decreases |columns|
  {
    if columns == [] then Ok(t)
    else
      var c := columns[0];
      if check(c).Some? then Err(check(c).value)
      else
        var values :- MappedColumn(t.rows, c, f);
        var next := Table(t.columns, SetColumn(t.rows, c, Assigned(t.rows, values, how)));
        assert Labels(next.rows) == Labels(t.rows);
        MappedFrom(next, columns[1..], check, f, how)
  }

  /** What the column loop leaves in the frame. */
  function MappedTable(t: Table<Value>, check: ColumnCheck, f: CellMap, how: Assignment): Result<Table<Value>>
  {
    MappedFrom(t, t.columns, check, f, how)
  }

  /** The column loop as written: each column checked, mapped and stored in turn. */
  method MapColumns(t: Table<Value>, check: ColumnCheck, f: CellMap, how: Assignment) returns (r: Result<Table<Value>>)
    ensures r == MappedTable(t, check, f, how)
  {
    var frame := t;
    for k := 0 to |t.columns|
      invariant frame.columns == t.columns
      invariant MappedFrom(frame, t.columns[k..], check, f, how) == MappedTable(t, check, f, how)
    {
      assert t.columns[k..][1..] == t.columns[k + 1..];
      var c := t.columns[k];
      var failure := check(c);
      if failure.Some? {
        return Err(failure.value);
      }
      var values := MappedColumn(frame.rows, c, f);
      if values.Err? {
        return Err(values.error);
      }
      frame := Table(frame.columns, SetColumn(frame.rows, c, Assigned(frame.rows, values.value, how)));
    }
    assert t.columns[|t.columns|..] == [];
    return Ok(frame);
  }

  /** Every column passes its check. */
  predicate AllChecked(check: ColumnCheck, columns: seq<string>)
  {
    forall c :: c in columns ==> check(c).None?
  }

  /** One row as the column loop leaves it: its cells mapped column after column. */
  function MappedRow(row: Row<Value>, columns: seq<string>, f: CellMap): Result<Row<Value>>
    decreases |columns|
  {
    if columns == [] then Ok(row)
    else
      var x :- f(columns[0], Get(row, columns[0]));
      MappedRow(Row(row.index, row.cells[columns[0] := x]), columns[1..], f)
  }

  /**
   * Row by row: with distinct columns a row maps exactly when each of its
   * listed cells maps; its listed cells are then the mapped values, its
   * other cells and its label are unchanged.
   */
  lemma {:induction false} MappedRowCells(row: Row<Value>, columns: seq<string>, f: CellMap)
    requires Distinct(columns)
    ensures MappedRow(row, columns, f).Ok? <==> forall c :: c in columns ==> f(c, Get(row, c)).Ok?
    ensures MappedRow(row, columns, f).Ok? ==> MappedRow(row, columns, f).value.index == row.index
    ensures MappedRow(row, columns, f).Ok? ==>
      forall c :: c in columns ==> Ok(Get(MappedRow(row, columns, f).value, c)) == f(c, Get(row, c))
    ensures MappedRow(row, columns, f).Ok? ==>
      forall c :: c !in columns ==> Get(MappedRow(row, columns, f).value, c) == Get(row, c)
    decreases |columns|
  {
    if columns != [] {
      var c0 := columns[0];
      assert Distinct(columns[1..]) by {
        forall i, j | 0 <= i < j < |columns| - 1 ensures columns[1..][i] != columns[1..][j] {
          assert columns[i + 1] != columns[j + 1];
        }
      }
      assert c0 !in columns[1..] by {
        forall j | 0 <= j < |columns| - 1 ensures columns[1..][j] != c0 {
          assert columns[0] != columns[j + 1];
        }
      }
      var first := f(c0, Get(row, c0));
      if first.Ok? {
        var next := Row(row.index, row.cells[c0 := first.value]);
        MappedRowCells(next, columns[1..], f);
        forall c | c in columns[1..] ensures Get(next, c) == Get(row, c) {
          assert c != c0;
        }
        if MappedRow(next, columns[1..], f).Ok? {
          var r := MappedRow(next, columns[1..], f).value;
          assert Get(r, c0) == first.value;
        }
      }
    }
  }

  /**
   * Row by row, over the whole frame: the loop by position succeeds
   * exactly when every column passes its check and every row maps, and
   * then row `i` of the result is row `i` mapped.
   */
  lemma {:induction false} MappedByRows(t: Table<Value>, columns: seq<string>, check: ColumnCheck, f: CellMap)
    ensures MappedFrom(t, columns, check, f, ByPosition).Ok? <==>
      AllChecked(check, columns) && forall i :: 0 <= i < |t.rows| ==> MappedRow(t.rows[i], columns, f).Ok?
    ensures MappedFrom(t, columns, check, f, ByPosition).Ok? ==>
      |MappedFrom(t, columns, check, f, ByPosition).value.rows| == |t.rows| &&
      forall i :: 0 <= i < |t.rows| ==>
        MappedFrom(t, columns, check, f, ByPosition).value.rows[i] == MappedRow(t.rows[i], columns, f).value
    decreases |columns|
  {
    if columns != [] {
      var c := columns[0];
      if check(c).None? {
        assert AllChecked(check, columns) <==> AllChecked(check, columns[1..]) by {
          assert forall d :: d in columns <==> d == c || d in columns[1..];
        }
        var values := MappedColumn(t.rows, c, f);
        if values.Ok? {
          var next := Table(t.columns, SetColumn(t.rows, c, values.value));
          MappedByRows(next, columns[1..], check, f);
          forall i | 0 <= i < |t.rows|
            ensures MappedRow(t.rows[i], columns, f) == MappedRow(next.rows[i], columns[1..], f)
          {
            assert f(c, Get(t.rows[i], c)) == Ok(values.value[i]);
          }
        } else {
          var i :| 0 <= i < |t.rows| && f(c, Get(t.rows[i], c)).Err?;
          assert MappedRow(t.rows[i], columns, f).Err?;
        }
      } else {
        assert c in columns;
      }
    }
  }

  /** On a frame labelled `0 .. n-1`, storing by label gives the same frame as storing by position. */
  lemma {:induction false} ByLabelWhenReset(t: Table<Value>, columns: seq<string>, check: ColumnCheck, f: CellMap)
    requires IndexReset(t.rows)
    ensures MappedFrom(t, columns, check, f, ByLabel) == MappedFrom(t, columns, check, f, ByPosition)
    decreases |columns|
  {
    if columns != [] {
      var c := columns[0];
      var values := MappedColumn(t.rows, c, f);
      if check(c).None? && values.Ok? {
        RealignedWhenReset(t.rows, values.value);
        var next := Table(t.columns, SetColumn(t.rows, c, values.value));
        assert IndexReset(next.rows);
        ByLabelWhenReset(next, columns[1..], check, f);
      }
    }
  }

  /** All rows mapped, stopped by the first row that fails. */
  function RowsMapped(rows: seq<Row<Value>>, columns: seq<string>, f: CellMap): (r: Result<seq<Row<Value>>>)
    ensures r.Ok? <==> forall i :: 0 <= i < |rows| ==> MappedRow(rows[i], columns, f).Ok?
    ensures r.Ok? ==> |r.value| == |rows| && forall i :: 0 <= i < |rows| ==> r.value[i] == MappedRow(rows[i], columns, f).value
  {
    if rows == [] then Ok([])
    else
      var first := MappedRow(rows[0], columns, f);
      if first.Err? then Err(first.error)
      else
        var rest := RowsMapped(rows[1..], columns, f);
        if rest.Err? then
          var j :| 0 <= j < |rows| - 1 && MappedRow(rows[1..][j], columns, f).Err?;
          assert MappedRow(rows[j + 1], columns, f).Err?;
          Err(rest.error)
        else Ok([first.value] + rest.value)
  }

  /** Mapping rows distributes over splitting them. */
  lemma {:induction false} RowsMappedAppend(a: seq<Row<Value>>, b: seq<Row<Value>>, columns: seq<string>, f: CellMap)
    ensures RowsMapped(a + b, columns, f).Ok? <==> RowsMapped(a, columns, f).Ok? && RowsMapped(b, columns, f).Ok?
    ensures RowsMapped(a + b, columns, f).Ok? ==>
      RowsMapped(a + b, columns, f).value == RowsMapped(a, columns, f).value + RowsMapped(b, columns, f).value
    decreases |a|
  {
    if a == [] {
      assert a + b == b;
    } else {
      assert (a + b)[0] == a[0] && (a + b)[1..] == a[1..] + b;
      RowsMappedAppend(a[1..], b, columns, f);
      var first := MappedRow(a[0], columns, f);
      var ra, rb := RowsMapped(a[1..], columns, f), RowsMapped(b, columns, f);
      if first.Ok? && ra.Ok? && rb.Ok? {
        assert [first.value] + (ra.value + rb.value) == [first.value] + ra.value + rb.value;
      }
    }
  }

  /** The pool's work: each part mapped in turn, the results concatenated in part order. */
  function MappedParts(parts: seq<seq<Row<Value>>>, columns: seq<string>, check: ColumnCheck, f: CellMap)
    : Result<seq<Row<Value>>>
  {
    if parts == [] then Ok([])
    else
      var first :- MappedFrom(Table(columns, parts[0]), columns, check, f, ByPosition);
      var rest :- MappedParts(parts[1..], columns, check, f);
      Ok(first.rows + rest)
  }

  /** `pd.concat(pool.map(per_part, np.array_split(frame, n)))`. */
  function SplitMapped(t: Table<Value>, n: int, check: ColumnCheck, f: CellMap): Result<Table<Value>>
  {
    var parts :- ArraySplit(t.rows, n);
    var rows :- MappedParts(parts, t.columns, check, f);
    Ok(Table(t.columns, rows))
  }

  /**
   * The pool's work done in part order: each part goes through the column
   * loop on its own (`progress_map` keeps its labels) and the mapped parts
   * are concatenated.
   */
  method MapSplit(t: Table<Value>, n: int, check: ColumnCheck, f: CellMap) returns (r: Result<Table<Value>>)
    ensures r == SplitMapped(t, n, check, f)
  {
    var split := ArraySplit(t.rows, n);
    if split.Err? {
      return Err(split.error);
    }
    var parts := split.value;
    var rows: seq<Row<Value>> := [];
    assert parts[0..] == parts;
    PrefixedStart(MappedParts(parts, t.columns, check, f));
    for k := 0 to |parts|
      invariant MappedParts(parts, t.columns, check, f) == Prefixed(rows, MappedParts(parts[k..], t.columns, check, f))
    {
      assert parts[k..][0] == parts[k] && parts[k..][1..] == parts[k + 1..];
      var part := MapColumns(Table(t.columns, parts[k]), check, f, ByPosition);
      if part.Err? {
        return Err(part.error);
      }
      PrefixedStep(rows, part.value.rows, MappedParts(parts[k + 1..], t.columns, check, f));
      rows := rows + part.value.rows;
    }
    assert parts[|parts|..] == [];
    assert rows + [] == rows;
    return Ok(Table(t.columns, rows));
  }

  /** The rows of the parts done, followed by what the remaining parts give. */
  function Prefixed(done: seq<Row<Value>>, rest: Result<seq<Row<Value>>>): Result<seq<Row<Value>>>
  {
    if rest.Ok? then Ok(done + rest.value) else rest
  }

  lemma PrefixedStart(rest: Result<seq<Row<Value>>>)
    ensures Prefixed([], rest) == rest
  {
    if rest.Ok? {
      assert [] + rest.value == rest.value;
    }
  }

  lemma PrefixedStep(done: seq<Row<Value>>, part: seq<Row<Value>>, rest: Result<seq<Row<Value>>>)
    ensures Prefixed(done, if rest.Ok? then Ok(part + rest.value) else rest) == Prefixed(done + part, rest)
  {
    if rest.Ok? {
      assert done + (part + rest.value) == done + part + rest.value;
    }
  }

  /** A frame is mapped by position exactly when its rows are. */
  lemma MappedAsRows(t: Table<Value>, check: ColumnCheck, f: CellMap)
    ensures MappedTable(t, check, f, ByPosition).Ok? <==>
      AllChecked(check, t.columns) && RowsMapped(t.rows, t.columns, f).Ok?
    ensures MappedTable(t, check, f, ByPosition).Ok? ==>
      MappedTable(t, check, f, ByPosition).value == Table(t.columns, RowsMapped(t.rows, t.columns, f).value)
  {
    MappedByRows(t, t.columns, check, f);
  }

  lemma {:induction false} MappedPartsAsRows(parts: seq<seq<Row<Value>>>, columns: seq<string>, check: ColumnCheck, f: CellMap)
    ensures MappedParts(parts, columns, check, f).Ok? <==>
      (parts == [] || AllChecked(check, columns)) && RowsMapped(Flatten(parts), columns, f).Ok?
    ensures MappedParts(parts, columns, check, f).Ok? ==>
      MappedParts(parts, columns, check, f).value == RowsMapped(Flatten(parts), columns, f).value
    decreases |parts|
  {
    if parts != [] {
      MappedAsRows(Table(columns, parts[0]), check, f);
      MappedPartsAsRows(parts[1..], columns, check, f);
      RowsMappedAppend(parts[0], Flatten(parts[1..]), columns, f);
    }
  }

  /**
   * Sharing the frame out between `n >= 1` workers changes nothing: the
   * result succeeds exactly when the loop over the whole frame does, and
   * is then the same frame, rows in their order.
   */
  lemma SplitMappedIsMapped(t: Table<Value>, n: int, check: ColumnCheck, f: CellMap)
    requires n >= 1
    ensures SplitMapped(t, n, check, f).Ok? <==> MappedTable(t, check, f, ByPosition).Ok?
    ensures SplitMapped(t, n, check, f).Ok? ==> SplitMapped(t, n, check, f) == MappedTable(t, check, f, ByPosition)
  {
    var parts := ArraySplit(t.rows, n).value;
    MappedPartsAsRows(parts, t.columns, check, f);
    MappedAsRows(t, check, f);
  }

  // ---------------------------------------------------------------------
  // Cell by cell
  // ---------------------------------------------------------------------

  /**
   * `r` is `t` with every cell mapped by `f`: it succeeds exactly when
   * every cell maps, and then keeps the columns and labels and holds the
   * mapped value in each cell.
   */
  predicate CellsMapped(t: Table<Value>, f: CellMap, r: Result<Table<Value>>)
  {
    (r.Ok? <==> forall i, c :: 0 <= i < |t.rows| && c in t.columns ==> f(c, Get(t.rows[i], c)).Ok?) &&
    (r.Ok? ==> r.value.columns == t.columns && Labels(r.value.rows) == Labels(t.rows)) &&
    (r.Ok? ==> forall i, c :: 0 <= i < |t.rows| && c in t.columns ==>
       Ok(Get(r.value.rows[i], c)) == f(c, Get(t.rows[i], c)))
  }

  /** With distinct column names and every check passed, the column loop maps every cell. */
  lemma MappedTableCells(t: Table<Value>, check: ColumnCheck, f: CellMap)
    requires Distinct(t.columns) && AllChecked(check, t.columns)
    ensures CellsMapped(t, f, MappedTable(t, check, f, ByPosition))
  {
    MappedByRows(t, t.columns, check, f);
    forall i | 0 <= i < |t.rows| {
      MappedRowCells(t.rows[i], t.columns, f);
    }
  }

  /** A cell map that never fails, under checks that all pass, never fails the column loop. */
  lemma {:induction false} MappedFromTotal(t: Table<Value>, columns: seq<string>, check: ColumnCheck, f: CellMap,
                                           how: Assignment)
    requires forall c, v :: f(c, v).Ok?
    requires AllChecked(check, columns)
    ensures MappedFrom(t, columns, check, f, how).Ok?
    decreases |columns|
  {
    if columns != [] {
      var c := columns[0];
      var values := MappedColumn(t.rows, c, f).value;
      var next := Table(t.columns, SetColumn(t.rows, c, Assigned(t.rows, values, how)));
      MappedFromTotal(next, columns[1..], check, f, how);
    }
  }

  /** A failed check fails the column loop, whatever the rows. */
  lemma MappedTableChecked(t: Table<Value>, check: ColumnCheck, f: CellMap, how: Assignment)
    requires !AllChecked(check, t.columns)
    ensures MappedTable(t, check, f, how).Err?
  {
    var c :| c in t.columns && check(c).Some?;
    MappedFromChecked(t, t.columns, check, f, how, c);
  }

  lemma {:induction false} MappedFromChecked(t: Table<Value>, columns: seq<string>, check: ColumnCheck, f: CellMap,
                                             how: Assignment, c: string)
    requires c in columns && check(c).Some?
    ensures MappedFrom(t, columns, check, f, how).Err?
    decreases |columns|
  {
    if check(columns[0]).None? {
      assert c in columns[1..];
      var values := MappedColumn(t.rows, columns[0], f);
      if values.Ok? {
        var next := Table(t.columns, SetColumn(t.rows, columns[0], Assigned(t.rows, values.value, how)));
        MappedFromChecked(next, columns[1..], check, f, how, c);
      }
    }
  }

  /** `f`, then `g` on its result. */
  function Compose(f: CellMap, g: CellMap): CellMap
  {
    (c, v) => var x :- f(c, v); g(c, x)
  }

  /** Applying a composition: the second step runs on what the first gives, unless the first fails. */
  lemma ComposeApply(f: CellMap, g: CellMap, c: string, v: Value)
    ensures f(c, v).Err? ==> Compose(f, g)(c, v) == Err(f(c, v).error)
    ensures f(c, v).Ok? ==> Compose(f, g)(c, v) == g(c, f(c, v).value)
  {
  }

  /** The cell operation of a skipped step. */
  function Keep(c: string, v: Value): Result<Value>
  {
    Ok(v)
  }

  lemma KeepCells(t: Table<Value>)
    ensures CellsMapped(t, Keep, Ok(t))
  {
  }

  /** Two steps that each map every cell map every cell by their composition. */
  lemma CellsMappedThen(t: Table<Value>, f: CellMap, g: CellMap, r1: Result<Table<Value>>, r2: Result<Table<Value>>)
    requires CellsMapped(t, f, r1)
    requires r1.Ok? ==> CellsMapped(r1.value, g, r2)
    ensures CellsMapped(t, Compose(f, g), if r1.Ok? then r2 else r1)
  {
    if r1.Ok? {
      var u := r1.value;
      forall i, c | 0 <= i < |t.rows| && c in t.columns
        ensures Compose(f, g)(c, Get(t.rows[i], c)) == g(c, Get(u.rows[i], c))
      {
        assert f(c, Get(t.rows[i], c)) == Ok(Get(u.rows[i], c));
      }
    } else {
      var i, c :| 0 <= i < |t.rows| && c in t.columns && f(c, Get(t.rows[i], c)).Err?;
      assert Compose(f, g)(c, Get(t.rows[i], c)).Err?;
    }
  }

  /** Equal labels keep a frame labelled `0 .. n-1`. */
  lemma IndexResetByLabels(a: seq<Row<Value>>, b: seq<Row<Value>>)
    requires IndexReset(a) && Labels(b) == Labels(a)
    ensures IndexReset(b)
  {
    forall i | 0 <= i < |b| ensures b[i].index == i {
      assert Labels(b)[i] == Labels(a)[i];
    }
  }
}
