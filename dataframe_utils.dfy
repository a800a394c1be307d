/**
 * `DataFrameUtils` and the column-name enumerations
 * (NLPer/nlper/utils/dataframe_utils.py).
 */
module DataFrameUtils {
  import opened Wrappers
  import opened Values
  import opened Tables

  /** `OutputColumns.list()`: the member values in declaration order. */
  const OutputColumns: seq<string> := ["text", "summary"]

  /** `ColumnsWithDuplicates.list()`. */
  const ColumnsWithDuplicates: seq<string> := ["lead", "text"]

  const Lead: string := "lead"
  const Text: string := "text"
  const Summary: string := "summary"

  // ---------------------------------------------------------------------
  // drop_columns
  // ---------------------------------------------------------------------

  /** The columns not listed in `dropped`, in their order. */
  function Remaining(columns: seq<string>, dropped: seq<string>): (r: seq<string>)
    ensures |r| <= |columns|
    ensures forall c :: c in r <==> c in columns && c !in dropped
  {
    if columns == [] then []
    else if columns[0] in dropped then Remaining(columns[1..], dropped)
    else [columns[0]] + Remaining(columns[1..], dropped)
  }

  /** Keeping a sub-list in order keeps the names distinct. */
  lemma {:induction false} RemainingDistinct(columns: seq<string>, dropped: seq<string>)
    requires Distinct(columns)
    ensures Distinct(Remaining(columns, dropped))
    decreases |columns|
  {
    if columns != [] {
      assert Distinct(columns[1..]) by {
        forall i, j | 0 <= i < j < |columns| - 1 ensures columns[1..][i] != columns[1..][j] {
          assert columns[i + 1] != columns[j + 1];
        }
      }
      RemainingDistinct(columns[1..], dropped);
      var rest := Remaining(columns[1..], dropped);
      assert columns[0] !in columns[1..] by {
        forall j | 0 <= j < |columns| - 1 ensures columns[1..][j] != columns[0] {
          assert columns[0] != columns[j + 1];
        }
      }
      assert columns[0] !in rest;
    }
  }

  /** The first listed name that is not a column, if any. */
  function FirstMissing(wanted: seq<string>, columns: seq<string>): (m: Option<string>)
    ensures m.Some? ==> m.value in wanted && m.value !in columns
    ensures m.None? ==> forall c :: c in wanted ==> c in columns
  {
    if wanted == [] then None
    else if wanted[0] !in columns then Some(wanted[0])
    else FirstMissing(wanted[1..], columns)
  }

  /**
   * `DataFrameUtils.drop_columns(dataframe, columns, inplace=False)`:
   * pandas raises `KeyError` when a listed column does not exist;
   * otherwise exactly the listed columns go and every row keeps its label
   * and its other cells.
   */
  function DropColumns<T(!new)>(t: Table<T>, columns: seq<string>): (r: Result<Table<T>>)
    ensures r.Err? <==> exists c :: c in columns && c !in t.columns
    ensures r.Err? ==> r.error.KeyError? && r.error.key in columns && r.error.key !in t.columns
    ensures r.Ok? ==> r.value.columns == Remaining(t.columns, columns)
    ensures r.Ok? ==> |r.value.rows| == |t.rows|
    ensures r.Ok? ==> forall i :: 0 <= i < |t.rows| ==> r.value.rows[i].index == t.rows[i].index
    ensures r.Ok? ==> forall i, c :: 0 <= i < |t.rows| && c in t.rows[i].cells && c !in columns ==>
      c in r.value.rows[i].cells && r.value.rows[i].cells[c] == t.rows[i].cells[c]
    ensures r.Ok? ==> forall i, c :: 0 <= i < |t.rows| && c in columns ==> c !in r.value.rows[i].cells
  {
    match FirstMissing(columns, t.columns)
    case Some(c) => Err(KeyError(c))
    case None =>
      var dropped := set c | c in columns;
      Ok(Table(Remaining(t.columns, columns),
               seq(|t.rows|, i requires 0 <= i < |t.rows| => Row(t.rows[i].index, t.rows[i].cells - dropped))))
  }

  /** Dropping columns keeps a table well formed. */
  lemma DropColumnsWellFormed<T(!new)>(t: Table<T>, columns: seq<string>)
    requires WellFormed(t) && DropColumns(t, columns).Ok?
    ensures WellFormed(DropColumns(t, columns).value)
  {
    var r := DropColumns(t, columns).value;
    RemainingDistinct(t.columns, columns);
    forall i | 0 <= i < |r.rows| ensures Fits(r.rows[i], r.columns) {
      assert Fits(t.rows[i], t.columns);
      assert forall c :: c in t.rows[i].cells <==> c in t.columns;
    }
  }

  // ---------------------------------------------------------------------
  // remove_empty_rows
  // ---------------------------------------------------------------------

  /** The cell of column `c` exists, is not missing and has length > 0. */
  predicate CellNonEmpty(m: map<string, Value>, c: string)
  {
    c in m && !m[c].Null? && Len(m[c]) > 0
  }

  /** The row mask `dataframe[column].map(lambda cell: len(cell) > 0)`. */
  function NonEmptyIn(c: string): map<string, Value> -> bool
  {
    m => CellNonEmpty(m, c)
  }

  /** Every listed column of the row has a non-empty cell. */
  function NonEmptyInAll(columns: seq<string>): map<string, Value> -> bool
  {
    m => forall c :: c in columns ==> CellNonEmpty(m, c)
  }

  /** Some row has a missing value in column `c`. */
  predicate HasNullIn(rows: seq<Row<Value>>, c: string)
  {
    exists i :: 0 <= i < |rows| && c in rows[i].cells && rows[i].cells[c].Null?
  }

  /**
   * One pass of the loop: `len` of a missing value raises `TypeError`;
   * otherwise the rows whose cell in `c` is non-empty stay.
   */
  function KeepNonEmptyIn(rows: seq<Row<Value>>, c: string): Result<seq<Row<Value>>>
  {
    if HasNullIn(rows, c) then Err(TypeError) else Ok(Select(rows, NonEmptyIn(c)))
  }

  /** The loop over the columns, each pass filtering what the previous left. */
  function NonEmptyRowsFrom(rows: seq<Row<Value>>, columns: seq<string>): Result<seq<Row<Value>>>
    decreases |columns|
  {
    if columns == [] then Ok(rows)
    else
      var kept :- KeepNonEmptyIn(rows, columns[0]);
      NonEmptyRowsFrom(kept, columns[1..])
  }

  /**
   * One pass as the loop runs it on the frame: `dataframe[column]` raises
   * `KeyError` once an earlier pass has left a frame without columns;
   * `len(None)` raises `TypeError`; otherwise the mask selects the rows
   * whose cell in `c` is non-empty, and a frame without rows loses its
   * columns (`Masked`).
   */
  function KeepNonEmptyInFrame(t: Table<Value>, c: string): Result<Table<Value>>
  {
    if c !in t.columns then Err(KeyError(c))
    else if HasNullIn(t.rows, c) then Err(TypeError)
    else Ok(Masked(t, NonEmptyIn(c)))
  }

  /** The loop over the columns the frame had when the loop started. */
  function NonEmptyFrameFrom(t: Table<Value>, columns: seq<string>): Result<Table<Value>>
    decreases |columns|
  {
    if columns == [] then Ok(t)
    else
      var kept :- KeepNonEmptyInFrame(t, columns[0]);
      NonEmptyFrameFrom(kept, columns[1..])
  }

  /** What `remove_empty_rows` returns. */
  function EmptyRowsRemoved(t: Table<Value>): Result<Table<Value>>
  {
    var frame :- NonEmptyFrameFrom(t, t.columns);
    Ok(Table(frame.columns, ResetIndex(frame.rows)))
  }

  /** `DataFrameUtils.remove_empty_rows`. */
  method RemoveEmptyRows(t: Table<Value>) returns (r: Result<Table<Value>>)
    ensures r == EmptyRowsRemoved(t)
  {
    var frame := t;
    for i := 0 to |t.columns|
      invariant NonEmptyFrameFrom(frame, t.columns[i..]) == NonEmptyFrameFrom(t, t.columns)
    {
      assert t.columns[i..][1..] == t.columns[i + 1..];
      var kept := KeepNonEmptyInFrame(frame, t.columns[i]);
      if kept.Err? {
        return Err(kept.error);
      }
      frame := kept.value;
    }
    assert t.columns[|t.columns|..] == [];
    r := Ok(Table(frame.columns, ResetIndex(frame.rows)));
  }

  /**
   * Every pass of the row loop that succeeds starts with at least one row
   * left, so the frame never loses its columns.
   */
  predicate RowsBeforeEveryPass(rows: seq<Row<Value>>, columns: seq<string>)
    decreases |columns|
  {
    columns == [] ||
    match KeepNonEmptyIn(rows, columns[0])
    case Err(_) => true
    case Ok(kept) => rows != [] && RowsBeforeEveryPass(kept, columns[1..])
  }

  /** No row has a missing value in a listed column. */
  predicate NoNullIn(rows: seq<Row<Value>>, columns: seq<string>)
  {
    forall i, c :: 0 <= i < |rows| && c in columns && c in rows[i].cells ==> !rows[i].cells[c].Null?
  }

  /**
   * Without missing values the loop keeps exactly the rows whose every
   * cell is non-empty, in their order; with one it can only fail with
   * `TypeError`.
   */
  lemma {:induction false} NonEmptyRowsFromSelects(rows: seq<Row<Value>>, columns: seq<string>)
    ensures NoNullIn(rows, columns) ==> NonEmptyRowsFrom(rows, columns) == Ok(Select(rows, NonEmptyInAll(columns)))
    ensures NonEmptyRowsFrom(rows, columns).Err? ==> NonEmptyRowsFrom(rows, columns).error == TypeError
    decreases |columns|
  {
    if columns == [] {
      SelectAll(rows, NonEmptyInAll(columns));
    } else {
      var c := columns[0];
      if !HasNullIn(rows, c) {
        var kept := Select(rows, NonEmptyIn(c));
        NonEmptyRowsFromSelects(kept, columns[1..]);
        if NoNullIn(rows, columns) {
          assert NoNullIn(kept, columns[1..]) by {
            forall i, d | 0 <= i < |kept| && d in columns[1..] && d in kept[i].cells
              ensures !kept[i].cells[d].Null?
            {
              assert kept[i] in kept;
              assert d in columns;
              var j :| 0 <= j < |rows| && rows[j] == kept[i];
            }
          }
          SelectSelect(rows, NonEmptyIn(c), NonEmptyInAll(columns[1..]));
          SelectEquivalent(rows, m => NonEmptyIn(c)(m) && NonEmptyInAll(columns[1..])(m), NonEmptyInAll(columns));
        }
      } else {
        var i :| 0 <= i < |rows| && c in rows[i].cells && rows[i].cells[c].Null?;
        assert c in columns;
      }
    }
  }

  /**
   * When the loop succeeds, missing values or not, it has kept exactly the
   * rows whose every cell is non-empty, in their order.
   */
  lemma {:induction false} NonEmptyRowsFromOkSelects(rows: seq<Row<Value>>, columns: seq<string>)
    requires NonEmptyRowsFrom(rows, columns).Ok?
    ensures NonEmptyRowsFrom(rows, columns).value == Select(rows, NonEmptyInAll(columns))
    decreases |columns|
  {
    if columns == [] {
      SelectAll(rows, NonEmptyInAll(columns));
    } else {
      var c := columns[0];
      var kept := Select(rows, NonEmptyIn(c));
      NonEmptyRowsFromOkSelects(kept, columns[1..]);
      SelectSelect(rows, NonEmptyIn(c), NonEmptyInAll(columns[1..]));
      SelectEquivalent(rows, m => NonEmptyIn(c)(m) && NonEmptyInAll(columns[1..])(m), NonEmptyInAll(columns));
    }
  }

  /** Every row the loop keeps has a non-empty cell in every column. */
  lemma {:induction false} NonEmptyRowsFromKept(rows: seq<Row<Value>>, columns: seq<string>)
    requires NonEmptyRowsFrom(rows, columns).Ok?
    ensures forall x :: x in NonEmptyRowsFrom(rows, columns).value ==> x in rows && NonEmptyInAll(columns)(x.cells)
    decreases |columns|
  {
    if columns != [] {
      var kept := Select(rows, NonEmptyIn(columns[0]));
      NonEmptyRowsFromKept(kept, columns[1..]);
    }
  }

  /** Over no rows the row loop keeps no rows and cannot fail. */
  lemma {:induction false} NonEmptyRowsFromNone(columns: seq<string>)
    ensures NonEmptyRowsFrom([], columns) == Ok([])
    decreases |columns|
  {
    if columns != [] {
      assert KeepNonEmptyIn([], columns[0]) == Ok([]);
      NonEmptyRowsFromNone(columns[1..]);
    }
  }

  /**
   * The loop on the frame does what the row loop does as long as every
   * pass starts with rows left. Once a pass starts without rows, the row
   * loop ends with no rows, and the frame loop either ends with no rows
   * and no columns (that pass was the last) or fails at the next pass,
   * with `KeyError` for its column.
   */
  lemma {:induction false} NonEmptyFrameFromAgrees(t: Table<Value>, columns: seq<string>)
    requires forall c :: c in columns ==> c in t.columns
    ensures RowsBeforeEveryPass(t.rows, columns) && NonEmptyRowsFrom(t.rows, columns).Ok? ==>
      NonEmptyFrameFrom(t, columns) == Ok(Table(t.columns, NonEmptyRowsFrom(t.rows, columns).value))
    ensures RowsBeforeEveryPass(t.rows, columns) && NonEmptyRowsFrom(t.rows, columns).Err? ==>
      NonEmptyFrameFrom(t, columns) == Err(NonEmptyRowsFrom(t.rows, columns).error)
    ensures !RowsBeforeEveryPass(t.rows, columns) ==> NonEmptyRowsFrom(t.rows, columns) == Ok([])
    ensures !RowsBeforeEveryPass(t.rows, columns) && NonEmptyFrameFrom(t, columns).Ok? ==>
      NonEmptyFrameFrom(t, columns).value == Table([], [])
    ensures !RowsBeforeEveryPass(t.rows, columns) && NonEmptyFrameFrom(t, columns).Err? ==>
      NonEmptyFrameFrom(t, columns).error.KeyError? && NonEmptyFrameFrom(t, columns).error.key in columns
    decreases |columns|
  {
    if columns != [] {
      var c := columns[0];
      assert c in t.columns;
      if !HasNullIn(t.rows, c) {
        var kept := Select(t.rows, NonEmptyIn(c));
        if t.rows == [] {
          NonEmptyRowsFromNone(columns[1..]);
          if columns[1..] != [] {
            assert columns[1..][0] in columns;
          }
        } else {
          forall d | d in columns[1..] ensures d in t.columns {
            assert d in columns;
          }
          NonEmptyFrameFromAgrees(Table(t.columns, kept), columns[1..]);
          if NonEmptyFrameFrom(Table(t.columns, kept), columns[1..]).Err? {
            var e := NonEmptyFrameFrom(Table(t.columns, kept), columns[1..]).error;
            if e.KeyError? && e.key in columns[1..] {
              assert e.key in columns;
            }
          }
        }
      }
    }
  }

  /**
   * `remove_empty_rows` keeps exactly the rows whose every cell is
   * non-empty, in their order, relabelled `0 .. n-1`; it never adds rows.
   * The frame keeps its columns when every pass starts with a row left,
   * and has none otherwise. Without `None` cells and with a row left
   * before every pass it succeeds.
   */
  lemma RemoveEmptyRowsKeepsNonEmpty(t: Table<Value>)
    ensures NoNullIn(t.rows, t.columns) && RowsBeforeEveryPass(t.rows, t.columns) ==>
      EmptyRowsRemoved(t) == Ok(Table(t.columns, ResetIndex(Select(t.rows, NonEmptyInAll(t.columns)))))
    ensures EmptyRowsRemoved(t).Ok? ==>
      EmptyRowsRemoved(t).value.rows == ResetIndex(Select(t.rows, NonEmptyInAll(t.columns)))
    ensures EmptyRowsRemoved(t).Ok? ==>
      EmptyRowsRemoved(t).value.columns == if RowsBeforeEveryPass(t.rows, t.columns) then t.columns else []
    ensures EmptyRowsRemoved(t).Ok? ==> |EmptyRowsRemoved(t).value.rows| <= |t.rows|
  {
    NonEmptyFrameFromAgrees(t, t.columns);
    NonEmptyRowsFromSelects(t.rows, t.columns);
    if NonEmptyRowsFrom(t.rows, t.columns).Ok? {
      NonEmptyRowsFromOkSelects(t.rows, t.columns);
    }
  }

  /**
   * `remove_empty_rows` fails only with `TypeError`, from `len(None)`, or
   * with `KeyError` for one of its columns once a pass has started without
   * rows.
   */
  lemma RemoveEmptyRowsFails(t: Table<Value>)
    ensures EmptyRowsRemoved(t).Err? ==>
      (EmptyRowsRemoved(t).error == TypeError && !NoNullIn(t.rows, t.columns)) ||
      (EmptyRowsRemoved(t).error.KeyError? && EmptyRowsRemoved(t).error.key in t.columns
       && !RowsBeforeEveryPass(t.rows, t.columns))
  {
    NonEmptyFrameFromAgrees(t, t.columns);
    NonEmptyRowsFromSelects(t.rows, t.columns);
  }

  /**
   * On a frame without rows the first pass drops every column, so a frame
   * with one column comes back with none, and one with more fails at the
   * second column.
   */
  lemma RemoveEmptyRowsWithoutRows(t: Table<Value>)
    ensures t.rows == [] && |t.columns| == 1 ==> EmptyRowsRemoved(t) == Ok(Table([], []))
    ensures t.rows == [] && |t.columns| >= 2 ==> EmptyRowsRemoved(t) == Err(KeyError(t.columns[1]))
  {
    if t.rows == [] && |t.columns| >= 1 {
      var none: Table<Value> := Table([], []);
      assert !HasNullIn(t.rows, t.columns[0]);
      assert KeepNonEmptyInFrame(t, t.columns[0]) == Ok(none);
      assert NonEmptyFrameFrom(t, t.columns) == NonEmptyFrameFrom(none, t.columns[1..]);
      if |t.columns| == 1 {
        assert t.columns[1..] == [];
        assert ResetIndex(none.rows) == [];
      } else {
        assert t.columns[1..][0] == t.columns[1];
        assert KeepNonEmptyInFrame(none, t.columns[1]) == Err(KeyError(t.columns[1]));
      }
    }
  }

  /**
   * Removing empty rows twice is not removing them once: a frame whose
   * only row has an empty last cell comes back with its columns and no
   * rows, and a second call fails with `KeyError` at the second column.
   */
  lemma RemoveEmptyRowsNotIdempotent(a: string, b: string)
    requires a != b
    ensures EmptyRowsRemoved(Table([a, b], [Row(0, map[a := Str("x"), b := Str("")])])) == Ok(Table([a, b], []))
    ensures EmptyRowsRemoved(Table([a, b], [])) == Err(KeyError(b))
  {
    var row := Row(0, map[a := Str("x"), b := Str("")]);
    var t := Table([a, b], [row]);
    var emptied: Table<Value> := Table([a, b], []);
    assert NonEmptyIn(a)(row.cells);
    assert !NonEmptyIn(b)(row.cells);
    assert !HasNullIn([row], a) && !HasNullIn([row], b);
    assert Select([row], NonEmptyIn(a)) == [row];
    assert KeepNonEmptyInFrame(t, a) == Ok(t);
    assert Select([row], NonEmptyIn(b)) == [];
    assert KeepNonEmptyInFrame(t, b) == Ok(Table([a, b], []));
    assert [a, b][1..] == [b];
    assert NonEmptyFrameFrom(t, [a, b]) == NonEmptyFrameFrom(t, [b]);
    assert [b][1..] == [];
    assert NonEmptyFrameFrom(t, [b]) == NonEmptyFrameFrom(emptied, []) == Ok(emptied);
    assert ResetIndex(emptied.rows) == [];
    RemoveEmptyRowsWithoutRows(Table([a, b], []));
  }

  /**
   * `remove_empty_rows` as its name and docstring promise: the rows with
   * an empty cell go and the columns stay, even when no row is left. It
   * agrees with `EmptyRowsRemoved` whenever every pass starts with a row.
   */
  function EmptyRowsRemovedKeepingColumns(t: Table<Value>): (r: Result<Table<Value>>)
    ensures r.Ok? ==> r.value.columns == t.columns
    ensures RowsBeforeEveryPass(t.rows, t.columns) ==> r == EmptyRowsRemoved(t)
  {
    NonEmptyFrameFromAgrees(t, t.columns);
    var rows :- NonEmptyRowsFrom(t.rows, t.columns);
    Ok(Table(t.columns, ResetIndex(rows)))
  }

  /** Removing empty rows while keeping the columns a second time changes nothing. */
  lemma EmptyRowsRemovedKeepingColumnsIdempotent(t: Table<Value>)
    requires EmptyRowsRemovedKeepingColumns(t).Ok?
    ensures EmptyRowsRemovedKeepingColumns(EmptyRowsRemovedKeepingColumns(t).value) == EmptyRowsRemovedKeepingColumns(t)
  {
    var kept := NonEmptyRowsFrom(t.rows, t.columns).value;
    NonEmptyRowsFromKept(t.rows, t.columns);
    var once := ResetIndex(kept);
    assert forall x :: x in once ==> NonEmptyInAll(t.columns)(x.cells) by {
      forall x | x in once ensures NonEmptyInAll(t.columns)(x.cells) {
        var i :| 0 <= i < |once| && once[i] == x;
        assert kept[i] in kept;
      }
    }
    assert NoNullIn(once, t.columns) by {
      forall i, c | 0 <= i < |once| && c in t.columns && c in once[i].cells ensures !once[i].cells[c].Null? {
        assert once[i] in once;
        assert NonEmptyInAll(t.columns)(once[i].cells);
      }
    }
    var t1 := Table(t.columns, once);
    assert EmptyRowsRemovedKeepingColumns(t) == Ok(t1);
    NonEmptyRowsFromSelects(once, t.columns);
    SelectAll(once, NonEmptyInAll(t.columns));
    assert NonEmptyRowsFrom(t1.rows, t1.columns) == Ok(once);
    assert ResetIndex(once) == once;
  }
}
