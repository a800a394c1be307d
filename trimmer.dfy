/**
 * `Trimmer` (NLPer/nlper/dataframe_cleaner/trimmer.py): rows whose text
 * has too few words are dropped, then every remaining text is cut to at
 * most a threshold of tokens at a sentence boundary. The thresholds come
 * from the configuration, one pair per column; sentence segmentation
 * (spaCy) is a parameter.
 */
module Trimmer {
  import opened Wrappers
  import opened Strings
  import opened Values
  import opened Tables
  import opened Frames
  import opened Partitions
  import opened ColumnMaps
  import opened TrimUtils

  /** The configuration key of a column's lower word-count limit. */
  function LowerKey(c: string): string
  {
    c + "_lower_length_limit"
  }

  /** The configuration key of a column's upper token-count limit. */
  function UpperKey(c: string): string
  {
    c + "_upper_length_limit"
  }

  // ---------------------------------------------------------------------
  // remove_below_lower_length_limit
  // ---------------------------------------------------------------------

  /** Every row's cell in `c` is a string (anything else has no `strip`). */
  predicate AllText(rows: seq<Row<Value>>, c: string)
  {
    forall i :: 0 <= i < |rows| ==> Get(rows[i], c).Str?
  }

  /** The row mask `frame[c].map(remove_text_below_lower_length_threshold(threshold))`. */
  function AboveIn(c: string, threshold: int): map<string, Value> -> bool
  {
    (m: map<string, Value>) => c in m && m[c].Str? && AboveLowerThreshold(threshold, m[c].s)
  }

  /** Every column's text has more words than its configured lower limit. */
  function AboveInAll(columns: seq<string>, limits: map<string, int>): map<string, Value> -> bool
  {
    (m: map<string, Value>) => forall c :: c in columns ==> LowerKey(c) in limits && AboveIn(c, limits[LowerKey(c)])(m)
  }

  /**
   * One pass of the loop: the limit is looked up first (`KeyError` when
   * it is missing), then the mask is computed over the rows left, which
   * fails with `AttributeError` on a cell that is not a string.
   */
  function KeepAboveIn(rows: seq<Row<Value>>, c: string, limits: map<string, int>): Result<seq<Row<Value>>>
  {
    if LowerKey(c) !in limits then Err(KeyError(LowerKey(c)))
    else if !AllText(rows, c) then Err(AttributeError)
    else Ok(Select(rows, AboveIn(c, limits[LowerKey(c)])))
  }

  /** The loop over the columns, each pass filtering what the previous one left. */
  function AboveRowsFrom(rows: seq<Row<Value>>, columns: seq<string>, limits: map<string, int>): Result<seq<Row<Value>>>
    decreases |columns|
  {
    if columns == [] then Ok(rows)
    else
      var kept :- KeepAboveIn(rows, columns[0], limits);
      AboveRowsFrom(kept, columns[1..], limits)
  }

  /**
   * One pass as the loop runs it on `data`: the limit is looked up first,
   * then `data[c]` raises `KeyError` once an earlier pass has left a frame
   * without columns; otherwise it is `KeepAboveIn` on the rows, except
   * that a frame without rows loses its columns (`Masked`).
   */
  function KeepAboveInFrame(t: Table<Value>, c: string, limits: map<string, int>): Result<Table<Value>>
  {
    if LowerKey(c) !in limits then Err(KeyError(LowerKey(c)))
    else if c !in t.columns then Err(KeyError(c))
    else if !AllText(t.rows, c) then Err(AttributeError)
    else Ok(Masked(t, AboveIn(c, limits[LowerKey(c)])))
  }

  /** The loop over the columns `data` had when the loop started. */
  function AboveFrameFrom(t: Table<Value>, columns: seq<string>, limits: map<string, int>): Result<Table<Value>>
    decreases |columns|
  {
    if columns == [] then Ok(t)
    else
      var kept :- KeepAboveInFrame(t, columns[0], limits);
      AboveFrameFrom(kept, columns[1..], limits)
  }

  /** What `remove_below_lower_length_limit` leaves in `data`. */
  function BelowLowerRemoved(t: Table<Value>, limits: map<string, int>): Result<Table<Value>>
  {
    var frame :- AboveFrameFrom(t, t.columns, limits);
    Ok(Table(frame.columns, ResetIndex(frame.rows)))
  }

  /**
   * Every pass of the row loop that succeeds starts with at least one row
   * left, so `data` never loses its columns.
   */
  predicate RowsBeforeEveryLowerPass(rows: seq<Row<Value>>, columns: seq<string>, limits: map<string, int>)
    decreases |columns|
  {
    columns == [] ||
    match KeepAboveIn(rows, columns[0], limits)
    case Err(_) => true
    case Ok(kept) => rows != [] && RowsBeforeEveryLowerPass(kept, columns[1..], limits)
  }

  /** Every column has a lower limit and only strings in it. */
  predicate LowerReady(rows: seq<Row<Value>>, columns: seq<string>, limits: map<string, int>)
  {
    forall c :: c in columns ==> LowerKey(c) in limits && AllText(rows, c)
  }

  /** The error the lower pass can raise: a missing limit of a column, or a cell that is not a string. */
  predicate LowerError(e: Error, columns: seq<string>, limits: map<string, int>)
  {
    e == AttributeError || exists c :: c in columns && e == KeyError(LowerKey(c)) && LowerKey(c) !in limits
  }

  /**
   * When every column has its limit and only strings, the loop keeps
   * exactly the rows each of whose texts has more words than its column's
   * limit, in their order; otherwise it can only fail, with a missing
   * column limit or `AttributeError`.
   */
  lemma {:induction false} AboveRowsFromSelects(rows: seq<Row<Value>>, columns: seq<string>, limits: map<string, int>)
    ensures LowerReady(rows, columns, limits) ==> AboveRowsFrom(rows, columns, limits) == Ok(Select(rows, AboveInAll(columns, limits)))
    ensures AboveRowsFrom(rows, columns, limits).Err? ==> LowerError(AboveRowsFrom(rows, columns, limits).error, columns, limits)
    ensures (exists c :: c in columns && LowerKey(c) !in limits) ==> AboveRowsFrom(rows, columns, limits).Err?
    decreases |columns|
  {
    if columns == [] {
      SelectAll(rows, AboveInAll(columns, limits));
    } else {
      var c := columns[0];
      var r := KeepAboveIn(rows, c, limits);
      if r.Ok? {
        var kept := r.value;
        AboveRowsFromSelects(kept, columns[1..], limits);
        if LowerReady(rows, columns, limits) {
          assert LowerReady(kept, columns[1..], limits) by {
            forall d | d in columns[1..] ensures LowerKey(d) in limits && AllText(kept, d) {
              assert d in columns;
              forall i | 0 <= i < |kept| ensures Get(kept[i], d).Str? {
                assert kept[i] in kept;
                var j :| 0 <= j < |rows| && rows[j] == kept[i];
              }
            }
          }
          var above := AboveIn(c, limits[LowerKey(c)]);
          SelectSelect(rows, above, AboveInAll(columns[1..], limits));
          SelectEquivalent(rows, m => above(m) && AboveInAll(columns[1..], limits)(m), AboveInAll(columns, limits));
        }
        if AboveRowsFrom(kept, columns[1..], limits).Err? {
          var e := AboveRowsFrom(kept, columns[1..], limits).error;
          if e != AttributeError {
            var d :| d in columns[1..] && e == KeyError(LowerKey(d)) && LowerKey(d) !in limits;
            assert d in columns;
          }
        }
        if exists d :: d in columns && LowerKey(d) !in limits {
          var d :| d in columns && LowerKey(d) !in limits;
          assert d != c;
          assert d in columns[1..];
        }
      } else if LowerKey(c) !in limits {
        assert c in columns;
      }
    }
  }

  /**
   * When the row loop succeeds, every column has its limit and the loop
   * has kept exactly the rows each of whose texts has more words than its
   * column's limit, in their order.
   */
  lemma {:induction false} AboveRowsFromOkSelects(rows: seq<Row<Value>>, columns: seq<string>, limits: map<string, int>)
    requires AboveRowsFrom(rows, columns, limits).Ok?
    ensures forall c :: c in columns ==> LowerKey(c) in limits
    ensures AboveRowsFrom(rows, columns, limits).value == Select(rows, AboveInAll(columns, limits))
    decreases |columns|
  {
    AboveRowsFromSelects(rows, columns, limits);
    if columns == [] {
      SelectAll(rows, AboveInAll(columns, limits));
    } else {
      var c := columns[0];
      var above := AboveIn(c, limits[LowerKey(c)]);
      var kept := Select(rows, above);
      AboveRowsFromOkSelects(kept, columns[1..], limits);
      SelectSelect(rows, above, AboveInAll(columns[1..], limits));
      SelectEquivalent(rows, m => above(m) && AboveInAll(columns[1..], limits)(m), AboveInAll(columns, limits));
    }
  }

  /**
   * The loop on `data` does what the row loop does as long as every pass
   * starts with rows left. Once a pass starts without rows, `data` either
   * ends with no rows and no columns (that pass was the last, and the row
   * loop ends with no rows) or fails at the next pass with `KeyError`, for
   * its limit or for its column.
   */
  lemma {:induction false} AboveFrameFromAgrees(t: Table<Value>, columns: seq<string>, limits: map<string, int>)
    requires forall c :: c in columns ==> c in t.columns
    ensures RowsBeforeEveryLowerPass(t.rows, columns, limits) && AboveRowsFrom(t.rows, columns, limits).Ok? ==>
      AboveFrameFrom(t, columns, limits) == Ok(Table(t.columns, AboveRowsFrom(t.rows, columns, limits).value))
    ensures RowsBeforeEveryLowerPass(t.rows, columns, limits) && AboveRowsFrom(t.rows, columns, limits).Err? ==>
      AboveFrameFrom(t, columns, limits) == Err(AboveRowsFrom(t.rows, columns, limits).error)
    ensures !RowsBeforeEveryLowerPass(t.rows, columns, limits) && AboveFrameFrom(t, columns, limits).Ok? ==>
      AboveFrameFrom(t, columns, limits).value == Table([], []) && AboveRowsFrom(t.rows, columns, limits) == Ok([])
    ensures !RowsBeforeEveryLowerPass(t.rows, columns, limits) && AboveFrameFrom(t, columns, limits).Err? ==>
      var e := AboveFrameFrom(t, columns, limits).error;
      LowerError(e, columns, limits) || (e.KeyError? && e.key in columns)
    decreases |columns|
  {
    if columns != [] {
      var c := columns[0];
      assert c in t.columns;
      if KeepAboveIn(t.rows, c, limits).Ok? {
        var kept := KeepAboveIn(t.rows, c, limits).value;
        if t.rows == [] {
          var none: Table<Value> := Table([], []);
          assert AboveFrameFrom(t, columns, limits) == AboveFrameFrom(none, columns[1..], limits);
          if columns[1..] == [] {
            assert AboveRowsFrom(kept, columns[1..], limits) == Ok([]);
          } else {
            var d := columns[1..][0];
            assert d in columns;
            if LowerKey(d) !in limits {
              assert LowerError(KeyError(LowerKey(d)), columns, limits);
            }
          }
        } else {
          forall d | d in columns[1..] ensures d in t.columns {
            assert d in columns;
          }
          AboveFrameFromAgrees(Table(t.columns, kept), columns[1..], limits);
          if AboveFrameFrom(Table(t.columns, kept), columns[1..], limits).Err? {
            var e := AboveFrameFrom(Table(t.columns, kept), columns[1..], limits).error;
            if e.KeyError? && e.key in columns[1..] {
              assert e.key in columns;
            }
            if e != AttributeError && LowerError(e, columns[1..], limits) {
              var d :| d in columns[1..] && e == KeyError(LowerKey(d)) && LowerKey(d) !in limits;
              assert d in columns;
            }
          }
        }
      }
    }
  }

  /**
   * `remove_below_lower_length_limit` keeps exactly the rows whose every
   * text has more words than its column's lower limit, in their order,
   * relabelled `0 .. n-1`. `data` keeps its columns when every pass
   * starts with a row left and has none otherwise. Without a limit for
   * some column it fails; with every limit, only strings and a row left
   * before every pass it succeeds. Its other failures are `AttributeError`
   * and, once a pass has started without rows, `KeyError` for a column.
   */
  lemma BelowLowerRemovedKeepsAbove(t: Table<Value>, limits: map<string, int>)
    ensures LowerReady(t.rows, t.columns, limits) && RowsBeforeEveryLowerPass(t.rows, t.columns, limits) ==>
      BelowLowerRemoved(t, limits) == Ok(Table(t.columns, ResetIndex(Select(t.rows, AboveInAll(t.columns, limits)))))
    ensures BelowLowerRemoved(t, limits).Ok? ==>
      BelowLowerRemoved(t, limits).value.rows == ResetIndex(Select(t.rows, AboveInAll(t.columns, limits)))
    ensures BelowLowerRemoved(t, limits).Ok? ==>
      BelowLowerRemoved(t, limits).value.columns ==
        if RowsBeforeEveryLowerPass(t.rows, t.columns, limits) then t.columns else []
    ensures BelowLowerRemoved(t, limits).Err? ==>
      LowerError(BelowLowerRemoved(t, limits).error, t.columns, limits) ||
      (BelowLowerRemoved(t, limits).error.KeyError? && BelowLowerRemoved(t, limits).error.key in t.columns
       && !RowsBeforeEveryLowerPass(t.rows, t.columns, limits))
    ensures (exists c :: c in t.columns && LowerKey(c) !in limits) ==> BelowLowerRemoved(t, limits).Err?
  {
    AboveFrameFromAgrees(t, t.columns, limits);
    AboveRowsFromSelects(t.rows, t.columns, limits);
    if AboveRowsFrom(t.rows, t.columns, limits).Ok? {
      AboveRowsFromOkSelects(t.rows, t.columns, limits);
    }
  }

  /**
   * The surviving rows are relabelled `0 .. n-1`, there are no more of
   * them than before, and each passes every column's filter.
   */
  lemma BelowLowerRemovedShape(t: Table<Value>, limits: map<string, int>)
    requires BelowLowerRemoved(t, limits).Ok?
    ensures BelowLowerRemoved(t, limits).value.columns == t.columns || BelowLowerRemoved(t, limits).value == Table([], [])
    ensures IndexReset(BelowLowerRemoved(t, limits).value.rows)
    ensures |BelowLowerRemoved(t, limits).value.rows| <= |t.rows|
    ensures forall i :: 0 <= i < |BelowLowerRemoved(t, limits).value.rows| ==>
      AboveInAll(t.columns, limits)(BelowLowerRemoved(t, limits).value.rows[i].cells)
  {
    BelowLowerRemovedKeepsAbove(t, limits);
    AboveFrameFromAgrees(t, t.columns, limits);
    var kept := Select(t.rows, AboveInAll(t.columns, limits));
    var r := ResetIndex(kept);
    forall i | 0 <= i < |r| ensures AboveInAll(t.columns, limits)(r[i].cells) {
      assert kept[i] in kept;
    }
  }

  /**
   * Lower limits that are at least as high never keep more rows: the
   * filter counts words, so a text above a higher limit is above a lower
   * one. With a row left before every pass, either set of limits succeeds.
   */
  lemma LowerLimitsMonotone(t: Table<Value>, low: map<string, int>, high: map<string, int>)
    requires LowerReady(t.rows, t.columns, low) && LowerReady(t.rows, t.columns, high)
    requires forall c :: c in t.columns ==> low[LowerKey(c)] <= high[LowerKey(c)]
    ensures RowsBeforeEveryLowerPass(t.rows, t.columns, low) ==> BelowLowerRemoved(t, low).Ok?
    ensures RowsBeforeEveryLowerPass(t.rows, t.columns, high) ==> BelowLowerRemoved(t, high).Ok?
    ensures BelowLowerRemoved(t, low).Ok? && BelowLowerRemoved(t, high).Ok? ==>
      |BelowLowerRemoved(t, high).value.rows| <= |BelowLowerRemoved(t, low).value.rows|
  {
    BelowLowerRemovedKeepsAbove(t, low);
    BelowLowerRemovedKeepsAbove(t, high);
    forall x | x in t.rows && AboveInAll(t.columns, high)(x.cells) ensures AboveInAll(t.columns, low)(x.cells) {
      forall c | c in t.columns ensures AboveIn(c, low[LowerKey(c)])(x.cells) {
        assert AboveIn(c, high[LowerKey(c)])(x.cells);
        AboveLowerThresholdCountsWords(high[LowerKey(c)], x.cells[c].s);
      }
    }
    SelectMonotone(t.rows, AboveInAll(t.columns, high), AboveInAll(t.columns, low));
  }

  // ---------------------------------------------------------------------
  // trim_to_upper_length_limit
  // ---------------------------------------------------------------------

  /** `self.config[f'{column_name}_upper_length_limit']`, read before the column is trimmed. */
  function UpperCheck(limits: map<string, int>): ColumnCheck
  {
    c => if UpperKey(c) in limits then None else Some(KeyError(UpperKey(c)))
  }

  /**
   * `trim_text_to_upper_length_threshold` on a cell, as written (the
   * slice of `TrimTextToUpperLengthThreshold`); the language model only
   * accepts text. The limit test keeps the map total: the column's check
   * has already failed the pass when the limit is missing, so through
   * `UpperTrimmed` that branch is never taken.
   */
  function TrimCell(segment: string -> seq<Sentence>, limits: map<string, int>): CellMap
  {
    (c: string, v: Value) =>
      if UpperKey(c) !in limits then Err(KeyError(UpperKey(c)))
      else if !v.Str? then Err(TypeError)
      else
        var s :- TrimTextToUpperLengthThreshold(segment, v.s, limits[UpperKey(c)]);
        Ok(Str(s))
  }

  /** What `trim_to_upper_length_limit` leaves in `data`, with `n` worker processes. */
  function UpperTrimmed(t: Table<Value>, limits: map<string, int>, segment: string -> seq<Sentence>, n: int)
    : Result<Table<Value>>
  {
    SplitMapped(t, n, UpperCheck(limits), TrimCell(segment, limits))
  }

  /**
   * With at least one worker and distinct columns, the upper pass trims
   * every cell on its own: a missing upper limit fails it, and otherwise
   * it succeeds exactly when every cell is a string with at least one
   * sentence, keeps the columns, labels and row order, and holds in each
   * cell the text trimmed to that column's limit.
   */
  lemma UpperTrimmedCellByCell(t: Table<Value>, limits: map<string, int>, segment: string -> seq<Sentence>, n: int)
    requires Distinct(t.columns) && n >= 1
    ensures (exists c :: c in t.columns && UpperKey(c) !in limits) ==> UpperTrimmed(t, limits, segment, n).Err?
    ensures (forall c :: c in t.columns ==> UpperKey(c) in limits) ==>
      CellsMapped(t, TrimCell(segment, limits), UpperTrimmed(t, limits, segment, n))
  {
    SplitMappedIsMapped(t, n, UpperCheck(limits), TrimCell(segment, limits));
    if forall c :: c in t.columns ==> UpperKey(c) in limits {
      MappedTableCells(t, UpperCheck(limits), TrimCell(segment, limits));
    } else {
      MappedTableChecked(t, UpperCheck(limits), TrimCell(segment, limits), ByPosition);
    }
  }

  /**
   * A trimmed cell holds a run of its first sentences: all of them when
   * the whole text fits its column's limit; one fewer than the longest run
   * that fits when the text does not fit but its first sentence does; and
   * all but the last when not even the first sentence fits. A text without
   * sentences fails.
   */
  lemma TrimCellKeepsSentencePrefix(segment: string -> seq<Sentence>, limits: map<string, int>, c: string, v: Value)
    requires TrimCell(segment, limits)(c, v).Ok?
    ensures v.Str? && UpperKey(c) in limits && segment(v.s) != []
    ensures Total(segment(v.s)) <= limits[UpperKey(c)] ==>
      TrimCell(segment, limits)(c, v) == Ok(Str(JoinSentences(segment(v.s))))
    ensures Total(segment(v.s)) > limits[UpperKey(c)] && Total(segment(v.s)[..1]) <= limits[UpperKey(c)] ==>
      LongestFittingPrefix(segment(v.s), limits[UpperKey(c)]) >= 1 &&
      TrimCell(segment, limits)(c, v)
        == Ok(Str(JoinSentences(segment(v.s)[..LongestFittingPrefix(segment(v.s), limits[UpperKey(c)]) - 1])))
    ensures Total(segment(v.s)[..1]) > limits[UpperKey(c)] ==>
      TrimCell(segment, limits)(c, v) == Ok(Str(JoinSentences(segment(v.s)[..|segment(v.s)| - 1])))
  {
    var limit := limits[UpperKey(c)];
    if Total(segment(v.s)) <= limit {
      TotalMonotone(segment(v.s), 1, |segment(v.s)|);
      assert segment(v.s)[..|segment(v.s)|] == segment(v.s);
      UpperTrimKeepsShortText(segment, v.s, limit);
    } else if Total(segment(v.s)[..1]) <= limit {
      UpperTrimDropsFittingSentence(segment, v.s, limit);
    } else {
      UpperTrimWhenFirstSentenceTooLong(segment, v.s, limit);
    }
  }

  // ---------------------------------------------------------------------
  // trim_dataframe
  // ---------------------------------------------------------------------

  /** What `trim_dataframe` returns, with `n` worker processes. */
  function Trimmed(t: Table<Value>, limits: map<string, int>, segment: string -> seq<Sentence>, n: int)
    : Result<Table<Value>>
  {
    var lower :- BelowLowerRemoved(t, limits);
    UpperTrimmed(lower, limits, segment, n)
  }

  /**
   * With at least one worker, `trim_dataframe` leaves no more rows than it
   * was given, labels them `0 .. n-1` and holds in each cell the trimmed
   * text of the row that survived the lower pass. It keeps the columns
   * when every lower pass starts with a row left, and has none otherwise.
   */
  lemma TrimmedShape(t: Table<Value>, limits: map<string, int>, segment: string -> seq<Sentence>, n: int)
    requires Distinct(t.columns) && n >= 1
    requires Trimmed(t, limits, segment, n).Ok?
    ensures Trimmed(t, limits, segment, n).value.columns ==
      if RowsBeforeEveryLowerPass(t.rows, t.columns, limits) then t.columns else []
    ensures |Trimmed(t, limits, segment, n).value.rows| <= |t.rows|
    ensures IndexReset(Trimmed(t, limits, segment, n).value.rows)
    ensures CellsMapped(BelowLowerRemoved(t, limits).value, TrimCell(segment, limits), Trimmed(t, limits, segment, n))
  {
    var lower := BelowLowerRemoved(t, limits).value;
    BelowLowerRemovedShape(t, limits);
    BelowLowerRemovedKeepsAbove(t, limits);
    UpperTrimmedCellByCell(lower, limits, segment, n);
    IndexResetByLabels(lower.rows, Trimmed(t, limits, segment, n).value.rows);
  }

  /**
   * With `cpu_count() // 2` workers, a single-processor machine cannot
   * trim: `trim_dataframe` fails whatever the frame and the limits.
   */
  lemma TrimmedOnOneProcessorAsWritten(t: Table<Value>, limits: map<string, int>, segment: string -> seq<Sentence>)
    ensures Trimmed(t, limits, segment, WorkerCountAsWritten(1)).Err?
  {
  }

  /** The trimmer: the configured limits are read, `data` is replaced step by step. */
  class Trimmer {
    const limits: map<string, int>
    var data: Table<Value>
    var nCores: nat

    /** `cpus` is what `cpu_count()` reports; the worker count is at least one. */
    constructor(limits: map<string, int>, data: Table<Value>, cpus: nat)
      ensures this.limits == limits && this.data == data && nCores == WorkerCount(cpus)
    {
      this.limits := limits;
      this.data := data;
      nCores := WorkerCount(cpus);
    }

    /** `remove_below_lower_length_limit`. */
    method RemoveBelowLowerLengthLimit() returns (failure: Option<Error>)
      modifies this
      ensures nCores == old(nCores)
      ensures Reports(failure, BelowLowerRemoved(old(data), limits))
      ensures failure.None? ==> data == BelowLowerRemoved(old(data), limits).value
    {
      var columns := data.columns;
      for i := 0 to |columns|
        invariant nCores == old(nCores) && columns == old(data).columns
        invariant AboveFrameFrom(data, columns[i..], limits) == AboveFrameFrom(old(data), columns, limits)
      {
        assert columns[i..][1..] == columns[i + 1..];
        var kept := KeepAboveInFrame(data, columns[i], limits);
        if kept.Err? {
          return Some(kept.error);
        }
        data := kept.value;
      }
      assert columns[|columns|..] == [];
      data := Table(data.columns, ResetIndex(data.rows));
      return None;
    }

    /** `trim_to_upper_length_limit`, given the language model's sentence segmentation. */
    method TrimToUpperLengthLimit(segment: string -> seq<Sentence>) returns (failure: Option<Error>)
      modifies this
      ensures nCores == old(nCores)
      ensures Reports(failure, UpperTrimmed(old(data), limits, segment, nCores))
      ensures failure.None? ==> data == UpperTrimmed(old(data), limits, segment, nCores).value
    {
      var r := MapSplit(data, nCores, UpperCheck(limits), TrimCell(segment, limits));
      if r.Err? {
        return Some(r.error);
      }
      data := r.value;
      return None;
    }

    /** `trim_dataframe`: the lower pass, then the upper pass. */
    method TrimDataframe(segment: string -> seq<Sentence>) returns (r: Result<Table<Value>>)
      modifies this
      ensures r == Trimmed(old(data), limits, segment, nCores)
      ensures r.Ok? ==> data == r.value
    {
      var failure := RemoveBelowLowerLengthLimit();
      if failure.Some? {
        return Err(failure.value);
      }
      failure := TrimToUpperLengthLimit(segment);
      if failure.Some? {
        return Err(failure.value);
      }
      return Ok(data);
    }
  }
}
