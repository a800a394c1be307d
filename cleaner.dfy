/**
 * `Cleaner` (NLPer/nlper/dataframe_cleaner/cleaner.py): every cell of the
 * frame goes from a list of fragments to one text, loses unwanted
 * characters, optionally has its numbers hidden and is optionally
 * lemmatized. HTML stripping and lemmatization (spaCy) are parameters.
 */
module Cleaner {
  import opened Wrappers
  import opened Values
  import opened Tables
  import opened Frames
  import opened Partitions
  import opened ColumnMaps
  import opened CleanUtils

  /** The configuration keys the cleaner reads. */
  datatype CleanerConfig = CleanerConfig(hideNumbers: bool, lemmatize: bool)

  /** `convert_list_to_text` on a cell, stored as a string. */
  function ConvertCell(c: string, v: Value): Result<Value>
  {
    var text :- ConvertListToText(v);
    Ok(Str(text))
  }

  /** `remove_characters_for_text` on a cell; a cell that is not a string cannot be parsed as HTML. */
  function RemoveCharactersCell(stripHtml: string -> string): CellMap
  {
    (c: string, v: Value) => if v.Str? then Ok(Str(CharactersRemovedForText(v.s, stripHtml))) else Err(TypeError)
  }

  /**
   * `hide_numbers` on a cell. It applies `str` first, so it never fails: a
   * missing value, which storing by label leaves in a row whose label is
   * not a position, becomes the text `nan`.
   */
  function HideNumbersCell(c: string, v: Value): (r: Result<Value>)
    ensures r.Ok? && r.value.Str?
    ensures v.Str? ==> r.value == Str(HideNumbers(v.s, NumberReplacement))
    ensures v.Null? ==> r.value == Str("nan")
  {
    HideNumbersOfMissing(NumberReplacement);
    Ok(Str(HideNumbers(PyStr(v), NumberReplacement)))
  }

  /** `lemmatize` on a cell, given the language model. */
  function LemmatizeCell(lemmatize: string -> string): CellMap
  {
    (c: string, v: Value) => if v.Str? then Ok(Str(lemmatize(v.s))) else Err(TypeError)
  }

  /** `convert_list_to_text_in_dataframe`: a Python list is stored by position. */
  function ListsConverted(t: Table<Value>): Result<Table<Value>>
  {
    MappedTable(t, NoCheck, ConvertCell, ByPosition)
  }

  /** `remove_characters_for_dataframe`: a new `pd.Series` is stored by label. */
  function CharactersRemoved(t: Table<Value>, stripHtml: string -> string): Result<Table<Value>>
  {
    MappedTable(t, NoCheck, RemoveCharactersCell(stripHtml), ByLabel)
  }

  /** `hide_numbers` (the frame-wide method): a new `pd.Series` is stored by label. */
  function NumbersHidden(t: Table<Value>): Result<Table<Value>>
  {
    MappedTable(t, NoCheck, HideNumbersCell, ByLabel)
  }

  /** `lemmatize_text`: the frame is split into `n` parts, each lemmatized column by column. */
  function Lemmatized(t: Table<Value>, lemmatize: string -> string, n: int): Result<Table<Value>>
  {
    SplitMapped(t, n, NoCheck, LemmatizeCell(lemmatize))
  }

  /** Hiding numbers never fails, whatever the cells and the labels. */
  lemma NumbersHiddenSucceeds(t: Table<Value>)
    ensures NumbersHidden(t).Ok?
  {
    MappedFromTotal(t, t.columns, NoCheck, HideNumbersCell, ByLabel);
  }

  /** What `clean_dataframe` returns, with `n` worker processes. */
  function Cleaned(t: Table<Value>, config: CleanerConfig, stripHtml: string -> string,
                   lemmatize: string -> string, n: int): Result<Table<Value>>
  {
    var converted :- ListsConverted(t);
    var removed :- CharactersRemoved(converted, stripHtml);
    var hidden :- if config.hideNumbers then NumbersHidden(removed) else Ok(removed);
    if config.lemmatize then Lemmatized(hidden, lemmatize, n) else Ok(hidden)
  }

  /** The cleaning of one cell: the steps of `clean_dataframe`, in their order. */
  function CleanCell(config: CleanerConfig, stripHtml: string -> string, lemmatize: string -> string): CellMap
  {
    Compose(Compose(ConvertCell, RemoveCharactersCell(stripHtml)),
            Compose(if config.hideNumbers then HideNumbersCell else Keep,
                    if config.lemmatize then LemmatizeCell(lemmatize) else Keep))
  }

  /** A cleaned cell is a string. */
  lemma CleanCellGivesText(config: CleanerConfig, stripHtml: string -> string, lemmatize: string -> string,
                           c: string, v: Value)
    ensures CleanCell(config, stripHtml, lemmatize)(c, v).Ok? ==> CleanCell(config, stripHtml, lemmatize)(c, v).value.Str?
  {
    var f1 := Compose(ConvertCell, RemoveCharactersCell(stripHtml));
    var hiding := if config.hideNumbers then HideNumbersCell else Keep;
    var lem := if config.lemmatize then LemmatizeCell(lemmatize) else Keep;
    ComposeApply(f1, Compose(hiding, lem), c, v);
    ComposeApply(ConvertCell, RemoveCharactersCell(stripHtml), c, v);
    var first := f1(c, v);
    if first.Ok? {
      var x := first.value;
      assert x.Str?;
      ComposeApply(hiding, lem, c, x);
      var y := hiding(c, x);
      if y.Ok? {
        assert y.value.Str?;
      }
    }
  }

  /** After list-to-text conversion every cell is the text its former list converts to. */
  lemma ListsConvertedCells(t: Table<Value>)
    requires Distinct(t.columns)
    ensures CellsMapped(t, ConvertCell, ListsConverted(t))
    ensures ListsConverted(t).Ok? ==> forall i, c :: 0 <= i < |t.rows| && c in t.columns ==>
      Get(ListsConverted(t).value.rows[i], c) == Str(ConvertListToText(Get(t.rows[i], c)).value)
  {
    MappedTableCells(t, NoCheck, ConvertCell);
  }

  /** A step that stores by label acts cell by cell on a frame labelled `0 .. n-1`. */
  lemma ByLabelStepCells(t: Table<Value>, f: CellMap)
    requires Distinct(t.columns) && IndexReset(t.rows)
    ensures CellsMapped(t, f, MappedTable(t, NoCheck, f, ByLabel))
  {
    ByLabelWhenReset(t, t.columns, NoCheck, f);
    MappedTableCells(t, NoCheck, f);
  }

  /** The first two steps of `clean_dataframe`. */
  function Stripped(t: Table<Value>, stripHtml: string -> string): Result<Table<Value>>
  {
    var converted :- ListsConverted(t);
    CharactersRemoved(converted, stripHtml)
  }

  /** The configured last two steps of `clean_dataframe`. */
  function Finished(t: Table<Value>, config: CleanerConfig, lemmatize: string -> string, n: int): Result<Table<Value>>
  {
    var hidden :- if config.hideNumbers then NumbersHidden(t) else Ok(t);
    if config.lemmatize then Lemmatized(hidden, lemmatize, n) else Ok(hidden)
  }

  lemma StrippedCells(t: Table<Value>, stripHtml: string -> string)
    requires Distinct(t.columns) && IndexReset(t.rows)
    ensures CellsMapped(t, Compose(ConvertCell, RemoveCharactersCell(stripHtml)), Stripped(t, stripHtml))
  {
    var r1 := ListsConverted(t);
    MappedTableCells(t, NoCheck, ConvertCell);
    if r1.Ok? {
      IndexResetByLabels(t.rows, r1.value.rows);
      ByLabelStepCells(r1.value, RemoveCharactersCell(stripHtml));
    }
    CellsMappedThen(t, ConvertCell, RemoveCharactersCell(stripHtml), r1,
                    if r1.Ok? then CharactersRemoved(r1.value, stripHtml) else r1);
  }

  lemma LemmatizedCells(t: Table<Value>, config: CleanerConfig, lemmatize: string -> string, n: int)
    requires Distinct(t.columns) && n >= 1
    ensures CellsMapped(t, if config.lemmatize then LemmatizeCell(lemmatize) else Keep,
                        if config.lemmatize then Lemmatized(t, lemmatize, n) else Ok(t))
  {
    if config.lemmatize {
      SplitMappedIsMapped(t, n, NoCheck, LemmatizeCell(lemmatize));
      MappedTableCells(t, NoCheck, LemmatizeCell(lemmatize));
    } else {
      KeepCells(t);
    }
  }

  lemma FinishedCells(t: Table<Value>, config: CleanerConfig, lemmatize: string -> string, n: int)
    requires Distinct(t.columns) && IndexReset(t.rows) && n >= 1
    ensures CellsMapped(t, Compose(if config.hideNumbers then HideNumbersCell else Keep,
                                   if config.lemmatize then LemmatizeCell(lemmatize) else Keep),
                        Finished(t, config, lemmatize, n))
  {
    var lem := if config.lemmatize then LemmatizeCell(lemmatize) else Keep;
    if config.hideNumbers {
      var r3 := NumbersHidden(t);
      ByLabelStepCells(t, HideNumbersCell);
      if r3.Ok? {
        LemmatizedCells(r3.value, config, lemmatize, n);
      }
      var r4 := if r3.Err? then r3 else if config.lemmatize then Lemmatized(r3.value, lemmatize, n) else r3;
      assert Finished(t, config, lemmatize, n) == r4;
      CellsMappedThen(t, HideNumbersCell, lem, r3, r4);
    } else {
      KeepCells(t);
      LemmatizedCells(t, config, lemmatize, n);
      var r4 := if config.lemmatize then Lemmatized(t, lemmatize, n) else Ok(t);
      assert Finished(t, config, lemmatize, n) == r4;
      CellsMappedThen(t, Keep, lem, Ok(t), r4);
    }
  }

  /**
   * On a frame labelled `0 .. n-1` (as the reducer leaves it) with at
   * least one worker, `clean_dataframe` cleans every cell on its own: it
   * succeeds exactly when every cell can be cleaned, keeps the columns,
   * the labels and the row order, and holds each cell's cleaned text.
   */
  lemma CleanedCellByCell(t: Table<Value>, config: CleanerConfig, stripHtml: string -> string,
                          lemmatize: string -> string, n: int)
    requires Distinct(t.columns) && IndexReset(t.rows) && n >= 1
    ensures CellsMapped(t, CleanCell(config, stripHtml, lemmatize), Cleaned(t, config, stripHtml, lemmatize, n))
  {
    var r2 := Stripped(t, stripHtml);
    var first := Compose(ConvertCell, RemoveCharactersCell(stripHtml));
    var rest := Compose(if config.hideNumbers then HideNumbersCell else Keep,
                        if config.lemmatize then LemmatizeCell(lemmatize) else Keep);
    StrippedCells(t, stripHtml);
    if r2.Ok? {
      IndexResetByLabels(t.rows, r2.value.rows);
      FinishedCells(r2.value, config, lemmatize, n);
    }
    var r4 := if r2.Ok? then Finished(r2.value, config, lemmatize, n) else r2;
    CellsMappedThen(t, first, rest, r2, r4);
    CleanedInSteps(t, config, stripHtml, lemmatize, n);
  }

  lemma CleanedInSteps(t: Table<Value>, config: CleanerConfig, stripHtml: string -> string,
                       lemmatize: string -> string, n: int)
    ensures Cleaned(t, config, stripHtml, lemmatize, n)
         == (var r2 := Stripped(t, stripHtml); if r2.Ok? then Finished(r2.value, config, lemmatize, n) else r2)
  {
  }

  /**
   * Without lemmatization `clean_dataframe` fails exactly when one of its
   * first two steps does: hiding numbers cannot fail.
   */
  lemma CleanedWithoutLemmatizing(t: Table<Value>, config: CleanerConfig, stripHtml: string -> string,
                                  lemmatize: string -> string, n: int)
    requires !config.lemmatize
    ensures Cleaned(t, config, stripHtml, lemmatize, n).Ok? <==> Stripped(t, stripHtml).Ok?
  {
    CleanedInSteps(t, config, stripHtml, lemmatize, n);
    if Stripped(t, stripHtml).Ok? {
      NumbersHiddenSucceeds(Stripped(t, stripHtml).value);
    }
  }

  /** A step that stores by position, on a frame of one cell, stores that cell's image. */
  lemma OneCellByPosition(c: string, l: int, v: Value, f: CellMap)
    requires f(c, v).Ok?
    ensures MappedTable(Table([c], [Row(l, map[c := v])]), NoCheck, f, ByPosition)
         == Ok(Table([c], [Row(l, map[c := f(c, v).value])]))
  {
    var t := Table([c], [Row(l, map[c := v])]);
    assert [c][1..] == [];
    var values := MappedColumn(t.rows, c, f).value;
    assert Get(t.rows[0], c) == v;
    assert values == [f(c, v).value];
    var next := Table([c], SetColumn(t.rows, c, values));
    assert MappedTable(t, NoCheck, f, ByPosition) == MappedFrom(next, [], NoCheck, f, ByPosition);
    assert t.rows[0].cells[c := values[0]] == map[c := f(c, v).value];
    assert next.rows == [Row(l, map[c := f(c, v).value])];
  }

  /**
   * A step that stores by label, on a frame of one cell whose label is not
   * 0, leaves that cell missing: the new series has only the label 0.
   */
  lemma OneCellRelabelled(c: string, l: int, v: Value, f: CellMap)
    requires l != 0 && f(c, v).Ok?
    ensures MappedTable(Table([c], [Row(l, map[c := v])]), NoCheck, f, ByLabel)
         == Ok(Table([c], [Row(l, map[c := Null])]))
  {
    var t := Table([c], [Row(l, map[c := v])]);
    assert [c][1..] == [];
    var values := MappedColumn(t.rows, c, f).value;
    assert |values| == 1 && Realigned(t.rows, values) == [Null];
    var next := Table([c], SetColumn(t.rows, c, Realigned(t.rows, values)));
    assert MappedTable(t, NoCheck, f, ByLabel) == MappedFrom(next, [], NoCheck, f, ByLabel);
    assert t.rows[0].cells[c := Null] == map[c := Null];
    assert next.rows == [Row(l, map[c := Null])];
  }

  /**
   * A one-row frame whose label is not 0, cleaned with number hiding and
   * without lemmatization. Character removal stores its new column by
   * label, so the row receives `NaN`; hiding numbers reads it as `nan` and
   * stores by label again, so the frame is cleaned, with a missing cell.
   */
  lemma CleanedRelabelledRow(c: string, l: int, v: Value, stripHtml: string -> string,
                             lemmatize: string -> string, n: int)
    requires l != 0 && ConvertListToText(v).Ok?
    ensures Cleaned(Table([c], [Row(l, map[c := v])]), CleanerConfig(true, false), stripHtml, lemmatize, n)
         == Ok(Table([c], [Row(l, map[c := Null])]))
  {
    var text := Str(ConvertListToText(v).value);
    OneCellByPosition(c, l, v, ConvertCell);
    OneCellRelabelled(c, l, text, RemoveCharactersCell(stripHtml));
    OneCellRelabelled(c, l, Null, HideNumbersCell);
  }

  /**
   * `clean_dataframe` never adds or removes a row or a column: a cleaned
   * frame has the columns and the labels, in order, that it started with.
   */
  lemma CleanedKeepsShape(t: Table<Value>, config: CleanerConfig, stripHtml: string -> string,
                          lemmatize: string -> string, n: int)
    requires Cleaned(t, config, stripHtml, lemmatize, n).Ok?
    ensures Cleaned(t, config, stripHtml, lemmatize, n).value.columns == t.columns
    ensures Labels(Cleaned(t, config, stripHtml, lemmatize, n).value.rows) == Labels(t.rows)
  {
    var u := ListsConverted(t).value;
    var w := CharactersRemoved(u, stripHtml).value;
    var x := (if config.hideNumbers then NumbersHidden(w) else Ok(w)).value;
    if config.lemmatize {
      SplitMappedIsMapped(x, n, NoCheck, LemmatizeCell(lemmatize));
    }
  }

  /**
   * With `cpu_count() // 2` workers, a single-processor machine cannot
   * lemmatize: `clean_dataframe` fails whatever the frame.
   */
  lemma CleanedOnOneProcessorAsWritten(t: Table<Value>, config: CleanerConfig, stripHtml: string -> string,
                                       lemmatize: string -> string)
    requires config.lemmatize
    ensures Cleaned(t, config, stripHtml, lemmatize, WorkerCountAsWritten(1)).Err?
  {
  }

  /** The cleaner: `config` is read, `data` is replaced step by step. */
  class Cleaner {
    var config: CleanerConfig
    var data: Table<Value>
    var nCores: nat

    /** `cpus` is what `cpu_count()` reports; the worker count is at least one. */
    constructor(config: CleanerConfig, data: Table<Value>, cpus: nat)
      ensures this.config == config && this.data == data && nCores == WorkerCount(cpus)
    {
      this.config := config;
      this.data := data;
      nCores := WorkerCount(cpus);
    }

    /** `convert_list_to_text_in_dataframe`. */
    method ConvertListToTextInDataframe() returns (failure: Option<Error>)
      modifies this
      ensures config == old(config) && nCores == old(nCores)
      ensures Reports(failure, ListsConverted(old(data)))
      ensures failure.None? ==> data == ListsConverted(old(data)).value
    {
      var r := MapColumns(data, NoCheck, ConvertCell, ByPosition);
      if r.Err? {
        return Some(r.error);
      }
      data := r.value;
      return None;
    }

    /** `remove_characters_for_dataframe`, given the HTML stripper. */
    method RemoveCharactersForDataframe(stripHtml: string -> string) returns (failure: Option<Error>)
      modifies this
      ensures config == old(config) && nCores == old(nCores)
      ensures Reports(failure, CharactersRemoved(old(data), stripHtml))
      ensures failure.None? ==> data == CharactersRemoved(old(data), stripHtml).value
    {
      var r := MapColumns(data, NoCheck, RemoveCharactersCell(stripHtml), ByLabel);
      if r.Err? {
        return Some(r.error);
      }
      data := r.value;
      return None;
    }

    /** `hide_numbers`. */
    method HideNumbersInDataframe() returns (failure: Option<Error>)
      modifies this
      ensures config == old(config) && nCores == old(nCores)
      ensures Reports(failure, NumbersHidden(old(data)))
      ensures failure.None? ==> data == NumbersHidden(old(data)).value
    {
      var r := MapColumns(data, NoCheck, HideNumbersCell, ByLabel);
      if r.Err? {
        return Some(r.error);
      }
      data := r.value;
      return None;
    }

    /**
     * `lemmatize_text`: the parts are lemmatized one after another (the
     * pool's processes are not modelled) and concatenated in part order;
     * `lemmatize_text_for_dataframe` is the column loop on one part.
     */
    method LemmatizeText(lemmatize: string -> string) returns (failure: Option<Error>)
      modifies this
      ensures config == old(config) && nCores == old(nCores)
      ensures Reports(failure, Lemmatized(old(data), lemmatize, nCores))
      ensures failure.None? ==> data == Lemmatized(old(data), lemmatize, nCores).value
    {
      var r := MapSplit(data, nCores, NoCheck, LemmatizeCell(lemmatize));
      if r.Err? {
        return Some(r.error);
      }
      data := r.value;
      return None;
    }

    /**
     * `clean_dataframe`: list-to-text, character removal, number hiding
     * if configured, lemmatization if configured.
     */
    method CleanDataframe(stripHtml: string -> string, lemmatize: string -> string) returns (r: Result<Table<Value>>)
      modifies this
      ensures r == Cleaned(old(data), config, stripHtml, lemmatize, nCores)
      ensures r.Ok? ==> data == r.value
    {
      var failure := ConvertListToTextInDataframe();
      if failure.Some? {
        return Err(failure.value);
      }
      failure := RemoveCharactersForDataframe(stripHtml);
      if failure.Some? {
        return Err(failure.value);
      }
      if config.hideNumbers {
        failure := HideNumbersInDataframe();
        if failure.Some? {
          return Err(failure.value);
        }
      }
      if config.lemmatize {
        failure := LemmatizeText(lemmatize);
        if failure.Some? {
          return Err(failure.value);
        }
      }
      return Ok(data);
    }
  }
}
