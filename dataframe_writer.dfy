/**
 * `FileWriter` (NLPer/nlper/file_io/dataframe_writer.py): saves one frame
 * or a dictionary of frames as pickle or CSV files, optionally merging the
 * dictionary into one frame tagged by site. The writers' serialisation is
 * not modelled: the files written are recorded, in order, as
 * (path, payload) pairs.
 */
module DataFrameWriter {
  import opened Wrappers
  import opened Values
  import opened Tables
  import opened Frames
  import opened Dicts

  /** What `save_file` may be handed as `data`. */
  datatype Payload =
    | NoData                                  // `None`, before anything is saved
    | Frame(table: Table<Value>)              // a `pd.DataFrame`
    | Frames(entries: Dict<Table<Value>>)     // a `dict` of frames
    | Other                                   // anything else: nothing is saved

  /** `os.path.join(path, name)`. */
  function PathJoin(path: string, name: string): (p: string)
    ensures |name| > 0 && name[0] == '/' ==> p == name
    ensures !(|name| > 0 && name[0] == '/') ==> |p| >= |name| && p[|p| - |name|..] == name
  {
    if |name| > 0 && name[0] == '/' then name
    else if path == [] || path[|path| - 1] == '/' then path + name
    else path + "/" + name
  }

  /** The file name extension of a supported output type. */
  function Extension(outputType: string): Option<string>
  {
    if outputType == "pickle" then Some(".pkl")
    else if outputType == "csv" then Some(".csv")
    else None
  }

  /**
   * The path `resolve_output_format_type_and_save` saves `name` to, or
   * `UnsupportedFileTypeException` for a type other than pickle and CSV.
   */
  function OutputPath(path: string, outputType: string, name: string): (r: Result<string>)
    ensures r.Err? <==> outputType != "pickle" && outputType != "csv"
    ensures r.Err? ==> r.error == UnsupportedFileType(outputType)
    ensures outputType == "pickle" ==> r == Ok(PathJoin(path, name + ".pkl"))
    ensures outputType == "csv" ==> r == Ok(PathJoin(path, name + ".csv"))
  {
    match Extension(outputType)
    case Some(ext) => Ok(PathJoin(path, name + ext))
    case None => Err(UnsupportedFileType(outputType))
  }

  /** The file `save_dataframes` writes for the `i`-th key: `name_<key>` holding that key's frame. */
  function KeyedWrite(path: string, outputType: string, name: string, entry: (string, Table<Value>)): (string, Payload)
    requires Extension(outputType).Some?
  {
    (OutputPath(path, outputType, name + "_" + entry.0).value, Frame(entry.1))
  }

  /** The files `save_dataframes` writes: one per key, in key order; an unsupported type fails at the first key. */
  function KeyedWrites(path: string, outputType: string, name: string, entries: Dict<Table<Value>>)
    : (r: Result<seq<(string, Payload)>>)
    ensures r.Err? <==> entries != [] && Extension(outputType).None?
    ensures r.Err? ==> r.error == UnsupportedFileType(outputType)
  {
    if Extension(outputType).None? then
      if entries == [] then Ok([]) else Err(UnsupportedFileType(outputType))
    else
      Ok(seq(|entries|, i requires 0 <= i < |entries| => KeyedWrite(path, outputType, name, entries[i])))
  }

  // ---------------------------------------------------------------------
  // merge_dataframes
  // ---------------------------------------------------------------------

  /** The column `merge_dataframes` adds. */
  const Site: string := "site"

  /** `frame.copy(deep=True)` with `frame['site'] = key`: a new column goes last, an existing one is overwritten. */
  function Tagged(t: Table<Value>, key: string): (r: Table<Value>)
    ensures Site in r.columns && forall c :: c in t.columns ==> c in r.columns
    ensures |r.rows| == |t.rows|
  {
    Table(if Site in t.columns then t.columns else t.columns + [Site],
          seq(|t.rows|, i requires 0 <= i < |t.rows| => Row(t.rows[i].index, t.rows[i].cells[Site := Str(key)])))
  }

  /** The tagged copies, in key order. */
  function TaggedAll(entries: Dict<Table<Value>>): (ts: seq<Table<Value>>)
    ensures |ts| == |entries| && forall j :: 0 <= j < |entries| ==> ts[j] == Tagged(entries[j].1, entries[j].0)
  {
    seq(|entries|, j requires 0 <= j < |entries| => Tagged(entries[j].1, entries[j].0))
  }

  /** The names of `columns` not yet in `acc`, appended in their order. */
  function Union(acc: seq<string>, columns: seq<string>): (r: seq<string>)
    ensures forall c :: c in r <==> c in acc || c in columns
    ensures |r| >= |acc| && r[..|acc|] == acc
    decreases |columns|
  {
    if columns == [] then acc
    else Union(if columns[0] in acc then acc else acc + [columns[0]], columns[1..])
  }

  /** `pd.concat`'s columns: every frame's columns, in order of first appearance. */
  function UnionColumns(tables: seq<Table<Value>>): (r: seq<string>)
    ensures forall c :: c in r <==> exists j :: 0 <= j < |tables| && c in tables[j].columns
    decreases |tables|
  {
    if tables == [] then []
    else
      var init := UnionColumns(tables[..|tables| - 1]);
      var r := Union(init, tables[|tables| - 1].columns);
      assert forall j :: 0 <= j < |tables| - 1 ==> tables[..|tables| - 1][j] == tables[j];
      r
  }

  /** All the frames' rows, frame after frame. */
  function AllRows(tables: seq<Table<Value>>): (rows: seq<Row<Value>>)
    decreases |tables|
  {
    if tables == [] then [] else tables[0].rows + AllRows(tables[1..])
  }

  /** The number of rows of the first `j` frames. */
  function Offset(tables: seq<Table<Value>>, j: nat): nat
    requires j <= |tables|
    decreases j
  {
    if j == 0 then 0 else |tables[0].rows| + Offset(tables[1..], j - 1)
  }

  /** Row `i` of frame `j` sits at `Offset(tables, j) + i` among all the rows. */
  lemma {:induction false} AllRowsAt(tables: seq<Table<Value>>, j: nat, i: nat)
    requires j < |tables| && i < |tables[j].rows|
    ensures Offset(tables, j) + i < |AllRows(tables)|
    ensures AllRows(tables)[Offset(tables, j) + i] == tables[j].rows[i]
    decreases j
  {
    if j > 0 {
      AllRowsAt(tables[1..], j - 1, i);
    }
  }

  /** There are as many rows as in all the frames together. */
  lemma {:induction false} AllRowsCount(tables: seq<Table<Value>>)
    ensures |AllRows(tables)| == Offset(tables, |tables|)
    decreases |tables|
  {
    if tables != [] {
      AllRowsCount(tables[1..]);
    }
  }

  /** `pd.concat(tables, ignore_index=True)`: a cell a frame lacks is missing (`NaN`); labels run `0 .. n-1`. */
  function Concat(tables: seq<Table<Value>>): Table<Value>
  {
    var columns := UnionColumns(tables);
    var rows := AllRows(tables);
    Table(columns, seq(|rows|, i requires 0 <= i < |rows| => Row(i, map c | c in columns :: Get(rows[i], c))))
  }

  /** What `merge_dataframes` returns; `pd.concat` of no frames raises `ValueError`. */
  function Merged(entries: Dict<Table<Value>>): Result<Table<Value>>
  {
    if entries == [] then Err(ValueError) else Ok(Concat(TaggedAll(entries)))
  }

  /** The row counts of the frames, by position. */
  function Sizes(entries: Dict<Table<Value>>): (sizes: seq<nat>)
    ensures |sizes| == |entries| && forall j :: 0 <= j < |entries| ==> sizes[j] == |entries[j].1.rows|
  {
    seq(|entries|, j requires 0 <= j < |entries| => |entries[j].1.rows|)
  }

  function Sum(xs: seq<nat>): nat
  {
    if xs == [] then 0 else xs[0] + Sum(xs[1..])
  }

  lemma {:induction false} OffsetIsSum(entries: Dict<Table<Value>>, j: nat)
    requires j <= |entries|
    ensures Offset(TaggedAll(entries), j) == Sum(Sizes(entries)[..j])
    decreases j
  {
    if j > 0 {
      OffsetIsSum(entries[1..], j - 1);
      assert TaggedAll(entries)[1..] == TaggedAll(entries[1..]);
      assert Sizes(entries)[..j][1..] == Sizes(entries[1..])[..j - 1];
    }
  }

  /** Row `i` of frame `j` reappears at `Offset(tables, j) + i` with the cells of frame `j`'s columns. */
  lemma ConcatRowAt(tables: seq<Table<Value>>, j: nat, i: nat)
    requires j < |tables| && i < |tables[j].rows|
    ensures Offset(tables, j) + i < |Concat(tables).rows|
    ensures forall c :: c in tables[j].columns ==>
      Get(Concat(tables).rows[Offset(tables, j) + i], c) == Get(tables[j].rows[i], c)
  {
    AllRowsAt(tables, j, i);
  }

  /**
   * The merged frame has one row per input row, labelled `0 .. n-1`; its
   * columns include every input column and `site`. `merge_dataframes`
   * fails on an empty dictionary.
   */
  lemma MergedShape(entries: Dict<Table<Value>>)
    ensures Merged(entries).Err? <==> entries == []
    ensures Merged(entries).Ok? ==> |Merged(entries).value.rows| == Sum(Sizes(entries))
    ensures Merged(entries).Ok? ==> IndexReset(Merged(entries).value.rows)
    ensures Merged(entries).Ok? ==> Site in Merged(entries).value.columns
    ensures Merged(entries).Ok? ==> forall j, c :: 0 <= j < |entries| && c in entries[j].1.columns ==>
      c in Merged(entries).value.columns
  {
    if entries != [] {
      var tables := TaggedAll(entries);
      AllRowsCount(tables);
      OffsetIsSum(entries, |entries|);
      assert Sizes(entries)[..|entries|] == Sizes(entries);
      assert Site in tables[0].columns;
      forall j, c | 0 <= j < |entries| && c in entries[j].1.columns ensures c in Merged(entries).value.columns {
        assert c in tables[j].columns;
      }
    }
  }

  /**
   * Frames follow each other in key order: row `i` of the frame under
   * `key` becomes row `Sum(sizes before it) + i`, with `site` set to `key`
   * and every other cell of that frame unchanged.
   */
  lemma MergedRowAt(entries: Dict<Table<Value>>, j: nat, i: nat)
    requires j < |entries| && i < |entries[j].1.rows|
    ensures Merged(entries).Ok?
    ensures Sum(Sizes(entries)[..j]) + i < |Merged(entries).value.rows|
    ensures Get(Merged(entries).value.rows[Sum(Sizes(entries)[..j]) + i], Site) == Str(entries[j].0)
    ensures forall c :: c in entries[j].1.columns && c != Site ==>
      Get(Merged(entries).value.rows[Sum(Sizes(entries)[..j]) + i], c) == Get(entries[j].1.rows[i], c)
  {
    var tables := TaggedAll(entries);
    var (key, t) := entries[j];
    OffsetIsSum(entries, j);
    ConcatRowAt(tables, j, i);
    TaggedRow(t, key, i);
    var row := Merged(entries).value.rows[Sum(Sizes(entries)[..j]) + i];
    assert Get(row, Site) == Get(tables[j].rows[i], Site);
    forall c | c in t.columns && c != Site ensures Get(row, c) == Get(t.rows[i], c) {
      assert c in tables[j].columns;
      assert Get(row, c) == Get(tables[j].rows[i], c);
    }
  }

  /** A tagged row holds the key under `site` and its other cells unchanged. */
  lemma TaggedRow(t: Table<Value>, key: string, i: nat)
    requires i < |t.rows|
    ensures Get(Tagged(t, key).rows[i], Site) == Str(key)
    ensures forall c :: c != Site ==> Get(Tagged(t, key).rows[i], c) == Get(t.rows[i], c)
  {
  }

  // ---------------------------------------------------------------------
  // save_file
  // ---------------------------------------------------------------------

  /**
   * The files `save_file` writes for `data` with the output type in
   * force: a frame to `name`, a dictionary merged to `name` or one file
   * per key, and nothing for anything else.
   */
  function Saved(path: string, outputType: string, data: Payload, name: string, mergeData: bool)
    : Result<seq<(string, Payload)>>
  {
    match data
    case Frames(entries) =>
      if mergeData then
        var merged :- Merged(entries);
        var p :- OutputPath(path, outputType, name);
        Ok([(p, Frame(merged))])
      else KeyedWrites(path, outputType, name, entries)
    case Frame(_) =>
      var p :- OutputPath(path, outputType, name);
      Ok([(p, data)])
    case _ => Ok([])
  }

  /** The data `save_file` leaves in `self.data`: the merged frame when it merged. */
  function DataAfterSave(data: Payload, mergeData: bool): Payload
  {
    if data.Frames? && mergeData && Merged(data.entries).Ok? then Frame(Merged(data.entries).value) else data
  }

  /** `saving_path` after a list of writes: the last one's, or what it was. */
  function LastPath(before: Option<string>, writes: seq<(string, Payload)>): Option<string>
  {
    if writes == [] then before else Some(writes[|writes| - 1].0)
  }

  /**
   * Merging writes exactly one file, `name` with the type's extension,
   * holding the merged frame.
   */
  lemma MergedSaveWritesOne(path: string, outputType: string, entries: Dict<Table<Value>>, name: string)
    requires entries != [] && Extension(outputType).Some?
    ensures Saved(path, outputType, Frames(entries), name, true)
         == Ok([(PathJoin(path, name + Extension(outputType).value), Frame(Merged(entries).value))])
  {
    MergedShape(entries);
  }

  /**
   * Without merging, one file per key is written, `name_<key>` in key
   * order, each holding its frame; `saving_path` ends as the last key's.
   */
  lemma KeyedSaveWritesEach(path: string, outputType: string, entries: Dict<Table<Value>>, name: string,
                            before: Option<string>)
    requires entries != [] && Extension(outputType).Some?
    ensures Saved(path, outputType, Frames(entries), name, false).Ok?
    ensures |Saved(path, outputType, Frames(entries), name, false).value| == |entries|
    ensures forall i :: 0 <= i < |entries| ==>
      (Saved(path, outputType, Frames(entries), name, false).value[i]
       == (PathJoin(path, name + "_" + entries[i].0 + Extension(outputType).value), Frame(entries[i].1)))
    ensures LastPath(before, Saved(path, outputType, Frames(entries), name, false).value)
      == Some(PathJoin(path, name + "_" + entries[|entries| - 1].0 + Extension(outputType).value))
  {
    var ext := Extension(outputType).value;
    var writes := KeyedWrites(path, outputType, name, entries).value;
    forall i | 0 <= i < |entries|
      ensures writes[i] == (PathJoin(path, name + "_" + entries[i].0 + ext), Frame(entries[i].1))
    {
      assert writes[i] == KeyedWrite(path, outputType, name, entries[i]);
    }
  }

  /** An unsupported output type fails every save that has something to write. */
  lemma UnsupportedTypeFails(path: string, outputType: string, data: Payload, name: string, mergeData: bool)
    requires Extension(outputType).None?
    requires data.Frame? || (data.Frames? && data.entries != [])
    ensures Saved(path, outputType, data, name, mergeData) == Err(UnsupportedFileType(outputType))
  {
    if data.Frames? {
      MergedShape(data.entries);
    }
  }

  /** The writer: a folder, the data being saved, the output type in force and the last path saved to. */
  class FileWriter {
    const path: string
    var data: Payload
    var outputType: string
    var savingPath: Option<string>
    var written: seq<(string, Payload)>

    constructor(path: string, outputType: string)
      ensures this.path == path && this.outputType == outputType
      ensures data == NoData && savingPath == None && written == []
    {
      this.path := path;
      this.outputType := outputType;
      data := NoData;
      savingPath := None;
      written := [];
    }

    /** `resolve_output_format_type_and_save`. */
    method ResolveOutputFormatTypeAndSave(frame: Payload, name: string) returns (failure: Option<Error>)
      modifies this
      ensures data == old(data) && outputType == old(outputType)
      ensures Reports(failure, OutputPath(path, outputType, name))
      ensures failure.None? ==> savingPath == Some(OutputPath(path, outputType, name).value)
      ensures failure.None? ==> written == old(written) + [(savingPath.value, frame)]
      ensures failure.Some? ==> savingPath == old(savingPath) && written == old(written)
    {
      if outputType == "pickle" {
        savingPath := Some(PathJoin(path, name + ".pkl"));
      } else if outputType == "csv" {
        savingPath := Some(PathJoin(path, name + ".csv"));
      } else {
        return Some(UnsupportedFileType(outputType));
      }
      written := written + [(savingPath.value, frame)];
      return None;
    }

    /** `save_dataframe`. */
    method SaveDataframe(name: string) returns (failure: Option<Error>)
      modifies this
      ensures data == old(data) && outputType == old(outputType)
      ensures Reports(failure, OutputPath(path, outputType, name))
      ensures failure.None? ==> savingPath == Some(OutputPath(path, outputType, name).value)
      ensures failure.None? ==> written == old(written) + [(savingPath.value, data)]
      ensures failure.Some? ==> savingPath == old(savingPath) && written == old(written)
    {
      failure := ResolveOutputFormatTypeAndSave(data, name);
    }

    /** `save_dataframes`, which `save_file` calls only with a dictionary. */
    method SaveDataframes(name: string) returns (failure: Option<Error>)
      requires data.Frames?
      modifies this
      ensures data == old(data) && outputType == old(outputType)
      ensures Reports(failure, KeyedWrites(path, outputType, name, data.entries))
      ensures failure.None? ==> written == old(written) + KeyedWrites(path, outputType, name, data.entries).value
      ensures failure.None? ==> savingPath == LastPath(old(savingPath), KeyedWrites(path, outputType, name, data.entries).value)
      ensures failure.Some? ==> savingPath == old(savingPath) && written == old(written)
    {
      var entries := data.entries;
      ghost var writes: seq<(string, Payload)> := [];
      for k := 0 to |entries|
        invariant data == old(data) && outputType == old(outputType)
        invariant k > 0 ==> Extension(outputType).Some?
        invariant written == old(written) + writes && savingPath == LastPath(old(savingPath), writes)
        invariant |writes| == k
        invariant k > 0 ==> forall i :: 0 <= i < k ==> writes[i] == KeyedWrite(path, outputType, name, entries[i])
      {
        failure := ResolveOutputFormatTypeAndSave(Frame(entries[k].1), name + "_" + entries[k].0);
        if failure.Some? {
          return;
        }
        writes := writes + [KeyedWrite(path, outputType, name, entries[k])];
      }
      if entries != [] {
        assert writes == KeyedWrites(path, outputType, name, entries).value;
      }
      return None;
    }

    /** `merge_dataframes`: it reads `data` and changes nothing, working on copies. */
    method MergeDataframes() returns (r: Result<Table<Value>>)
      requires data.Frames?
      ensures r == Merged(data.entries)
    {
      var entries := data.entries;
      var dataframes: seq<Table<Value>> := [];
      for k := 0 to |entries|
        invariant dataframes == TaggedAll(entries[..k])
      {
        dataframes := dataframes + [Tagged(entries[k].1, entries[k].0)];
      }
      assert entries[..|entries|] == entries;
      if dataframes == [] {
        return Err(ValueError);
      }
      return Ok(Concat(dataframes));
    }

    /**
     * `save_file`: returns `saving_path`. A non-empty `outputType` replaces
     * the stored type for this and later calls (`""` stands for `None`).
     */
    method SaveFile(newData: Payload, name: string, mergeData: bool, newOutputType: string)
      returns (saved: Option<string>, failure: Option<Error>)
      modifies this
      ensures outputType == (if newOutputType != "" then newOutputType else old(outputType))
      ensures Reports(failure, Saved(path, outputType, newData, name, mergeData))
      ensures failure.None? ==> data == DataAfterSave(newData, mergeData)
      ensures failure.None? ==> written == old(written) + Saved(path, outputType, newData, name, mergeData).value
      ensures failure.None? ==> saved == savingPath
      ensures failure.None? ==> savingPath == LastPath(old(savingPath), Saved(path, outputType, newData, name, mergeData).value)
    {
      data := newData;
      if newOutputType != "" {
        outputType := newOutputType;
      }
      saved := None;
      if data.Frames? {
        if mergeData {
          var merged := MergeDataframes();
          if merged.Err? {
            return saved, Some(merged.error);
          }
          data := Frame(merged.value);
        } else {
          failure := SaveDataframes(name);
          if failure.Some? {
            return;
          }
        }
      }
      if data.Frame? {
        failure := SaveDataframe(name);
        if failure.Some? {
          return;
        }
      }
      return savingPath, None;
    }
  }
}
