/**
 * `Reducer` (NLPer/nlper/dataframe_cleaner/reducer.py): drops the
 * configured columns, turns every cell into a list, removes from `text`
 * the fragments repeated from `lead`, merges the configured columns into
 * `text` and `summary`, and removes rows with an empty cell.
 */
module Reducer {
  import opened Wrappers
  import opened Strings
  import opened Values
  import opened Tables
  import opened DataFrameUtils
  import opened Frames

  /**
   * The configuration keys the reducer reads. `columns_to_skip` is handed
   * to `drop(columns=...)`, where `None` raises `ValueError` and `[]` drops
   * nothing, so it is an `Option`. The merge lists are only tested for
   * truthiness, so for them an empty list stands for both `None` and `[]`.
   */
  datatype ReducerConfig = ReducerConfig(
    columnsToSkip: Option<seq<string>>,
    columnsToMergeAsText: seq<string>,
    columnsToMergeAsSummary: seq<string>)

  // ---------------------------------------------------------------------
  // _unify_column_content_to_list, unify_dataframe_content
  // ---------------------------------------------------------------------

  /** `fillna("")` on one cell. */
  function FillNa(v: Value): Value
  {
    if v.Null? then Str("") else v
  }

  /** Position of the first occurrence of `l`. */
  function IndexOf(labels: seq<int>, l: int): (k: nat)
    requires l in labels
    ensures k < |labels| && labels[k] == l
  {
    if labels[0] == l then 0 else 1 + IndexOf(labels[1..], l)
  }

  /**
   * `isinstance(column_data[0], str)`: `[0]` looks up the label 0. It
   * raises `KeyError` when no row has that label, and gives a `Series`,
   * never a string, when several rows have it.
   */
  function LabelZeroIsString(labels: seq<int>, col: seq<Value>): (r: Result<bool>)
    requires |col| == |labels|
    ensures r.Err? <==> 0 !in labels
    ensures r.Err? ==> r.error == KeyError("0")
    ensures r == Ok(true) ==> exists k :: 0 <= k < |labels| && labels[k] == 0 && col[k].Str?
  {
    var n := multiset(labels)[0];
    if n == 0 then Err(KeyError("0"))
    else if n == 1 then Ok(col[IndexOf(labels, 0)].Str?)
    else Ok(false)
  }

  /**
   * `_unify_column_content_to_list`: missing cells become `""`; then, when
   * the cell labelled 0 is a string, every cell `x` becomes `[x]`.
   */
  function UnifiedColumn(rows: seq<Row<Value>>, c: string): (r: Result<seq<Value>>)
    ensures r.Ok? ==> |r.value| == |rows|
  {
    var filled := seq(|rows|, i requires 0 <= i < |rows| => FillNa(Get(rows[i], c)));
    var wrap :- LabelZeroIsString(Labels(rows), filled);
    if wrap then Ok(seq(|rows|, i requires 0 <= i < |rows| => List([filled[i]])))
    else Ok(filled)
  }

  /**
   * The column loses every missing value, and either every cell is
   * wrapped in a one-element list or none is; unifying fails exactly when
   * no row is labelled 0.
   */
  lemma UnifiedColumnShape(rows: seq<Row<Value>>, c: string)
    ensures UnifiedColumn(rows, c).Err? <==> 0 !in Labels(rows)
    ensures UnifiedColumn(rows, c).Err? ==> UnifiedColumn(rows, c).error == KeyError("0")
    ensures UnifiedColumn(rows, c).Ok? ==> forall i :: 0 <= i < |rows| ==> !UnifiedColumn(rows, c).value[i].Null?
    ensures UnifiedColumn(rows, c).Ok? ==>
      (forall i :: 0 <= i < |rows| ==> UnifiedColumn(rows, c).value[i] == List([FillNa(Get(rows[i], c))]))
      || (forall i :: 0 <= i < |rows| ==> UnifiedColumn(rows, c).value[i] == FillNa(Get(rows[i], c)))
  {
  }

  /** Unifying a column a second time changes nothing. */
  lemma UnifiedColumnIdempotent(rows: seq<Row<Value>>, c: string)
    requires UnifiedColumn(rows, c).Ok?
    ensures UnifiedColumn(SetColumn(rows, c, UnifiedColumn(rows, c).value), c) == UnifiedColumn(rows, c)
  {
    var col := UnifiedColumn(rows, c).value;
    var once := SetColumn(rows, c, col);
    var filled := seq(|rows|, i requires 0 <= i < |rows| => FillNa(Get(rows[i], c)));
    var filled2 := seq(|once|, i requires 0 <= i < |once| => FillNa(Get(once[i], c)));
    assert Labels(once) == Labels(rows);
    assert filled2 == col by {
      forall i | 0 <= i < |rows| ensures filled2[i] == col[i] {
        assert Get(once[i], c) == col[i];
      }
    }
    if multiset(Labels(rows))[0] == 1 {
      var k := IndexOf(Labels(rows), 0);
      if filled[k].Str? {
        assert col[k] == List([filled[k]]);
      }
    }
  }

  /** `unify_dataframe_content` from the given column on: each column in turn. */
  function UnifiedFrom(t: Table<Value>, columns: seq<string>): (r: Result<Table<Value>>)
    ensures r.Ok? ==> r.value.columns == t.columns && Labels(r.value.rows) == Labels(t.rows)
    decreases |columns|
  {
    if columns == [] then Ok(t)
    else
      var col :- UnifiedColumn(t.rows, columns[0]);
      var next := Table(t.columns, SetColumn(t.rows, columns[0], col));
      assert Labels(next.rows) == Labels(t.rows);
      UnifiedFrom(next, columns[1..])
  }

  /** What `unify_dataframe_content` leaves in `self.data`. */
  function UnifiedTable(t: Table<Value>): Result<Table<Value>>
  {
    UnifiedFrom(t, t.columns)
  }

  /** No cell of the listed columns is missing. */
  predicate Filled(rows: seq<Row<Value>>, columns: seq<string>)
  {
    forall i, c :: 0 <= i < |rows| && c in columns ==> !Get(rows[i], c).Null?
  }

  lemma FilledAfterSetColumn(rows: seq<Row<Value>>, c: string, col: seq<Value>, done: seq<string>)
    requires |col| == |rows| && Filled(rows, done)
    requires forall i :: 0 <= i < |col| ==> !col[i].Null?
    ensures Filled(SetColumn(rows, c, col), done + [c])
  {
    var next := SetColumn(rows, c, col);
    forall i, d | 0 <= i < |next| && d in done + [c] ensures !Get(next[i], d).Null? {
      if d == c {
        assert Get(next[i], d) == col[i];
      } else {
        assert d in done;
        assert Get(next[i], d) == Get(rows[i], d);
      }
    }
  }

  lemma {:induction false} UnifiedFromFills(t: Table<Value>, columns: seq<string>, done: seq<string>)
    requires Filled(t.rows, done) && UnifiedFrom(t, columns).Ok?
    ensures Filled(UnifiedFrom(t, columns).value.rows, done + columns)
    decreases |columns|
  {
    if columns == [] {
      assert done + columns == done;
    } else {
      var c := columns[0];
      var col := UnifiedColumn(t.rows, c).value;
      UnifiedColumnShape(t.rows, c);
      FilledAfterSetColumn(t.rows, c, col, done);
      var next := Table(t.columns, SetColumn(t.rows, c, col));
      UnifiedFromFills(next, columns[1..], done + [c]);
      assert done + [c] + columns[1..] == done + columns;
    }
  }

  /**
   * After `unify_dataframe_content` the table has the same columns and
   * the same labels, and no cell is missing any more.
   */
  lemma UnifiedTableFills(t: Table<Value>)
    requires UnifiedTable(t).Ok?
    ensures UnifiedTable(t).value.columns == t.columns
    ensures Labels(UnifiedTable(t).value.rows) == Labels(t.rows)
    ensures Filled(UnifiedTable(t).value.rows, t.columns)
  {
    UnifiedFromFills(t, t.columns, []);
    assert [] + t.columns == t.columns;
  }

  // ---------------------------------------------------------------------
  // remove_duplicates_in_lead_and_text_columns, _remove_lead_from_text
  // ---------------------------------------------------------------------

  /** The elements `for ... in v` visits: the characters of a string, the items of a list. */
  function Members(v: Value): (r: Result<seq<Value>>)
    ensures r.Err? <==> v.Null?
  {
    match v
    case Null => Err(TypeError)
    case Str(s) => Ok(Chars(s))
    case List(items) => Ok(items)
  }

  /** `set(v)`: fails on `None` and on a list holding an unhashable list. */
  function AsSet(v: Value): (r: Result<set<Value>>)
    ensures r.Ok? ==> forall x :: x in r.value <==> Members(v).Ok? && x in Members(v).value
  {
    match v
    case Null => Err(TypeError)
    case Str(s) => Ok(set x | x in Chars(s))
    case List(items) =>
      if forall x :: x in items ==> Hashable(x) then Ok(set x | x in items) else Err(TypeError)
  }

  /** `bool(set(lead) & set(text))`. */
  function SharesElements(lead: Value, text: Value): Result<bool>
  {
    var leadSet :- AsSet(lead);
    var textSet :- AsSet(text);
    Ok(leadSet * textSet != {})
  }

  /** `x in container`: list membership, or substring search in a string. */
  function Occurs(x: Value, container: Value): (r: Result<bool>)
    ensures container.List? ==> r == Ok(x in container.items)
  {
    match container
    case Null => Err(TypeError)
    case Str(s) => if x.Str? then Ok(Contains(s, x.s)) else Err(TypeError)
    case List(items) => Ok(x in items)
  }

  /** For each text element, whether it occurs in `lead`. */
  function Flags(items: seq<Value>, lead: Value): (r: Result<seq<bool>>)
    ensures r.Ok? ==> |r.value| == |items|
    ensures r.Ok? ==> forall i :: 0 <= i < |items| ==> Occurs(items[i], lead) == Ok(r.value[i])
    ensures r.Err? <==> exists i :: 0 <= i < |items| && Occurs(items[i], lead).Err?
  {
    if items == [] then Ok([])
    else
      var first := Occurs(items[0], lead);
      if first.Err? then Err(first.error)
      else
        var rest := Flags(items[1..], lead);
        if rest.Err? then
          var j :| 0 <= j < |items| - 1 && Occurs(items[1..][j], lead).Err?;
          assert Occurs(items[j + 1], lead).Err?;
          Err(rest.error)
        else Ok([first.value] + rest.value)
  }

  /** The positions of the flagged elements, ascending (the list `text_to_remove`). */
  function TrueIndices(flags: seq<bool>): (ix: seq<nat>)
    ensures forall k :: 0 <= k < |ix| ==> ix[k] < |flags| && flags[ix[k]]
    ensures forall k, l :: 0 <= k < l < |ix| ==> ix[k] < ix[l]
    ensures forall p :: 0 <= p < |flags| && flags[p] ==> p in ix
  {
    if flags == [] then []
    else
      var init := flags[..|flags| - 1];
      var rest := TrueIndices(init);
      if flags[|flags| - 1] then rest + [|flags| - 1] else rest
  }

  /** The elements whose flag is off, in order. */
  function Without(items: seq<Value>, flags: seq<bool>): seq<Value>
    requires |items| == |flags|
  {
    if items == [] then []
    else (if flags[0] then [] else [items[0]]) + Without(items[1..], flags[1..])
  }

  /** The elements of `xs` that are not in `ys`, in order: a reference definition. */
  function Unshared(xs: seq<Value>, ys: seq<Value>): (r: seq<Value>)
    ensures |r| <= |xs|
    ensures forall x :: x in r <==> x in xs && x !in ys
  {
    if xs == [] then []
    else if xs[0] in ys then Unshared(xs[1..], ys)
    else [xs[0]] + Unshared(xs[1..], ys)
  }

  /**
   * `_remove_lead_from_text`: the text elements found in `lead` are
   * deleted. Deleting from a string raises `TypeError`; so does iterating
   * over `None` or searching a non-string in a string.
   */
  function LeadRemovedFromText(lead: Value, text: Value): Result<Value>
  {
    var items :- Members(text);
    var flags :- Flags(items, lead);
    if TrueIndices(flags) == [] then Ok(text)
    else if !text.List? then Err(TypeError)
    else Ok(List(Without(items, flags)))
  }

  /** Elements without a flag between `a` and `b` all stay. */
  lemma {:induction false} WithoutSkipsUnflagged(items: seq<Value>, flags: seq<bool>, a: nat, b: nat)
    requires |items| == |flags| && a <= b <= |items|
    requires forall p :: a <= p < b ==> !flags[p]
    ensures Without(items[a..], flags[a..]) == items[a..b] + Without(items[b..], flags[b..])
    decreases b - a
  {
    if a < b {
      assert items[a..][1..] == items[a + 1..];
      assert flags[a..][1..] == flags[a + 1..];
      WithoutSkipsUnflagged(items, flags, a + 1, b);
      assert items[a..b] == [items[a]] + items[a + 1..b];
    }
  }

  /** The first position the deletions from the back have reached. */
  function Reached(ix: seq<nat>, j: nat, n: nat): nat
    requires j <= |ix|
  {
    if j < |ix| then ix[j] else n
  }

  /** The elements once every flagged position from `b` on has been deleted. */
  function Deleted(items: seq<Value>, flags: seq<bool>, b: nat): seq<Value>
    requires |items| == |flags| && b <= |items|
  {
    items[..b] + Without(items[b..], flags[b..])
  }

  /** Deleting the flagged position `k`, the next one below `b`, extends the deletions down to `k`. */
  lemma DeletionStep(items: seq<Value>, flags: seq<bool>, k: nat, b: nat)
    requires |items| == |flags| && k < b <= |items| && flags[k]
    requires forall p :: k < p < b ==> !flags[p]
    ensures Deleted(items, flags, b)[..k] + Deleted(items, flags, b)[k + 1..] == Deleted(items, flags, k)
  {
    WithoutSkipsUnflagged(items, flags, k + 1, b);
    assert items[k..][1..] == items[k + 1..];
    assert flags[k..][1..] == flags[k + 1..];
    var cell := Deleted(items, flags, b);
    assert cell[..k] == items[..k];
    assert cell[k + 1..] == items[k + 1..b] + Without(items[b..], flags[b..]);
  }

  /** No flag lies strictly between two consecutive collected positions. */
  lemma TrueIndicesGap(flags: seq<bool>, j: nat)
    requires 0 < j <= |TrueIndices(flags)|
    ensures TrueIndices(flags)[j - 1] < Reached(TrueIndices(flags), j, |flags|) <= |flags|
    ensures forall p :: TrueIndices(flags)[j - 1] < p < Reached(TrueIndices(flags), j, |flags|) ==> !flags[p]
  {
    var ix := TrueIndices(flags);
    var k, b := ix[j - 1], Reached(ix, j, |flags|);
    forall p | k < p < b ensures !flags[p] {
      forall m | 0 <= m < |ix| ensures ix[m] != p {
        if m < j - 1 {
          assert ix[m] < k;
        } else if j <= m {
          assert b <= ix[m];
        }
      }
    }
  }

  /** No flag lies before the first collected position. */
  lemma TrueIndicesFront(flags: seq<bool>)
    ensures Reached(TrueIndices(flags), 0, |flags|) <= |flags|
    ensures forall p :: 0 <= p < Reached(TrueIndices(flags), 0, |flags|) ==> !flags[p]
  {
    var ix := TrueIndices(flags);
    var b := Reached(ix, 0, |flags|);
    forall p | 0 <= p < b ensures !flags[p] {
      forall m | 0 <= m < |ix| ensures ix[m] != p {
        assert b <= ix[m];
      }
    }
  }

  /**
   * `_remove_lead_from_text` as written: the positions to delete are
   * collected, then deleted from the last one back so that earlier
   * positions stay valid.
   */
  method RemoveLeadFromText(lead: Value, text: Value) returns (r: Result<Value>)
    ensures r == LeadRemovedFromText(lead, text)
  {
    var members := Members(text);
    if members.Err? {
      return Err(members.error);
    }
    var items := members.value;
    var flagged := Flags(items, lead);
    if flagged.Err? {
      return Err(flagged.error);
    }
    var flags := flagged.value;
    var textToRemove := TrueIndices(flags);
    if textToRemove == [] {
      return Ok(text);
    }
    if !text.List? {
      return Err(TypeError);
    }
    var cell := DeleteFlagged(items, flags);
    return Ok(List(cell));
  }

  /** The loop `for text_index in reversed(text_to_remove): del text[text_index]`. */
  method DeleteFlagged(items: seq<Value>, flags: seq<bool>) returns (cell: seq<Value>)
    requires |items| == |flags|
    ensures cell == Without(items, flags)
  {
    var textToRemove := TrueIndices(flags);
    cell := items;
    var j := |textToRemove|;
    while j > 0
      invariant 0 <= j <= |textToRemove|
      invariant cell == Deleted(items, flags, Reached(textToRemove, j, |items|))
    {
      var k := textToRemove[j - 1];
      TrueIndicesGap(flags, j);
      DeletionStep(items, flags, k, Reached(textToRemove, j, |items|));
      cell := cell[..k] + cell[k + 1..];
      j := j - 1;
    }
    TrueIndicesFront(flags);
    WithoutSkipsUnflagged(items, flags, 0, Reached(textToRemove, 0, |items|));
    assert items[0..] == items && flags[0..] == flags;
  }

  /** Deleting the elements flagged as members of `ys` leaves the elements not in `ys`. */
  lemma {:induction false} WithoutIsUnshared(items: seq<Value>, flags: seq<bool>, ys: seq<Value>)
    requires |items| == |flags|
    requires forall i :: 0 <= i < |items| ==> flags[i] == (items[i] in ys)
    ensures Without(items, flags) == Unshared(items, ys)
    decreases |items|
  {
    if items != [] {
      WithoutIsUnshared(items[1..], flags[1..], ys);
    }
  }

  /**
   * For list cells, `_remove_lead_from_text` keeps exactly the text
   * elements that are not in `lead`, in order.
   */
  lemma LeadRemovedFromListText(lead: Value, text: Value)
    requires lead.List? && text.List?
    ensures LeadRemovedFromText(lead, text) == Ok(List(Unshared(text.items, lead.items)))
  {
    var flags := Flags(text.items, lead).value;
    WithoutIsUnshared(text.items, flags, lead.items);
    if TrueIndices(flags) == [] {
      UnsharedOfDisjoint(text.items, lead.items);
    }
  }

  lemma {:induction false} UnsharedOfDisjoint(xs: seq<Value>, ys: seq<Value>)
    requires forall x :: x in xs ==> x !in ys
    ensures Unshared(xs, ys) == xs
    decreases |xs|
  {
    if xs != [] {
      assert xs[0] in xs;
      UnsharedOfDisjoint(xs[1..], ys);
    }
  }

  /** One iteration of the row loop: the text is only touched when it shares an element with the lead. */
  function DuplicatesRemovedFromRow(row: Row<Value>): Result<Row<Value>>
  {
    var lead, text := Get(row, Lead), Get(row, Text);
    var shared :- SharesElements(lead, text);
    if !shared then Ok(row)
    else
      var newText :- LeadRemovedFromText(lead, text);
      Ok(Row(row.index, row.cells[Text := newText]))
  }

  /**
   * For list cells of strings, the row keeps its label, its lead and its
   * other cells; its text becomes the text elements not in the lead.
   */
  lemma DuplicatesRemovedFromListRow(row: Row<Value>)
    requires Text in row.cells && Get(row, Lead).List? && Get(row, Text).List?
    requires forall x :: x in Get(row, Lead).items ==> Hashable(x)
    requires forall x :: x in Get(row, Text).items ==> Hashable(x)
    ensures DuplicatesRemovedFromRow(row)
         == Ok(Row(row.index, row.cells[Text := List(Unshared(Get(row, Text).items, Get(row, Lead).items))]))
  {
    var lead, text := Get(row, Lead), Get(row, Text);
    LeadRemovedFromListText(lead, text);
    if AsSet(lead).value * AsSet(text).value == {} {
      forall x | x in text.items ensures x !in lead.items {
        var leadSet, textSet := AsSet(lead).value, AsSet(text).value;
        assert x in textSet;
        assert x !in leadSet * textSet;
      }
      UnsharedOfDisjoint(text.items, lead.items);
      assert row.cells[Text := text] == row.cells;
    }
  }

  /** The row loop over the frame, from the first row; the first failure stops it. */
  function DuplicatesRemovedFromRows(rows: seq<Row<Value>>): (r: Result<seq<Row<Value>>>)
    ensures r.Ok? ==> |r.value| == |rows|
  {
    if rows == [] then Ok([])
    else
      var first :- DuplicatesRemovedFromRow(rows[0]);
      var rest :- DuplicatesRemovedFromRows(rows[1..]);
      Ok([first] + rest)
  }

  /** What `remove_duplicates_in_lead_and_text_columns` leaves in `self.data`. */
  function DuplicatesRemoved(t: Table<Value>): (r: Result<Table<Value>>)
    ensures r.Ok? ==> r.value.columns == t.columns && |r.value.rows| == |t.rows|
  {
    match FirstMissing(ColumnsWithDuplicates, t.columns)
    case Some(c) => Err(KeyError(c))
    case None =>
      var rows :- DuplicatesRemovedFromRows(t.rows);
      Ok(Table(t.columns, rows))
  }

  /** `rows` already processed, followed by what the rest of the loop gives. */
  function Then(done: seq<Row<Value>>, r: Result<seq<Row<Value>>>): Result<seq<Row<Value>>>
  {
    if r.Ok? then Ok(done + r.value) else r
  }

  /** Removing duplicates changes only the text cells, and keeps every label. */
  lemma {:induction false} DuplicatesRemovedKeepsOthers(rows: seq<Row<Value>>)
    requires DuplicatesRemovedFromRows(rows).Ok?
    ensures Labels(DuplicatesRemovedFromRows(rows).value) == Labels(rows)
    ensures forall i, c :: 0 <= i < |rows| && c != Text ==>
      Get(DuplicatesRemovedFromRows(rows).value[i], c) == Get(rows[i], c)
    decreases |rows|
  {
    if rows != [] {
      DuplicatesRemovedKeepsOthers(rows[1..]);
      var r := DuplicatesRemovedFromRows(rows).value;
      assert r[1..] == DuplicatesRemovedFromRows(rows[1..]).value;
      forall i, c | 0 <= i < |rows| && c != Text ensures Get(r[i], c) == Get(rows[i], c) {
        if i > 0 {
          assert r[i] == r[1..][i - 1];
        }
      }
    }
  }

  /** The body of the row loop: the lead is compared with the text and, if they share anything, removed from it. */
  method RemoveDuplicatesInRow(row: Row<Value>) returns (r: Result<Row<Value>>)
    ensures r == DuplicatesRemovedFromRow(row)
  {
    var lead, text := Get(row, Lead), Get(row, Text);
    var shared := SharesElements(lead, text);
    if shared.Err? {
      return Err(shared.error);
    }
    if !shared.value {
      return Ok(row);
    }
    var newText := RemoveLeadFromText(lead, text);
    if newText.Err? {
      return Err(newText.error);
    }
    return Ok(Row(row.index, row.cells[Text := newText.value]));
  }

  lemma ThenStart(rows: seq<Row<Value>>)
    ensures Then([], DuplicatesRemovedFromRows(rows[0..])) == DuplicatesRemovedFromRows(rows)
  {
    assert rows[0..] == rows;
    var all := DuplicatesRemovedFromRows(rows);
    if all.Ok? {
      assert [] + all.value == all.value;
    }
  }

  /** One more row handled: it joins the rows done, or its failure is the loop's. */
  lemma ThenStep(rows: seq<Row<Value>>, i: nat, done: seq<Row<Value>>)
    requires i < |rows|
    ensures DuplicatesRemovedFromRow(rows[i]).Err? ==>
      Then(done, DuplicatesRemovedFromRows(rows[i..])) == Err(DuplicatesRemovedFromRow(rows[i]).error)
    ensures DuplicatesRemovedFromRow(rows[i]).Ok? ==>
      Then(done, DuplicatesRemovedFromRows(rows[i..]))
        == Then(done + [DuplicatesRemovedFromRow(rows[i]).value], DuplicatesRemovedFromRows(rows[i + 1..]))
  {
    assert rows[i..][0] == rows[i] && rows[i..][1..] == rows[i + 1..];
    var rest := DuplicatesRemovedFromRows(rows[i + 1..]);
    if DuplicatesRemovedFromRow(rows[i]).Ok? && rest.Ok? {
      var x := DuplicatesRemovedFromRow(rows[i]).value;
      assert done + ([x] + rest.value) == done + [x] + rest.value;
    }
  }

  // ---------------------------------------------------------------------
  // merge_or_create_column, merge_columns_as_text_or_summary, merge_columns
  // ---------------------------------------------------------------------

  /** `a + b` on two cells: lists and strings concatenate; any other pair raises `TypeError`. */
  function AddCells(a: Value, b: Value): (r: Result<Value>)
    ensures r.Ok? <==> (a.List? && b.List?) || (a.Str? && b.Str?)
  {
    if a.List? && b.List? then Ok(List(a.items + b.items))
    else if a.Str? && b.Str? then Ok(Str(a.s + b.s))
    else Err(TypeError)
  }

  /** `series + other`: the cells added row by row (both come from one frame, so they align). */
  function AddColumns(a: seq<Value>, b: seq<Value>): (r: Result<seq<Value>>)
    requires |a| == |b|
    ensures r.Ok? <==> forall i :: 0 <= i < |a| ==> AddCells(a[i], b[i]).Ok?
    ensures r.Err? ==> r.error == TypeError
    ensures r.Ok? ==> |r.value| == |a| && forall i :: 0 <= i < |a| ==> Ok(r.value[i]) == AddCells(a[i], b[i])
  {
    if a == [] then Ok([])
    else
      var first :- AddCells(a[0], b[0]);
      var rest := AddColumns(a[1..], b[1..]);
      if rest.Err? then
        var j :| 0 <= j < |a| - 1 && AddCells(a[1..][j], b[1..][j]).Err?;
        assert AddCells(a[j + 1], b[j + 1]).Err?;
        rest
      else Ok([first] + rest.value)
  }

  /** `merge_or_create_column`: the column itself, or the running series plus it. */
  function MergeOrCreateColumn(rows: seq<Row<Value>>, c: string, series: Option<seq<Value>>): (r: Result<seq<Value>>)
    requires series.Some? ==> |series.value| == |rows|
    ensures r.Ok? ==> |r.value| == |rows|
  {
    if series.None? then Ok(Column(rows, c))
    else AddColumns(series.value, Column(rows, c))
  }

  /** The loop of `merge_columns_as_text_or_summary` from the given column on. */
  function MergedFrom(rows: seq<Row<Value>>, columns: seq<string>, wanted: seq<string>, merged: Option<seq<Value>>)
    : (r: Result<Option<seq<Value>>>)
    requires merged.Some? ==> |merged.value| == |rows|
    ensures r.Ok? && r.value.Some? ==> |r.value.value| == |rows|
    decreases |columns|
  {
    if columns == [] then Ok(merged)
    else if wanted != [] && columns[0] in wanted then
      var next :- MergeOrCreateColumn(rows, columns[0], merged);
      MergedFrom(rows, columns[1..], wanted, Some(next))
    else MergedFrom(rows, columns[1..], wanted, merged)
  }

  /** What `merge_columns_as_text_or_summary(wanted)` returns. */
  function MergedColumn(t: Table<Value>, wanted: seq<string>): (r: Result<Option<seq<Value>>>)
    ensures r.Ok? && r.value.Some? ==> |r.value.value| == |t.rows|
  {
    MergedFrom(t.rows, t.columns, wanted, None)
  }

  /** The frame's columns that are to be merged, in the frame's order. */
  function Chosen(columns: seq<string>, wanted: seq<string>): (r: seq<string>)
    ensures forall c :: c in r <==> c in columns && c in wanted
  {
    if columns == [] then []
    else if columns[0] in wanted then [columns[0]] + Chosen(columns[1..], wanted)
    else Chosen(columns[1..], wanted)
  }

  /** The list items of the row's cells in the given columns, one after another. */
  function ItemsOf(row: Row<Value>, columns: seq<string>): seq<Value>
    requires forall c :: c in columns ==> Get(row, c).List?
  {
    if columns == [] then [] else Get(row, columns[0]).items + ItemsOf(row, columns[1..])
  }

  /** The items already merged into the running series at row `i`. */
  function Prior(merged: Option<seq<Value>>, i: nat): seq<Value>
    requires merged.Some? ==> i < |merged.value| && merged.value[i].List?
  {
    if merged.None? then [] else merged.value[i].items
  }

  /** Every cell to be merged is a list. */
  predicate ListCells(rows: seq<Row<Value>>, columns: seq<string>)
  {
    forall i, c :: 0 <= i < |rows| && c in columns ==> Get(rows[i], c).List?
  }

  /** One merge step on list cells appends the column's items to the running lists. */
  lemma MergeStepOfLists(rows: seq<Row<Value>>, c: string, merged: Option<seq<Value>>)
    requires forall i :: 0 <= i < |rows| ==> Get(rows[i], c).List?
    requires merged.Some? ==> |merged.value| == |rows| && forall i :: 0 <= i < |rows| ==> merged.value[i].List?
    ensures MergeOrCreateColumn(rows, c, merged).Ok?
    ensures forall i :: 0 <= i < |rows| ==>
      MergeOrCreateColumn(rows, c, merged).value[i] == List(Prior(merged, i) + Get(rows[i], c).items)
  {
    if merged.None? {
      forall i | 0 <= i < |rows| ensures Get(rows[i], c) == List([] + Get(rows[i], c).items) {
        assert [] + Get(rows[i], c).items == Get(rows[i], c).items;
      }
    }
  }

  lemma ChosenStep(columns: seq<string>, wanted: seq<string>)
    requires columns != []
    ensures Chosen(columns, wanted) == if columns[0] in wanted then [columns[0]] + Chosen(columns[1..], wanted)
                                       else Chosen(columns[1..], wanted)
  {
  }

  lemma {:induction false} MergedFromLists(rows: seq<Row<Value>>, columns: seq<string>, wanted: seq<string>,
                                           merged: Option<seq<Value>>)
    requires wanted != [] && ListCells(rows, Chosen(columns, wanted))
    requires merged.Some? ==> |merged.value| == |rows| && forall i :: 0 <= i < |rows| ==> merged.value[i].List?
    ensures MergedFrom(rows, columns, wanted, merged).Ok?
    ensures MergedFrom(rows, columns, wanted, merged).value.None? <==> merged.None? && Chosen(columns, wanted) == []
    ensures MergedFrom(rows, columns, wanted, merged).value.Some? ==>
      forall i :: 0 <= i < |rows| ==>
        MergedFrom(rows, columns, wanted, merged).value.value[i] == List(Prior(merged, i) + ItemsOf(rows[i], Chosen(columns, wanted)))
    decreases |columns|
  {
    if columns != [] {
      var c := columns[0];
      var rest := Chosen(columns[1..], wanted);
      ChosenStep(columns, wanted);
      assert ListCells(rows, rest);
      if c in wanted {
        assert Chosen(columns, wanted) == [c] + rest;
        MergeStepOfLists(rows, c, merged);
        var next := MergeOrCreateColumn(rows, c, merged).value;
        assert MergedFrom(rows, columns, wanted, merged) == MergedFrom(rows, columns[1..], wanted, Some(next));
        MergedFromLists(rows, columns[1..], wanted, Some(next));
        forall i | 0 <= i < |rows|
          ensures Prior(Some(next), i) + ItemsOf(rows[i], rest) == Prior(merged, i) + ItemsOf(rows[i], [c] + rest)
        {
          PriorThenItems(rows[i], c, rest, Prior(merged, i), next[i]);
        }
      } else {
        assert MergedFrom(rows, columns, wanted, merged) == MergedFrom(rows, columns[1..], wanted, merged);
        MergedFromLists(rows, columns[1..], wanted, merged);
      }
    }
  }

  /** A running list that took column `c` in, followed by the other columns' items. */
  lemma PriorThenItems(row: Row<Value>, c: string, rest: seq<string>, prior: seq<Value>, next: Value)
    requires Get(row, c).List? && forall d :: d in rest ==> Get(row, d).List?
    requires next == List(prior + Get(row, c).items)
    ensures next.items + ItemsOf(row, rest) == prior + ItemsOf(row, [c] + rest)
  {
    assert ([c] + rest)[1..] == rest;
    assert ItemsOf(row, [c] + rest) == Get(row, c).items + ItemsOf(row, rest);
  }

  /**
   * With list cells, `merge_columns_as_text_or_summary` gives `None`
   * exactly when no column of the frame is to be merged; otherwise row `i`
   * of the merged column is the concatenation of the row's chosen lists,
   * in the frame's column order.
   */
  lemma MergedColumnOfLists(t: Table<Value>, wanted: seq<string>)
    requires ListCells(t.rows, Chosen(t.columns, wanted))
    ensures MergedColumn(t, wanted).Ok?
    ensures MergedColumn(t, wanted).value.None? <==> wanted == [] || Chosen(t.columns, wanted) == []
    ensures MergedColumn(t, wanted).value.Some? ==>
      forall i :: 0 <= i < |t.rows| ==> MergedColumn(t, wanted).value.value[i] == List(ItemsOf(t.rows[i], Chosen(t.columns, wanted)))
  {
    if wanted == [] {
      MergedFromNothing(t.rows, t.columns);
    } else {
      MergedFromLists(t.rows, t.columns, wanted, None);
    }
  }

  lemma {:induction false} MergedFromNothing(rows: seq<Row<Value>>, columns: seq<string>)
    ensures MergedFrom(rows, columns, [], None) == Ok(None)
    decreases |columns|
  {
    if columns != [] {
      MergedFromNothing(rows, columns[1..]);
    }
  }

  /** The cells of the new frame's row `i`: one per merged column that is not `None`. */
  function OutputCells(text: Option<seq<Value>>, summary: Option<seq<Value>>, i: nat): map<string, Value>
    requires text.Some? ==> i < |text.value|
    requires summary.Some? ==> i < |summary.value|
  {
    var m := if text.Some? then map[Text := text.value[i]] else map[];
    if summary.Some? then m[Summary := summary.value[i]] else m
  }

  /**
   * `pd.concat([data_text, data_summary], keys=["text", "summary"], axis=1)`:
   * `None` parts are skipped, and two `None` parts raise `ValueError`.
   */
  function ConcatOutputColumns(rows: seq<Row<Value>>, text: Option<seq<Value>>, summary: Option<seq<Value>>)
    : (r: Result<Table<Value>>)
    requires text.Some? ==> |text.value| == |rows|
    requires summary.Some? ==> |summary.value| == |rows|
    ensures r.Err? <==> text.None? && summary.None?
    ensures r.Err? ==> r.error == ValueError
    ensures r.Ok? ==> |r.value.rows| == |rows| && Labels(r.value.rows) == Labels(rows)
    ensures r.Ok? ==> (Text in r.value.columns <==> text.Some?) && (Summary in r.value.columns <==> summary.Some?)
    ensures r.Ok? ==> r.value.columns != [] && forall c :: c in r.value.columns ==> c in OutputColumns
    ensures r.Ok? ==> WellFormed(r.value)
    ensures r.Ok? ==> r.value.columns == (if text.Some? then [Text] else []) + (if summary.Some? then [Summary] else [])
  {
    if text.None? && summary.None? then Err(ValueError)
    else
      var columns := (if text.Some? then [Text] else []) + (if summary.Some? then [Summary] else []);
      var t := Table(columns, seq(|rows|, i requires 0 <= i < |rows| => Row(rows[i].index, OutputCells(text, summary, i))));
      assert Labels(t.rows) == Labels(rows);
      Ok(t)
  }

  /** What `merge_columns` leaves in `self.data`. */
  function MergedColumns(t: Table<Value>, config: ReducerConfig): (r: Result<Table<Value>>)
    ensures r.Ok? ==> |r.value.rows| == |t.rows| && Labels(r.value.rows) == Labels(t.rows)
    ensures r.Ok? ==> r.value.columns != [] && forall c :: c in r.value.columns ==> c in OutputColumns
  {
    var text :- MergedColumn(t, config.columnsToMergeAsText);
    var summary :- MergedColumn(t, config.columnsToMergeAsSummary);
    ConcatOutputColumns(t.rows, text, summary)
  }

  /** What `organize_columns` leaves in `self.data`. */
  function Organized(t: Table<Value>, config: ReducerConfig): Result<Table<Value>>
  {
    var deduplicated :- DuplicatesRemoved(t);
    MergedColumns(deduplicated, config)
  }

  /** `drop(columns=columns_to_skip)`: `None` names nothing to drop and raises `ValueError`. */
  function SkippedColumnsDropped(t: Table<Value>, columnsToSkip: Option<seq<string>>): Result<Table<Value>>
  {
    if columnsToSkip.None? then Err(ValueError) else DropColumns(t, columnsToSkip.value)
  }

  /** What `self.data` is just before `remove_empty_rows`: dropped, unified, organized. */
  function Prepared(t: Table<Value>, config: ReducerConfig): Result<Table<Value>>
  {
    var dropped :- SkippedColumnsDropped(t, config.columnsToSkip);
    var unified :- UnifiedTable(dropped);
    Organized(unified, config)
  }

  /**
   * What `reduce_dataframe` returns. Without a `columns_to_skip` list it
   * stops at its first step, with `ValueError`.
   */
  function Reduced(t: Table<Value>, config: ReducerConfig): (r: Result<Table<Value>>)
    ensures config.columnsToSkip.None? ==> r == Err(ValueError)
  {
    var organized :- Prepared(t, config);
    EmptyRowsRemoved(organized)
  }

  /**
   * A reduced frame holds exactly the organized frame's rows whose every
   * cell is non-empty, in their order, relabelled `0 .. n-1`, so no more
   * rows than it started with. It keeps the organized columns (`text`,
   * `summary` or both) when every pass of `remove_empty_rows` starts with
   * a row left, and has no columns otherwise.
   */
  lemma ReducedShape(t: Table<Value>, config: ReducerConfig)
    requires Reduced(t, config).Ok?
    ensures Prepared(t, config).Ok?
    ensures Prepared(t, config).value.columns != []
    ensures forall c :: c in Prepared(t, config).value.columns ==> c in OutputColumns
    ensures Reduced(t, config).value.rows ==
      ResetIndex(Select(Prepared(t, config).value.rows, NonEmptyInAll(Prepared(t, config).value.columns)))
    ensures Reduced(t, config).value.columns ==
      if RowsBeforeEveryPass(Prepared(t, config).value.rows, Prepared(t, config).value.columns)
      then Prepared(t, config).value.columns else []
    ensures IndexReset(Reduced(t, config).value.rows)
    ensures |Reduced(t, config).value.rows| <= |t.rows|
    ensures forall x :: x in Reduced(t, config).value.rows ==> NonEmptyInAll(Prepared(t, config).value.columns)(x.cells)
  {
    var dropped := SkippedColumnsDropped(t, config.columnsToSkip).value;
    var unified := UnifiedTable(dropped).value;
    var organized := Organized(unified, config).value;
    assert organized == Prepared(t, config).value;
    UnifiedTableFills(dropped);
    var deduplicated := DuplicatesRemoved(unified).value;
    RemoveEmptyRowsKeepsNonEmpty(organized);
    var kept := Select(organized.rows, NonEmptyInAll(organized.columns));
    assert |kept| <= |organized.rows|;
    var r := Reduced(t, config).value;
    forall x | x in r.rows ensures NonEmptyInAll(organized.columns)(x.cells) {
      var i :| 0 <= i < |r.rows| && r.rows[i] == x;
      assert kept[i] in kept;
    }
  }

  /** The reducer: `config` is read, `data` is replaced step by step. */
  class Reducer {
    var config: ReducerConfig
    var data: Table<Value>

    constructor(config: ReducerConfig, data: Table<Value>)
      ensures this.config == config && this.data == data
    {
      this.config := config;
      this.data := data;
    }

    /** `unify_dataframe_content`: each column is unified in turn. */
    method UnifyDataframeContent() returns (failure: Option<Error>)
      modifies this
      ensures config == old(config)
      ensures Reports(failure, UnifiedTable(old(data)))
      ensures failure.None? ==> data == UnifiedTable(old(data)).value
    {
      var columns := data.columns;
      for i := 0 to |columns|
        invariant config == old(config) && data.columns == columns
        invariant UnifiedFrom(data, columns[i..]) == UnifiedTable(old(data))
      {
        assert columns[i..][1..] == columns[i + 1..];
        var col := UnifiedColumn(data.rows, columns[i]);
        if col.Err? {
          return Some(col.error);
        }
        data := Table(data.columns, SetColumn(data.rows, columns[i], col.value));
      }
      assert columns[|columns|..] == [];
      return None;
    }

    /**
     * `remove_duplicates_in_lead_and_text_columns`: the rows handed out by
     * `iterrows` share their list cells with the frame, so deleting from a
     * row's text changes the frame's row in place.
     */
    method RemoveDuplicatesInLeadAndTextColumns() returns (failure: Option<Error>)
      modifies this
      ensures config == old(config)
      ensures Reports(failure, DuplicatesRemoved(old(data)))
      ensures failure.None? ==> data == DuplicatesRemoved(old(data)).value
    {
      var missing := FirstMissing(ColumnsWithDuplicates, data.columns);
      if missing.Some? {
        return Some(KeyError(missing.value));
      }
      var rows := data.rows;
      var i := 0;
      ThenStart(rows);
      while i < |rows|
        invariant 0 <= i <= |rows|
        invariant config == old(config) && data.columns == old(data).columns && rows == old(data).rows
        invariant |data.rows| == |rows| && data.rows[i..] == rows[i..]
        invariant DuplicatesRemovedFromRows(rows) == Then(data.rows[..i], DuplicatesRemovedFromRows(rows[i..]))
      {
        assert data.rows[i] == rows[i];
        var newRow := RemoveDuplicatesInRow(data.rows[i]);
        ThenStep(rows, i, data.rows[..i]);
        if newRow.Err? {
          return Some(newRow.error);
        }
        var done := data.rows[..i];
        data := Table(data.columns, data.rows[i := newRow.value]);
        assert data.rows[..i + 1] == done + [newRow.value];
        i := i + 1;
      }
      assert rows[i..] == [] && data.rows[..i] == data.rows;
      return None;
    }

    /** `merge_columns_as_text_or_summary`: the running series over the frame's columns. */
    method MergeColumnsAsTextOrSummary(wanted: seq<string>) returns (merged: Result<Option<seq<Value>>>)
      ensures merged == MergedColumn(data, wanted)
    {
      var series: Option<seq<Value>> := None;
      var columns := data.columns;
      for i := 0 to |columns|
        invariant series.Some? ==> |series.value| == |data.rows|
        invariant MergedFrom(data.rows, columns[i..], wanted, series) == MergedColumn(data, wanted)
      {
        assert columns[i..][1..] == columns[i + 1..];
        if wanted != [] && columns[i] in wanted {
          var next := MergeOrCreateColumn(data.rows, columns[i], series);
          if next.Err? {
            return Err(next.error);
          }
          series := Some(next.value);
        }
      }
      assert columns[|columns|..] == [];
      return Ok(series);
    }

    /** `merge_columns`: the frame becomes the merged `text` and `summary` columns. */
    method MergeColumns() returns (failure: Option<Error>)
      modifies this
      ensures config == old(config)
      ensures Reports(failure, MergedColumns(old(data), config))
      ensures failure.None? ==> data == MergedColumns(old(data), config).value
    {
      var text := MergeColumnsAsTextOrSummary(config.columnsToMergeAsText);
      if text.Err? {
        return Some(text.error);
      }
      var summary := MergeColumnsAsTextOrSummary(config.columnsToMergeAsSummary);
      if summary.Err? {
        return Some(summary.error);
      }
      var merged := ConcatOutputColumns(data.rows, text.value, summary.value);
      if merged.Err? {
        return Some(merged.error);
      }
      data := merged.value;
      return None;
    }

    /** `organize_columns`: duplicates out of `text`, then the merge. */
    method OrganizeColumns() returns (failure: Option<Error>)
      modifies this
      ensures config == old(config)
      ensures Reports(failure, Organized(old(data), config))
      ensures failure.None? ==> data == Organized(old(data), config).value
    {
      failure := RemoveDuplicatesInLeadAndTextColumns();
      if failure.Some? {
        return;
      }
      failure := MergeColumns();
    }

    /** `reduce_dataframe`: drop, unify, organize, remove empty rows. */
    method ReduceDataframe() returns (r: Result<Table<Value>>)
      modifies this
      ensures config == old(config)
      ensures r == Reduced(old(data), config)
      ensures r.Ok? ==> data == r.value
    {
      var dropped := SkippedColumnsDropped(data, config.columnsToSkip);
      if dropped.Err? {
        return Err(dropped.error);
      }
      data := dropped.value;
      var failure := UnifyDataframeContent();
      if failure.Some? {
        return Err(failure.value);
      }
      failure := OrganizeColumns();
      if failure.Some? {
        return Err(failure.value);
      }
      r := RemoveEmptyRows(data);
      if r.Ok? {
        data := r.value;
      }
    }
  }
}
