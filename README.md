# NLPer preprocessing, modelled in Dafny

This project models the data-preparation core of NLPer, the summariser in
the `NLP_summarizer` repository. Raw articles (JSON lines, one file per
site) are read into pandas data frames. The **Reducer** drops unwanted
columns, turns every cell into a list and removes from `text` the fragments
it repeats from `lead`. It then merges the configured columns into `text`
and `summary` and drops rows with an empty cell. The **Cleaner** joins each
list into one text, strips HTML and non-text characters, optionally hides
numbers and optionally lemmatizes. The **Trimmer** drops rows whose text
has too few words and cuts every text at a sentence boundary to an upper
token count. The **FileWriter** saves one frame or a dictionary of frames
as pickle or CSV, optionally merged into one frame tagged by site. The
**FileTypesResolver** maps a file extension to a reader.

How the model represents things:

- A cell is a `Values.Value`: `Null` (`None`/`NaN`), a string, or a list of
  values.
- A data frame is a `Tables.Table`: ordered, distinct column names and rows.
  Each row carries its index label and a map from column to cell, so
  `reset_index` and "the cell at label 0" are explicit.
- A Python `dict` of frames is a `Dicts.Dict`: a list of (key, value) pairs
  in insertion order.
- Python exceptions are the `Wrappers.Error` cases. Each operation returns a
  `Result`.
- Each class whose methods update `self.data` in place is a Dafny `class`
  (`Reducer.Reducer`, `Cleaner.Cleaner`, `Trimmer.Trimmer`,
  `DataFrameWriter.FileWriter`, `DataFrameReader.FileReader`). Each of its
  methods is proved against a function that says what the new `data` is.
- The properties of those functions are proved as lemmas. Examples:
  - every cell is cleaned on its own;
  - the lower-limit pass keeps a `Select` of the rows, then resets the index;
  - a merged frame holds every entry's rows, tagged with their site;
  - keyed saves write one file per key, and the last file's path is the
    one reported.

The language model (spaCy), BeautifulSoup, the file system, `glob` and
`json.loads` are passed in as function parameters. The model takes from them
only what the code relies on.

Four places where the code departs from its docstrings or from its evident
intent. Each is listed under Findings, with members for both the code as
written and a corrected version:

- **Worker count.** The cleaner and trimmer compute their worker count as
  `cpu_count() // 2`, with no lower bound of one. The functions take the
  worker count as a parameter. Lemmas about the count as written show that
  one processor makes lemmatizing and trimming fail
  (`Partitions.SingleProcessorSplitFails`,
  `Cleaner.CleanedOnOneProcessorAsWritten`,
  `Trimmer.TrimmedOnOneProcessorAsWritten`). The `Cleaner` and `Trimmer`
  classes use the corrected count, `Partitions.WorkerCount`.
- **Upper trim keeps too little.** The docstring of
  `trim_text_to_upper_length_threshold` (trim_utils.py:40-42) says the last
  sentences are removed until the text fits. When a text is over its upper
  limit, the code keeps the sentences *before* the last one that still fits
  (the `- 1` at trim_utils.py:84). It therefore drops a sentence that would
  have fitted (`TrimUtils.UpperTrimWhenFirstSentenceFits`).
- **Upper trim can keep too much.** When the first sentence alone is over
  the limit, the index is -1, so all sentences but the last are kept. The
  result can be longer than the threshold
  (`TrimUtils.UpperTrimWhenFirstSentenceTooLong`,
  `TrimUtils.UpperTrimCanExceedThreshold`).

- **Filtering an emptied frame drops its columns.** `remove_empty_rows`
  (dataframe_utils.py:59-60) and `remove_below_lower_length_limit`
  (trimmer.py:53-57) filter the frame once per column with
  `frame[frame[c].map(f)]`. On a frame with no rows left, the mapped column
  is an empty series of objects. pandas reads it as a list of column
  labels, not as a mask, so the frame loses every column (`Tables.Masked`).
  The next pass then raises `KeyError`. If it was the last pass, the
  result has neither rows nor columns. So `remove_empty_rows` is not
  idempotent (`DataFrameUtils.RemoveEmptyRowsNotIdempotent`), and a reduced
  frame whose text column empties it has no columns at all.

The corrected upper trim, `TrimUtils.TrimToUpperThreshold`, keeps the
longest prefix of sentences that fits. `TrimUtils.UpperTrimDropsFittingSentence`
and `TrimUtils.UpperTrimOverflows` compare it with the code as written.
`DataFrameUtils.EmptyRowsRemovedKeepingColumns` removes empty rows but keeps
the columns. The `Reducer` and the `Trimmer` model the code as written:
`Trimmer.TrimCell` uses `TrimUtils.TrimTextToUpperLengthThreshold`, and both
row filters lose their columns as described above.

## Model

| member | source | states |
|---|---|---|
| Strings.WordsOfStrip | NLPer/nlper/utils/trim_utils.py:109 | `x.strip().split()` has the same words as `x.split()`: the strip before the split changes nothing |
| Strings.WordsAroundSpace | NLPer/nlper/utils/clean_utils.py:162 | the words of `a + " " + b` are the words of `a` followed by the words of `b` |
| Strings.WordsIgnoreTrailingWhitespace | NLPer/nlper/utils/trim_utils.py:109 | trailing whitespace adds no word |
| Strings.ReplaceRemovesAll | NLPer/nlper/utils/clean_utils.py:132-134 | after `str.replace(pattern, c)` with `c` not in the pattern, the pattern no longer occurs |
| Strings.ReplaceAbsent | NLPer/nlper/utils/clean_utils.py:132-134 | replacing a pattern that does not occur leaves the text unchanged |
| CleanUtils.NumberRunLength | NLPer/nlper/utils/clean_utils.py:69-70 | the greedy match of the number pattern: the longest prefix of digits, separators and Roman-numeral letters, stopping at the first other character |
| CleanUtils.MaskNumbers | NLPer/nlper/utils/clean_utils.py:69-70 | the first `re.sub`: with a digit-free token, no digit is left |
| CleanUtils.MaskNumbersReplacesRun | NLPer/nlper/utils/clean_utils.py:69-70 | text without digits is copied, and one maximal number run is replaced by exactly one token |
| CleanUtils.CollapseWhitespaceShape | NLPer/nlper/utils/clean_utils.py:71 | `re.sub("\\s+", " ")`: empty exactly when the input is, starts with a blank exactly when the input does, its only whitespace is single spaces, no two blanks are adjacent, and it invents no visible character |
| CleanUtils.CollapseKeepsText | NLPer/nlper/utils/clean_utils.py:71 | collapsing whitespace keeps every non-whitespace character, in order |
| CleanUtils.CollapseSingleSpaced | NLPer/nlper/utils/clean_utils.py:71 | collapsing is the identity on single-spaced text (idempotence) |
| CleanUtils.CollapseAppend | NLPer/nlper/utils/clean_utils.py:71 | collapsing distributes over a concatenation whose left part ends in a visible character |
| CleanUtils.HideNumbers | NLPer/nlper/utils/clean_utils.py:42-71 | with a digit-free replacement no digit survives, and no two blanks are adjacent in the result |
| CleanUtils.HideNumbersOfRun | NLPer/nlper/utils/clean_utils.py:46-59 | any number run, for example a date, time, amount or Roman-numeral date, becomes `" <num> "` |
| CleanUtils.HideNumbersDocumentedExamples | NLPer/nlper/utils/clean_utils.py:46-59 | each of the thirteen single-run formats in the docstring becomes `" <num> "` |
| CleanUtils.HideNumbersDateAndTime | NLPer/nlper/utils/clean_utils.py:60 | a date, a space and a time become `" <num> <num> "`, as in the docstring's last example |
| CleanUtils.HideNumbersTwoRuns | NLPer/nlper/utils/clean_utils.py:69-71 | two runs separated by a space become two tokens separated by single spaces |
| CleanUtils.ReplaceClass | NLPer/nlper/utils/clean_utils.py:108-114 | a one-character-class substitution, used at line 108 (tab, carriage return, newline to space) and line 114 (`?`, `!` to `.`): each character of the class becomes the replacement, every other character and the length are kept |
| CleanUtils.RemoveBracketedLeavesNoPair | NLPer/nlper/utils/clean_utils.py:109 | greedy removal of `{...}` and `[...]` spans within a line leaves no opening bracket followed later by its closing bracket |
| CleanUtils.ReplaceSeparators | NLPer/nlper/utils/clean_utils.py:110 | no `-`, `~`, `+`, `:` or `/` is left, and no `__` or `..` pair; every character kept was in the input or is a space |
| CleanUtils.DeleteDenylisted | NLPer/nlper/utils/clean_utils.py:112-113 | no character of the denylist survives, and nothing is invented |
| CleanUtils.RemoveNonTextCharactersOutput | NLPer/nlper/utils/clean_utils.py:89-115 | the result has no tab, line break, `?`, `:`, `/`, `+` or denylisted character |
| CleanUtils.RemoveSpecialCharacters | NLPer/nlper/utils/clean_utils.py:117-135 | the loop over the characters computes `SpecialCharactersRemoved` |
| CleanUtils.SpecialCharactersRemovedDefault | NLPer/nlper/utils/clean_utils.py:118-135 | with the default tuple, `\xao` no longer occurs, and text without it is unchanged |
| CleanUtils.GuardIsRedundant | NLPer/nlper/utils/clean_utils.py:133-134 | the `if character in text` test before `replace` changes nothing |
| CleanUtils.RemoveCharactersForText | NLPer/nlper/utils/clean_utils.py:137-150 | HTML stripping, special characters, then non-text characters; the result is free of every removed character |
| CleanUtils.NonEmptyFragments | NLPer/nlper/utils/clean_utils.py:162 | `filter(None, ...)` on strings keeps exactly the non-empty ones |
| CleanUtils.TruthyItems | NLPer/nlper/utils/clean_utils.py:162 | `filter(None, ...)` keeps exactly the truthy items |
| CleanUtils.ConvertListToText | NLPer/nlper/utils/clean_utils.py:152-162 | iterating over `None` fails |
| CleanUtils.ConvertListOfStrings | NLPer/nlper/utils/clean_utils.py:152-162 | a list of strings becomes its non-empty fragments joined by single spaces |
| CleanUtils.JoinFragmentsKeepsWords | NLPer/nlper/utils/clean_utils.py:162 | the joined text has exactly the words of the fragments, in order |
| CleanUtils.JoinFragmentsEmpty | NLPer/nlper/utils/clean_utils.py:162 | the joined text is empty exactly when every fragment is empty |
| TrimUtils.CumulativeLengths | NLPer/nlper/utils/trim_utils.py:60-70 | `np.cumsum` of the sentence lengths: entry k is the length of the first k+1 sentences, and the sequence never decreases |
| TrimUtils.FirstAbove | NLPer/nlper/utils/trim_utils.py:84 | `list.index(True)` on the map: the first position over the threshold, all earlier ones within it |
| TrimUtils.GetLastSentenceIndex | NLPer/nlper/utils/trim_utils.py:72-85 | one less than the first cumulative length over the threshold, or `ValueError` when there is none |
| TrimUtils.TrimSentences | NLPer/nlper/utils/trim_utils.py:111-123 | Python slicing `[:index]`, including negative indices: a prefix of the expected length |
| TrimUtils.TrimTextToUpperLengthThreshold | NLPer/nlper/utils/trim_utils.py:38-58 | fails with `IndexError` exactly when the text has no sentence; otherwise the result joins a prefix of the sentences |
| TrimUtils.UpperTrimKeepsShortText | NLPer/nlper/utils/trim_utils.py:52-53 | a text within the threshold keeps all its sentences |
| TrimUtils.UpperTrimWhenFirstSentenceFits | NLPer/nlper/utils/trim_utils.py:54-56 | over the threshold, the kept prefix is one sentence shorter than the longest prefix that fits |
| TrimUtils.UpperTrimWhenFirstSentenceTooLong | NLPer/nlper/utils/trim_utils.py:54-56 | when the first sentence alone is over the threshold, index -1 keeps all sentences but the last |
| TrimUtils.UpperTrimCanExceedThreshold | NLPer/nlper/utils/trim_utils.py:54-56 | a concrete text whose trimmed result is longer than the threshold |
| TrimUtils.LongestFittingPrefix | NLPer/nlper/utils/trim_utils.py:40-42 | the number of leading sentences that fit: that prefix is within the threshold (when the threshold is not negative or the prefix is not empty), and every longer prefix is over it |
| TrimUtils.TrimToUpperThreshold | NLPer/nlper/utils/trim_utils.py:38-58 | the upper trim with the slice ending at the first sentence over the threshold: `IndexError` exactly when the text has no sentence, otherwise the joined longest fitting prefix |
| TrimUtils.UpperTrimDropsFittingSentence | NLPer/nlper/utils/trim_utils.py:84 | when the first sentence fits and the text does not, the code keeps one sentence fewer than the longest fitting prefix, which the corrected trim keeps |
| TrimUtils.UpperTrimOverflows | NLPer/nlper/utils/trim_utils.py:84 | when the first sentence alone is over the threshold, the code keeps all sentences but the last, over the threshold; the corrected trim keeps nothing |
| TrimUtils.AboveLowerThresholdCountsWords | NLPer/nlper/utils/trim_utils.py:99-109 | the lower-threshold lambda holds exactly when the text has more words than the threshold, and a lower threshold keeps everything a higher one keeps |
| DataFrameUtils.Remaining | NLPer/nlper/utils/dataframe_utils.py:48 | the columns left by `drop` are exactly those not dropped |
| DataFrameUtils.DropColumns | NLPer/nlper/utils/dataframe_utils.py:35-48 | `KeyError` naming a missing column exactly when one is missing; otherwise every row keeps its label and its other cells, and loses the dropped ones |
| DataFrameUtils.DropColumnsWellFormed | NLPer/nlper/utils/dataframe_utils.py:35-48 | dropping keeps a frame well formed |
| DataFrameUtils.RemoveEmptyRows | NLPer/nlper/utils/dataframe_utils.py:50-62 | the column-by-column loop computes `EmptyRowsRemoved` |
| DataFrameUtils.NonEmptyRowsFromOkSelects | NLPer/nlper/utils/dataframe_utils.py:59-60 | when the loop over the rows succeeds, it has kept exactly the rows with a non-empty cell in every column, in their order |
| DataFrameUtils.NonEmptyFrameFromAgrees | NLPer/nlper/utils/dataframe_utils.py:59-60 | the loop on the frame gives the row loop's result, columns kept, while every pass starts with a row; once a pass starts without rows, it ends with neither rows nor columns or fails with `KeyError` for a later column |
| DataFrameUtils.RemoveEmptyRowsKeepsNonEmpty | NLPer/nlper/utils/dataframe_utils.py:50-62 | on success the rows are exactly those with no empty cell, in order, with the index reset; the columns are kept exactly when every pass starts with a row, and otherwise there are none; without `None` cells and with a row before every pass it succeeds |
| DataFrameUtils.RemoveEmptyRowsFails | NLPer/nlper/utils/dataframe_utils.py:59-60 | the only failures are `TypeError`, from `len(None)`, and `KeyError` for a column once a pass has started without rows |
| DataFrameUtils.RemoveEmptyRowsWithoutRows | NLPer/nlper/utils/dataframe_utils.py:59-61 | on a frame without rows, one column comes back as a frame without columns, and two or more raise `KeyError` for the second |
| DataFrameUtils.RemoveEmptyRowsNotIdempotent | NLPer/nlper/utils/dataframe_utils.py:59-61 | a two-column frame whose only row has an empty second cell comes back with no rows; removing again raises `KeyError` |
| DataFrameUtils.EmptyRowsRemovedKeepingColumns | NLPer/nlper/utils/dataframe_utils.py:50-62 | the corrected removal keeps the columns, and equals the code's result whenever every pass starts with a row |
| DataFrameUtils.EmptyRowsRemovedKeepingColumnsIdempotent | NLPer/nlper/utils/dataframe_utils.py:50-62 | the corrected removal, applied twice, is the same as once |
| Reducer.LabelZeroIsString | NLPer/nlper/dataframe_cleaner/reducer.py:132 | `column_data[0]` is a label lookup: `KeyError` when no row has label 0 |
| Reducer.UnifiedColumnShape | NLPer/nlper/dataframe_cleaner/reducer.py:121-134 | `KeyError` exactly when label 0 is missing; otherwise no cell is `None`, and either every filled cell is wrapped in a list or none is |
| Reducer.UnifiedColumnIdempotent | NLPer/nlper/dataframe_cleaner/reducer.py:121-134 | unifying a unified column changes nothing |
| Reducer.UnifiedTableFills | NLPer/nlper/dataframe_cleaner/reducer.py:95-100 | after unification no cell of any column is `None`; columns and labels are unchanged |
| Reducer.Reducer.UnifyDataframeContent | NLPer/nlper/dataframe_cleaner/reducer.py:95-100 | the loop over the columns computes `UnifiedTable` |
| Reducer.Members | NLPer/nlper/dataframe_cleaner/reducer.py:92 | `set(cell)` fails exactly on `None` |
| Reducer.Occurs | NLPer/nlper/dataframe_cleaner/reducer.py:115 | `in` on a list is list membership |
| Reducer.Flags | NLPer/nlper/dataframe_cleaner/reducer.py:112-116 | one flag per text fragment, set exactly when the fragment occurs in the lead |
| Reducer.TrueIndices | NLPer/nlper/dataframe_cleaner/reducer.py:112-116 | the flagged positions, strictly increasing and complete |
| Reducer.Unshared | NLPer/nlper/dataframe_cleaner/reducer.py:102-119 | the fragments of the text not in the lead, in order |
| Reducer.DeleteFlagged | NLPer/nlper/dataframe_cleaner/reducer.py:117-118 | deleting the flagged positions in reverse leaves exactly the unflagged fragments, in order |
| Reducer.WithoutIsUnshared | NLPer/nlper/dataframe_cleaner/reducer.py:112-118 | deleting what is flagged as in the lead is the same as keeping what is not in the lead |
| Reducer.LeadRemovedFromListText | NLPer/nlper/dataframe_cleaner/reducer.py:102-119 | for list cells, the new text is the text fragments absent from the lead |
| Reducer.RemoveLeadFromText | NLPer/nlper/dataframe_cleaner/reducer.py:102-119 | computes `LeadRemovedFromText` |
| Reducer.DuplicatesRemovedFromListRow | NLPer/nlper/dataframe_cleaner/reducer.py:91-93 | a row of hashable list cells has its text replaced by the unshared fragments and keeps everything else |
| Reducer.DuplicatesRemovedKeepsOthers | NLPer/nlper/dataframe_cleaner/reducer.py:87-93 | only the `text` column changes; labels and other cells are kept |
| Reducer.RemoveDuplicatesInRow | NLPer/nlper/dataframe_cleaner/reducer.py:91-93 | computes `DuplicatesRemovedFromRow` |
| Reducer.Reducer.RemoveDuplicatesInLeadAndTextColumns | NLPer/nlper/dataframe_cleaner/reducer.py:87-93 | the loop over the rows computes `DuplicatesRemoved` |
| Reducer.AddCells | NLPer/nlper/dataframe_cleaner/reducer.py:54 | `+` on two cells succeeds exactly for two lists or two strings |
| Reducer.AddColumns | NLPer/nlper/dataframe_cleaner/reducer.py:54 | series addition is cell-wise, and a `TypeError` in any cell fails it |
| Reducer.MergeStepOfLists | NLPer/nlper/dataframe_cleaner/reducer.py:40-55 | with list cells, the merged series is the previous lists followed by this column's lists |
| Reducer.Chosen | NLPer/nlper/dataframe_cleaner/reducer.py:67-68 | the frame's columns that are in the wanted list, in frame order |
| Reducer.MergedFromLists | NLPer/nlper/dataframe_cleaner/reducer.py:57-70 | the merge yields `None` exactly when nothing was chosen; otherwise each cell concatenates the chosen columns' lists in frame order |
| Reducer.MergedColumnOfLists | NLPer/nlper/dataframe_cleaner/reducer.py:57-70 | the same, starting from `merged = None` |
| Reducer.MergedFromNothing | NLPer/nlper/dataframe_cleaner/reducer.py:68 | an empty wanted list merges nothing |
| Reducer.Reducer.MergeColumnsAsTextOrSummary | NLPer/nlper/dataframe_cleaner/reducer.py:57-70 | the loop computes `MergedColumn` |
| Reducer.ConcatOutputColumns | NLPer/nlper/dataframe_cleaner/reducer.py:78 | `ValueError` exactly when both merged columns are `None`; otherwise only `text`/`summary` columns, present exactly when merged, `text` before `summary`, with the rows' labels |
| Reducer.MergedColumns | NLPer/nlper/dataframe_cleaner/reducer.py:72-78 | the merged frame keeps the row labels and has only output columns |
| Reducer.Reducer.MergeColumns | NLPer/nlper/dataframe_cleaner/reducer.py:72-78 | computes `MergedColumns` |
| Reducer.Reducer.OrganizeColumns | NLPer/nlper/dataframe_cleaner/reducer.py:80-85 | computes `Organized`: duplicate removal, then merging |
| Reducer.Reduced | NLPer/nlper/dataframe_cleaner/reducer.py:34 | without a `columns_to_skip` list, `drop(columns=None)` raises `ValueError` and nothing else runs |
| Reducer.ReducedShape | NLPer/nlper/dataframe_cleaner/reducer.py:27-38 | the organized frame has only output columns, at least one; the reduced frame keeps exactly its rows with no empty cell, in order, with the index reset, so no more rows than the input; it keeps the organized columns exactly when every pass of `remove_empty_rows` starts with a row, and has none otherwise |
| Reducer.Reducer.ReduceDataframe | NLPer/nlper/dataframe_cleaner/reducer.py:27-38 | the four steps in order compute `Reduced`, and `data` holds the result |
| Partitions.SplitInto | NLPer/nlper/dataframe_cleaner/cleaner.py:76 | `np.array_split` into `n` parts whose concatenation is the input |
| Partitions.ArraySplit | NLPer/nlper/dataframe_cleaner/cleaner.py:76 | `ValueError` exactly when the number of parts is not positive |
| Partitions.FirstPartSize | NLPer/nlper/dataframe_cleaner/cleaner.py:76 | the first part has the ceiling of `len / n` elements |
| Partitions.SingleProcessorSplitFails | NLPer/nlper/dataframe_cleaner/cleaner.py:34 | `cpu_count() // 2` is 0 on one processor, and splitting into 0 parts fails |
| Partitions.WorkerCount | NLPer/nlper/dataframe_cleaner/cleaner.py:34 | half the processors, at least one |
| Partitions.WorkerCountSplits | NLPer/nlper/dataframe_cleaner/cleaner.py:76-77 | with the corrected count, splitting never fails |
| ColumnMaps.MappedColumn | NLPer/nlper/dataframe_cleaner/cleaner.py:145-148 | mapping a column succeeds exactly when every cell maps, and holds each mapped cell |
| ColumnMaps.Realigned | NLPer/nlper/dataframe_cleaner/cleaner.py:103 | assigning a fresh `pd.Series` aligns it by label: a row whose label is not a position gets `NaN` |
| ColumnMaps.RealignedWhenReset | NLPer/nlper/dataframe_cleaner/cleaner.py:103 | with a reset index, alignment by label is alignment by position |
| ColumnMaps.MappedRowCells | NLPer/nlper/dataframe_cleaner/cleaner.py:91-96 | a row maps exactly when each of its cells does; each column holds its mapped cell, and other cells and the label are kept |
| ColumnMaps.MappedByRows | NLPer/nlper/dataframe_cleaner/cleaner.py:91-96 | mapping column by column is mapping row by row |
| ColumnMaps.ByLabelWhenReset | NLPer/nlper/dataframe_cleaner/cleaner.py:98-103 | on a reset index, storing by label equals storing by position |
| ColumnMaps.MapColumns | NLPer/nlper/dataframe_cleaner/cleaner.py:98-103 | the loop over the columns computes `MappedTable` |
| ColumnMaps.MapSplit | NLPer/nlper/dataframe_cleaner/cleaner.py:69-80 | mapping each part and concatenating computes `SplitMapped` |
| ColumnMaps.SplitMappedIsMapped | NLPer/nlper/dataframe_cleaner/cleaner.py:69-80 | with at least one worker, splitting, mapping each part and concatenating gives the same frame as mapping the whole |
| ColumnMaps.MappedTableCells | NLPer/nlper/dataframe_cleaner/cleaner.py:98-103 | each cell of the result is the map of the same cell of the input |
| ColumnMaps.MappedTableChecked | NLPer/nlper/dataframe_cleaner/trimmer.py:85 | a column whose configuration lookup fails fails the whole map |
| ColumnMaps.CellsMappedThen | NLPer/nlper/dataframe_cleaner/cleaner.py:44-49 | two cell-wise passes in a row are one pass of the composed map |
| Cleaner.CleanCellGivesText | NLPer/nlper/dataframe_cleaner/cleaner.py:37-50 | every cleaned cell is a string |
| Cleaner.ListsConvertedCells | NLPer/nlper/dataframe_cleaner/cleaner.py:52-60 | each cell becomes the text of its list |
| Cleaner.StrippedCells | NLPer/nlper/dataframe_cleaner/cleaner.py:44-45 | conversion then character removal acts cell by cell |
| Cleaner.FinishedCells | NLPer/nlper/dataframe_cleaner/cleaner.py:46-49 | the optional number hiding and lemmatization act cell by cell |
| Cleaner.CleanedCellByCell | NLPer/nlper/dataframe_cleaner/cleaner.py:37-50 | cleaning a frame is cleaning each cell with the configured steps, in order |
| Cleaner.CleanedInSteps | NLPer/nlper/dataframe_cleaner/cleaner.py:37-50 | cleaning is the two leading steps followed by the configured ones |
| CleanUtils.HideNumbersKeepsPlainWord | NLPer/nlper/utils/clean_utils.py:69-71 | a word without digits or whitespace passes `hide_numbers` unchanged |
| CleanUtils.HideNumbersOfMissing | NLPer/nlper/utils/clean_utils.py:69-71 | `hide_numbers(NaN)` reads `str(NaN)` and gives the text `nan` |
| Cleaner.HideNumbersCell | NLPer/nlper/utils/clean_utils.py:69-71 | hiding numbers in a cell never fails and gives a string: the hidden text of a string, and `nan` for a missing value |
| Cleaner.NumbersHiddenSucceeds | NLPer/nlper/dataframe_cleaner/cleaner.py:62-67 | the frame-wide `hide_numbers` never fails, whatever the cells and labels |
| Cleaner.CleanedWithoutLemmatizing | NLPer/nlper/dataframe_cleaner/cleaner.py:37-50 | without lemmatization, cleaning fails exactly when list conversion or character removal does |
| Cleaner.OneCellByPosition | NLPer/nlper/dataframe_cleaner/cleaner.py:56-60 | storing a list by position puts each cell's image in its row, whatever the label |
| Cleaner.OneCellRelabelled | NLPer/nlper/dataframe_cleaner/cleaner.py:98-103 | storing a new `pd.Series` by label leaves a row whose label is not a position without its value |
| Cleaner.CleanedRelabelledRow | NLPer/nlper/dataframe_cleaner/cleaner.py:44-47 | a one-row frame whose label is not 0 is cleaned, and storing by label leaves its cell missing |
| Cleaner.CleanedKeepsShape | NLPer/nlper/dataframe_cleaner/cleaner.py:37-50 | a cleaned frame has the same columns and labels |
| Cleaner.CleanedOnOneProcessorAsWritten | NLPer/nlper/dataframe_cleaner/cleaner.py:34 | with the count as written, lemmatizing fails on one processor |
| Cleaner.Cleaner.constructor | NLPer/nlper/dataframe_cleaner/cleaner.py:30-35 | keeps the configuration and data, and takes the corrected worker count |
| Cleaner.Cleaner.ConvertListToTextInDataframe | NLPer/nlper/dataframe_cleaner/cleaner.py:52-60 | `data` becomes `ListsConverted` of the old data, or the error is reported |
| Cleaner.Cleaner.RemoveCharactersForDataframe | NLPer/nlper/dataframe_cleaner/cleaner.py:98-103 | `data` becomes `CharactersRemoved` of the old data |
| Cleaner.Cleaner.HideNumbersInDataframe | NLPer/nlper/dataframe_cleaner/cleaner.py:62-67 | `data` becomes `NumbersHidden` of the old data |
| Cleaner.Cleaner.LemmatizeText | NLPer/nlper/dataframe_cleaner/cleaner.py:69-80 | `data` becomes `Lemmatized` of the old data, split into `n_cores` parts |
| Cleaner.Cleaner.CleanDataframe | NLPer/nlper/dataframe_cleaner/cleaner.py:37-50 | returns `Cleaned` of the old data and stores it |
| Trimmer.AboveRowsFromSelects | NLPer/nlper/dataframe_cleaner/trimmer.py:46-58 | when every limit is configured and every cell is text, the loop keeps exactly the rows over every column's limit; a missing limit fails it |
| Trimmer.AboveRowsFromOkSelects | NLPer/nlper/dataframe_cleaner/trimmer.py:53-57 | when the loop over the rows succeeds, every column has its limit and exactly the rows over every limit are kept, in order |
| Trimmer.AboveFrameFromAgrees | NLPer/nlper/dataframe_cleaner/trimmer.py:53-57 | the loop on `data` gives the row loop's result, columns kept, while every pass starts with a row; once a pass starts without rows, it ends with neither rows nor columns or fails with `KeyError` |
| Trimmer.BelowLowerRemovedKeepsAbove | NLPer/nlper/dataframe_cleaner/trimmer.py:46-58 | on success the rows are exactly those over every limit, in order, with the index reset; the columns are kept exactly when every pass starts with a row; a missing limit fails it; with every limit, only text and a row before every pass it succeeds; the other failures are `AttributeError` and `KeyError` for a column of an emptied frame |
| Trimmer.BelowLowerRemovedShape | NLPer/nlper/dataframe_cleaner/trimmer.py:46-58 | columns kept or none left, index reset, no more rows, every remaining row over its limits |
| Trimmer.LowerLimitsMonotone | NLPer/nlper/dataframe_cleaner/trimmer.py:46-58 | higher lower limits never keep more rows; with a row before every pass each set of limits succeeds |
| Trimmer.TrimCellKeepsSentencePrefix | NLPer/nlper/dataframe_cleaner/trimmer.py:90-101 | a trimmed cell keeps all its sentences when the text fits; one fewer than the longest fitting run when only the first sentences fit; all but the last when the first sentence alone is too long |
| Trimmer.UpperTrimmedCellByCell | NLPer/nlper/dataframe_cleaner/trimmer.py:60-88 | a missing upper limit fails the pass; otherwise every cell is trimmed on its own |
| Trimmer.TrimmedShape | NLPer/nlper/dataframe_cleaner/trimmer.py:35-44 | the trimmed frame keeps the columns exactly when every lower pass starts with a row, has no more rows and a reset index, and every cell is the trim of the lower pass's cell |
| Trimmer.TrimmedOnOneProcessorAsWritten | NLPer/nlper/dataframe_cleaner/trimmer.py:32 | with the count as written, trimming fails on one processor |
| Trimmer.Trimmer.constructor | NLPer/nlper/dataframe_cleaner/trimmer.py:28-33 | keeps the limits and data, and takes the corrected worker count |
| Trimmer.Trimmer.RemoveBelowLowerLengthLimit | NLPer/nlper/dataframe_cleaner/trimmer.py:46-58 | the loop over the columns makes `data` `BelowLowerRemoved` of the old data |
| Trimmer.Trimmer.TrimToUpperLengthLimit | NLPer/nlper/dataframe_cleaner/trimmer.py:60-71 | `data` becomes `UpperTrimmed` of the old data |
| Trimmer.Trimmer.TrimDataframe | NLPer/nlper/dataframe_cleaner/trimmer.py:35-44 | returns `Trimmed` of the old data and stores it |
| FileTypeResolver.FirstMatch | NLPer/nlper/file_io/file_type_resolver.py:16-21 | the first member whose name ends the extension; `UnsupportedFileTypeException` exactly when none does |
| FileTypeResolver.NamesSuffixFree | NLPer/nlper/file_io/file_type_resolver.py:11-14 | no member's name ends another's |
| FileTypeResolver.AtMostOneMatch | NLPer/nlper/file_io/file_type_resolver.py:16-21 | at most one member matches any extension, so the enumeration order is irrelevant |
| FileTypeResolver.ResolveBySuffix | NLPer/nlper/file_io/file_type_resolver.py:16-21 | resolution returns a type exactly when the extension ends with its name, and fails exactly when no name matches |
| FileTypeResolver.JsonLinesUnsupported | NLPer/nlper/file_io/file_type_resolver.py:16-21 | `jsonl` has no reader |
| FileTypeResolver.XhtmlIsHtml | NLPer/nlper/file_io/file_type_resolver.py:16-21 | `xhtml` resolves to the HTML reader, by suffix |
| DataFrameReader.AllowedFiles | NLPer/nlper/file_io/dataframe_reader.py:33-46 | the listed files ending with an allowed extension, and only those |
| DataFrameReader.AllowedFilesAppend | NLPer/nlper/file_io/dataframe_reader.py:43-46 | filtering keeps the listing order |
| DataFrameReader.Basename | NLPer/nlper/file_io/dataframe_reader.py:56 | `os.path.basename`: the part after the last `/` |
| DataFrameReader.BeforeFirstDot | NLPer/nlper/file_io/dataframe_reader.py:56 | `split('.')[0]`: the prefix before the first dot |
| DataFrameReader.FileName | NLPer/nlper/file_io/dataframe_reader.py:48-58 | a file's name is a dot-free, slash-free prefix of its basename, ending at a dot |
| DataFrameReader.FileNames | NLPer/nlper/file_io/dataframe_reader.py:48-58 | one name per path, in order |
| DataFrameReader.FileNameOf | NLPer/nlper/file_io/dataframe_reader.py:48-58 | a path `dir/stem.ext` has the name `stem` |
| DataFrameReader.SameNameForBothExtensions | NLPer/tests/unit/test_file_io/test_dataframe_reader.py:15-26 | `.jsonl` and `.jl` files with the same stem get the same name |
| DataFrameReader.RStrip | NLPer/nlper/file_io/dataframe_reader.py:89 | `rstrip` removes the longest suffix of the given characters |
| DataFrameReader.RStripIdempotent | NLPer/nlper/file_io/dataframe_reader.py:89 | stripping twice is stripping once |
| DataFrameReader.ParsedLines | NLPer/nlper/file_io/dataframe_reader.py:76-90 | succeeds exactly when every stripped line parses, holding the parsed lines in order; a failure is some line's error |
| DataFrameReader.ReadJsonLinesFile | NLPer/nlper/file_io/dataframe_reader.py:76-90 | the loop over the lines computes `ParsedLines` |
| DataFrameReader.ReadFiles | NLPer/nlper/file_io/dataframe_reader.py:71-74 | one parsed list per path, failing exactly when a file fails |
| DataFrameReader.ReadJsonLinesFilesByName | NLPer/nlper/file_io/dataframe_reader.py:60-74 | the dictionary's keys are distinct and are exactly the file names; each name maps to the last file bearing it |
| DataFrameReader.FileReader.constructor | NLPer/nlper/file_io/dataframe_reader.py:27-31 | keeps the allowed files and their names |
| DataFrameReader.FileReader.ReadJsonLinesFilesOf | NLPer/nlper/file_io/dataframe_reader.py:60-74 | computes `ReadJsonLinesFiles`, keyed by `file_names` |
| Dicts.Lookup | NLPer/nlper/file_io/dataframe_reader.py:71-74 | `d[k]`: absent exactly when the key is not a key; with distinct keys, the value stored under it |
| Dicts.InsertKeys | NLPer/nlper/file_io/dataframe_reader.py:71-74 | `d[k] = v` keeps the keys distinct, adds `k`, maps `k` to `v` and changes no other key |
| Dicts.FromPairsLastWins | NLPer/nlper/file_io/dataframe_reader.py:71-74 | `dict(zip(keys, values))`: distinct keys, exactly the given ones, each mapped to its last value |
| DataFrameWriter.PathJoin | NLPer/nlper/file_io/dataframe_writer.py:43 | `os.path.join`: an absolute name wins, otherwise the name ends the path |
| DataFrameWriter.OutputPath | NLPer/nlper/file_io/dataframe_writer.py:42-49 | `.pkl` for pickle, `.csv` for CSV, and `UnsupportedFileTypeException` exactly for any other type |
| DataFrameWriter.KeyedWrites | NLPer/nlper/file_io/dataframe_writer.py:67-69 | fails exactly when there is a key and the type is unsupported |
| DataFrameWriter.Tagged | NLPer/nlper/file_io/dataframe_writer.py:109-110 | the copy gains a `site` column and keeps every row |
| DataFrameWriter.TaggedRow | NLPer/nlper/file_io/dataframe_writer.py:109-110 | each row's `site` is the key, and its other cells are unchanged |
| DataFrameWriter.Union | NLPer/nlper/file_io/dataframe_writer.py:112 | `pd.concat` column order: earlier columns first, then new ones |
| DataFrameWriter.UnionColumns | NLPer/nlper/file_io/dataframe_writer.py:112 | the concatenated columns are those of some input |
| DataFrameWriter.ConcatRowAt | NLPer/nlper/file_io/dataframe_writer.py:112 | row `i` of frame `j` sits at `Offset(j) + i` of the concatenation, with the same cells |
| DataFrameWriter.MergedShape | NLPer/nlper/file_io/dataframe_writer.py:100-112 | fails exactly on an empty dictionary; otherwise holds all rows, has a reset index and every column plus `site` |
| DataFrameWriter.MergedRowAt | NLPer/tests/unit/test_file_io/test_dataframe_writer.py:124-138 | each entry's rows appear in key order, tagged with the key and otherwise unchanged |
| DataFrameWriter.MergedSaveWritesOne | NLPer/tests/unit/test_file_io/test_dataframe_writer.py:93-111 | a merged save writes one file, `name.<ext>`, holding the merged frame |
| DataFrameWriter.KeyedSaveWritesEach | NLPer/tests/unit/test_file_io/test_dataframe_writer.py:58-81 | a keyed save writes `name_<key>.<ext>` for each key in order, each holding its frame, and reports the last path |
| DataFrameWriter.UnsupportedTypeFails | NLPer/nlper/file_io/dataframe_writer.py:48-49 | saving a frame or a non-empty dictionary with an unsupported type fails |
| DataFrameWriter.FileWriter.constructor | NLPer/nlper/file_io/dataframe_writer.py:22-30 | keeps the path and type; no data, no saving path, nothing written |
| DataFrameWriter.FileWriter.ResolveOutputFormatTypeAndSave | NLPer/nlper/file_io/dataframe_writer.py:32-49 | on success records the path and the write; on failure changes nothing |
| DataFrameWriter.FileWriter.SaveDataframe | NLPer/nlper/file_io/dataframe_writer.py:51-58 | writes `data` under `name` |
| DataFrameWriter.FileWriter.SaveDataframes | NLPer/nlper/file_io/dataframe_writer.py:60-69 | the loop appends `KeyedWrites` and leaves the last path |
| DataFrameWriter.FileWriter.MergeDataframes | NLPer/nlper/file_io/dataframe_writer.py:100-112 | the loop computes `Merged` |
| DataFrameWriter.FileWriter.SaveFile | NLPer/nlper/file_io/dataframe_writer.py:71-98 | sets the type, dispatches on a dictionary or a frame, appends exactly the `Saved` writes and returns the last saving path |

## Left out

- Lemmatization, sentence segmentation (spaCy) and HTML stripping (BeautifulSoup) are function parameters. `get_language_model` and `LangUtils` are not part of this model.
- Files are not opened, globbed or decoded. The directory listing, each file's lines and `json.loads` are parameters. `pd.DataFrame(records)` is not modelled: the reader yields each file's parsed records.
- The `PROJECT_BASE_PATH` prefix and `os.path.normpath` in `_get_files` are not modelled. Paths arrive already listed.
- The pickle and CSV writers are not modelled. The files written are recorded as (path, payload) pairs.
- `multiprocessing.Pool` runs the parts sequentially. If several parts fail, the first part's error is the one reported.
- Logging, `tqdm` progress and `@timeit` are not modelled.
- What is left in `data` after an operation raises is not modelled. The methods promise nothing about `data` on failure.
- A missing configuration key other than the per-column length limits is not modelled. The configurations are records.
- An empty list of columns to merge stands for both `None` and `[]`, since the code only tests those lists for truthiness. An empty `output_type` string stands for `None`. The list of columns to skip is an `Option`, because `drop(columns=None)` raises `ValueError`.
- DataFrameUtils.DropColumns: when several listed columns are missing, it promises a `KeyError` naming one of them, not the list pandas reports.
- `NaN` as a list element compares equal to itself in the model, whereas pandas' `NaN != NaN`.
- CleanUtils.ConvertListToText: a `NaN` list item is treated like `None` and dropped, as `Null` is not truthy. Python counts `NaN` as truthy, so `filter(None, ...)` keeps it and `" ".join` raises `TypeError`.
- Reducer.ReducedShape: does not promise that the reduced frame has a column. When a pass of `remove_empty_rows` starts on a frame without rows, pandas drops every column.
- Trimmer.LowerLimitsMonotone: promises success only when every lower pass starts with a row left. Otherwise a pass can drop the columns, and the next one raises `KeyError`.
- DataFrameWriter.FileWriter.SaveDataframes: requires the data to be a dictionary, as `save_file` guarantees when it calls it.
- `remove_hmtl_elements` (sic) on a cell that is not a string is modelled as `TypeError`.
- `str` of a list cell: the `repr` of a string inside the list is the text between single quotes, without Python's escaping or its switch to double quotes; a missing list item prints as `nan`, not `None`.
- Integers are unbounded. Lengths and thresholds never approach a machine limit here.

## Findings

| source | as written | input that shows it | evidently intended | confidence | as-written member | corrected member |
|---|---|---|---|---|---|---|
| NLPer/nlper/dataframe_cleaner/cleaner.py:34 | `n_cores = cpu_count() // 2`, also at trimmer.py:32 | a machine with one processor: `n_cores == 0`, so `np.array_split(data, 0)` raises `ValueError` and lemmatizing or trimming fails | at least one worker: `max(1, cpu_count() // 2)` | not executed | Partitions.SingleProcessorSplitFails | Partitions.WorkerCountSplits |
| NLPer/nlper/utils/trim_utils.py:84 | `list(...).index(True) - 1` as the end of the kept slice | sentences of 1, 1 and 20 tokens under a threshold of 10: one sentence is kept, though the first two (2 tokens) fit | keep the longest prefix that fits, as the docstring at trim_utils.py:40-42 says | not executed | TrimUtils.UpperTrimWhenFirstSentenceFits | TrimUtils.TrimToUpperThreshold |
| NLPer/nlper/utils/trim_utils.py:84 | the index is -1 when the first sentence alone is over the threshold, and `sentences[:-1]` keeps all but the last | sentences of 20, 1 and 1 tokens under a threshold of 10: the kept text has 21 tokens | keep nothing, so that the text does not exceed the threshold | not executed | TrimUtils.UpperTrimCanExceedThreshold | TrimUtils.TrimToUpperThreshold |
| NLPer/nlper/utils/dataframe_utils.py:59-60 | `dataframe = dataframe[dataframe[column].map(...)]` once per column, also at trimmer.py:53-57; on a frame without rows the mapped series is empty and pandas reads it as column labels | columns `a`, `b` and one row with `a` = "x", `b` = "": the first call leaves both columns and no rows, and a second call loses the columns at `a` and raises `KeyError` at `b` | rows with an empty cell go and the columns stay, so removing twice is removing once | not executed; rests on pandas reading an empty object series as a list of labels | DataFrameUtils.RemoveEmptyRowsNotIdempotent | DataFrameUtils.EmptyRowsRemovedKeepingColumnsIdempotent |
