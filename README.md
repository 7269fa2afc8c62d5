# wide2long core, modelled in Dafny

wide2long turns a "wide" table into a "long" one. In the wide table, one row per subject (school, person, …) carries many measurement columns. In the long table there is one row per subject and *element*, and one column per *variable*. The user selects columns through a mapping: each wide column (`source_col`) is assigned a pair `(element_id, variable_col)`.

This project models three parts of `wide2long/core.py`:

- **the mapping loader** (`load_mapping`, `_is_block_style_named`, `_is_key_value_style`, `_check_row_keys`), in `normalize.dfy`. It turns a CSV file, a named-block JSON object or a key-value JSON object into a list of single-entry selections. Every field is passed through `str(...)` and `.strip()`.
- **the merge** (`convert`, lines 36-52), in `merge.dfy`. It folds the selections into one insertion-ordered dictionary `colmap`, and rejects an empty mapping in both modes. In validated mode it also:
  - rejects a column mapped to two different targets;
  - rejects a mapped column or an id column that the frame lacks.
- **the reshape** (`convert`, lines 55-82), in `reshape.dfy`:
  1. rename each mapped column to a tag;
  2. `melt` the tagged columns;
  3. split the tags back into element and variable;
  4. `pivot_table(..., aggfunc="first")`;
  5. `reset_index()`.

`convert.dfy` puts these stages together as `convert` does. `text.dfy` holds the Python string operations that the loader relies on:

- `str.strip`;
- lower-casing;
- `Path.suffix`;
- `str` of an integer.

`helper_tag.dfy` models the string form of the tags. See the finding below.

Modelling choices:

- **Values.** The Python values become datatypes:
  - a cell is `Option<Value>`, where `None` is pandas' missing value;
  - a frame is a list of column labels plus rows mapping labels to cells;
  - the merged dictionary `ColMap` keeps its keys in insertion order, because a Python `dict` does.
- **Error paths.** Each place the source raises becomes a `Result` error. The constructor names the exception's cause. Examples:
  - `Conflict(column, previous, incoming)`;
  - `MissingColumns(columns)`;
  - `MissingIdColumn(column)`;
  - `FrameKeyError`, for the `KeyError` that `melt` raises when a label it needs is not a column, and for the `KeyError` that `pivot_table` raises on a frame without rows (the empty tag column splits into no "element" column);
  - `NameClash(name)`, for the `ValueError` that `melt`, `pivot_table` or `reset_index` raises when a label it must create is already taken: an unmapped column "value", an id column "element", or a variable named "element" or like an id column;
  - `UnrecognizedJson`.
- **Loops.** The loops of the source are methods with loop invariants. Each is proved against a specification function:
  - `Merging.Merge` and `Merging.MergeSelection` against `Merged`;
  - `Merging.CheckColumns` against `ColumnCheck`;
  - `Normalize.LoadBlocks`, `Normalize.AppendRows` and `Normalize.LoadKeyValue` against the selection functions;
  - `Convert.Convert` against `ConvertSpec`.
- **Reshape.** The pandas calls are functions on values:
  - `TaggedColumns` is what `melt` unpivots: the frame's columns that `colmap` maps, in frame order. `rename` skips a mapped column the frame lacks, so such a column is harmless when another frame column carries the same tag;
  - `Melt` lists the melted rows column by column in that order, each column row by row;
  - `FirstValue` is `aggfunc="first"`;
  - `Pivot` builds one output row per `(id tuple, element)` group that has a value, and one column per variable that has a value.

  `RowFirst` and `ColumnFirst` are an independent reference definition stated on the input frame: a cell is the first non-missing value, taking the mapped frame columns in frame order and then rows in order. `Reshaping.MeltFirst` connects the two definitions.

## Model

| member | source | states |
|---|---|---|
| Merging.Merge | wide2long/core.py:36-41 | the nested merge loop returns exactly the result of folding the flattened associations in order |
| Merging.MergeSelection | wide2long/core.py:38-41 | the inner loop over one selection extends the merge of the associations seen so far by that selection, stopping at the first conflict |
| Merging.Put | wide2long/core.py:41 | `colmap[k] = v` maps k to v, leaves every other key and value as it was, keeps earlier keys in their positions, and keeps the dictionary well formed |
| Merging.MergedValid | wide2long/core.py:36-41 | a successful merge is a well-formed ordered dictionary (no duplicate keys, order and table agree) |
| Merging.SourcesMember | wide2long/core.py:38 | a column is among the sources exactly when some association names it |
| Merging.MergedKeys | wide2long/core.py:36-41 | the merged keys are exactly the source columns of the associations |
| Merging.MergedOrder | wide2long/core.py:36-41 | the merged key order is the sources with duplicates removed, in first-seen order (overwriting does not move a key) |
| Merging.MergedValuesFromInput | wide2long/core.py:41 | every merged value is the target of some association for that column |
| Merging.MergedErrIsConflict | wide2long/core.py:39-40 | a merge fails only in validated mode, with a conflict error naming a column, and two earlier/later associations for it with the two reported, different targets |
| Merging.MergedErrPersists | wide2long/core.py:39-40 | once the merge has raised, later associations do not change the outcome |
| Merging.UnvalidatedLastWriteWins | wide2long/core.py:39-41 | without validation the merge never fails, and each column holds the target of its last association |
| Merging.ValidatedRespectsAll | wide2long/core.py:39-41 | a successful validated merge agrees with every association it was given |
| Merging.ValidatedFailsIffConflict | wide2long/core.py:39-40 | validated mode fails exactly when some column is mapped to two different targets |
| Merging.MergedEmptyIff | wide2long/core.py:42-43 | the merged dictionary is empty exactly when no association was supplied |
| Merging.FlattenAppend | wide2long/core.py:37-38 | visiting two lists of selections in turn visits the entries of the first, then those of the second |
| Merging.AbsentFrom | wide2long/core.py:47 | the list comprehension contains exactly the mapped columns the frame lacks |
| Merging.AbsentFromNoDups | wide2long/core.py:47 | the comprehension over a dictionary lists each absent mapped column once |
| Merging.MissingMapped | wide2long/core.py:47 | the comprehension, written as a loop, yields the absent mapped columns in `colmap` order |
| Merging.FirstAbsent | wide2long/core.py:50-52 | no id column is reported exactly when every id column is in the frame |
| Merging.FirstAbsentIsFirst | wide2long/core.py:50-52 | the reported id column is absent from the frame, and every id column before it is present |
| Merging.FirstMissingId | wide2long/core.py:50-52 | the loop over the id columns stops at the first one the frame lacks |
| Merging.CheckColumns | wide2long/core.py:46-52 | the sanity checks report the missing mapped columns first, then the first missing id column, and nothing when both pass |
| Merging.ColumnCheckMeaning | wide2long/core.py:46-52 | the checks pass exactly when every mapped column and every id column is in the frame; a missing-columns error lists exactly the absent mapped columns; a missing-id error names an absent id column and is raised only when no mapped column is absent |
| Convert.Convert | wide2long/core.py:15-84 | `convert` returns the reshaped table or raises exactly as `Convert.ConvertSpec` says: a merge conflict, then an empty mapping, then (validated) the sanity checks, then the `melt` errors, the `pivot_table` KeyError on a frame without rows, the `pivot_table` clash and the `reset_index` clash |
| Convert.ConvertEmptyFails | wide2long/core.py:42-43 | `convert` raises "No columns were selected" exactly when the selections hold no entry, in both modes |
| Convert.UnvalidatedErrors | wide2long/core.py:39 | without validation `convert` can raise only the empty-mapping error, the `melt` KeyError or a name clash, never a conflict or a sanity-check error |
| Convert.ValidatedConflict | wide2long/core.py:39-40 | with validation, conflicting associations make `convert` raise a conflict error whose column was mapped, earlier and later, to the two different targets it reports |
| Convert.ValidatedMissingColumns | wide2long/core.py:47-49 | with validation and no conflict, a mapped column the frame lacks makes `convert` raise one error listing exactly the absent mapped columns, each once |
| Convert.ValidatedSucceedsIff | wide2long/core.py:36-84 | with validation, `convert` succeeds exactly when there is no conflict, something is mapped, the frame has a row, every mapped column and id column is in the frame, no id column is itself mapped, a frame column "value" is mapped, no id column is "element", and no variable that receives a value is named "element" or like an id column |
| Convert.ConvertOk | wide2long/core.py:55-84 | a successful `convert` returns the reshape of the frame by the merged dictionary, which is well formed |
| Convert.AbsentColumnSharingTag | wide2long/core.py:36-82 | without validation, adding a selection for a column that is not in the frame, not an id column and not yet mapped leaves `convert`'s result unchanged when a frame column already carries the same pair: `rename` skips the column and `melt` still finds the tag |
| Convert.MeltFailsIgnoresAbsent | wide2long/core.py:56-64 | an extra dictionary entry for a label that is neither a frame column nor an id column, whose pair a frame column already carries, does not change whether `melt` finds all its labels |
| Convert.ReshapedIgnoresAbsent | wide2long/core.py:55-82 | such an extra entry leaves the whole reshape stage's outcome unchanged |
| Convert.NoRowsFails | wide2long/core.py:67-80 | a frame with columns but no rows never converts, in either mode |
| Convert.Reshaped | wide2long/core.py:55-82 | the reshape stage raises only a `KeyError` (from `melt`, or from `pivot_table` on a frame without rows) or a name clash, and on success returns the reshape; `Convert.CheckedReshaped` says exactly when it succeeds |
| Convert.MeltFails | wide2long/core.py:56-64 | `melt` raises a KeyError when an id column is absent or itself renamed to a tag, or a tag in `value_vars` is carried by no frame column; `Convert.CheckedMeltFails` states what this means once the validated checks pass |
| Convert.ResetClash | wide2long/core.py:81 | `reset_index` raises at "element" or the last id column that is already a variable column; `Convert.ResetClashMeaning` states exactly when it raises and which label it reports |
| Convert.LastIdVariable | wide2long/core.py:81 | the reported id column is a variable column and no id column after it is one, so it is the last such column; none is reported exactly when no id column is a variable |
| Convert.ResetClashMeaning | wide2long/core.py:81 | `reset_index` succeeds exactly when neither "element" nor any id column is a variable column, and a reported clash is one of those labels: "element" whenever "element" is a variable column, and otherwise the last id column that is a variable column |
| Convert.CheckedMeltFails | wide2long/core.py:46-64 | once the validated checks pass, `melt` fails exactly when an id column is itself mapped |
| Convert.VariablesFromAssociations | wide2long/core.py:36-82 | after a successful validated merge of frame columns, the variable columns are exactly the variables of associations whose column holds a value in a row with a complete id tuple |
| Convert.CheckedResetClash | wide2long/core.py:36-82 | after a successful validated merge of frame columns, `reset_index` succeeds exactly when no variable that receives a value is named "element" or like an id column |
| Convert.ColumnCheckInFrame | wide2long/core.py:46-52 | after a successful validated merge, the sanity checks pass exactly when every associated column and every id column is in the frame |
| Convert.CheckedReshaped | wide2long/core.py:55-82 | once the validated checks pass, the reshape stage succeeds exactly when the frame has a row, no id column is mapped, a frame column "value" is mapped, no id column is "element", and no variable that receives a value is named "element" or like an id column |
| Reshaping.IdTuple | wide2long/core.py:60 | a melted row carries one id cell per id column |
| Reshaping.MeltColumn | wide2long/core.py:59-64 | melting one tagged column yields one row per input row |
| Reshaping.MeltColumnMember | wide2long/core.py:59-64 | a melted row of a column is some input row's id tuple, the column's pair and that row's cell |
| Reshaping.MeltMember | wide2long/core.py:59-64 | the melted frame holds exactly one row per listed source column and input row, carrying the id tuple, the column's (element, variable) and the cell |
| Reshaping.TaggedColumns | wide2long/core.py:56-64 | the columns `melt` unpivots are exactly the frame's columns that `colmap` maps |
| Reshaping.MeltedFromColumn | wide2long/core.py:59-64 | each mapped frame column melts each input row |
| Reshaping.MeltedColumnOf | wide2long/core.py:59-64 | each melted row comes from a mapped frame column and an input row |
| Reshaping.ContributionMelted | wide2long/core.py:59-80 | the melted row of an input row with a complete id tuple and a value in a mapped column is usable |
| Reshaping.MeltedContribution | wide2long/core.py:59-80 | a usable melted row comes from such a contributing input row |
| Reshaping.FirstValueAppend | wide2long/core.py:80 | the first value of a group in a concatenation comes from the first part when that part has one |
| Reshaping.FirstValueMeaning | wide2long/core.py:80 | `aggfunc="first"` gives a value exactly when some usable melted row belongs to the group, and the value is that of the earliest such row |
| Reshaping.MeltColumnFirst | wide2long/core.py:59-80 | within one melted column the group's first value is the reference first value of that column for the id tuple |
| Reshaping.MeltFirst | wide2long/core.py:59-80 | `first` over the melted frame equals the reference definition: the first non-missing value taking the melted columns in order, then rows in order |
| Reshaping.RowFirstMeaning | wide2long/core.py:76-80 | a column's first value for an id tuple is present exactly when some row with that complete id tuple has a value there, and it is the earliest such row's value |
| Reshaping.ColumnFirstMeaning | wide2long/core.py:76-80 | a cell is present exactly when some listed source column mapped to its pair has a value for the id tuple, and it comes from the first such column |
| Reshaping.CellUniqueSource | wide2long/core.py:55-80 | when exactly one listed source column is mapped to a pair, the cell is that column's first value |
| Reshaping.CellUniqueRow | wide2long/core.py:76-80 | when exactly one input row has an id tuple, a column's first value for it is that row's cell |
| Reshaping.CellMissingWhenUnmapped | wide2long/core.py:55-80 | a pair to which no column is mapped gives a missing cell everywhere |
| Reshaping.GroupKeysMember | wide2long/core.py:78 | the pivot's index keys are exactly the (id tuple, element) pairs of usable melted rows |
| Reshaping.GroupVariablesMember | wide2long/core.py:79 | the pivot's column keys are exactly the variables of usable melted rows |
| Reshaping.UsefulMelted | wide2long/core.py:59-80 | a usable melted row is exactly an input row contributing a value through a mapped column of the frame |
| Reshaping.PivotRows | wide2long/core.py:76-82 | the pivot has one row per (id tuple, element) key, no key twice, and a row exactly when a usable melted row has that key |
| Reshaping.ContributionGivesRow | wide2long/core.py:55-82 | an input row contributing through a mapped column yields an output row for its id tuple and that column's element |
| Reshaping.RowHasContribution | wide2long/core.py:55-82 | every output row comes from an input row contributing through a mapped column |
| Reshaping.ReshapeRow | wide2long/core.py:55-82 | the output has a row for (id tuple, element) exactly when some input row with that complete id tuple has a value in a column mapped to that element |
| Reshaping.Reshape | wide2long/core.py:55-82 | rename, melt, split and `pivot_table(aggfunc="first")`; its rows, columns and cells are stated by `Reshaping.ReshapeRows`, `Reshaping.ReshapeColumns` and `Reshaping.ReshapeCells` |
| Reshaping.TaggedColumnsIgnoreAbsent | wide2long/core.py:56 | a dictionary entry for a label that is not a frame column does not change which columns are melted |
| Reshaping.MeltIgnoresUnlisted | wide2long/core.py:59-64 | melting reads the dictionary only at the melted columns |
| Reshaping.ReshapeIgnoresAbsent | wide2long/core.py:55-82 | a dictionary entry for a label that is not a frame column does not change the reshape |
| Reshaping.ReshapeRows | wide2long/core.py:76-82 | the output rows are duplicate-free and correspond exactly to the contributing (id tuple, element) pairs |
| Reshaping.PivotVariables | wide2long/core.py:79-82 | the pivot's columns are the id columns, `element`, then each variable of a usable melted row once |
| Reshaping.ContributionGivesVariable | wide2long/core.py:55-82 | a contributing column's variable becomes an output column |
| Reshaping.VariableHasContribution | wide2long/core.py:55-82 | every variable column comes from a contributing input row |
| Reshaping.ReshapeColumns | wide2long/core.py:76-82 | the output columns are the id columns, then `element`, then each variable once, exactly the variables of columns that contribute a value |
| Reshaping.ReshapeCells | wide2long/core.py:76-82 | every output row has a cell for each variable column and no other, equal to the reference first value for its id tuple and (element, variable), mapped frame columns taken in frame order |
| Reshaping.CompleteInputVariables | wide2long/core.py:55-82 | with every mapped column in the frame and no missing id or mapped cell (and at least one row), the variable columns are exactly the mapped variables |
| Reshaping.CompleteInputRows | wide2long/core.py:55-82 | with every mapped column in the frame and no missing id or mapped cell, there is an output row for exactly each input id tuple and mapped element |
| Reshaping.CompleteInputCell | wide2long/core.py:55-82 | with every mapped column in the frame, no missing cell, unique id tuples and one column per pair, the output cell for a row's id tuple and a column's pair is that row's value in that column |
| HelperTag.FirstIndexOf | wide2long/core.py:70 | the split point is the first '|', and there is none exactly when the name has no '|' |
| HelperTag.FirstIndexOfAt | wide2long/core.py:70 | a '|' with none before it is the split point |
| HelperTag.HelperRoundTrip | wide2long/core.py:55-72 | splitting a tag recovers its (element, variable) whenever the element contains no '|' |
| HelperTag.HelperMisSplit | wide2long/core.py:55-72 | when the element contains '|', splitting the tag never recovers the pair |
| HelperTag.MisSplitExample | wide2long/core.py:55-72 | ("a\|b", "c") and ("a", "b\|c") get the same tag, and the tag splits to ("a", "b\|c") |
| Normalize.LoadMapping | wide2long/core.py:111-172 | `load_mapping` returns exactly the selections or the error `Normalize.LoadMappingSpec` gives for the file's suffix and parsed contents |
| Normalize.LoadMappingDispatch | wide2long/core.py:129-172 | the unsupported-suffix error arises exactly when the lower-cased suffix is neither ".csv" nor ".json"; a JSON mapping fails exactly when it is neither block style nor key-value style, and then with the unrecognised-format error; a CSV mapping fails exactly when it lacks a required column |
| Normalize.LookupMeaning | wide2long/core.py:149-151 | a key lookup finds nothing exactly when no entry has the key, and otherwise finds the first entry with that key |
| Normalize.LoadBlocks | wide2long/core.py:146-153 | the block branch appends one selection per row, block after block, giving exactly the block selections |
| Normalize.AppendRows | wide2long/core.py:148-152 | the row loop of one block appends that block's row selections to those already collected |
| Normalize.RowSelections | wide2long/core.py:148-152 | one block yields as many selections as it has rows |
| Normalize.RowSelectionsPerRow | wide2long/core.py:148-152 | the k-th selection of a block is the single association of its k-th row |
| Normalize.IsBlockStyle | wide2long/core.py:87-97 | a non-empty object whose every value is a list of objects, each holding the three required keys; `Normalize.LoadMappingDispatch` states that it is tried first and `Normalize.AllRows` what it guarantees the loader |
| Normalize.IsKeyValueStyle | wide2long/core.py:99-108 | a non-empty object whose every value is a two-element list; `Normalize.LoadMappingDispatch` states that it is tried only after the block-style check fails, and that a JSON mapping matching neither is an error |
| Normalize.AllRows | wide2long/core.py:147-148 | every row of a named-block mapping has the three required keys |
| Normalize.BlockSelectionsPerRow | wide2long/core.py:146-153 | a named-block mapping yields one single-entry selection per row of all blocks, in order |
| Normalize.BlockNamesIgnored | wide2long/core.py:147 | renaming blocks does not change the selections |
| Normalize.LoadKeyValue | wide2long/core.py:156-164 | the key-value loop returns the key-value selections, or the shape error at the first value that is not a two-element list |
| Normalize.KeyValueErrPersists | wide2long/core.py:158-159 | once an entry has raised, later entries do not change the outcome |
| Normalize.KeyValueFailsIff | wide2long/core.py:156-164 | the key-value branch fails exactly when some value is not a two-element list |
| Normalize.KeyValuePerEntry | wide2long/core.py:156-164 | with all values pairs, each entry yields one single-entry selection: source key to (first item, second item), in order |
| Normalize.CsvSelectionsStripped | wide2long/core.py:134-137 | CSV selections have single entries whose three fields carry no surrounding whitespace |
| Normalize.BlockSelectionsStripped | wide2long/core.py:149-152 | block selections have single entries whose three fields carry no surrounding whitespace |
| Normalize.KeyValueSelectionsStripped | wide2long/core.py:160-163 | key-value selections have single entries whose three fields carry no surrounding whitespace |
| Normalize.LoadedSelectionsStripped | wide2long/core.py:111-172 | every successful load yields single-entry selections whose fields carry no surrounding whitespace |
| Normalize.CsvRowMatchesPair | wide2long/core.py:136-137 | a CSV row and a key-value entry with the same texts declare the same association |
| Normalize.CsvAndPairSelectionsAgree | wide2long/core.py:129-164 | CSV rows and key-value entries declaring the same associations row for row give the same selections |
| Normalize.CsvMatchesKeyValue | wide2long/core.py:129-164 | a CSV mapping file and a key-value JSON file listing the same entries load to the same selections |
| Normalize.BlockAndPairSelectionsAgree | wide2long/core.py:146-164 | blocks and key-value entries declaring the same associations in the same order give the same selections |
| Normalize.BlocksMatchKeyValue | wide2long/core.py:146-164 | a named-block JSON file and a key-value JSON file declaring the same associations load to the same selections |
| Normalize.MissingKeys | wide2long/core.py:178 | the missing list holds exactly the required keys the row lacks |
| Normalize.CheckRowKeys | wide2long/core.py:175-179 | a row passes exactly when it has all three required keys; otherwise the error names the block and lists exactly the missing keys |
| Text.StripRange | wide2long/core.py:149 | stripping a range gives no longer a text with no whitespace at either end |
| Text.Strip | wide2long/core.py:149 | `strip()` gives no longer a text with no whitespace at either end |
| Text.StripRangeInfix | wide2long/core.py:149 | what stripping a range keeps sits inside that range with only whitespace around it |
| Text.StripInfix | wide2long/core.py:149 | `strip()` removes only whitespace, and only at the two ends |
| Text.StripStripped | wide2long/core.py:149 | stripping text with no whitespace at either end changes nothing |
| Text.StripIdempotent | wide2long/core.py:149 | stripping twice is stripping once |
| Text.LowerIsCsv | wide2long/core.py:129 | a suffix lower-cases to ".csv" exactly when it is ".csv" in any mix of cases |
| Text.LowerIsJson | wide2long/core.py:140 | a suffix lower-cases to ".json" exactly when it is ".json" in any mix of cases |
| Text.LowerIdempotent | wide2long/core.py:129 | lower-casing twice is lower-casing once |
| Text.AfterLastSlash | wide2long/core.py:129 | the last path component is a suffix of the path with no '/', preceded by '/' when shorter than the path |
| Text.Name | wide2long/core.py:129 | a file name has no '/' and is no longer than the path |
| Text.NameOfJoin | wide2long/core.py:129 | the name of a directory joined with a name that has no '/' (and is not empty or ".") is that name |
| Text.LastIndexOf | wide2long/core.py:129 | the index of the last occurrence, with none after it, or -1 |
| Text.NameSuffix | wide2long/core.py:129 | a suffix is empty or the name's tail from its last '.', which is not the name's first character; it is empty only when no such dot exists |
| Text.Digits | wide2long/core.py:149 | `str` of a non-negative integer is a non-empty string of decimal digits without a leading zero |
| Text.DigitsRoundTrip | wide2long/core.py:149 | reading the decimal digits back gives the number |
| Seqs.Distinct | wide2long/core.py:47 | the keys of a dict built from a sequence are its members, once each |
| Seqs.DistinctSnoc | wide2long/core.py:47 | the keys come in first-seen order: a repeated element leaves them unchanged, and a new one is added at the end |

## Left out

- File I/O: the model does not read files or call any parser. `read_text`, `json.loads` and `pd.read_csv` are left out. `Normalize.LoadMapping` takes the path together with the parsed CSV table and JSON value as parameters. `load_data`, `save_data` and the command-line entry point are not part of this model.
- Sorting by `pivot_table`: pandas sorts the output rows by their index and the variable columns by name. The model keeps first-appearance order, because ordering arbitrary labels is not the point of the reshape. Row and column membership, and the cells, are modelled exactly; the next line says why the order of the melted columns does not change a cell.
- Reshaping.TaggedColumns: `melt` takes the tags in `colmap` order of their first key, and the frame columns carrying one tag in frame order. The model takes all mapped columns in frame order. The two orders differ only for columns mapped to different pairs, and `first` only compares columns of one pair, so the cells agree. Only the order of first appearance differs, and the sort above replaces it.
- Column dtypes and float conversion: `pivot_table` may turn integer columns into floats, and the model does not capture this. Cells are `Option<Value>`, where `None` stands for NaN/None.
- Reshaping.Pivot: duplicate column labels in the input frame are not modelled.
- Reshaping.Reshape: a tag that collides with an existing column name is not modelled. Tags are modelled as the (element, variable) pair itself, so an element containing '|' is recovered correctly (see Findings). `HelperTag` models the string tag as the code writes it.
- Convert.MeltFails: every `KeyError` that `melt` raises on a missing column becomes the single error `FrameKeyError`. The message text is not modelled.
- Convert.Reshaped: id columns named "__h" or "__col", id columns or frame columns whose names start with "__H__", and an id column listed twice are not modelled. Each of these clashes with a label the reshape creates, and pandas then raises or picks a column by position.
- Exception messages are not modelled. Each error constructor carries the data the message shows: a column, two targets, a list of columns.
- Normalize.Str: `repr` of text is single quotes around the text. Python's escaping of quotes and control characters inside `repr` is not modelled.
- Normalize.Json: JSON numbers are integers only. Objects are entry lists; `json.loads` keeps one entry per key, and the model assumes its input already does. Floats and exponent notation are not modelled.
- Normalize.CsvField: a missing CSV cell becomes the text "nan", as `astype(str)` gives. Non-text CSV cells are taken as their text.
- Text.Lower: only ASCII letters are lower-cased. That is enough to compare a suffix with ".csv" and ".json".
- Normalize.Field: a missing key reads as "". Normalize.Item: a missing list item reads as `null`. The shape predicates make both cases unreachable from `load_mapping`.

## Findings

| source | as written | input that shows it | evidently intended | confidence | as-written member | corrected member |
|---|---|---|---|---|---|---|
| wide2long/core.py:55-72 | the tag `"__H__" + element + "\|" + variable` is split at its first '\|' | element "a\|b" with variable "c": the tag is `__H__a\|b\|c`. It splits to element "a" and variable "b\|c", and it equals the tag of ("a", "b\|c") | each melted value keeps the (element, variable) pair of its column | not executed | HelperTag.MisSplitExample | Reshaping.CompleteInputCell |
