# CSV Wrangler: the table model and the controller, in Dafny

CSV Wrangler is a small Swing editor for delimited files. The files are read
into a table, edited, filtered, restored and written back. This project models
the editor's data core and proves properties of it:

- `CSVTableModel`, the table model behind the grid. It holds:
  - the current rows and column names;
  - an "original" snapshot, taken by the first `setDataVector` after
    construction;
  - the separator and the header flag;
  - the column type tags.
- `CSVController`, the command layer. Here it is a state machine over
  immutable values. The state is the table shown, the restore point
  (`prev_tableModel`) and the current file. Each command takes the state and
  the answers the user gave to its dialogs. It returns the new state, the
  error message shown (if any) and the file written (if any).

A cell is `Option<string>`, because the code treats `null` and `""` as
different values.

Modules, one per concern:

| file | module | models |
|---|---|---|
| cells.dfy | `Cells` | cells, rows, `Vector.setSize` justification |
| strings.dfy | `Strings` | `split`, joining, lines, `contains`/`startsWith`, `compareTo`, `equalsIgnoreCase`, decimal numerals |
| table_model.dfy | `TableModel` | the table state, the constructors, `setDataVector`, snapshot, restore, columns, type tags |
| row_sort.dfy | `RowSort` | `sort` |
| table_queries.dfy | `TableQueries` | `findColumnCaseInsensitive`, `countUniqueValues`, `hasEmptyCells` |
| table_text.dfy | `TableText` | `escapeCSV`, `toCSVString`, the text `saveToFile` writes |
| csv_format.dfy | `CsvFormat` | `detectSeparator`, the line split of `loadCSV`, generated names |
| selection.dfy | `Selection` | the stack-order removal of `deleteSelectedRow` |
| filtering.dfy | `Filtering` | the row test and row collection of `filterData` |
| controller.dfy | `Controller` | the session, `addNewRow`, `deleteSelectedRow`, `filterData`, `clearFilters`, `checkFileSaved`, `newFile` |
| file_commands.dfy | `FileCommands` | `openFile`, `loadCSV`, `saveFile`, `saveFileAs`, the save/load round trip |

Behaviour of the code worth knowing:

- Sorting is ordinal, not numeric. Cells are strings, so the comparator's
  `Number` branch never applies and "10" sorts before "2"
  (`RowSort.OrdinalOrderExample`).
- The names made up for a file without headers are "Kol 1", "Kol 2", …
- `saveToFile` writes no quoting. Only `toCSVString` escapes.
- `addColumn` appends `null` to the current rows but `""` to the snapshot
  rows.
- Separator detection stops counting at the first line of 1000 characters or
  more. It does not skip that line and go on.
- `newFile` ends name entry only at a cancelled prompt. An empty answer
  becomes a column name.
- After `new CSVTableModel()`, the snapshot is taken when `loadCSV` or
  `newFile` sets the column names. At that moment the table has no rows, so
  the snapshot holds the names and no rows (`Controller.NewFile`,
  `FileCommands.LoadCsv`).

## Model

| member | source | states |
|---|---|---|
| TableModel.NewTable | src/csvwrangler/CSVTableModel.java:28-34 | a new model has no rows, no columns and an empty snapshot; the separator is ',', headers are on, and it is still waiting for its first load |
| TableModel.FromData | src/csvwrangler/CSVTableModel.java:41-47 | the two-argument constructor shows the justified rows and takes them with the names as the snapshot; the initial-load flag is still set |
| TableModel.ConstructedSnapshotReplaced | src/csvwrangler/CSVTableModel.java:72-80 | after the two-argument constructor, the next setDataVector replaces the constructor's snapshot |
| TableModel.GetColumnClass | src/csvwrangler/CSVTableModel.java:50-69 | every column reports String whenever the tags are all String |
| TableModel.AnalyzeColumnTypes | src/csvwrangler/CSVTableModel.java:103-129 | tags are null exactly when there are no rows or no columns; otherwise there is one tag per column and every tag is String |
| TableModel.SetDataVector | src/csvwrangler/CSVTableModel.java:72-86 | rows are justified to the new column count; only a call on a table still in its initial load copies the data into the snapshot; tags are recomputed |
| TableModel.SetColumnIdentifiers | src/csvwrangler/CSVController.java:112-120 | every row is justified to the new column count (so well-formed rows of the same width stay as they are), the snapshot is taken only on a fresh table, separator and header flag stay, and the tags follow the rows |
| TableModel.SnapshotTakenOnce | src/csvwrangler/CSVTableModel.java:72-86 | after two setDataVector calls, the snapshot is whatever the first call left and the rows are the second call's |
| TableModel.AddRow | src/csvwrangler/CSVController.java:210-212 | addRow appends exactly one row, justified to the column count, and changes nothing else |
| TableModel.ClearRows | src/csvwrangler/CSVController.java:124 | setRowCount(0) empties the rows and changes nothing else |
| TableModel.RestoreOriginalData | src/csvwrangler/CSVTableModel.java:171-175 | current names and rows become the snapshot's; the snapshot and the initial-load flag are unchanged |
| TableModel.SetOriginalData | src/csvwrangler/CSVTableModel.java:180-185 | the given data becomes the snapshot and the current table, each current row justified to the column count; the initial load is marked done, separator and header flag stay, and the tags follow the new rows |
| TableModel.RestoreUndoesLaterData | src/csvwrangler/CSVTableModel.java:171-175 | after the snapshot, a restore following any later setDataVector gives back the snapshot's rows and names |
| TableModel.AddColumn | src/csvwrangler/CSVTableModel.java:191-199 | the name goes to both name lists; each current row gains one null cell and each snapshot row one "" cell; existing cells are unchanged |
| TableModel.RemoveColumn | src/csvwrangler/CSVTableModel.java:205-215 | index i leaves both name lists, every current row and every snapshot row; each shrinks by one and keeps its order |
| TableModel.RemoveAddedColumn | src/csvwrangler/CSVTableModel.java:191-215 | removing the column just added gives back the table |
| TableModel.FindColumn | src/csvwrangler/CSVController.java:258-262 | the first column with exactly that name, or -1 exactly when there is none |
| RowSort.Sort | src/csvwrangler/CSVTableModel.java:330-351 | the sorted rows are a permutation of the rows, ordered by the comparator; nothing else changes |
| RowSort.SortStable | src/csvwrangler/CSVTableModel.java:331-350 | rows with equal keys keep their relative order |
| RowSort.SortIsTheStableSort | src/csvwrangler/CSVTableModel.java:331-350 | any sorted arrangement that keeps every key's run in order equals Sort's result, so Sort is what List.sort gives |
| RowSort.SortPlacesNulls | src/csvwrangler/CSVTableModel.java:336-338 | null cells come first when ascending and last when descending |
| RowSort.OrdinalOrderExample | src/csvwrangler/CSVTableModel.java:345-347 | [10, 2, null, abc] sorts ascending to [null, 10, 2, abc] |
| RowSort.NotAfterTransitive | src/csvwrangler/CSVTableModel.java:334-347 | the comparator's order is transitive |
| TableQueries.FindColumnCaseInsensitive | src/csvwrangler/CSVTableModel.java:238-245 | the first column whose name equals the argument ignoring case, or -1 exactly when none does |
| TableQueries.CaseInsensitiveFindsExact | src/csvwrangler/CSVTableModel.java:238-245 | whenever the exact lookup succeeds, the case-insensitive lookup succeeds at that column or an earlier one |
| TableQueries.CaseOfArgumentIrrelevant | src/csvwrangler/CSVTableModel.java:238-245 | arguments that differ only in case find the same column |
| TableQueries.CountUniqueValues | src/csvwrangler/CSVTableModel.java:252-259 | the keys are exactly the column's values, null included; each count is that value's number of occurrences; the counts sum to the row count |
| TableQueries.TallyValues | src/csvwrangler/CSVTableModel.java:254-257 | after the getOrDefault-plus-one pass, every value seen is a key mapped to its number of occurrences, no other key exists, and the counts sum to the number of values |
| TableQueries.HasEmptyCells | src/csvwrangler/CSVTableModel.java:265-275 | true exactly when some cell is null or blank after trim |
| TableQueries.EmptyCellAfterNullRow | src/csvwrangler/CSVTableModel.java:265-275 | a table with a column and an added null row has an empty cell; a table with no columns has none |
| TableText.DoubleQuotes | src/csvwrangler/CSVTableModel.java:319 | doubling adds one character per quote and leaves quote-free text unchanged |
| TableText.HalveDoubleQuotes | src/csvwrangler/CSVTableModel.java:319 | halving the doubled quotes gives the text back |
| TableText.DoubleQuotesAppend | src/csvwrangler/CSVTableModel.java:319 | quotes are doubled piece by piece: doubling a concatenation concatenates the doubled pieces |
| TableText.EscapeCsv | src/csvwrangler/CSVTableModel.java:315-323 | text with no quote, newline or comma is unchanged; other text is wrapped in quotes around the doubled text |
| TableText.UnescapeEscape | src/csvwrangler/CSVTableModel.java:315-323 | stripping the outer quotes and halving the inner ones recovers the input |
| TableText.EscapeExample | src/csvwrangler/CSVTableModel.java:318-320 | a,b"c is written "a,b""c" |
| TableText.SeparatorIsNotQuoted | src/csvwrangler/CSVTableModel.java:318 | the test ignores the configured separator: a;b stays bare and splits into two fields on ';' |
| TableText.Records | src/csvwrangler/CSVTableModel.java:281-308 | an optional header line of names joined by the separator, then one line per row of cell texts joined by the separator |
| TableText.CsvStringIsPlainUnlessQuoted | src/csvwrangler/CSVController.java:170-193 | when no cell needs quoting, toCSVString and the saved text are the same |
| TableText.CsvStringLines | src/csvwrangler/CSVTableModel.java:281-308 | reading toCSVString back line by line gives the records, when no name or cell holds a line break |
| CsvFormat.ScannedLines | src/csvwrangler/CSVController.java:368 | the vote counts exactly the lines before the first line of 1000 or more characters |
| CsvFormat.ChooseIndex | src/csvwrangler/CSVController.java:379-384 | the chosen index has the largest count, and every earlier index has a strictly smaller one |
| CsvFormat.DetectSeparator | src/csvwrangler/CSVController.java:362-387 | the result is one of ',', ';', tab and '\|': the first candidate with the most occurrences in the scanned lines |
| CsvFormat.NoCandidateMeansComma | src/csvwrangler/CSVController.java:379-386 | when no candidate occurs, the result is ',' |
| CsvFormat.TieGoesToEarlier | src/csvwrangler/CSVController.java:381 | a tie between ',' and ';' goes to ',' |
| CsvFormat.LongLineEndsVote | src/csvwrangler/CSVController.java:368 | a long line and everything after it do not influence the vote |
| CsvFormat.SemicolonFile | src/csvwrangler/CSVController.java:362-386 | a file of short lines using only ';' is detected as ';'-separated |
| CsvFormat.ParseLine | src/csvwrangler/CSVController.java:103 | the literal split keeps trailing empty fields: one field more than there are separators, no field holds the separator, and joining gives the line back |
| CsvFormat.ParseLineAsWritten | src/csvwrangler/CSVController.java:103 | for the four separators the vote can pick, the regular-expression split agrees with the literal one except for '\|', where it yields one field per character plus "" |
| CsvFormat.PipeSplitCounterexample | src/csvwrangler/CSVController.java:103 | "a\|b" splits into a, \|, b, "" as written, instead of a, b |
| CsvFormat.ParseJoinedLine | src/csvwrangler/CSVController.java:103 | splitting a line joined from separator-free fields gives the fields back |
| CsvFormat.GeneratedNames | src/csvwrangler/CSVController.java:116-119 | n names, "Kol 1" to "Kol n" |
| CsvFormat.GeneratedNamesDistinct | src/csvwrangler/CSVController.java:116-119 | the generated names are pairwise different |
| Selection.RemoveInReverse | src/csvwrangler/CSVController.java:223-234 | popping the stack removes as many rows as were selected, and every remaining row was a row before |
| Selection.RemoveAscending | src/csvwrangler/CSVController.java:220-234 | for a strictly ascending selection of existing rows, every pop is in range and exactly the selected rows go; the rest keep their order |
| Filtering.MatchStrength | src/csvwrangler/CSVController.java:269-274 | equals implies starts-with, and starts-with implies contains |
| Filtering.Select | src/csvwrangler/CSVController.java:264-296 | the kept rows are rows of the table, and every one passes the test |
| Filtering.MatchingRows | src/csvwrangler/CSVController.java:264-279 | the collected indices are ascending and in range, and an index is listed exactly when its row passes (null read as "") |
| Filtering.PickMatchesIsSelect | src/csvwrangler/CSVController.java:264-296 | the rows copied at the collected indices are the matching rows, whole and in order |
| Filtering.SelectCounts | src/csvwrangler/CSVController.java:264-296 | a passing row is kept as often as it occurs; a failing row is never kept |
| Filtering.UnknownOperatorKeepsNothing | src/csvwrangler/CSVController.java:273 | an unknown operator keeps no row |
| Filtering.SelectIdempotent | src/csvwrangler/CSVController.java:264-296 | filtering the filtered rows again with the same test changes nothing |
| Filtering.StartsWithExample | src/csvwrangler/CSVController.java:272 | Alice, Bob, Alicia filtered on starts-with "Ali" keeps Alice and Alicia, in that order |
| Controller.Start | src/csvwrangler/CSVController.java:18-22 | the controller starts with the restore point equal to the table and no file; a session is valid when both tables have rows of the column count and String tags only |
| Controller.UpdatePrevious | src/csvwrangler/CSVController.java:303-309 | the restore point becomes the table shown |
| Controller.AddNewRow | src/csvwrangler/CSVController.java:204-215 | with no columns, an error and no change; otherwise one null row per column count is appended, nothing else changes, and the restore point is refreshed |
| Controller.DeleteSelectedRows | src/csvwrangler/CSVController.java:220-244 | an empty selection is an error with no change; otherwise the rows go in stack order; a table left empty gets one null row (or the no-column error); nothing but the rows changes in the table (names, snapshot, separator, header flag and tags stay); the restore point is refreshed |
| Controller.DeleteAscendingSelection | src/csvwrangler/CSVController.java:220-244 | for a JTable selection, exactly the selected rows go, or one null row remains when all go |
| Controller.FilterData | src/csvwrangler/CSVController.java:252-298 | a missing column or value, or an unknown column, is an error with no change; the restore point and the file are never touched |
| Controller.FilterKeepsMatchingRows | src/csvwrangler/CSVController.java:264-296 | a valid filter shows exactly the matching rows under the same names |
| Controller.ClearFilters | src/csvwrangler/CSVController.java:314-323 | the table becomes the restore point |
| Controller.FiltersKeepPrevious | src/csvwrangler/CSVController.java:252-298 | no sequence of filters changes the restore point or the file |
| Controller.FiltersThenClear | src/csvwrangler/CSVController.java:303-323 | from a state whose restore point is the table shown, any sequence of filters followed by clearFilters gives that table back |
| Controller.CheckFileSaved | src/csvwrangler/CSVController.java:28-50 | with no file it proceeds; YES writes the table to the file and forgets the file; NO forgets it; any other answer aborts with no change |
| Controller.NamesBeforeCancel | src/csvwrangler/CSVController.java:58-68 | the names are exactly the answers before the first cancelled prompt |
| Controller.NewFile | src/csvwrangler/CSVController.java:55-78 | when the check proceeds: a fresh table with the collected names, a snapshot with those names and no rows, one null row if there is any column, no file, and the restore point refreshed |
| FileCommands.AddRows | src/csvwrangler/CSVController.java:124-127 | adding rows one by one appends them justified, in order, and changes nothing else |
| FileCommands.Header | src/csvwrangler/CSVController.java:111-121 | with headers the first line names the columns and is not data; without, the names are generated from the first line's width and every line is data |
| FileCommands.LoadTable | src/csvwrangler/CSVController.java:108-127 | the table ends with the separator, the names and exactly the given rows justified to the column count; the snapshot is taken from the rows held before, only on a table that never had data; the column tags follow those earlier rows |
| FileCommands.LoadParsed | src/csvwrangler/CSVController.java:107-130 | with the separator known and the lines split: the table takes the separator and the names, its rows become the data lines justified to the column count, the snapshot is taken from the rows held before (and only on a table that never had data), the column tags follow those earlier rows, and the restore point is refreshed |
| FileCommands.LoadCsv | src/csvwrangler/CSVController.java:95-138 | an empty file changes nothing; otherwise the voted separator, the names and the data rows replace the table's, with every line split literally on the separator; snapshot and restore point as for LoadParsed |
| FileCommands.LoadCsvAsWritten | src/csvwrangler/CSVController.java:95-138 | the same load with the lines split as `String.split` reads the separator, a regular expression |
| FileCommands.AsWrittenAgrees | src/csvwrangler/CSVController.java:99-104 | when the vote does not pick '\|', the load as written and the literal-split load give the same session |
| FileCommands.PipeLoadLosesNames | src/csvwrangler/CSVController.java:103 | a saved '\|' table of two or more columns, loaded as written, does not get its names back, while the literal-split load does |
| FileCommands.OpenFile | src/csvwrangler/CSVController.java:83-89 | no choice changes nothing; a chosen file becomes current even when reading it fails, and a failed read leaves the table |
| FileCommands.SaveFileAs | src/csvwrangler/CSVController.java:154-164 | an answered prompt sets the table's separator and nothing else; a chosen file becomes current and receives the table's text |
| FileCommands.SaveFile | src/csvwrangler/CSVController.java:143-149 | with a current file the table's text is written there with no change; otherwise it acts as saveFileAs |
| FileCommands.ClearForgetsChosenSeparator | src/csvwrangler/CSVController.java:154-158 | a separator chosen on save is lost by a later clearFilters |
| FileCommands.SavedLines | src/csvwrangler/CSVController.java:170-193 | the saved text read back line by line is the unquoted records |
| FileCommands.SaveLoadRoundTrip | src/csvwrangler/CSVController.java:95-193 | saving with headers and loading again with the literal split gives back the names, the separator and every row, with null cells turned into "" |

## Left out

- The Swing window, menus and dialogs, and the status bar messages. Dialog
  answers, the selected rows and the file lines are inputs to the commands.
- `hideColumns` and `showAllColumns`. They only change JTable column widths.
- Reading and writing files. A file is the sequence of its lines, and a write
  is its path and text. Write failures are not modelled. A failed read in
  `detectSeparator`, which falls back to ',', is not modelled either.
- `Double.parseDouble` in `analyzeColumnTypes`. Both branches tag the column
  String, so the parse has no effect.
- Strings.EqualsIgnoreCase: folds case for ASCII letters only, not the full
  Unicode case folding of `equalsIgnoreCase`.
- Strings: characters are Unicode code points, not UTF-16 code units. Strings
  with surrogate pairs can compare differently under `compareTo`.
- TableText.Records: a line ends with "\n". `println` in `saveToFile` uses the
  platform line separator.
- Aliasing. `clone()` is shallow: the clone and the original share the data
  vector and the names vector, so an in-place change such as `sort` shows through the restore
  point. Tables here are values.
- Controller.CheckFileSaved: does not model setting `tableModel` to null on
  YES and NO. Both callers replace the table or end the program right after.
- FileCommands.SaveFileAs: an empty separator answer is excluded by its
  precondition, because Java's `charAt(0)` throws there.
- FileCommands.LoadCsv: splits every line literally, the intended behaviour
  (see Findings). For a '|' file the program splits before every character
  instead; FileCommands.LoadCsvAsWritten models that and agrees with LoadCsv
  for the other three separators.
- FileCommands.SaveLoadRoundTrip: holds for the literal-split load only. A
  saved '|' table of two or more columns meets its premises, yet the load as
  written does not give the names back (FileCommands.PipeLoadLosesNames).
- TableModel.FromData: tables are values, so the snapshot is a copy. In Java
  `new Vector<>(data)` copies only the outer vector: after the two-argument
  constructor the snapshot rows are the table's own row vectors, and a later
  `addColumn` appends both null and "" to each, and `removeColumn` removes two
  cells from each. The model gives each side one change.
- TableModel.RemoveColumn: an index within the current names and rows but
  beyond the snapshot's is excluded by its precondition. Java throws there
  after the name and the current rows' cells are already gone. A reload
  through `openFile` keeps the first file's snapshot, so that case can arise.
- Controller.DeleteSelectedRows: a pop out of range is excluded by its
  precondition, because `removeRow` throws there.
- `getColumnName` for a null identifier. The names used here are never null.
- Counts are unbounded integers. Java's `int` counts would wrap only beyond
  2^31 occurrences.
- `deepCopyVector`, `getOriginalData`, the getters and setters, and
  `isCellEditable`: copying and accessors with nothing to prove about values.

## Findings

| source | as written | input that shows it | evidently intended | confidence | as-written member | corrected member |
|---|---|---|---|---|---|---|
| src/csvwrangler/CSVController.java:103 | `line.split(String.valueOf(separator), -1)` reads the separator as a regular expression; "\|" is the alternation of two empty patterns, so a '\|' line splits before every character | the line a\|b with detected separator '\|' gives the fields a, \|, b, "" | a literal split: a\|b gives a, b | not executed | CsvFormat.ParseLineAsWritten, CsvFormat.PipeSplitCounterexample, FileCommands.LoadCsvAsWritten, FileCommands.PipeLoadLosesNames | CsvFormat.ParseLine, CsvFormat.ParseJoinedLine, FileCommands.LoadCsv, FileCommands.SaveLoadRoundTrip |

The rest of the model reads files with the literal split, `CsvFormat.ParseLine`.
