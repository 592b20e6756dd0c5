/** CSVController as a state machine over immutable values. The state is the
    table shown (tableModel), the restore point (prev_tableModel, a copy of
    the table) and the current file; every command takes the state and the
    answers the user gave to its dialogs and returns the new state, the
    error it reports, if any, and the file it writes, if any. */
module Controller {
  import opened Cells
  import TableModel
  import TableText
  import Selection
  import Filtering

  /** The controller's fields: tableModel, prev_tableModel and currentFile
      (None for null). */
  datatype Session = Session(table: TableModel.Table, previous: TableModel.Table, file: Option<string>)

  /** The error messages the commands show instead of acting. */
  datatype Failure =
    | NoColumns                   // "load a CSV file first": no column to add a row to
    | NothingSelected             // no row selected for deletion
    | NoFilterValue               // no column or no value given to the filter
    | ColumnNotFound(name: string) // the filter column does not exist
    | ReadFailed                  // the file could not be read

  /** A file written by saveToFile: its path and its whole text. */
  datatype FileWrite = FileWrite(path: string, text: string)

  /** What a command leaves behind. */
  datatype Outcome = Outcome(session: Session, error: Option<Failure>, written: Option<FileWrite>)

  /** Both tables keep DefaultTableModel's row-width invariant, and every
      column of either is tagged String (analyzeColumnTypes never tags
      otherwise). */
  predicate Valid(s: Session)
  {
    TableModel.Wf(s.table) && TableModel.Wf(s.previous) &&
    TableModel.TextTyped(s.table) && TableModel.TextTyped(s.previous)
  }

  /** The restore point holds the table shown. */
  predicate Settled(s: Session)
  {
    s.table == s.previous
  }

  /** updatePreviousTableModel: the restore point becomes a copy of the
      table. */
  function UpdatePrevious(s: Session): (r: Session)
    ensures Settled(r) && r.table == s.table && r.file == s.file
  {
    s.(previous := s.table)
  }

  /** The constructor: the given table, already copied as the restore point,
      and no file. */
  function Start(t: TableModel.Table): (s: Session)
    requires TableModel.Wf(t) && TableModel.TextTyped(t)
    ensures Valid(s) && Settled(s) && s.table == t && s.file.None?
  {
    Session(t, t, None)
  }

  /** A command that only reports an error. */
  function Refuse(s: Session, f: Failure): (o: Outcome)
    ensures o.session == s && o.error == Some(f) && o.written.None?
  {
    Outcome(s, Some(f), None)
  }

  /** addNewRow: with no columns it reports NoColumns and changes nothing;
      otherwise it appends one row of null cells, one per column, and
      refreshes the restore point. */
  function AddNewRow(s: Session): (o: Outcome)
    requires Valid(s)
    ensures Valid(o.session) && o.written.None?
    ensures o.error.Some? <==> |s.table.names| == 0
    ensures o.error.Some? ==> o.error == Some(NoColumns) && o.session == s
    ensures o.error.None? ==>
      Settled(o.session) && o.session.file == s.file &&
      o.session.table.rows == s.table.rows + [NullRow(|s.table.names|)] &&
      o.session.table.(rows := s.table.rows) == s.table
  {
    var n := |s.table.names|;
    if n == 0 then Refuse(s, NoColumns)
    else
      assert Justify(NullRow(n), n) == NullRow(n);
      Outcome(UpdatePrevious(s.(table := TableModel.AddRow(s.table, NullRow(n)))), None, None)
  }

  /** deleteSelectedRow with the rows the view reports as selected. An empty
      selection reports NothingSelected. Otherwise the indices are pushed on
      a stack and popped, each removeRow shifting the rows after it (Java
      throws when a pop is out of range); a table left without rows gets one
      fresh null row through addNewRow (which, with no columns, reports
      NoColumns instead), and the restore point is refreshed either way. */
  function DeleteSelectedRows(s: Session, selected: seq<int>): (o: Outcome)
    requires Valid(s)
    requires Selection.PopsInRange(|s.table.rows|, selected)
    ensures Valid(o.session) && o.written.None?
    ensures |selected| == 0 ==> o == Refuse(s, NothingSelected)
    ensures |selected| > 0 ==>
      Settled(o.session) && o.session.file == s.file &&
      o.session.table.(rows := s.table.rows) == s.table
    ensures |selected| > 0 && |selected| < |s.table.rows| ==>
      o.error.None? && o.session.table.rows == Selection.RemoveInReverse(s.table.rows, selected)
    ensures |selected| > 0 && |selected| == |s.table.rows| ==>
      if |s.table.names| == 0 then o.error == Some(NoColumns) && o.session.table.rows == []
      else o.error.None? && o.session.table.rows == [NullRow(|s.table.names|)]
  {
    if |selected| == 0 then Refuse(s, NothingSelected)
    else
      var t := s.table.(rows := Selection.RemoveInReverse(s.table.rows, selected));
      var emptied := s.(table := t);
      if |t.rows| == 0 then
        var added := AddNewRow(emptied);
        Outcome(UpdatePrevious(added.session), added.error, None)
      else Outcome(UpdatePrevious(emptied), None, None)
  }

  /** For a selection as JTable reports it, strictly ascending indices of
      existing rows, exactly the selected rows go and the others keep their
      order; when that removes every row, one null row takes their place. */
  lemma DeleteAscendingSelection(s: Session, selected: seq<int>)
    requires Valid(s)
    requires Selection.Ascending(selected, |s.table.rows|) && |selected| > 0
    ensures Selection.PopsInRange(|s.table.rows|, selected)
    ensures var rest := Selection.Without(s.table.rows, Selection.Picked(selected));
      var o := DeleteSelectedRows(s, selected);
      (|rest| > 0 ==> o.session.table.rows == rest) &&
      (|rest| == 0 && |s.table.names| > 0 ==> o.session.table.rows == [NullRow(|s.table.names|)])
  {
    Selection.RemoveAscending(s.table.rows, selected);
  }

  /** The request the filter dialog sends: the column name and the value
      (None for null) and the operator. */
  datatype FilterRequest = FilterRequest(column: Option<string>, op: string, value: Option<string>)

  /** filterData: without a column or a non-empty value it reports
      NoFilterValue; with a column name the table does not have it reports
      ColumnNotFound. Otherwise the matching rows, whole and in their order,
      replace the rows through setDataVector with the same names. The
      restore point is NOT refreshed. */
  function FilterData(s: Session, q: FilterRequest): (o: Outcome)
    requires Valid(s)
    ensures Valid(o.session) && o.written.None?
    ensures o.session.previous == s.previous && o.session.file == s.file
    ensures q.column.None? || q.value.None? || |q.value.value| == 0 ==> o == Refuse(s, NoFilterValue)
    ensures q.column.Some? && q.value.Some? && |q.value.value| > 0 && q.column.value !in s.table.names ==>
      o == Refuse(s, ColumnNotFound(q.column.value))
    ensures o.error.None? ==>
      q.column.Some? && q.value.Some? && q.column.value in s.table.names &&
      var col := TableModel.FindColumn(s.table.names, q.column.value);
      o.session.table == TableModel.SetDataVector(s.table,
        Filtering.Select(s.table.rows, col, q.op, q.value.value), s.table.names)
  {
    if q.column.None? || q.value.None? || |q.value.value| == 0 then Refuse(s, NoFilterValue)
    else
      var col := TableModel.FindColumn(s.table.names, q.column.value);
      if col == -1 then Refuse(s, ColumnNotFound(q.column.value))
      else
        var kept := Filtering.Select(s.table.rows, col, q.op, q.value.value);
        Outcome(s.(table := TableModel.SetDataVector(s.table, kept, s.table.names)), None, None)
  }

  /** A successful filter shows exactly the matching rows, whole and in
      order, under the same names. */
  lemma FilterKeepsMatchingRows(s: Session, q: FilterRequest)
    requires Valid(s)
    requires q.column.Some? && q.value.Some? && |q.value.value| > 0 && q.column.value in s.table.names
    ensures var col := TableModel.FindColumn(s.table.names, q.column.value);
      var t := FilterData(s, q).session.table;
      FilterData(s, q).error.None? &&
      t.names == s.table.names &&
      t.rows == Filtering.Select(s.table.rows, col, q.op, q.value.value)
  {
    var col := TableModel.FindColumn(s.table.names, q.column.value);
    var kept := Filtering.Select(s.table.rows, col, q.op, q.value.value);
    assert AllWidth(kept, |s.table.names|);
    TableModel.JustifyAllKeeps(kept, |s.table.names|);
  }

  /** Filters applied one after the other, each to the result of the last. */
  function ApplyFilters(s: Session, qs: seq<FilterRequest>): (r: Session)
    requires Valid(s)
    ensures Valid(r)
    decreases |qs|
  {
    if |qs| == 0 then s else ApplyFilters(FilterData(s, qs[0]).session, qs[1..])
  }

  /** clearFilters: the table becomes a copy of the restore point. */
  function ClearFilters(s: Session): (r: Session)
    ensures r.table == s.previous && r.previous == s.previous && r.file == s.file
  {
    s.(table := s.previous)
  }

  /** No filter touches the restore point, so clearing after any number of
      filters brings back the table as it was before the first of them,
      provided the restore point held it then (as it does after every load,
      new table, added row and deletion). */
  lemma {:induction false} FiltersThenClear(s: Session, qs: seq<FilterRequest>)
    requires Valid(s) && Settled(s)
    ensures ClearFilters(ApplyFilters(s, qs)).table == s.table
  {
    FiltersKeepPrevious(s, qs);
  }

  /** A run of filters leaves the restore point and the file alone. */
  lemma {:induction false} FiltersKeepPrevious(s: Session, qs: seq<FilterRequest>)
    requires Valid(s)
    ensures ApplyFilters(s, qs).previous == s.previous
    ensures ApplyFilters(s, qs).file == s.file
    decreases |qs|
  {
    if |qs| > 0 {
      FiltersKeepPrevious(FilterData(s, qs[0]).session, qs[1..]);
    }
  }

  /** The button codes of the confirmation dialog (JOptionPane's YES_OPTION
      and NO_OPTION); any other answer, CANCEL or closing the dialog,
      aborts. */
  const YesOption: int := 0
  const NoOption: int := 1

  /** The outcome of checkFileSaved: whether the caller may go on, the new
      state and the file saved on the way, if any. */
  datatype Check = Check(proceed: bool, session: Session, written: Option<FileWrite>)

  /** checkFileSaved with the user's answer to the confirmation dialog. With
      no current file it proceeds at once. YES saves the table to the
      current file (saveFile, which with a current file is saveToFile) and
      forgets the file; NO forgets the file; anything else aborts. Java also
      drops the table reference on YES and NO: both callers either replace
      the table or end the program, so that is not part of the state here. */
  function CheckFileSaved(s: Session, answer: int): (r: Check)
    requires Valid(s)
    ensures Valid(r.session) && r.session.table == s.table && r.session.previous == s.previous
    ensures r.proceed <==> s.file.None? || answer == YesOption || answer == NoOption
    ensures r.proceed ==> r.session.file.None?
    ensures !r.proceed ==> r.session == s
    ensures r.written.Some? <==> s.file.Some? && answer == YesOption
    ensures r.written.Some? ==> r.written == Some(FileWrite(s.file.value, TableText.PlainText(s.table)))
  {
    if s.file.None? then Check(true, s, None)
    else if answer == YesOption then
      Check(true, s.(file := None), Some(FileWrite(s.file.value, TableText.PlainText(s.table))))
    else if answer == NoOption then Check(true, s.(file := None), None)
    else Check(false, s, None)
  }

  /** The column names newFile collects: one input dialog per column, until
      the first one the user cancels (None). An empty answer is a name like
      any other; the cancelled prompt's placeholder is removed again. */
  function NamesBeforeCancel(prompts: seq<Option<string>>): (names: seq<string>)
    requires exists i :: 0 <= i < |prompts| && prompts[i].None?
    ensures |names| < |prompts| && prompts[|names|].None?
    ensures forall i :: 0 <= i < |names| ==> prompts[i] == Some(names[i])
  {
    if prompts[0].None? then []
    else
      assert exists i :: 0 <= i < |prompts[1..]| && prompts[1..][i].None? by {
        var i :| 0 <= i < |prompts| && prompts[i].None?;
        assert prompts[1..][i - 1] == prompts[i];
      }
      [prompts[0].value] + NamesBeforeCancel(prompts[1..])
  }

  /** newFile with the answer to the save confirmation and the answers to
      the name prompts. When checkFileSaved aborts nothing happens.
      Otherwise a fresh table gets the collected names (its snapshot is
      taken at that step, with no rows), one null row when it has any
      column, and becomes the restore point; there is no current file. */
  function NewFile(s: Session, answer: int, prompts: seq<Option<string>>): (o: Outcome)
    requires Valid(s)
    requires exists i :: 0 <= i < |prompts| && prompts[i].None?
    ensures Valid(o.session)
    ensures o.written == CheckFileSaved(s, answer).written
    ensures !CheckFileSaved(s, answer).proceed ==> o.session == s && o.error.None?
    ensures CheckFileSaved(s, answer).proceed ==>
      var t := o.session.table;
      var names := NamesBeforeCancel(prompts);
      Settled(o.session) && o.session.file.None? &&
      t.names == names && t.originalNames == names && t.originalRows == [] &&
      !t.initialLoad && t.separator == ',' && t.hasHeaders &&
      (|names| > 0 ==> o.error.None? && t.rows == [NullRow(|names|)]) &&
      (|names| == 0 ==> o.error == Some(NoColumns) && t.rows == [])
  {
    var c := CheckFileSaved(s, answer);
    if !c.proceed then Outcome(s, None, None)
    else
      var t := TableModel.SetColumnIdentifiers(TableModel.NewTable(), NamesBeforeCancel(prompts));
      var added := AddNewRow(c.session.(table := t));
      Outcome(UpdatePrevious(added.session), added.error, c.written)
  }
}
