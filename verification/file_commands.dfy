/** The controller's file commands: openFile and loadCSV on the lines of the
    chosen file, saveFile and saveFileAs with the answers to their dialogs,
    and the round trip from a saved file back to the table. */
module FileCommands {
  import opened Cells
  import Strings
  import TableModel
  import TableText
  import CsvFormat
  import Controller

  /** addRow for each row in turn, each justified to the column count. */
  function AddRows(t: TableModel.Table, rows: seq<Row>): (r: TableModel.Table)
    requires TableModel.Wf(t)
    ensures TableModel.Wf(r)
    ensures r.rows == t.rows + TableModel.JustifyAll(rows, |t.names|)
    ensures r.(rows := t.rows) == t
    decreases |rows|
  {
    if |rows| == 0 then t
    else
      var n := |rows| - 1;
      var front := AddRows(t, rows[..n]);
      assert TableModel.JustifyAll(rows, |t.names|) == TableModel.JustifyAll(rows[..n], |t.names|) + [Justify(rows[n], |t.names|)];
      TableModel.AddRow(front, rows[n])
  }

  /** The column names and the data lines of a parsed file: the first line's
      fields when the header flag is on, else "Kol 1".."Kol n" for a first
      line of n fields, which then stays a data line. */
  function Header(hasHeaders: bool, data: seq<seq<string>>): (r: (seq<string>, seq<seq<string>>))
    requires |data| > 0
    ensures hasHeaders ==> r.0 == data[0] && r.1 == data[1..]
    ensures !hasHeaders ==> r.0 == CsvFormat.GeneratedNames(|data[0]|) && r.1 == data
  {
    if hasHeaders then (data[0], data[1..]) else (CsvFormat.GeneratedNames(|data[0]|), data)
  }

  /** What loading parsed lines `data` with separator `sep` makes of session
      `s`: the table takes the separator and the names (through
      setColumnIdentifiers, which on a table that never had data takes the
      snapshot there, from the rows it holds at that moment, and tags the
      columns by those rows); all its rows are replaced by the data lines,
      each justified to the column count, and the restore point is
      refreshed. */
  ghost predicate Loaded(s: Controller.Session, r: Controller.Session, sep: char, data: seq<seq<string>>)
    requires |data| > 0
  {
    var names := Header(s.table.hasHeaders, data).0;
    var body := Header(s.table.hasHeaders, data).1;
    Controller.Settled(r) && r.file == s.file &&
    r.table.separator == sep && r.table.hasHeaders == s.table.hasHeaders &&
    r.table.names == names && !r.table.initialLoad &&
    |r.table.rows| == |body| &&
    (forall k :: 0 <= k < |body| ==> r.table.rows[k] == Justify(TextCells(body[k]), |names|)) &&
    (s.table.initialLoad ==> r.table.originalRows == s.table.rows && r.table.originalNames == names) &&
    (!s.table.initialLoad ==>
      r.table.originalRows == s.table.originalRows && r.table.originalNames == s.table.originalNames) &&
    r.table.columnTypes == TableModel.AnalyzeColumnTypes(|s.table.rows|, |names|)
  }

  /** The table steps of loadCSV: setSeparator, setColumnIdentifiers,
      setRowCount(0), then addRow for each data row. */
  function LoadTable(t: TableModel.Table, sep: char, names: seq<string>, rows: seq<Row>): (r: TableModel.Table)
    requires TableModel.Wf(t)
    ensures TableModel.Wf(r) && TableModel.TextTyped(r)
    ensures r.separator == sep && r.hasHeaders == t.hasHeaders && r.names == names && !r.initialLoad
    ensures r.rows == TableModel.JustifyAll(rows, |names|)
    ensures t.initialLoad ==> r.originalRows == t.rows && r.originalNames == names
    ensures !t.initialLoad ==> r.originalRows == t.originalRows && r.originalNames == t.originalNames
    ensures r.columnTypes == TableModel.AnalyzeColumnTypes(|t.rows|, |names|)
  {
    var named := TableModel.SetColumnIdentifiers(t.(separator := sep), names);
    AddRows(TableModel.ClearRows(named), rows)
  }

  /** The data lines as rows of non-null cells, as addRow receives them. */
  function DataCells(body: seq<seq<string>>): (rows: seq<Row>)
    ensures |rows| == |body|
    ensures forall k :: 0 <= k < |body| ==> rows[k] == TextCells(body[k])
  {
    seq(|body|, k requires 0 <= k < |body| => TextCells(body[k]))
  }

  /** The body of loadCSV once the separator is known and every line split. */
  function LoadParsed(s: Controller.Session, sep: char, data: seq<seq<string>>): (r: Controller.Session)
    requires Controller.Valid(s) && |data| > 0
    ensures Controller.Valid(r) && Loaded(s, r, sep, data)
  {
    var h := Header(s.table.hasHeaders, data);
    var t := LoadTable(s.table, sep, h.0, DataCells(h.1));
    Controller.UpdatePrevious(s.(table := t))
  }

  /** Every line split on `sep` with the literal split. */
  function ParsedLines(lines: seq<string>, sep: char): (data: seq<seq<string>>)
    ensures |data| == |lines|
    ensures forall i :: 0 <= i < |lines| ==> data[i] == CsvFormat.ParseLine(lines[i], sep)
  {
    seq(|lines|, i requires 0 <= i < |lines| => CsvFormat.ParseLine(lines[i], sep))
  }

  /** loadCSV on the lines of the file, with the literal split. The separator
      is voted on the lines; every line is split on it with trailing empty
      fields kept. A file with no lines changes nothing. */
  function LoadCsv(s: Controller.Session, lines: seq<string>): (r: Controller.Session)
    requires Controller.Valid(s)
    ensures Controller.Valid(r)
    ensures |lines| == 0 ==> r == s
    ensures |lines| > 0 ==>
      var sep := CsvFormat.DetectSeparator(lines);
      Loaded(s, r, sep, ParsedLines(lines, sep))
  {
    if |lines| == 0 then s
    else
      var sep := CsvFormat.DetectSeparator(lines);
      LoadParsed(s, sep, ParsedLines(lines, sep))
  }

  /** Every line split on `sep` as the code calls String.split. */
  function ParsedLinesAsWritten(lines: seq<string>, sep: char): (data: seq<seq<string>>)
    requires sep in CsvFormat.Candidates
    ensures |data| == |lines|
    ensures forall i :: 0 <= i < |lines| ==> data[i] == CsvFormat.ParseLineAsWritten(lines[i], sep)
  {
    seq(|lines|, i requires 0 <= i < |lines| => CsvFormat.ParseLineAsWritten(lines[i], sep))
  }

  /** loadCSV as written, with String.split's regular-expression reading of
      the separator. */
  function LoadCsvAsWritten(s: Controller.Session, lines: seq<string>): (r: Controller.Session)
    requires Controller.Valid(s)
    ensures Controller.Valid(r)
    ensures |lines| == 0 ==> r == s
    ensures |lines| > 0 ==>
      var sep := CsvFormat.DetectSeparator(lines);
      Loaded(s, r, sep, ParsedLinesAsWritten(lines, sep))
  {
    if |lines| == 0 then s
    else
      var sep := CsvFormat.DetectSeparator(lines);
      LoadParsed(s, sep, ParsedLinesAsWritten(lines, sep))
  }

  /** Unless the vote picks '|', loadCSV as written is the literal-split
      load. */
  lemma AsWrittenAgrees(s: Controller.Session, lines: seq<string>)
    requires Controller.Valid(s)
    requires |lines| == 0 || CsvFormat.DetectSeparator(lines) != '|'
    ensures LoadCsvAsWritten(s, lines) == LoadCsv(s, lines)
  {
    if |lines| > 0 {
      var sep := CsvFormat.DetectSeparator(lines);
      assert ParsedLinesAsWritten(lines, sep) == ParsedLines(lines, sep);
    }
  }

  /** openFile with the file the user chose (None when the dialog was
      cancelled) and what reading it gave (None when the read failed). The
      chosen file becomes the current file even when it cannot be read; a
      failed read reports ReadFailed and leaves the table alone. */
  function OpenFile(s: Controller.Session, chosen: Option<string>, content: Option<seq<string>>): (o: Controller.Outcome)
    requires Controller.Valid(s)
    ensures Controller.Valid(o.session) && o.written.None?
    ensures chosen.None? ==> o.session == s && o.error.None?
    ensures chosen.Some? ==> o.session.file == chosen
    ensures chosen.Some? && content.None? ==>
      o.error == Some(Controller.ReadFailed) && o.session == s.(file := chosen)
    ensures chosen.Some? && content.Some? ==>
      o.error.None? && o.session == LoadCsv(s.(file := chosen), content.value)
  {
    if chosen.None? then Controller.Outcome(s, None, None)
    else
      var withFile := s.(file := chosen);
      if content.None? then Controller.Refuse(withFile, Controller.ReadFailed)
      else Controller.Outcome(LoadCsv(withFile, content.value), None, None)
  }

  /** saveToFile: the table's text, with no escaping, to the given path. */
  function SaveToFile(t: TableModel.Table, path: string): (w: Controller.FileWrite)
    requires TableModel.Wf(t)
    ensures w.path == path && w.text == TableText.PlainText(t)
  {
    Controller.FileWrite(path, TableText.PlainText(t))
  }

  /** saveFileAs with the answer to the separator prompt (None when
      cancelled; Java reads its first character, so an empty answer is not
      modelled) and the file chosen to save to. The separator is set even
      when no file is chosen, on the table only: the restore point keeps
      its own. */
  function SaveFileAs(s: Controller.Session, sepAnswer: Option<string>, chosen: Option<string>): (o: Controller.Outcome)
    requires Controller.Valid(s)
    requires sepAnswer.Some? ==> |sepAnswer.value| > 0
    ensures Controller.Valid(o.session) && o.error.None?
    ensures o.session.previous == s.previous
    ensures o.session.table.separator == (if sepAnswer.Some? then sepAnswer.value[0] else s.table.separator)
    ensures o.session.table.(separator := s.table.separator) == s.table
    ensures chosen.None? ==> o.session.file == s.file && o.written.None?
    ensures chosen.Some? ==>
      o.session.file == chosen && o.written == Some(SaveToFile(o.session.table, chosen.value))
  {
    var t := if sepAnswer.Some? then s.table.(separator := sepAnswer.value[0]) else s.table;
    if chosen.None? then Controller.Outcome(s.(table := t), None, None)
    else Controller.Outcome(Controller.Session(t, s.previous, chosen), None, Some(SaveToFile(t, chosen.value)))
  }

  /** saveFile: to the current file when there is one, else as saveFileAs. */
  function SaveFile(s: Controller.Session, sepAnswer: Option<string>, chosen: Option<string>): (o: Controller.Outcome)
    requires Controller.Valid(s)
    requires sepAnswer.Some? ==> |sepAnswer.value| > 0
    ensures Controller.Valid(o.session) && o.error.None?
    ensures s.file.Some? ==> o.session == s && o.written == Some(SaveToFile(s.table, s.file.value))
    ensures s.file.None? ==> o == SaveFileAs(s, sepAnswer, chosen)
  {
    if s.file.Some? then Controller.Outcome(s, None, Some(SaveToFile(s.table, s.file.value)))
    else SaveFileAs(s, sepAnswer, chosen)
  }

  /** A separator chosen in saveFileAs is forgotten by clearFilters, since
      the restore point was not refreshed. */
  lemma ClearForgetsChosenSeparator(s: Controller.Session, c: char, chosen: Option<string>)
    requires Controller.Valid(s) && Controller.Settled(s)
    ensures var o := SaveFileAs(s, Some([c]), chosen);
      o.session.table.separator == c &&
      Controller.ClearFilters(o.session).table.separator == s.table.separator
  {
  }

  /** What a table holds that survives being saved and loaded again: no name
      and no cell holds the separator or a line terminator, and the
      separator is not a line terminator. */
  predicate Portable(t: TableModel.Table)
  {
    !Strings.IsLineBreak(t.separator) &&
    (forall i :: 0 <= i < |t.names| ==> Strings.NoLineBreak(t.names[i]) && t.separator !in t.names[i]) &&
    (forall k, i :: 0 <= k < |t.rows| && 0 <= i < |t.rows[k]| ==>
      Strings.NoLineBreak(CellText(t.rows[k][i])) && t.separator !in CellText(t.rows[k][i]))
  }

  /** The lines of a saved table are its records without quoting. */
  lemma SavedLines(t: TableModel.Table)
    requires TableModel.Wf(t) && Portable(t)
    ensures Strings.ReadLines(TableText.PlainText(t)) == TableText.Records(t, false)
  {
    TableText.RecordsLineFree(t, false);
    Strings.ReadJoinLines(TableText.Records(t, false));
  }

  /** Each saved data line parses back into the row's texts. */
  lemma SavedRowParses(t: TableModel.Table, k: int)
    requires TableModel.Wf(t) && Portable(t) && |t.names| > 0
    requires 0 <= k < |t.rows|
    ensures CsvFormat.ParseLine(Strings.Join(TableText.Fields(t.rows[k], |t.names|, false), t.separator), t.separator)
      == RowText(t.rows[k])
  {
    var f := TableText.Fields(t.rows[k], |t.names|, false);
    assert f == RowText(t.rows[k]);
    CsvFormat.ParseJoinedLine(f, t.separator);
  }

  /** Saving a table with headers and opening the file again, in a session
      whose table reads headers, gives back the names and the separator, and
      every row with its null cells turned into "": the only thing a saved
      file loses. The separator is found again by the vote, so the table's
      separator must win it. */
  lemma SaveLoadRoundTrip(s: Controller.Session, t: TableModel.Table)
    requires Controller.Valid(s) && s.table.hasHeaders
    requires TableModel.Wf(t) && t.hasHeaders && |t.names| > 0 && Portable(t)
    requires CsvFormat.DetectSeparator(Strings.ReadLines(TableText.PlainText(t))) == t.separator
    ensures var r := LoadCsv(s, Strings.ReadLines(TableText.PlainText(t)));
      r.table.names == t.names && r.table.separator == t.separator &&
      |r.table.rows| == |t.rows| &&
      forall k :: 0 <= k < |t.rows| ==> r.table.rows[k] == NullsAsEmpty(t.rows[k])
  {
    var lines := Strings.ReadLines(TableText.PlainText(t));
    SavedLines(t);
    var sep := t.separator;
    var data := seq(|lines|, i requires 0 <= i < |lines| => CsvFormat.ParseLine(lines[i], sep));
    CsvFormat.ParseJoinedLine(t.names, sep);
    assert data[0] == t.names;
    var r := LoadCsv(s, lines);
    var body := data[1..];
    assert Header(true, data) == (t.names, body);
    forall k | 0 <= k < |t.rows| ensures r.table.rows[k] == NullsAsEmpty(t.rows[k]) {
      SavedRowParses(t, k);
      assert body[k] == data[k + 1] == RowText(t.rows[k]);
      assert r.table.rows[k] == Justify(TextCells(body[k]), |t.names|);
      JustifyOwnWidth(NullsAsEmpty(t.rows[k]));
    }
  }

  /** Saving a table of two or more columns with separator '|' and loading
      it with the split as written does not give the names back: the header
      line falls apart into single characters, and the '|' between the first
      two names becomes a name of its own, which no saved name can be. The
      literal-split load gives them back. */
  lemma PipeLoadLosesNames(s: Controller.Session, t: TableModel.Table)
    requires Controller.Valid(s) && s.table.hasHeaders
    requires TableModel.Wf(t) && t.hasHeaders && |t.names| >= 2 && Portable(t) && t.separator == '|'
    requires CsvFormat.DetectSeparator(Strings.ReadLines(TableText.PlainText(t))) == '|'
    ensures LoadCsvAsWritten(s, Strings.ReadLines(TableText.PlainText(t))).table.names != t.names
    ensures LoadCsv(s, Strings.ReadLines(TableText.PlainText(t))).table.names == t.names
  {
    var lines := Strings.ReadLines(TableText.PlainText(t));
    SavedLines(t);
    var line := lines[0];
    Strings.JoinSeparatorAfterFirst(t.names, '|');
    var p := |t.names[0]|;
    var data := ParsedLinesAsWritten(lines, '|');
    assert p < |data[0]| && data[0][p] == "|";
    assert forall i :: 0 <= i < |t.names| ==> t.names[i] != "|";
    SaveLoadRoundTrip(s, t);
  }
}
