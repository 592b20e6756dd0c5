/** The table model behind the editor's grid (CSVTableModel together with the
    parts of javax.swing.table.DefaultTableModel it relies on), as an
    immutable value.

    A table holds the current rows and column names, an "original" snapshot
    taken by the first setDataVector after construction, the separator and
    header flag used for files, and the column type tags. Every operation
    returns the new table; a Java deep copy is simply the same value here. */
module TableModel {
  import opened Cells

  /** The class tag getColumnClass reports for a column. */
  datatype ColumnClass = StringClass | DoubleClass

  datatype Table = Table(
    rows: seq<Row>,                       // dataVector
    names: seq<string>,                   // columnIdentifiers
    originalRows: seq<Row>,               // originalData
    originalNames: seq<string>,           // originalColumnNames
    initialLoad: bool,                    // isInitialLoad
    separator: char,
    hasHeaders: bool,
    columnTypes: Option<seq<ColumnClass>> // columnTypes, None for Java null
  )

  /** DefaultTableModel's structural invariant: every current row has exactly
      one cell per column name. Every operation below re-establishes it. */
  predicate Wf(t: Table)
  {
    AllWidth(t.rows, |t.names|)
  }

  /** No column is tagged with anything but String. */
  predicate TextTyped(t: Table)
  {
    t.columnTypes.None? ||
    forall i :: 0 <= i < |t.columnTypes.value| ==> t.columnTypes.value[i] == StringClass
  }

  /** `new CSVTableModel()`: no rows, no columns, no snapshot yet, the
      default separator ',' and the header flag on. (The superclass
      constructor's own setDataVector call runs before isInitialLoad is
      initialised, so it takes no snapshot.) */
  function NewTable(): (t: Table)
    ensures Wf(t) && TextTyped(t)
    ensures t.rows == [] && t.names == [] && t.originalRows == [] && t.originalNames == []
    ensures t.initialLoad && t.separator == ',' && t.hasHeaders && t.columnTypes == None
  {
    Table([], [], [], [], true, ',', true, None)
  }

  /** `new CSVTableModel(data, names)`. The superclass constructor hands the
      data to setDataVector while isInitialLoad still holds Java's default
      false, so no snapshot is taken there, and DefaultTableModel justifies
      the very rows it was given. The constructor body then takes those
      justified rows and the names as the snapshot, after the field
      initialiser has set isInitialLoad to true. */
  function FromData(data: seq<Row>, names: seq<string>): (t: Table)
    ensures Wf(t) && TextTyped(t)
    ensures t.names == names && t.originalNames == names
    ensures |t.rows| == |data| && t.originalRows == t.rows
    ensures forall i :: 0 <= i < |data| ==> t.rows[i] == Justify(data[i], |names|)
    ensures t.initialLoad && t.separator == ',' && t.hasHeaders
  {
    var rows := JustifyAll(data, |names|);
    Table(rows, names, rows, names, true, ',', true, AnalyzeColumnTypes(|data|, |names|))
  }

  /** Every row brought to `n` cells, as DefaultTableModel.justifyRows does. */
  function JustifyAll(rows: seq<Row>, n: nat): (r: seq<Row>)
    ensures |r| == |rows| && AllWidth(r, n)
    ensures forall i :: 0 <= i < |rows| ==> r[i] == Justify(rows[i], n)
  {
    seq(|rows|, i requires 0 <= i < |rows| => Justify(rows[i], n))
  }

  /** Rows that already have `n` cells are left alone by justification. */
  lemma JustifyAllKeeps(rows: seq<Row>, n: nat)
    ensures AllWidth(rows, n) ==> JustifyAll(rows, n) == rows
  {
    if AllWidth(rows, n) {
      assert forall i :: 0 <= i < |rows| ==> rows[i][..n] == rows[i];
    }
  }

  /** analyzeColumnTypes. With no rows or no columns the tags are null;
      otherwise each column is first tagged String and, when every non-empty
      cell parses as a double, tagged String again: both branches give
      String, so the parse has no effect and is not modelled. */
  function AnalyzeColumnTypes(rowCount: nat, columnCount: nat): (r: Option<seq<ColumnClass>>)
    ensures r.None? <==> rowCount == 0 || columnCount == 0
    ensures r.Some? ==> |r.value| == columnCount
    ensures r.Some? ==> forall i :: 0 <= i < |r.value| ==> r.value[i] == StringClass
  {
    if rowCount == 0 || columnCount == 0 then None
    else Some(seq(columnCount, _ => StringClass))
  }

  /** getColumnClass: the stored tag when there is one for the column,
      String otherwise. A negative index reaches the array only when tags
      exist, where Java would throw. */
  function GetColumnClass(t: Table, column: int): (r: ColumnClass)
    requires t.columnTypes.None? || 0 <= column
    ensures TextTyped(t) ==> r == StringClass
  {
    if t.columnTypes.Some? && |t.columnTypes.value| > column then t.columnTypes.value[column]
    else StringClass
  }

  /** setDataVector(data, names). Only the first call after construction
      (isInitialLoad) copies the incoming rows and names into the original
      snapshot; the rows are then justified to the new column count and the
      type tags recomputed. */
  function SetDataVector(t: Table, data: seq<Row>, names: seq<string>): (r: Table)
    ensures Wf(r) && TextTyped(r)
    ensures r.names == names && |r.rows| == |data|
    ensures forall i :: 0 <= i < |data| ==> r.rows[i] == Justify(data[i], |names|)
    ensures t.initialLoad ==> r.originalRows == data && r.originalNames == names
    ensures !t.initialLoad ==> r.originalRows == t.originalRows && r.originalNames == t.originalNames
    ensures !r.initialLoad
    ensures r.separator == t.separator && r.hasHeaders == t.hasHeaders
    ensures r.columnTypes == AnalyzeColumnTypes(|data|, |names|)
  {
    var snapshot := if t.initialLoad then t.(originalRows := data, originalNames := names, initialLoad := false) else t;
    snapshot.(rows := JustifyAll(data, |names|), names := names,
              columnTypes := AnalyzeColumnTypes(|data|, |names|))
  }

  /** setColumnIdentifiers(names): DefaultTableModel implements it as
      setDataVector(dataVector, names), so it goes through the override above
      and can take the snapshot. */
  function SetColumnIdentifiers(t: Table, names: seq<string>): (r: Table)
    ensures Wf(r) && TextTyped(r)
    ensures r.names == names && |r.rows| == |t.rows|
    ensures forall i :: 0 <= i < |t.rows| ==> r.rows[i] == Justify(t.rows[i], |names|)
    ensures Wf(t) && |names| == |t.names| ==> r.rows == t.rows
    ensures t.initialLoad ==> r.originalRows == t.rows && r.originalNames == names
    ensures !t.initialLoad ==> r.originalRows == t.originalRows && r.originalNames == t.originalNames
    ensures !r.initialLoad
    ensures r.separator == t.separator && r.hasHeaders == t.hasHeaders
    ensures r.columnTypes == AnalyzeColumnTypes(|t.rows|, |names|)
  {
    JustifyAllKeeps(t.rows, |names|);
    SetDataVector(t, t.rows, names)
  }

  /** The snapshot is taken once: after any setDataVector, a second one leaves
      it as the first one set it. */
  lemma {:induction false} SnapshotTakenOnce(t: Table, d1: seq<Row>, n1: seq<string>, d2: seq<Row>, n2: seq<string>)
    ensures var r := SetDataVector(SetDataVector(t, d1, n1), d2, n2);
      r.originalRows == (if t.initialLoad then d1 else t.originalRows) &&
      r.originalNames == (if t.initialLoad then n1 else t.originalNames) &&
      r.rows == JustifyAll(d2, |n2|) && r.names == n2
  {
    var r1 := SetDataVector(t, d1, n1);
    assert !r1.initialLoad;
    var r := SetDataVector(r1, d2, n2);
    assert r.rows == JustifyAll(d2, |n2|);
  }

  /** Since isInitialLoad is still set after the two-argument constructor,
      the first setDataVector that follows (a filter, say) replaces the
      snapshot the constructor took. */
  lemma ConstructedSnapshotReplaced(data: seq<Row>, names: seq<string>, d: seq<Row>, n: seq<string>)
    ensures var r := SetDataVector(FromData(data, names), d, n);
      r.originalRows == d && r.originalNames == n && !r.initialLoad
  {
  }

  /** DefaultTableModel.addRow(cells): the row is appended, justified to the
      column count. */
  function AddRow(t: Table, cells: Row): (r: Table)
    requires Wf(t)
    ensures Wf(r)
    ensures r.rows == t.rows + [Justify(cells, |t.names|)]
    ensures r.(rows := t.rows) == t
  {
    t.(rows := t.rows + [Justify(cells, |t.names|)])
  }

  /** DefaultTableModel.setRowCount(0). */
  function ClearRows(t: Table): (r: Table)
    ensures Wf(r) && r.rows == [] && r.(rows := t.rows) == t
  {
    t.(rows := [])
  }

  /** restoreOriginalData: the current rows and names become a copy of the
      snapshot (through the superclass setDataVector, so no new snapshot and
      isInitialLoad unchanged) and the type tags are recomputed. */
  function RestoreOriginalData(t: Table): (r: Table)
    ensures Wf(r) && TextTyped(r)
    ensures r.names == t.originalNames && |r.rows| == |t.originalRows|
    ensures forall i :: 0 <= i < |t.originalRows| ==> r.rows[i] == Justify(t.originalRows[i], |t.originalNames|)
    ensures AllWidth(t.originalRows, |t.originalNames|) ==> r.rows == t.originalRows
    ensures r.originalRows == t.originalRows && r.originalNames == t.originalNames
    ensures r.initialLoad == t.initialLoad && r.separator == t.separator && r.hasHeaders == t.hasHeaders
    ensures r.columnTypes == AnalyzeColumnTypes(|t.originalRows|, |t.originalNames|)
  {
    JustifyAllKeeps(t.originalRows, |t.originalNames|);
    t.(rows := JustifyAll(t.originalRows, |t.originalNames|), names := t.originalNames,
       columnTypes := AnalyzeColumnTypes(|t.originalRows|, |t.originalNames|))
  }

  /** setOriginalData(data, names): replaces the snapshot, marks the initial
      load as done and restores from the new snapshot. */
  function SetOriginalData(t: Table, data: seq<Row>, names: seq<string>): (r: Table)
    ensures Wf(r) && TextTyped(r)
    ensures r.originalRows == data && r.originalNames == names && !r.initialLoad
    ensures r.names == names && |r.rows| == |data|
    ensures forall i :: 0 <= i < |data| ==> r.rows[i] == Justify(data[i], |names|)
    ensures AllWidth(data, |names|) ==> r.rows == data
    ensures r.separator == t.separator && r.hasHeaders == t.hasHeaders
    ensures r.columnTypes == AnalyzeColumnTypes(|data|, |names|)
  {
    RestoreOriginalData(t.(originalRows := data, originalNames := names, initialLoad := false))
  }

  /** Restoring after setDataVector calls that followed the snapshot (a
      filter, say) gives back exactly what the snapshot held. */
  lemma {:induction false} RestoreUndoesLaterData(t: Table, data: seq<Row>, names: seq<string>)
    requires !t.initialLoad
    requires AllWidth(t.originalRows, |t.originalNames|)
    ensures var r := RestoreOriginalData(SetDataVector(t, data, names));
      r.rows == t.originalRows && r.names == t.originalNames && !r.initialLoad
  {
  }

  /** addColumn(name): the superclass appends the name and justifies every
      current row (a new null cell); the override appends the name to the
      snapshot's names and a "" cell to every snapshot row. */
  function AddColumn(t: Table, name: string): (r: Table)
    ensures Wf(r)
    ensures r.names == t.names + [name]
    ensures r.originalNames == t.originalNames + [name]
    ensures |r.rows| == |t.rows| && |r.originalRows| == |t.originalRows|
    ensures Wf(t) ==> forall i :: 0 <= i < |t.rows| ==> r.rows[i] == t.rows[i] + [None]
    ensures forall i :: 0 <= i < |t.originalRows| ==> r.originalRows[i] == t.originalRows[i] + [Some("")]
    ensures r.initialLoad == t.initialLoad && r.columnTypes == t.columnTypes
    ensures r.separator == t.separator && r.hasHeaders == t.hasHeaders
  {
    var n := |t.names| + 1;
    t.(names := t.names + [name],
       rows := JustifyAll(t.rows, n),
       originalNames := t.originalNames + [name],
       originalRows := seq(|t.originalRows|, i requires 0 <= i < |t.originalRows| => t.originalRows[i] + [Some("")]))
  }

  /** Every row in `rows` has a cell at index `i`. */
  predicate HasCell(rows: seq<Row>, i: int)
  {
    0 <= i && forall k :: 0 <= k < |rows| ==> i < |rows[k]|
  }

  /** A row without its cell at index `i`. */
  function DropCell(row: Row, i: nat): (r: Row)
    requires i < |row|
    ensures |r| == |row| - 1
    ensures forall j :: 0 <= j < |r| ==> r[j] == row[if j < i then j else j + 1]
  {
    row[..i] + row[i + 1..]
  }

  /** Every row without its cell at index `i`. */
  function DropColumn(rows: seq<Row>, i: nat): (r: seq<Row>)
    requires HasCell(rows, i)
    ensures |r| == |rows|
    ensures forall k :: 0 <= k < |rows| ==> r[k] == DropCell(rows[k], i)
  {
    seq(|rows|, k requires 0 <= k < |rows| => DropCell(rows[k], i))
  }

  /** removeColumn(i): the name and the cell at `i` leave the current names,
      every current row, every snapshot row and the snapshot names. Java's
      Vector.remove throws when `i` is out of range for any of them. */
  function RemoveColumn(t: Table, i: int): (r: Table)
    requires 0 <= i < |t.names| && i < |t.originalNames|
    requires HasCell(t.rows, i) && HasCell(t.originalRows, i)
    ensures Wf(t) ==> Wf(r)
    ensures |r.names| == |t.names| - 1 && |r.originalNames| == |t.originalNames| - 1
    ensures forall j :: 0 <= j < |r.names| ==> r.names[j] == t.names[if j < i then j else j + 1]
    ensures forall j :: 0 <= j < |r.originalNames| ==> r.originalNames[j] == t.originalNames[if j < i then j else j + 1]
    ensures |r.rows| == |t.rows| && |r.originalRows| == |t.originalRows|
    ensures forall k :: 0 <= k < |t.rows| ==>
      (|r.rows[k]| == |t.rows[k]| - 1 &&
       forall j :: 0 <= j < |r.rows[k]| ==> r.rows[k][j] == t.rows[k][if j < i then j else j + 1])
    ensures forall k :: 0 <= k < |t.originalRows| ==>
      (|r.originalRows[k]| == |t.originalRows[k]| - 1 &&
       forall j :: 0 <= j < |r.originalRows[k]| ==> r.originalRows[k][j] == t.originalRows[k][if j < i then j else j + 1])
    ensures r.initialLoad == t.initialLoad && r.columnTypes == t.columnTypes
    ensures r.separator == t.separator && r.hasHeaders == t.hasHeaders
  {
    t.(names := t.names[..i] + t.names[i + 1..],
       rows := DropColumn(t.rows, i),
       originalRows := DropColumn(t.originalRows, i),
       originalNames := t.originalNames[..i] + t.originalNames[i + 1..])
  }

  /** Removing the column that was just added gives the table back, when the
      snapshot has as many columns as the current table. */
  lemma {:induction false} RemoveAddedColumn(t: Table, name: string)
    requires Wf(t)
    requires |t.originalNames| == |t.names| && AllWidth(t.originalRows, |t.names|)
    ensures RemoveColumn(AddColumn(t, name), |t.names|) == t
  {
    var a := AddColumn(t, name);
    var n := |t.names|;
    assert HasCell(a.rows, n);
    assert HasCell(a.originalRows, n);
    var r := RemoveColumn(a, n);
    assert r.names == t.names;
    assert r.originalNames == t.originalNames;
    assert forall k :: 0 <= k < |t.rows| ==> r.rows[k] == t.rows[k];
    assert forall k :: 0 <= k < |t.originalRows| ==> r.originalRows[k] == t.originalRows[k];
  }

  /** AbstractTableModel.findColumn(name): the first column whose name equals
      `name`, or -1. */
  function FindColumn(names: seq<string>, name: string): (r: int)
    ensures r == -1 <==> name !in names
    ensures r != -1 ==> 0 <= r < |names| && names[r] == name && name !in names[..r]
  {
    FindColumnFrom(names, name, 0)
  }

  function FindColumnFrom(names: seq<string>, name: string, from: nat): (r: int)
    requires from <= |names|
    requires name !in names[..from]
    ensures r == -1 <==> name !in names
    ensures r != -1 ==> from <= r < |names| && names[r] == name && name !in names[..r]
    decreases |names| - from
  {
    if from == |names| then
      assert names[..from] == names;
      -1
    else if names[from] == name then from
    else
      assert names[..from + 1] == names[..from] + [names[from]];
      FindColumnFrom(names, name, from + 1)
  }
}
