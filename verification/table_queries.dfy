/** The read-only queries of CSVTableModel: the case-insensitive column
    lookup, the count of distinct values in a column and the empty-cell
    test. */
module TableQueries {
  import opened Cells
  import Strings
  import TableModel

  /** findColumnCaseInsensitive(name): the first column whose name equals
      `name` ignoring case, or -1 when there is none. */
  function FindColumnCaseInsensitive(names: seq<string>, name: string): (r: int)
    ensures -1 <= r < |names|
    ensures r == -1 <==> forall i :: 0 <= i < |names| ==> !Strings.EqualsIgnoreCase(names[i], name)
    ensures r != -1 ==> Strings.EqualsIgnoreCase(names[r], name)
    ensures r != -1 ==> forall i :: 0 <= i < r ==> !Strings.EqualsIgnoreCase(names[i], name)
  {
    FindIgnoringCaseFrom(names, name, 0)
  }

  /** The search of FindColumnCaseInsensitive from index `from` on. */
  function FindIgnoringCaseFrom(names: seq<string>, name: string, from: nat): (r: int)
    requires from <= |names|
    requires forall i :: 0 <= i < from ==> !Strings.EqualsIgnoreCase(names[i], name)
    ensures -1 <= r < |names|
    ensures r == -1 <==> forall i :: 0 <= i < |names| ==> !Strings.EqualsIgnoreCase(names[i], name)
    ensures r != -1 ==> from <= r && Strings.EqualsIgnoreCase(names[r], name)
    ensures r != -1 ==> forall i :: 0 <= i < r ==> !Strings.EqualsIgnoreCase(names[i], name)
    decreases |names| - from
  {
    if from == |names| then -1
    else if Strings.EqualsIgnoreCase(names[from], name) then from
    else FindIgnoringCaseFrom(names, name, from + 1)
  }

  /** A name matches itself ignoring case. */
  lemma EqualsIgnoreCaseReflexive(s: string)
    ensures Strings.EqualsIgnoreCase(s, s)
  {
  }

  /** Whenever the exact lookup findColumn succeeds, the case-insensitive one
      succeeds too, at that column or an earlier one. */
  lemma CaseInsensitiveFindsExact(names: seq<string>, name: string)
    ensures TableModel.FindColumn(names, name) != -1 ==>
      0 <= FindColumnCaseInsensitive(names, name) <= TableModel.FindColumn(names, name)
  {
    var e := TableModel.FindColumn(names, name);
    if e != -1 {
      EqualsIgnoreCaseReflexive(name);
      assert Strings.EqualsIgnoreCase(names[e], name);
    }
  }

  /** Arguments that differ only in ASCII case find the same column. */
  lemma CaseOfArgumentIrrelevant(names: seq<string>, a: string, b: string)
    requires Strings.EqualsIgnoreCase(a, b)
    ensures FindColumnCaseInsensitive(names, a) == FindColumnCaseInsensitive(names, b)
  {
    assert forall s :: Strings.EqualsIgnoreCase(s, a) <==> Strings.EqualsIgnoreCase(s, b);
    var ra := FindColumnCaseInsensitive(names, a);
    var rb := FindColumnCaseInsensitive(names, b);
    if ra != -1 && rb != -1 {
      assert !(ra < rb) && !(rb < ra);
    }
  }

  /** The cells of column `col`, top to bottom. */
  function ColumnValues(rows: seq<Row>, col: int): (r: seq<Cell>)
    requires TableModel.HasCell(rows, col)
    ensures |r| == |rows|
    ensures forall k :: 0 <= k < |rows| ==> r[k] == rows[k][col]
  {
    seq(|rows|, k requires 0 <= k < |rows| => rows[k][col])
  }

  /** Some key of a non-empty map. */
  ghost function PickKey(m: map<Cell, nat>): (k: Cell)
    requires |m.Keys| > 0
    ensures k in m.Keys
  {
    var k :| k in m.Keys; k
  }

  /** The sum of a map's counts (the map is finite, so the order of the
      summation does not matter; TotalRemove shows it). */
  ghost function Total(m: map<Cell, nat>): nat
    decreases |m.Keys|
  {
    if |m.Keys| == 0 then 0
    else
      var k := PickKey(m);
      m[k] + Total(m - {k})
  }

  /** Any key can be summed first. */
  lemma {:induction false} TotalRemove(m: map<Cell, nat>, k: Cell)
    requires k in m.Keys
    ensures Total(m) == m[k] + Total(m - {k})
    decreases |m.Keys|
  {
    var j := PickKey(m);
    if j != k {
      var mj := m - {j};
      var mk := m - {k};
      assert |mj.Keys| < |m.Keys| by { assert mj.Keys < m.Keys; }
      assert |mk.Keys| < |m.Keys| by { assert mk.Keys < m.Keys; }
      TotalRemove(mj, k);
      TotalRemove(mk, j);
      assert mj - {k} == mk - {j};
    }
  }

  /** Setting one key's count changes the total by the difference. */
  lemma TotalUpdate(m: map<Cell, nat>, k: Cell, x: nat)
    ensures Total(m[k := x]) == Total(m) - (if k in m.Keys then m[k] else 0) + x
  {
    var u := m[k := x];
    TotalRemove(u, k);
    assert u - {k} == m - {k};
    if k in m.Keys {
      TotalRemove(m, k);
    } else {
      assert m - {k} == m;
    }
  }

  /** `counts` tallies `seen`: its keys are exactly the values seen, each
      mapped to its number of occurrences, and the counts add up to the
      number of values seen. */
  ghost predicate Tallies(counts: map<Cell, nat>, seen: seq<Cell>)
  {
    (forall v :: v in counts.Keys <==> v in seen) &&
    (forall v :: v in counts.Keys ==> counts[v] == multiset(seen)[v]) &&
    Total(counts) == |seen|
  }

  /** One getOrDefault(value, 0) + 1 update keeps the tally. */
  lemma TallyStep(counts: map<Cell, nat>, seen: seq<Cell>, value: Cell)
    requires Tallies(counts, seen)
    ensures Tallies(counts[value := (if value in counts then counts[value] else 0) + 1], seen + [value])
  {
    var c := counts[value := (if value in counts then counts[value] else 0) + 1];
    TotalUpdate(counts, value, (if value in counts then counts[value] else 0) + 1);
    assert multiset(seen + [value]) == multiset(seen) + multiset{value};
    assert forall v :: v in seen + [value] <==> v in seen || v == value;
  }

  /** countUniqueValues(col): a map from each value in the column (null
      included) to the number of rows holding it, filled by a pass over the
      rows with getOrDefault(value, 0) + 1. Java reads the cell of every
      row, so the column must exist in each of them; with no rows nothing
      is read. */
  method CountUniqueValues(t: TableModel.Table, col: int) returns (counts: map<Cell, nat>)
    requires |t.rows| == 0 || TableModel.HasCell(t.rows, col)
    ensures |t.rows| == 0 ==> counts == map[]
    ensures TableModel.HasCell(t.rows, col) ==>
      forall v :: v in counts.Keys <==> v in ColumnValues(t.rows, col)
    ensures TableModel.HasCell(t.rows, col) ==>
      forall v :: v in counts.Keys ==> counts[v] == multiset(ColumnValues(t.rows, col))[v]
    ensures Total(counts) == |t.rows|
  {
    counts := map[];
    if |t.rows| == 0 {
      return;
    }
    counts := TallyValues(ColumnValues(t.rows, col));
  }

  /** The counting loop of countUniqueValues over the column's values. */
  method TallyValues(values: seq<Cell>) returns (counts: map<Cell, nat>)
    ensures Tallies(counts, values)
  {
    counts := map[];
    var i := 0;
    while i < |values|
      invariant 0 <= i <= |values|
      invariant Tallies(counts, values[..i])
    {
      var value := values[i];
      TallyStep(counts, values[..i], value);
      assert values[..i + 1] == values[..i] + [value];
      counts := counts[value := (if value in counts then counts[value] else 0) + 1];
      i := i + 1;
    }
    assert values[..i] == values;
  }

  /** A cell hasEmptyCells treats as empty: null, or text that is blank
      after trim. */
  predicate EmptyCell(c: Cell)
  {
    c.None? || IsBlank(c.value)
  }

  /** Some cell of the grid (rows by column count) is empty. */
  predicate SomeEmptyCell(t: TableModel.Table)
    requires TableModel.Wf(t)
  {
    exists i, j :: 0 <= i < |t.rows| && 0 <= j < |t.names| && EmptyCell(t.rows[i][j])
  }

  /** hasEmptyCells(): scans the grid row by row and stops at the first
      empty cell. */
  method HasEmptyCells(t: TableModel.Table) returns (found: bool)
    requires TableModel.Wf(t)
    ensures found <==> SomeEmptyCell(t)
  {
    var row := 0;
    while row < |t.rows|
      invariant 0 <= row <= |t.rows|
      invariant forall i, j :: 0 <= i < row && 0 <= j < |t.names| ==> !EmptyCell(t.rows[i][j])
    {
      var col := 0;
      while col < |t.names|
        invariant 0 <= col <= |t.names|
        invariant forall j :: 0 <= j < col ==> !EmptyCell(t.rows[row][j])
      {
        if EmptyCell(t.rows[row][col]) {
          return true;
        }
        col := col + 1;
      }
      row := row + 1;
    }
    return false;
  }

  /** A table with a column and a freshly added null row has an empty cell;
      a table with no columns has none. */
  lemma EmptyCellAfterNullRow(t: TableModel.Table)
    requires TableModel.Wf(t)
    ensures |t.names| > 0 ==> SomeEmptyCell(TableModel.AddRow(t, NullRow(|t.names|)))
    ensures |t.names| == 0 ==> !SomeEmptyCell(t)
  {
    if |t.names| > 0 {
      var r := TableModel.AddRow(t, NullRow(|t.names|));
      assert EmptyCell(r.rows[|t.rows|][0]);
    }
  }
}
