/** CSVTableModel.sort(columnIndex, ascending): the rows are sorted by one
    column with List.sort, a stable sort, under a comparator that puts null
    cells first when ascending (last when descending) and otherwise compares
    the cells' strings with String.compareTo, arguments swapped when
    descending.

    The comparator's Number branch never applies: every cell the editor holds
    is a string or null. The model is an insertion sort that keeps equal rows
    in their order; its result is sorted, a permutation and stable, and a
    sorted sequence that keeps every key's run is unique (SortedStableUnique),
    so it is the output List.sort produces. */
module RowSort {
  import opened Cells
  import Strings
  import TableModel

  /** The comparator handed to List.sort, applied to the two rows' cells. */
  function CompareCells(a: Cell, b: Cell, ascending: bool): int
  {
    if a.None? && b.None? then 0
    else if a.None? then (if ascending then -1 else 1)
    else if b.None? then (if ascending then 1 else -1)
    else if ascending then Strings.CompareTo(a.value, b.value)
    else Strings.CompareTo(b.value, a.value)
  }

  /** `a` may stand before `b` in the sorted order. */
  predicate NotAfter(a: Cell, b: Cell, ascending: bool)
  {
    CompareCells(a, b, ascending) <= 0
  }

  /** The comparator calls two cells equal exactly when they are equal. */
  lemma CompareCellsZero(a: Cell, b: Cell, ascending: bool)
    ensures CompareCells(a, b, ascending) == 0 <==> a == b
  {
    if a.Some? && b.Some? {
      Strings.CompareToZero(a.value, b.value);
      Strings.CompareToZero(b.value, a.value);
    }
  }

  /** Swapping the cells negates the comparison (the sign contract of
      Comparator). */
  lemma CompareCellsFlip(a: Cell, b: Cell, ascending: bool)
    ensures CompareCells(b, a, ascending) == -CompareCells(a, b, ascending)
  {
    if a.Some? && b.Some? {
      Strings.CompareToFlip(a.value, b.value);
    }
  }

  /** NotAfter is transitive. */
  lemma NotAfterTransitive(a: Cell, b: Cell, c: Cell, ascending: bool)
    requires NotAfter(a, b, ascending) && NotAfter(b, c, ascending)
    ensures NotAfter(a, c, ascending)
  {
    if a.Some? && b.Some? && c.Some? {
      if ascending {
        Strings.CompareToTransitive(a.value, b.value, c.value);
      } else {
        Strings.CompareToTransitive(c.value, b.value, a.value);
      }
    }
  }

  /** What sort needs to run without an exception: List.sort consults the
      comparator only when there are two rows or more. */
  predicate Sortable(rows: seq<Row>, col: int)
  {
    |rows| < 2 || TableModel.HasCell(rows, col)
  }

  /** Adjacent and non-adjacent rows alike are in comparator order. */
  predicate SortedBy(rows: seq<Row>, col: int, ascending: bool)
    requires Sortable(rows, col)
  {
    forall i, j :: 0 <= i < j < |rows| ==> NotAfter(rows[i][col], rows[j][col], ascending)
  }

  /** The rows whose cell at `col` is `v`, in their order. */
  function WithKey(rows: seq<Row>, col: int, v: Cell): seq<Row>
    decreases |rows|
  {
    if |rows| == 0 then []
    else WithKey(rows[..|rows| - 1], col, v) + Tag(rows[|rows| - 1], col, v)
  }

  /** Equal-keyed rows keep their relative order. */
  ghost predicate StableFor(sorted: seq<Row>, rows: seq<Row>, col: int)
  {
    forall v :: WithKey(sorted, col, v) == WithKey(rows, col, v)
  }

  /** One insertion step: `row` goes after every row that does not compare
      greater, so it lands behind the rows equal to it. */
  function Insert(sorted: seq<Row>, row: Row, col: int, ascending: bool): (r: seq<Row>)
    requires |sorted| == 0 || (0 <= col < |row| && TableModel.HasCell(sorted, col))
    ensures multiset(r) == multiset(sorted) + multiset{row}
    ensures |r| == |sorted| + 1
    ensures 0 <= col < |row| && TableModel.HasCell(sorted, col) ==> TableModel.HasCell(r, col)
    decreases |sorted|
  {
    if |sorted| == 0 then [row]
    else
      var init := sorted[..|sorted| - 1];
      var last := sorted[|sorted| - 1];
      LastSplit(sorted);
      HasCellFront(sorted, col);
      if CompareCells(last[col], row[col], ascending) > 0 then
        var front := Insert(init, row, col, ascending);
        HasCellSnoc(front, last, col);
        assert multiset(front + [last]) == multiset(front) + multiset{last};
        front + [last]
      else
        HasCellSnoc(sorted, row, col);
        sorted + [row]
  }

  /** The rows before the last keep the column, and so does the last. */
  lemma HasCellFront(s: seq<Row>, col: int)
    requires |s| > 0 && TableModel.HasCell(s, col)
    ensures TableModel.HasCell(s[..|s| - 1], col) && col < |s[|s| - 1]|
  {
  }

  /** Appending a row that has the column keeps it present everywhere. */
  lemma HasCellSnoc(s: seq<Row>, x: Row, col: int)
    requires TableModel.HasCell(s, col) && col < |x|
    ensures TableModel.HasCell(s + [x], col)
  {
  }

  /** Insertion sort of the rows by column `col`. */
  function SortRows(rows: seq<Row>, col: int, ascending: bool): (r: seq<Row>)
    requires Sortable(rows, col)
    ensures multiset(r) == multiset(rows)
    ensures |r| == |rows|
    ensures TableModel.HasCell(rows, col) ==> TableModel.HasCell(r, col)
    decreases |rows|
  {
    if |rows| == 0 then []
    else
      var init := rows[..|rows| - 1];
      var x := rows[|rows| - 1];
      assert rows == init + [x];
      var sortedInit := SortRows(init, col, ascending);
      if |rows| >= 2 then
        HasColumnPermutation(sortedInit, init, col);
        var r := Insert(sortedInit, x, col, ascending);
        HasColumnPermutation(r, rows, col);
        r
      else
        Insert(sortedInit, x, col, ascending)
  }

  /** A permutation of rows that all have the column has it too. */
  lemma HasColumnPermutation(a: seq<Row>, b: seq<Row>, col: int)
    requires multiset(a) == multiset(b)
    ensures TableModel.HasCell(b, col) ==> TableModel.HasCell(a, col)
  {
    if TableModel.HasCell(b, col) {
      forall x | x in a ensures col < |x| {
        assert x in multiset(a);
        assert x in multiset(b);
      }
    }
  }

  /** Every row of a sorted sequence may stand before its last row. */
  lemma SortedLastBound(s: seq<Row>, col: int, ascending: bool)
    requires |s| > 0 && TableModel.HasCell(s, col)
    requires SortedBy(s, col, ascending)
    ensures forall y :: y in s ==> NotAfter(y[col], s[|s| - 1][col], ascending)
  {
    forall y | y in s ensures NotAfter(y[col], s[|s| - 1][col], ascending) {
      var k :| 0 <= k < |s| && s[k] == y;
      if k == |s| - 1 {
        CompareCellsZero(y[col], y[col], ascending);
      }
    }
  }

  /** Appending a row that no earlier row comes after keeps a sorted sequence sorted. */
  lemma SnocSorted(s: seq<Row>, x: Row, col: int, ascending: bool)
    requires TableModel.HasCell(s, col) && 0 <= col < |x|
    requires SortedBy(s, col, ascending)
    requires forall y :: y in s ==> NotAfter(y[col], x[col], ascending)
    ensures TableModel.HasCell(s + [x], col)
    ensures SortedBy(s + [x], col, ascending)
  {
    var r := s + [x];
    forall i, j | 0 <= i < j < |r| ensures NotAfter(r[i][col], r[j][col], ascending) {
      if j < |s| {
        assert r[i] == s[i] && r[j] == s[j];
      } else {
        assert r[i] == s[i];
        assert r[i] in s;
      }
    }
  }

  /** Inserting rows bounded by `c` keeps every row bounded by `c`. */
  lemma InsertBounded(s: seq<Row>, row: Row, col: int, ascending: bool, c: Cell)
    requires 0 <= col < |row| && TableModel.HasCell(s, col)
    requires forall y :: y in s ==> NotAfter(y[col], c, ascending)
    requires NotAfter(row[col], c, ascending)
    ensures forall y :: y in Insert(s, row, col, ascending) ==> NotAfter(y[col], c, ascending)
  {
    var r := Insert(s, row, col, ascending);
    forall y | y in r ensures NotAfter(y[col], c, ascending) {
      assert y in multiset(r);
      if y != row {
        assert y in multiset(s);
      }
    }
  }

  /** Inserting into a sorted sequence keeps it sorted. */
  lemma {:induction false} InsertSorted(sorted: seq<Row>, row: Row, col: int, ascending: bool)
    requires 0 <= col < |row| && TableModel.HasCell(sorted, col)
    requires SortedBy(sorted, col, ascending)
    ensures SortedBy(Insert(sorted, row, col, ascending), col, ascending)
    decreases |sorted|
  {
    if |sorted| > 0 {
      var n := |sorted|;
      var last := sorted[n - 1];
      var init := sorted[..n - 1];
      SortedLastBound(sorted, col, ascending);
      if CompareCells(last[col], row[col], ascending) > 0 {
        assert forall i :: 0 <= i < n - 1 ==> init[i] == sorted[i];
        assert SortedBy(init, col, ascending);
        InsertSorted(init, row, col, ascending);
        CompareCellsFlip(last[col], row[col], ascending);
        assert forall y :: y in init ==> y in sorted;
        InsertBounded(init, row, col, ascending, last[col]);
        SnocSorted(Insert(init, row, col, ascending), last, col, ascending);
      } else {
        forall y | y in sorted ensures NotAfter(y[col], row[col], ascending) {
          NotAfterTransitive(y[col], last[col], row[col], ascending);
        }
        SnocSorted(sorted, row, col, ascending);
      }
    }
  }

  /** The insertion sort's output is sorted. */
  lemma {:induction false} SortRowsSorted(rows: seq<Row>, col: int, ascending: bool)
    requires Sortable(rows, col)
    ensures SortedBy(SortRows(rows, col, ascending), col, ascending)
    decreases |rows|
  {
    if |rows| >= 2 {
      var init := rows[..|rows| - 1];
      assert forall y :: y in init ==> y in rows;
      SortRowsSorted(init, col, ascending);
      InsertSorted(SortRows(init, col, ascending), rows[|rows| - 1], col, ascending);
    }
  }

  /** The singleton run contribution of one row. */
  function Tag(x: Row, col: int, v: Cell): seq<Row>
  {
    if 0 <= col < |x| && x[col] == v then [x] else []
  }

  /** Selecting by key distributes over one appended row. */
  lemma WithKeySnoc(rows: seq<Row>, x: Row, col: int, v: Cell)
    ensures WithKey(rows + [x], col, v) == WithKey(rows, col, v) + Tag(x, col, v)
  {
    assert (rows + [x])[..|rows|] == rows;
  }

  /** Inserting a row adds it to the end of its own key's run and changes no
      other key's run. */
  lemma {:induction false} InsertWithKey(sorted: seq<Row>, row: Row, col: int, ascending: bool, v: Cell)
    requires 0 <= col < |row| && TableModel.HasCell(sorted, col)
    ensures WithKey(Insert(sorted, row, col, ascending), col, v) == WithKey(sorted, col, v) + Tag(row, col, v)
    decreases |sorted|
  {
    if |sorted| == 0 {
      WithKeySnoc([], row, col, v);
      assert [] + [row] == [row];
    } else {
      var n := |sorted|;
      var last := sorted[n - 1];
      var init := sorted[..n - 1];
      LastSplit(sorted);
      assert last in sorted;
      assert forall y :: y in init ==> y in sorted;
      if CompareCells(last[col], row[col], ascending) > 0 {
        InsertWithKey(init, row, col, ascending, v);
        InsertUnfoldGreater(init, last, row, col, ascending);
        CompareCellsZero(last[col], row[col], ascending);
        PastOtherKey(init, Insert(init, row, col, ascending), last, row, col, v);
      } else {
        assert Insert(sorted, row, col, ascending) == sorted + [row];
        WithKeySnoc(sorted, row, col, v);
      }
    }
  }

  /** Insertion passes a last row that compares greater and keeps it last. */
  lemma InsertUnfoldGreater(init: seq<Row>, last: Row, row: Row, col: int, ascending: bool)
    requires 0 <= col < |row| && 0 <= col < |last| && TableModel.HasCell(init, col)
    requires CompareCells(last[col], row[col], ascending) > 0
    ensures TableModel.HasCell(init + [last], col)
    ensures Insert(init + [last], row, col, ascending) == Insert(init, row, col, ascending) + [last]
  {
    assert (init + [last])[..|init|] == init;
  }

  /** The step of InsertWithKey where the row moves past a last row with a
      different key: `head` is the front with the row inserted. */
  lemma PastOtherKey(init: seq<Row>, head: seq<Row>, last: Row, row: Row, col: int, v: Cell)
    requires 0 <= col < |row| && 0 <= col < |last| && last[col] != row[col]
    requires WithKey(head, col, v) == WithKey(init, col, v) + Tag(row, col, v)
    ensures WithKey(head + [last], col, v) == WithKey(init + [last], col, v) + Tag(row, col, v)
  {
    if last[col] == v {
      PastKeyOfLast(init, head, last, row, col, v);
    } else {
      PastKeyOfNeither(init, head, last, row, col, v);
    }
  }

  /** PastOtherKey when the passed row carries the key. */
  lemma PastKeyOfLast(init: seq<Row>, head: seq<Row>, last: Row, row: Row, col: int, v: Cell)
    requires 0 <= col < |row| && 0 <= col < |last| && last[col] != row[col] && last[col] == v
    requires WithKey(head, col, v) == WithKey(init, col, v) + Tag(row, col, v)
    ensures WithKey(head + [last], col, v) == WithKey(init + [last], col, v) + Tag(row, col, v)
  {
    WithKeySnoc(init, last, col, v);
    WithKeySnoc(head, last, col, v);
    var w := WithKey(init, col, v);
    AppendNil(w);
    AppendNil(w + [last]);
  }

  /** PastOtherKey when the passed row does not carry the key. */
  lemma PastKeyOfNeither(init: seq<Row>, head: seq<Row>, last: Row, row: Row, col: int, v: Cell)
    requires 0 <= col < |row| && 0 <= col < |last| && last[col] != v
    requires WithKey(head, col, v) == WithKey(init, col, v) + Tag(row, col, v)
    ensures WithKey(head + [last], col, v) == WithKey(init + [last], col, v) + Tag(row, col, v)
  {
    WithKeySnoc(init, last, col, v);
    WithKeySnoc(head, last, col, v);
    AppendNil(WithKey(init, col, v));
    AppendNil(WithKey(head, col, v));
  }

  /** The insertion sort keeps every key's run in input order. */
  lemma {:induction false} SortRowsStable(rows: seq<Row>, col: int, ascending: bool, v: Cell)
    requires TableModel.HasCell(rows, col)
    ensures WithKey(SortRows(rows, col, ascending), col, v) == WithKey(rows, col, v)
    decreases |rows|
  {
    if |rows| > 0 {
      var init := rows[..|rows| - 1];
      var x := rows[|rows| - 1];
      assert rows == init + [x];
      assert forall y :: y in init ==> y in rows;
      WithKeySnoc(init, x, col, v);
      SortRowsStable(init, col, ascending, v);
      InsertWithKey(SortRows(init, col, ascending), x, col, ascending, v);
    }
  }

  /** Every row WithKey selects is a row of the input carrying the key. */
  lemma {:induction false} WithKeyElements(rows: seq<Row>, col: int, v: Cell)
    ensures forall y :: y in WithKey(rows, col, v) ==> y in rows && 0 <= col < |y| && y[col] == v
    decreases |rows|
  {
    if |rows| > 0 {
      var init := rows[..|rows| - 1];
      WithKeyElements(init, col, v);
      assert forall y :: y in init ==> y in rows;
    }
  }

  /** If every key's run agrees, one sequence is empty only when the other is. */
  lemma EmptyByKeys(a: seq<Row>, b: seq<Row>, col: int)
    requires TableModel.HasCell(a, col)
    requires forall v :: WithKey(a, col, v) == WithKey(b, col, v)
    ensures |a| > 0 ==> |b| > 0
  {
    if |a| > 0 {
      var k := a[|a| - 1][col];
      assert a[|a| - 1] in WithKey(a, col, k);
      assert WithKey(b, col, k) != [];
    }
  }

  /** Two sorted sequences whose runs agree end in rows with the same key. */
  lemma LastKeysAgree(a: seq<Row>, b: seq<Row>, col: int, ascending: bool)
    requires TableModel.HasCell(a, col) && TableModel.HasCell(b, col) && |a| > 0 && |b| > 0
    requires SortedBy(a, col, ascending) && SortedBy(b, col, ascending)
    requires forall v :: WithKey(a, col, v) == WithKey(b, col, v)
    ensures a[|a| - 1][col] == b[|b| - 1][col]
  {
    var la := a[|a| - 1];
    var lb := b[|b| - 1];
    assert la in WithKey(a, col, la[col]);
    assert lb in WithKey(b, col, lb[col]);
    WithKeyElements(a, col, lb[col]);
    WithKeyElements(b, col, la[col]);
    SortedLastBound(a, col, ascending);
    SortedLastBound(b, col, ascending);
    assert NotAfter(la[col], lb[col], ascending);
    assert NotAfter(lb[col], la[col], ascending);
    CompareCellsFlip(la[col], lb[col], ascending);
    CompareCellsZero(la[col], lb[col], ascending);
  }

  /** Equal sequences ending in one element agree on the element and the front. */
  lemma SnocInjective(x: seq<Row>, p: Row, y: seq<Row>, q: Row)
    requires x + [p] == y + [q]
    ensures x == y && p == q
  {
    assert |x| == |y|;
    assert p == (x + [p])[|x|] && q == (y + [q])[|y|];
    assert x == (x + [p])[..|x|] && y == (y + [q])[..|y|];
  }

  /** Once the last rows' keys agree, so do the last rows and the fronts' runs. */
  lemma FrontRunsAgree(ia: seq<Row>, la: Row, ib: seq<Row>, lb: Row, col: int)
    requires 0 <= col < |la| && 0 <= col < |lb| && la[col] == lb[col]
    requires forall v :: WithKey(ia + [la], col, v) == WithKey(ib + [lb], col, v)
    ensures la == lb
    ensures forall v :: WithKey(ia, col, v) == WithKey(ib, col, v)
  {
    var k := la[col];
    WithKeySnoc(ia, la, col, k);
    WithKeySnoc(ib, lb, col, k);
    SnocInjective(WithKey(ia, col, k), la, WithKey(ib, col, k), lb);
    forall v | v != k ensures WithKey(ia, col, v) == WithKey(ib, col, v) {
      WithKeySnoc(ia, la, col, v);
      WithKeySnoc(ib, lb, col, v);
      AppendNil(WithKey(ia, col, v));
      AppendNil(WithKey(ib, col, v));
    }
  }

  /** A prefix of a sorted sequence is sorted. */
  lemma SortedFront(s: seq<Row>, col: int, ascending: bool)
    requires TableModel.HasCell(s, col) && |s| > 0 && SortedBy(s, col, ascending)
    ensures TableModel.HasCell(s[..|s| - 1], col) && SortedBy(s[..|s| - 1], col, ascending)
  {
    var f := s[..|s| - 1];
    assert forall i :: 0 <= i < |f| ==> f[i] == s[i];
  }

  /** Sorted and stable pin the order down: two sorted sequences whose every
      key's run is the same are the same sequence. So any stable sort of the
      rows, List.sort included, yields exactly SortRows. */
  lemma {:induction false} SortedStableUnique(a: seq<Row>, b: seq<Row>, col: int, ascending: bool)
    requires TableModel.HasCell(a, col) && TableModel.HasCell(b, col)
    requires SortedBy(a, col, ascending) && SortedBy(b, col, ascending)
    requires forall v :: WithKey(a, col, v) == WithKey(b, col, v)
    ensures a == b
    decreases |a|
  {
    EmptyByKeys(a, b, col);
    EmptyByKeys(b, a, col);
    if |a| > 0 {
      LastKeysAgree(a, b, col, ascending);
      var ia, la := a[..|a| - 1], a[|a| - 1];
      var ib, lb := b[..|b| - 1], b[|b| - 1];
      LastSplit(a);
      LastSplit(b);
      FrontRunsAgree(ia, la, ib, lb, col);
      SortedFront(a, col, ascending);
      SortedFront(b, col, ascending);
      SortedStableUnique(ia, ib, col, ascending);
    }
  }

  /** A permutation of rows of one width has that width. */
  lemma WidthPermutation(a: seq<Row>, b: seq<Row>, n: nat)
    requires multiset(a) == multiset(b)
    ensures AllWidth(b, n) ==> AllWidth(a, n)
  {
    if AllWidth(b, n) {
      forall i | 0 <= i < |a| ensures |a[i]| == n {
        assert a[i] in multiset(a);
        assert a[i] in multiset(b);
        var k :| 0 <= k < |b| && b[k] == a[i];
      }
    }
  }

  /** CSVTableModel.sort(col, ascending): the rows are reordered by the
      comparator, keeping equal rows in their order; nothing else changes.
      Java throws when two rows or more are compared at a missing column. */
  function Sort(t: TableModel.Table, col: int, ascending: bool): (r: TableModel.Table)
    requires Sortable(t.rows, col)
    ensures multiset(r.rows) == multiset(t.rows)
    ensures Sortable(r.rows, col) && SortedBy(r.rows, col, ascending)
    ensures r.(rows := t.rows) == t
    ensures TableModel.Wf(t) ==> TableModel.Wf(r)
  {
    var rows := SortRows(t.rows, col, ascending);
    SortRowsSorted(t.rows, col, ascending);
    WidthPermutation(rows, t.rows, |t.names|);
    t.(rows := rows)
  }

  /** Sort keeps every key's run in its order. */
  lemma SortStable(t: TableModel.Table, col: int, ascending: bool)
    requires TableModel.HasCell(t.rows, col)
    ensures forall v :: WithKey(Sort(t, col, ascending).rows, col, v) == WithKey(t.rows, col, v)
  {
    forall v ensures WithKey(Sort(t, col, ascending).rows, col, v) == WithKey(t.rows, col, v) {
      SortRowsStable(t.rows, col, ascending, v);
    }
  }

  /** Sort's rows are the only sorted arrangement that keeps every key's run,
      hence what List.sort (stable) produces. */
  lemma SortIsTheStableSort(t: TableModel.Table, col: int, ascending: bool, s: seq<Row>)
    requires TableModel.HasCell(t.rows, col) && TableModel.HasCell(s, col)
    requires SortedBy(s, col, ascending)
    requires forall v :: WithKey(s, col, v) == WithKey(t.rows, col, v)
    ensures Sort(t, col, ascending).rows == s
  {
    var r := Sort(t, col, ascending).rows;
    SortStable(t, col, ascending);
    HasColumnPermutation(r, t.rows, col);
    SortedStableUnique(r, s, col, ascending);
  }

  /** Null cells sort first when ascending and last when descending. */
  lemma SortPlacesNulls(t: TableModel.Table, col: int, ascending: bool)
    requires TableModel.HasCell(t.rows, col)
    ensures var r := Sort(t, col, ascending).rows;
      TableModel.HasCell(r, col) &&
      forall i, j :: 0 <= i < j < |r| ==>
        (if ascending then (r[j][col].None? ==> r[i][col].None?)
         else (r[i][col].None? ==> r[j][col].None?))
  {
    var r := Sort(t, col, ascending).rows;
    HasColumnPermutation(r, t.rows, col);
    forall i, j | 0 <= i < j < |r|
      ensures if ascending then (r[j][col].None? ==> r[i][col].None?) else (r[i][col].None? ==> r[j][col].None?)
    {
      assert NotAfter(r[i][col], r[j][col], ascending);
    }
  }

  /** The runs of a four-row sequence, spelled out. */
  lemma WithKeyOfFour(a: Row, b: Row, c: Row, d: Row, v: Cell)
    ensures WithKey([a, b, c, d], 0, v) == Tag(a, 0, v) + Tag(b, 0, v) + Tag(c, 0, v) + Tag(d, 0, v)
  {
    WithKeySnoc([], a, 0, v);
    assert [] + [a] == [a];
    WithKeySnoc([a], b, 0, v);
    assert [a] + [b] == [a, b];
    WithKeySnoc([a, b], c, 0, v);
    assert [a, b] + [c] == [a, b, c];
    WithKeySnoc([a, b, c], d, 0, v);
    assert [a, b, c] + [d] == [a, b, c, d];
  }

  /** The order is ordinal, not numeric: ascending, "10" sorts before "2"
      (the character '1' is below '2'), and null comes first. */
  lemma OrdinalOrderExample(t: TableModel.Table)
    requires t.rows == [[Some("10")], [Some("2")], [None], [Some("abc")]]
    ensures Sort(t, 0, true).rows == [[None], [Some("10")], [Some("2")], [Some("abc")]]
  {
    var s: seq<Row> := [[None], [Some("10")], [Some("2")], [Some("abc")]];
    assert Strings.CompareTo("10", "2") < 0;
    assert Strings.CompareTo("2", "abc") < 0;
    assert Strings.CompareTo("10", "abc") < 0;
    assert SortedBy(s, 0, true);
    forall v ensures WithKey(s, 0, v) == WithKey(t.rows, 0, v) {
      WithKeyOfFour([None], [Some("10")], [Some("2")], [Some("abc")], v);
      WithKeyOfFour([Some("10")], [Some("2")], [None], [Some("abc")], v);
    }
    SortIsTheStableSort(t, 0, true, s);
  }
}
