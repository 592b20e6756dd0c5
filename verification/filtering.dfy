/** The row filter of CSVController.filterData: the rows whose cell in one
    column satisfies one of three text tests against a value are kept,
    whole and in their order. */
module Filtering {
  import opened Cells
  import Strings
  import TableModel

  /** The operator names the filter dialog offers. */
  const ContainsOp: string := "zawiera"
  const EqualsOp: string := "równa się"
  const StartsWithOp: string := "zaczyna się"

  /** The switch on the operator: `contains`, `equals` or `startsWith`
      applied to the cell's text; any other operator matches nothing. */
  predicate Matches(op: string, cell: string, value: string)
  {
    if op == ContainsOp then Strings.Contains(cell, value)
    else if op == EqualsOp then cell == value
    else if op == StartsWithOp then Strings.StartsWith(cell, value)
    else false
  }

  /** The operators are ordered by strength: a cell equal to the value
      starts with it, and a cell that starts with it contains it. */
  lemma MatchStrength(cell: string, value: string)
    ensures Matches(EqualsOp, cell, value) ==> Matches(StartsWithOp, cell, value)
    ensures Matches(StartsWithOp, cell, value) ==> Matches(ContainsOp, cell, value)
  {
  }

  /** Row `i` passes the filter on column `col`, null read as "". */
  predicate RowMatches(rows: seq<Row>, i: int, col: int, op: string, value: string)
    requires 0 <= i < |rows| && 0 <= col < |rows[i]|
  {
    Matches(op, CellText(rows[i][col]), value)
  }

  /** The filter's meaning: the matching rows, in their order. */
  function Select(rows: seq<Row>, col: int, op: string, value: string): (r: seq<Row>)
    requires TableModel.HasCell(rows, col)
    ensures |r| <= |rows|
    ensures TableModel.HasCell(r, col)
    ensures forall k :: 0 <= k < |r| ==> r[k] in rows && Matches(op, CellText(r[k][col]), value)
    decreases |rows|
  {
    if |rows| == 0 then []
    else
      var n := |rows| - 1;
      Select(rows[..n], col, op, value) + (if RowMatches(rows, n, col, op, value) then [rows[n]] else [])
  }

  /** `keep` lists, in ascending order, exactly the indices of the rows that
      pass the filter. */
  predicate ListsMatches(rows: seq<Row>, col: int, op: string, value: string, keep: seq<int>)
    requires TableModel.HasCell(rows, col)
  {
    (forall k :: 0 <= k < |keep| ==> 0 <= keep[k] < |rows|) &&
    (forall a, b :: 0 <= a < b < |keep| ==> keep[a] < keep[b]) &&
    (forall i :: 0 <= i < |rows| ==> (i in keep <==> RowMatches(rows, i, col, op, value)))
  }

  /** The loop collecting rowsToKeep: one pass over the rows, appending the
      index of every row that passes. */
  method MatchingRows(rows: seq<Row>, col: int, op: string, value: string) returns (keep: seq<int>)
    requires TableModel.HasCell(rows, col)
    ensures ListsMatches(rows, col, op, value, keep)
  {
    keep := [];
    var i := 0;
    while i < |rows|
      invariant 0 <= i <= |rows|
      invariant forall k :: 0 <= k < |keep| ==> 0 <= keep[k] < i
      invariant forall a, b :: 0 <= a < b < |keep| ==> keep[a] < keep[b]
      invariant forall j :: 0 <= j < i ==> (j in keep <==> RowMatches(rows, j, col, op, value))
    {
      if Matches(op, CellText(rows[i][col]), value) {
        keep := keep + [i];
      }
      i := i + 1;
    }
  }

  /** The rows at the listed indices, in the listed order (the copy loop
      building newData; every row has exactly the table's column count of
      cells, so the copy of its first cells is the whole row). */
  function Pick(rows: seq<Row>, keep: seq<int>): (r: seq<Row>)
    requires forall k :: 0 <= k < |keep| ==> 0 <= keep[k] < |rows|
    ensures |r| == |keep|
    ensures forall k :: 0 <= k < |keep| ==> r[k] == rows[keep[k]]
  {
    seq(|keep|, k requires 0 <= k < |keep| => rows[keep[k]])
  }

  /** When the last row passes, it is the last listed index and the rest
      of the list lists the matches of the rows before it. */
  lemma LastKept(rows: seq<Row>, col: int, op: string, value: string, keep: seq<int>)
    requires TableModel.HasCell(rows, col) && |rows| > 0
    requires ListsMatches(rows, col, op, value, keep)
    requires RowMatches(rows, |rows| - 1, col, op, value)
    ensures |keep| > 0 && keep[|keep| - 1] == |rows| - 1
    ensures ListsMatches(rows[..|rows| - 1], col, op, value, keep[..|keep| - 1])
  {
    var n := |rows| - 1;
    assert n in keep;
    var m := |keep| - 1;
    var j :| 0 <= j < |keep| && keep[j] == n;
    assert forall a :: 0 <= a < m ==> keep[a] < keep[m];
    assert j == m;
    var k2 := keep[..m];
    assert keep == k2 + [n];
    assert forall i :: 0 <= i < n ==> (i in k2 <==> i in keep);
  }

  /** When the last row fails, the list lists the matches of the rows before
      it. */
  lemma LastDropped(rows: seq<Row>, col: int, op: string, value: string, keep: seq<int>)
    requires TableModel.HasCell(rows, col) && |rows| > 0
    requires ListsMatches(rows, col, op, value, keep)
    requires !RowMatches(rows, |rows| - 1, col, op, value)
    ensures ListsMatches(rows[..|rows| - 1], col, op, value, keep)
  {
    var n := |rows| - 1;
    assert forall k :: 0 <= k < |keep| ==> keep[k] != n;
  }

  /** Picking a list that ends at the last row: the front's pick, then the
      last row. */
  lemma PickSnoc(rows: seq<Row>, keep: seq<int>)
    requires |rows| > 0 && |keep| > 0 && keep[|keep| - 1] == |rows| - 1
    requires forall k :: 0 <= k < |keep| - 1 ==> 0 <= keep[k] < |rows| - 1
    ensures Pick(rows, keep) == Pick(rows[..|rows| - 1], keep[..|keep| - 1]) + [rows[|rows| - 1]]
  {
  }

  /** Picking a list that avoids the last row picks from the front. */
  lemma PickFront(rows: seq<Row>, keep: seq<int>)
    requires |rows| > 0
    requires forall k :: 0 <= k < |keep| ==> 0 <= keep[k] < |rows| - 1
    ensures Pick(rows, keep) == Pick(rows[..|rows| - 1], keep)
  {
  }

  /** Whatever index list the loop yields, the rows it picks are the
      filter's meaning: the matching rows, whole and in order. */
  lemma {:induction false} PickMatchesIsSelect(rows: seq<Row>, col: int, op: string, value: string, keep: seq<int>)
    requires TableModel.HasCell(rows, col)
    requires ListsMatches(rows, col, op, value, keep)
    ensures Pick(rows, keep) == Select(rows, col, op, value)
    decreases |rows|
  {
    if |rows| > 0 {
      var n := |rows| - 1;
      var front := rows[..n];
      if RowMatches(rows, n, col, op, value) {
        LastKept(rows, col, op, value, keep);
        var k2 := keep[..|keep| - 1];
        PickMatchesIsSelect(front, col, op, value, k2);
        assert Select(rows, col, op, value) == Select(front, col, op, value) + [rows[n]];
        PickSnoc(rows, keep);
      } else {
        LastDropped(rows, col, op, value, keep);
        PickMatchesIsSelect(front, col, op, value, keep);
        assert Select(rows, col, op, value) == Select(front, col, op, value);
        PickFront(rows, keep);
      }
    }
  }

  /** An operator outside the three keeps no row. */
  lemma {:induction false} UnknownOperatorKeepsNothing(rows: seq<Row>, col: int, op: string, value: string)
    requires TableModel.HasCell(rows, col)
    requires op != ContainsOp && op != EqualsOp && op != StartsWithOp
    ensures Select(rows, col, op, value) == []
    decreases |rows|
  {
    if |rows| > 0 {
      UnknownOperatorKeepsNothing(rows[..|rows| - 1], col, op, value);
    }
  }

  /** Filtering again with the same test changes nothing: every kept row
      already passes. */
  lemma {:induction false} SelectIdempotent(rows: seq<Row>, col: int, op: string, value: string)
    requires TableModel.HasCell(rows, col)
    ensures Select(Select(rows, col, op, value), col, op, value) == Select(rows, col, op, value)
  {
    AllPass(Select(rows, col, op, value), col, op, value);
  }

  /** Rows that all pass are kept, all of them. */
  lemma {:induction false} AllPass(rows: seq<Row>, col: int, op: string, value: string)
    requires TableModel.HasCell(rows, col)
    requires forall k :: 0 <= k < |rows| ==> Matches(op, CellText(rows[k][col]), value)
    ensures Select(rows, col, op, value) == rows
    decreases |rows|
  {
    if |rows| > 0 {
      var n := |rows| - 1;
      var front := rows[..n];
      assert forall k :: 0 <= k < n ==> front[k] == rows[k];
      AllPass(front, col, op, value);
      assert RowMatches(rows, n, col, op, value);
      LastSplit(rows);
    }
  }

  /** A row is kept as often as it occurs when it passes, and never when it
      fails. */
  lemma {:induction false} SelectCounts(rows: seq<Row>, col: int, op: string, value: string, x: Row)
    requires TableModel.HasCell(rows, col) && 0 <= col < |x|
    ensures multiset(Select(rows, col, op, value))[x] ==
      (if Matches(op, CellText(x[col]), value) then multiset(rows)[x] else 0)
    decreases |rows|
  {
    if |rows| > 0 {
      var n := |rows| - 1;
      var front := rows[..n];
      assert forall k :: 0 <= k < n ==> front[k] == rows[k];
      SelectCounts(front, col, op, value, x);
      LastSplit(rows);
      assert multiset(rows) == multiset(front) + multiset{rows[n]};
    }
  }

  /** Filtering names "Alice", "Bob", "Alicia" on "starts with Ali" keeps
      the first and the third row, in that order. */
  lemma StartsWithExample()
    ensures Select([[Some("Alice")], [Some("Bob")], [Some("Alicia")]], 0, StartsWithOp, "Ali")
      == [[Some("Alice")], [Some("Alicia")]]
  {
    var rows: seq<Row> := [[Some("Alice")], [Some("Bob")], [Some("Alicia")]];
    assert "Alice"[..3] == "Ali" && "Alicia"[..3] == "Ali" && "Bob"[0] != "Ali"[0];
    assert rows[..2][..1] == [[Some("Alice")]] && rows[..2] == [[Some("Alice")], [Some("Bob")]];
    assert rows[..2][..1][..0] == [];
  }
}
