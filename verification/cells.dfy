/** Cells and rows of the CSV table.

    The editor stores every cell as a Java object that is either null or a
    string; null ("no value") and "" ("explicitly blank") are different
    values and the code treats them differently. */
module Cells {

  /** The conventional Some/None datatype, standing in for a nullable reference. */
  datatype Option<+T> = None | Some(value: T)

  /** A table cell: None is Java's null. */
  type Cell = Option<string>

  /** A row of cells. */
  type Row = seq<Cell>

  /** The text a cell stands for when it is printed or compared:
      null reads as the empty string (`value != null ? value.toString() : ""`). */
  function CellText(c: Cell): string
  {
    match c
    case None => ""
    case Some(s) => s
  }

  /** Java's `s.trim().isEmpty()`: trim removes every character up to U+0020
      from both ends, so the result is empty exactly when every character is
      at most U+0020. */
  predicate IsBlank(s: string)
  {
    forall i :: 0 <= i < |s| ==> s[i] <= ' '
  }

  /** A row of `n` null cells, as `new Object[n]` gives. */
  function NullRow(n: nat): (r: Row)
    ensures |r| == n
    ensures forall i :: 0 <= i < n ==> r[i] == None
  {
    seq(n, _ => None)
  }

  /** `Vector.setSize(n)` on a row: cells past `n` are dropped, missing ones
      are null. */
  function Justify(row: Row, n: nat): (r: Row)
    ensures |r| == n
    ensures forall i :: 0 <= i < |row| && i < n ==> r[i] == row[i]
    ensures forall i :: |row| <= i < n ==> r[i] == None
  {
    if |row| >= n then row[..n] else row + NullRow(n - |row|)
  }

  /** Every row has exactly `n` cells. */
  predicate AllWidth(rows: seq<Row>, n: nat)
  {
    forall i :: 0 <= i < |rows| ==> |rows[i]| == n
  }

  /** Strings as they come out of a parsed line become non-null cells. */
  function TextCells(fields: seq<string>): (r: Row)
    ensures |r| == |fields|
    ensures forall i :: 0 <= i < |fields| ==> r[i] == Some(fields[i])
  {
    seq(|fields|, i requires 0 <= i < |fields| => Some(fields[i]))
  }

  /** A row as text, null cells read as "". */
  function RowText(row: Row): (r: seq<string>)
    ensures |r| == |row|
    ensures forall i :: 0 <= i < |row| ==> r[i] == CellText(row[i])
  {
    seq(|row|, i requires 0 <= i < |row| => CellText(row[i]))
  }

  /** A row with every null cell replaced by "": what survives a save and a reload. */
  function NullsAsEmpty(row: Row): Row
  {
    TextCells(RowText(row))
  }

  /** A row of texts is already as wide as it is. */
  lemma JustifyOwnWidth(row: Row)
    ensures Justify(row, |row|) == row
  {
  }

  /** Appending nothing changes nothing. */
  lemma AppendNil(s: seq<Row>)
    ensures s + [] == s
  {
  }

  /** A non-empty sequence is its front followed by its last element. */
  lemma LastSplit(s: seq<Row>)
    requires |s| > 0
    ensures s == s[..|s| - 1] + [s[|s| - 1]]
  {
  }
}
