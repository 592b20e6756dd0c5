/** The two textual forms of a table: CSVTableModel.toCSVString, which
    quotes cells that need it, and the text CSVController.saveToFile writes,
    which quotes nothing. Both write an optional header line of column names
    and then one line per row, fields separated by the table's separator and
    every line ended by a newline; a null cell is written as nothing. */
module TableText {
  import opened Cells
  import Strings
  import TableModel

  /** escapeCSV's trigger: a double quote, a newline or a comma. The comma is
      fixed, whatever separator the table uses. */
  predicate NeedsQuoting(s: string)
  {
    '"' in s || '\n' in s || ',' in s
  }

  /** `s.replace("\"", "\"\"")`: every double quote doubled. */
  function DoubleQuotes(s: string): (r: string)
    ensures |r| == |s| + Strings.Count(s, '"')
    ensures '"' !in s ==> r == s
    decreases |s|
  {
    if |s| == 0 then ""
    else if s[0] == '"' then "\"\"" + DoubleQuotes(s[1..])
    else [s[0]] + DoubleQuotes(s[1..])
  }

  /** The inverse of DoubleQuotes: every pair of double quotes becomes one. */
  function HalveQuotes(s: string): string
    decreases |s|
  {
    if |s| >= 2 && s[0] == '"' && s[1] == '"' then "\"" + HalveQuotes(s[2..])
    else if |s| == 0 then ""
    else [s[0]] + HalveQuotes(s[1..])
  }

  /** Halving the doubled quotes gives the text back. */
  lemma {:induction false} HalveDoubleQuotes(s: string)
    ensures HalveQuotes(DoubleQuotes(s)) == s
    decreases |s|
  {
    if |s| > 0 {
      HalveDoubleQuotes(s[1..]);
      var d := DoubleQuotes(s[1..]);
      if s[0] == '"' {
        assert DoubleQuotes(s) == "\"\"" + d;
        assert ("\"\"" + d)[2..] == d;
      } else {
        assert DoubleQuotes(s) == [s[0]] + d;
        assert ([s[0]] + d)[1..] == d;
      }
      assert s == [s[0]] + s[1..];
    }
  }

  /** escapeCSV(input): unchanged unless it needs quoting; otherwise wrapped
      in double quotes with the quotes inside doubled. */
  function EscapeCsv(s: string): (r: string)
    ensures !NeedsQuoting(s) ==> r == s
    ensures NeedsQuoting(s) ==> |r| >= 2 && r[0] == '"' && r[|r| - 1] == '"'
    ensures NeedsQuoting(s) ==> r[1..|r| - 1] == DoubleQuotes(s)
  {
    if NeedsQuoting(s) then "\"" + DoubleQuotes(s) + "\"" else s
  }

  /** The quote in b"c is doubled. */
  lemma DoubledQuoteExample()
    ensures DoubleQuotes("b\"c") == "b\"\"c"
  {
    assert DoubleQuotes("") == "";
    assert "c"[1..] == "" && DoubleQuotes("c") == "c";
    assert "\"c"[1..] == "c" && DoubleQuotes("\"c") == "\"\"c";
    assert "b\"c"[1..] == "\"c";
  }

  /** Doubling the quotes of two texts one after the other is doubling them
      in each. */
  lemma {:induction false} DoubleQuotesAppend(a: string, b: string)
    ensures DoubleQuotes(a + b) == DoubleQuotes(a) + DoubleQuotes(b)
    decreases |a|
  {
    if |a| == 0 {
      assert a + b == b;
    } else {
      assert (a + b)[0] == a[0] && (a + b)[1..] == a[1..] + b;
      DoubleQuotesAppend(a[1..], b);
    }
  }

  /** The quote in a,b"c is doubled, nothing else changes. */
  lemma DoubledQuoteInCell()
    ensures DoubleQuotes("a,b\"c") == "a,b\"\"c"
  {
    CellPieces();
    DoubleQuotesAppend("a,", "b\"c");
    DoubledQuoteExample();
  }

  /** a,b"c and a,b""c split after the comma. */
  lemma CellPieces()
    ensures "a,b\"c" == "a," + "b\"c"
    ensures "a,b\"\"c" == "a," + "b\"\"c"
  {
  }

  /** The cell a,b"c is written "a,b""c". */
  lemma EscapeExample()
    ensures EscapeCsv("a,b\"c") == "\"a,b\"\"c\""
  {
    assert NeedsQuoting("a,b\"c") by { assert "a,b\"c"[1] == ','; }
    DoubledQuoteInCell();
    assert EscapeCsv("a,b\"c") == "\"" + "a,b\"\"c" + "\"";
    QuotedExample();
  }

  /** Enclosing a,b""c in quotes spells "a,b""c". */
  lemma QuotedExample()
    ensures "\"" + "a,b\"\"c" + "\"" == "\"a,b\"\"c\""
  {
  }

  /** Reading one escaped field back: strip a pair of enclosing quotes and
      halve the quotes inside. */
  function UnescapeCsv(e: string): string
  {
    if |e| >= 2 && e[0] == '"' && e[|e| - 1] == '"' then HalveQuotes(e[1..|e| - 1]) else e
  }

  /** Escaping loses nothing: unescaping the result gives the input back. */
  lemma UnescapeEscape(s: string)
    ensures UnescapeCsv(EscapeCsv(s)) == s
  {
    if NeedsQuoting(s) {
      HalveDoubleQuotes(s);
    } else if |s| >= 2 {
      assert s[0] != '"';
    }
  }

  /** The quoting decision looks at the comma only: a field holding the
      table's own separator ';' is left bare, so in a ';'-separated file it
      reads back as two fields. */
  lemma SeparatorIsNotQuoted()
    ensures EscapeCsv("a;b") == "a;b"
    ensures Strings.Split(Strings.Join([EscapeCsv("a;b")], ';'), ';') == ["a", "b"]
  {
    assert !NeedsQuoting("a;b");
    assert Strings.Join(["a;b"], ';') == "a;b";
    assert Strings.Split("", ';') == [""];
    assert "b"[1..] == "" && ['b'] + "" == "b";
    assert Strings.Split("b", ';') == ["b"];
    assert ";b"[1..] == "b";
    assert Strings.Split(";b", ';') == ["", "b"];
    assert "a;b"[1..] == ";b" && ['a'] + "" == "a";
  }

  /** The text of each of a row's first `n` cells (null as ""), optionally
      escaped. */
  function Fields(row: Row, n: nat, escape: bool): (r: seq<string>)
    requires n <= |row|
    ensures |r| == n
    ensures forall j :: 0 <= j < n ==>
      r[j] == (if escape && row[j].Some? then EscapeCsv(row[j].value) else CellText(row[j]))
  {
    seq(n, j requires 0 <= j < n => if escape && row[j].Some? then EscapeCsv(row[j].value) else CellText(row[j]))
  }

  /** The lines of the table before their newlines: the header line of names
      when the header flag is on, then one line per row. */
  function Records(t: TableModel.Table, escape: bool): (r: seq<string>)
    requires TableModel.Wf(t)
    ensures |r| == |t.rows| + (if t.hasHeaders then 1 else 0)
    ensures t.hasHeaders ==> r[0] == Strings.Join(t.names, t.separator)
    ensures forall k :: 0 <= k < |t.rows| ==>
      r[k + (if t.hasHeaders then 1 else 0)] == Strings.Join(Fields(t.rows[k], |t.names|, escape), t.separator)
  {
    var body := seq(|t.rows|, k requires 0 <= k < |t.rows| =>
      Strings.Join(Fields(t.rows[k], |t.names|, escape), t.separator));
    if t.hasHeaders then [Strings.Join(t.names, t.separator)] + body else body
  }

  /** toCSVString(): header names unescaped, cells escaped, every line
      followed by "\n". */
  function ToCsvString(t: TableModel.Table): (r: string)
    requires TableModel.Wf(t)
  {
    Strings.JoinLines(Records(t, true))
  }

  /** The text saveToFile writes: the same layout with no escaping. The line
      terminator of println is taken to be "\n". */
  function PlainText(t: TableModel.Table): (r: string)
    requires TableModel.Wf(t)
  {
    Strings.JoinLines(Records(t, false))
  }

  /** No cell needs quoting: the table's cells are plain text. */
  predicate NothingToQuote(t: TableModel.Table)
  {
    forall k, j :: 0 <= k < |t.rows| && 0 <= j < |t.rows[k]| && t.rows[k][j].Some? ==>
      !NeedsQuoting(t.rows[k][j].value)
  }

  /** toCSVString and the saved file differ only by the quoting: when no cell
      needs it they are the same text. */
  lemma CsvStringIsPlainUnlessQuoted(t: TableModel.Table)
    requires TableModel.Wf(t)
    ensures NothingToQuote(t) ==> ToCsvString(t) == PlainText(t)
  {
    if NothingToQuote(t) {
      forall k | 0 <= k < |t.rows|
        ensures Fields(t.rows[k], |t.names|, true) == Fields(t.rows[k], |t.names|, false)
      {
      }
      assert Records(t, true) == Records(t, false);
    }
  }

  /** Reading the text of toCSVString back line by line gives the records,
      provided no name and no cell holds a line terminator. */
  lemma CsvStringLines(t: TableModel.Table)
    requires TableModel.Wf(t)
    requires forall i :: 0 <= i < |t.names| ==> Strings.NoLineBreak(t.names[i])
    requires forall k, i :: 0 <= k < |t.rows| && 0 <= i < |t.rows[k]| ==> Strings.NoLineBreak(CellText(t.rows[k][i]))
    requires !Strings.IsLineBreak(t.separator)
    ensures Strings.ReadLines(ToCsvString(t)) == Records(t, true)
  {
    RecordsLineFree(t, true);
    Strings.ReadJoinLines(Records(t, true));
  }

  /** Joining fields that have no line terminator with a separator that is
      not one gives a line without one. */
  lemma {:induction false} JoinLineFree(fields: seq<string>, sep: char)
    requires !Strings.IsLineBreak(sep)
    requires forall i :: 0 <= i < |fields| ==> Strings.NoLineBreak(fields[i])
    ensures Strings.NoLineBreak(Strings.Join(fields, sep))
    decreases |fields|
  {
    if |fields| >= 2 {
      JoinLineFree(fields[1..], sep);
      var rest := Strings.Join(fields[1..], sep);
      var s := fields[0] + [sep] + rest;
      assert Strings.Join(fields, sep) == s;
      assert Strings.NoLineBreak(fields[0]);
      forall j | 0 <= j < |s| ensures !Strings.IsLineBreak(s[j]) {
        if j < |fields[0]| {
          assert s[j] == fields[0][j];
        } else if j > |fields[0]| {
          assert s[j] == rest[j - |fields[0]| - 1];
        }
      }
    }
  }

  /** Doubling quotes keeps a text free of line terminators. */
  lemma {:induction false} DoubleQuotesLineFree(s: string)
    requires Strings.NoLineBreak(s)
    ensures Strings.NoLineBreak(DoubleQuotes(s))
    decreases |s|
  {
    if |s| > 0 {
      DoubleQuotesLineFree(s[1..]);
    }
  }

  /** One record built from line-free cells is line-free. */
  lemma RowLineFree(row: Row, n: nat, escape: bool, sep: char)
    requires n <= |row| && !Strings.IsLineBreak(sep)
    requires forall i :: 0 <= i < |row| ==> Strings.NoLineBreak(CellText(row[i]))
    ensures Strings.NoLineBreak(Strings.Join(Fields(row, n, escape), sep))
  {
    var f := Fields(row, n, escape);
    forall i | 0 <= i < |f| ensures Strings.NoLineBreak(f[i]) {
      assert Strings.NoLineBreak(CellText(row[i]));
      if escape && row[i].Some? {
        DoubleQuotesLineFree(row[i].value);
      }
    }
    JoinLineFree(f, sep);
  }

  /** No record holds a line terminator when no name or cell does. */
  lemma RecordsLineFree(t: TableModel.Table, escape: bool)
    requires TableModel.Wf(t)
    requires forall i :: 0 <= i < |t.names| ==> Strings.NoLineBreak(t.names[i])
    requires forall k, i :: 0 <= k < |t.rows| && 0 <= i < |t.rows[k]| ==> Strings.NoLineBreak(CellText(t.rows[k][i]))
    requires !Strings.IsLineBreak(t.separator)
    ensures forall k :: 0 <= k < |Records(t, escape)| ==> Strings.NoLineBreak(Records(t, escape)[k])
  {
    var r := Records(t, escape);
    var h := if t.hasHeaders then 1 else 0;
    if t.hasHeaders {
      JoinLineFree(t.names, t.separator);
    }
    forall k | 0 <= k < |r| ensures Strings.NoLineBreak(r[k]) {
      if k >= h {
        RowLineFree(t.rows[k - h], |t.names|, escape, t.separator);
        assert r[k] == r[(k - h) + h];
      }
    }
  }
}
