/** Reading a CSV file's lines: CSVController.detectSeparator, the split of
    each line in loadCSV, and the names generated when the file has no
    header line. */
module CsvFormat {
  import Strings

  /** The separators detectSeparator considers, in the order it tries them. */
  const Candidates: seq<char> := [',', ';', '\t', '|']

  /** detectSeparator stops reading at the first line of 1000 characters or
      more; that line and everything after it are not counted. */
  const LongLine: nat := 1000

  /** The lines detectSeparator counts: those before the first long line. */
  function ScannedLines(lines: seq<string>): (r: seq<string>)
    ensures |r| <= |lines| && r == lines[..|r|]
    ensures forall i :: 0 <= i < |r| ==> |r[i]| < LongLine
    ensures |r| < |lines| ==> |lines[|r|]| >= LongLine
  {
    if |lines| == 0 || |lines[0]| >= LongLine then []
    else [lines[0]] + ScannedLines(lines[1..])
  }

  /** Occurrences of `c` in all the lines together. */
  function Occurrences(lines: seq<string>, c: char): nat
  {
    if |lines| == 0 then 0 else Strings.Count(lines[0], c) + Occurrences(lines[1..], c)
  }

  /** The vote: for each candidate, its occurrences in the scanned lines. */
  function Tally(lines: seq<string>): (counts: seq<nat>)
    ensures |counts| == |Candidates|
    ensures forall i :: 0 <= i < |Candidates| ==>
      counts[i] == Occurrences(ScannedLines(lines), Candidates[i])
  {
    var scanned := ScannedLines(lines);
    seq(|Candidates|, i requires 0 <= i < |Candidates| => Occurrences(scanned, Candidates[i]))
  }

  /** The index loop of detectSeparator: the first index with the largest
      count, since a later index replaces the best only when strictly
      greater. */
  function ChooseIndex(counts: seq<nat>): (m: nat)
    requires |counts| > 0
    ensures m < |counts|
    ensures forall i :: 0 <= i < |counts| ==> counts[i] <= counts[m]
    ensures forall i :: 0 <= i < m ==> counts[i] < counts[m]
  {
    ChooseFrom(counts, 1, 0)
  }

  /** ChooseIndex from position `i` on, `best` being the choice so far. */
  function ChooseFrom(counts: seq<nat>, i: nat, best: nat): (m: nat)
    requires best < i <= |counts|
    requires forall j :: 0 <= j < i ==> counts[j] <= counts[best]
    requires forall j :: 0 <= j < best ==> counts[j] < counts[best]
    ensures best <= m < |counts|
    ensures forall j :: 0 <= j < |counts| ==> counts[j] <= counts[m]
    ensures forall j :: 0 <= j < m ==> counts[j] < counts[m]
    decreases |counts| - i
  {
    if i == |counts| then best
    else ChooseFrom(counts, i + 1, if counts[i] > counts[best] then i else best)
  }

  /** detectSeparator: the candidate with the most occurrences in the
      scanned lines, the earliest on a tie, ',' when none occurs. Reading
      the file twice (once here, once to load it) yields the same lines. */
  function DetectSeparator(lines: seq<string>): (sep: char)
    ensures sep in Candidates
    ensures var counts := Tally(lines);
      exists m :: 0 <= m < |Candidates| && sep == Candidates[m] &&
        (forall i :: 0 <= i < |Candidates| ==> counts[i] <= counts[m]) &&
        (forall i :: 0 <= i < m ==> counts[i] < counts[m])
  {
    var m := ChooseIndex(Tally(lines));
    Candidates[m]
  }

  /** With no candidate anywhere in the scanned lines the answer is ','. */
  lemma NoCandidateMeansComma(lines: seq<string>)
    requires forall i :: 0 <= i < |Candidates| ==> Occurrences(ScannedLines(lines), Candidates[i]) == 0
    ensures DetectSeparator(lines) == ','
  {
    var counts := Tally(lines);
    var m := ChooseIndex(counts);
    assert counts[0] == 0 && counts[m] == 0;
  }

  /** Ties go to the earlier candidate: ',' and ';' equally frequent and
      nothing more frequent gives ','. */
  lemma TieGoesToEarlier(lines: seq<string>)
    requires var c := Tally(lines); c[0] == c[1] && c[2] <= c[0] && c[3] <= c[0]
    ensures DetectSeparator(lines) == ','
  {
    var counts := Tally(lines);
    var m := ChooseIndex(counts);
    assert counts[m] <= counts[0];
  }

  /** A line of 1000 characters or more ends the vote: what follows it,
      itself included, has no influence. */
  lemma LongLineEndsVote(before: seq<string>, long: string, after: seq<string>)
    requires forall i :: 0 <= i < |before| ==> |before[i]| < LongLine
    requires |long| >= LongLine
    ensures DetectSeparator(before + [long] + after) == DetectSeparator(before)
  {
    ScannedPrefix(before, [long] + after);
    assert before + [long] + after == before + ([long] + after);
    ScannedPrefix(before, []);
    assert before + [] == before;
  }

  /** Short lines followed by a list that starts with a long line (or by
      nothing) are scanned exactly. */
  lemma {:induction false} ScannedPrefix(before: seq<string>, rest: seq<string>)
    requires forall i :: 0 <= i < |before| ==> |before[i]| < LongLine
    requires |rest| == 0 || |rest[0]| >= LongLine
    ensures ScannedLines(before + rest) == before
    decreases |before|
  {
    if |before| > 0 {
      ScannedPrefix(before[1..], rest);
      assert (before + rest)[1..] == before[1..] + rest;
      assert before == [before[0]] + before[1..];
    }
  }

  /** A file whose short lines use ';' and no other candidate is read as
      ';'-separated. */
  lemma SemicolonFile(lines: seq<string>)
    requires forall i :: 0 <= i < |lines| ==> |lines[i]| < LongLine
    requires forall i :: 0 <= i < |lines| ==> ',' !in lines[i] && '\t' !in lines[i] && '|' !in lines[i]
    requires exists i :: 0 <= i < |lines| && ';' in lines[i]
    ensures DetectSeparator(lines) == ';'
  {
    ScannedPrefix(lines, []);
    assert lines + [] == lines;
    var counts := Tally(lines);
    AbsentNotCounted(lines, ',');
    AbsentNotCounted(lines, '\t');
    AbsentNotCounted(lines, '|');
    PresentCounted(lines, ';');
    var m := ChooseIndex(counts);
    assert counts[1] > 0;
    assert m == 1;
  }

  /** A character in no line is counted zero times. */
  lemma {:induction false} AbsentNotCounted(lines: seq<string>, c: char)
    requires forall i :: 0 <= i < |lines| ==> c !in lines[i]
    ensures Occurrences(lines, c) == 0
    decreases |lines|
  {
    if |lines| > 0 {
      CountZero(lines[0], c);
      AbsentNotCounted(lines[1..], c);
    }
  }

  /** A character in some line is counted at least once. */
  lemma {:induction false} PresentCounted(lines: seq<string>, c: char)
    requires exists i :: 0 <= i < |lines| && c in lines[i]
    ensures Occurrences(lines, c) > 0
    decreases |lines|
  {
    if c in lines[0] {
      CountZero(lines[0], c);
    } else {
      var i :| 0 <= i < |lines| && c in lines[i];
      assert lines[1..][i - 1] == lines[i];
      PresentCounted(lines[1..], c);
    }
  }

  /** Count is zero exactly when the character is absent. */
  lemma {:induction false} CountZero(s: string, c: char)
    ensures Strings.Count(s, c) == 0 <==> c !in s
    decreases |s|
  {
    if |s| > 0 {
      CountZero(s[1..], c);
      assert s == [s[0]] + s[1..];
    }
  }

  /** `line.split(String.valueOf(sep), -1)` as evidently intended: a literal
      split on the separator, trailing empty fields kept. */
  function ParseLine(line: string, sep: char): (fields: seq<string>)
    ensures |fields| == Strings.Count(line, sep) + 1
    ensures Strings.Join(fields, sep) == line
    ensures forall i :: 0 <= i < |fields| ==> sep !in fields[i]
  {
    Strings.SplitCount(line, sep);
    Strings.JoinSplit(line, sep);
    Strings.SplitFieldsAvoidSeparator(line, sep);
    Strings.Split(line, sep)
  }

  /** The same call as the code makes it: String.split takes its argument as
      a regular expression, and "|" is the alternation of two empty
      patterns, so for '|' the line falls apart into single characters. The
      other three candidates are not metacharacters and split literally. */
  function ParseLineAsWritten(line: string, sep: char): (fields: seq<string>)
    requires sep in Candidates
    ensures sep != '|' ==> fields == ParseLine(line, sep)
    ensures sep == '|' && |line| > 0 ==> |fields| == |line| + 1
    ensures sep == '|' ==> forall i :: 0 <= i < |line| ==> fields[i] == [line[i]]
  {
    if sep == '|' then Strings.SplitOnEmptyPattern(line) else Strings.Split(line, sep)
  }

  /** The '|' line "a|b" reads as four fields "a", "|", "b", "" instead of
      the two fields "a", "b". */
  lemma PipeSplitCounterexample()
    ensures ParseLineAsWritten("a|b", '|') == ["a", "|", "b", ""]
    ensures ParseLine("a|b", '|') == ["a", "b"]
  {
    var w := ParseLineAsWritten("a|b", '|');
    assert w[0] == "a" && w[1] == "|" && w[2] == "b" && w[3] == "";
    var p := ParseLine("a|b", '|');
    assert Strings.Split("", '|') == [""];
    assert "b"[1..] == "" && ['b'] + "" == "b";
    assert Strings.Split("b", '|') == ["b"];
    assert "|b"[1..] == "b";
    assert Strings.Split("|b", '|') == ["", "b"];
    assert "a|b"[1..] == "|b" && ['a'] + "" == "a";
  }

  /** The literal split undoes the join that writes a record, for every
      candidate separator '|' included: fields free of the separator come
      back as they were written. */
  lemma ParseJoinedLine(fields: seq<string>, sep: char)
    requires |fields| >= 1
    requires forall i :: 0 <= i < |fields| ==> sep !in fields[i]
    ensures ParseLine(Strings.Join(fields, sep), sep) == fields
  {
    Strings.SplitJoin(fields, sep);
  }

  /** The names loadCSV makes up for a file read without a header line:
      "Kol 1", "Kol 2", ... one per field of the first line. */
  function GeneratedNames(n: nat): (names: seq<string>)
    ensures |names| == n
    ensures forall i :: 0 <= i < n ==> names[i] == "Kol " + Strings.NatToString(i + 1)
  {
    seq(n, i requires 0 <= i < n => "Kol " + Strings.NatToString(i + 1))
  }

  /** The generated names are pairwise different. */
  lemma GeneratedNamesDistinct(n: nat)
    ensures forall i, j :: 0 <= i < j < n ==> GeneratedNames(n)[i] != GeneratedNames(n)[j]
  {
    var names := GeneratedNames(n);
    forall i, j | 0 <= i < j < n ensures names[i] != names[j] {
      var a := Strings.NatToString(i + 1);
      var b := Strings.NatToString(j + 1);
      Strings.NatToStringValue(i + 1);
      Strings.NatToStringValue(j + 1);
      assert a != b;
      assert a == names[i][4..] && b == names[j][4..];
    }
  }
}
