/** The java.lang.String and java.io behaviour the editor relies on, over
    Dafny strings (`seq<char>`): literal splitting with trailing empty fields,
    joining, line reading, substring tests, ordinal comparison, ASCII case
    folding and decimal printing. */
module Strings {

  /** Number of occurrences of `c` in `s` (`s.chars().filter(ch -> ch == c).count()`). */
  function Count(s: string, c: char): nat
  {
    if |s| == 0 then 0 else (if s[0] == c then 1 else 0) + Count(s[1..], c)
  }

  /** Fields written one after another with `sep` between neighbours and none
      after the last, as the header and row loops of the editor print them. */
  function Join(fields: seq<string>, sep: char): string
  {
    if |fields| == 0 then ""
    else if |fields| == 1 then fields[0]
    else fields[0] + [sep] + Join(fields[1..], sep)
  }

  /** Joining two or more fields puts the separator right after the first. */
  lemma JoinSeparatorAfterFirst(fields: seq<string>, sep: char)
    requires |fields| >= 2
    ensures |Join(fields, sep)| > |fields[0]| && Join(fields, sep)[|fields[0]|] == sep
  {
    assert Join(fields, sep) == fields[0] + [sep] + Join(fields[1..], sep);
  }

  /** `s.split(String.valueOf(sep), -1)` for a separator that is not a regex
      metacharacter: a literal split that keeps every field, trailing empty
      ones included; a string without `sep` is its own single field. */
  function Split(s: string, sep: char): (r: seq<string>)
    ensures |r| >= 1
    decreases |s|
  {
    if |s| == 0 then [""]
    else if s[0] == sep then [""] + Split(s[1..], sep)
    else
      var t := Split(s[1..], sep);
      [[s[0]] + t[0]] + t[1..]
  }

  /** `s.split("|", -1)`. The pattern "|" is a regular-expression alternation
      of two empty patterns, so it matches the empty string at every position:
      the string falls apart into its single characters followed by one
      trailing empty field, and "" stays [""]. */
  function SplitOnEmptyPattern(s: string): (r: seq<string>)
    ensures |s| == 0 ==> r == [""]
    ensures |s| > 0 ==> |r| == |s| + 1 && r[|s|] == ""
    ensures forall i :: 0 <= i < |s| ==> r[i] == [s[i]]
  {
    if |s| == 0 then [""]
    else seq(|s|, i requires 0 <= i < |s| => [s[i]]) + [""]
  }

  /** The field count of a literal split is one more than the number of
      separators. */
  lemma {:induction false} SplitCount(s: string, sep: char)
    ensures |Split(s, sep)| == Count(s, sep) + 1
    decreases |s|
  {
    if |s| > 0 {
      SplitCount(s[1..], sep);
    }
  }

  /** No field of a literal split contains the separator. */
  lemma {:induction false} SplitFieldsAvoidSeparator(s: string, sep: char)
    ensures forall i :: 0 <= i < |Split(s, sep)| ==> sep !in Split(s, sep)[i]
    decreases |s|
  {
    if |s| > 0 {
      SplitFieldsAvoidSeparator(s[1..], sep);
    }
  }

  /** Joining the fields of a literal split with the same separator gives the
      line back. */
  lemma {:induction false} JoinSplit(s: string, sep: char)
    ensures Join(Split(s, sep), sep) == s
    decreases |s|
  {
    if |s| > 0 {
      var t := Split(s[1..], sep);
      JoinSplit(s[1..], sep);
      if s[0] == sep {
        assert Split(s, sep) == [""] + t;
        assert ([""] + t)[1..] == t;
      } else {
        var r := Split(s, sep);
        assert r == [[s[0]] + t[0]] + t[1..];
        if |t| > 1 {
          assert r[1..] == t[1..];
          assert Join(t, sep) == t[0] + [sep] + Join(t[1..], sep);
        }
      }
    }
  }

  /** Splitting text that starts with a separator-free prefix `a`: the prefix
      begins the first field. */
  lemma {:induction false} SplitAfterPlainPrefix(a: string, rest: string, sep: char)
    requires sep !in a
    ensures Split(a + rest, sep) == [a + Split(rest, sep)[0]] + Split(rest, sep)[1..]
    decreases |a|
  {
    if |a| > 0 {
      SplitAfterPlainPrefix(a[1..], rest, sep);
      assert (a + rest)[1..] == a[1..] + rest;
      assert [a[0]] + (a[1..] + Split(rest, sep)[0]) == a + Split(rest, sep)[0];
    } else {
      assert a + rest == rest;
      assert a + Split(rest, sep)[0] == Split(rest, sep)[0];
    }
  }

  /** Splitting joined separator-free fields gives the fields back. */
  lemma {:induction false} SplitJoin(fields: seq<string>, sep: char)
    requires |fields| >= 1
    requires forall i :: 0 <= i < |fields| ==> sep !in fields[i]
    ensures Split(Join(fields, sep), sep) == fields
    decreases |fields|
  {
    if |fields| == 1 {
      SplitAfterPlainPrefix(fields[0], "", sep);
      assert fields[0] + "" == fields[0];
    } else {
      var j := Join(fields[1..], sep);
      SplitJoin(fields[1..], sep);
      assert Join(fields, sep) == fields[0] + ([sep] + j);
      SplitAfterPlainPrefix(fields[0], [sep] + j, sep);
      assert ([sep] + j)[1..] == j;
      assert Split([sep] + j, sep) == [""] + fields[1..];
      assert fields[0] + "" == fields[0];
      assert fields == [fields[0]] + fields[1..];
    }
  }

  /** Line terminators recognised by BufferedReader.readLine. */
  predicate IsLineBreak(c: char)
  {
    c == '\n' || c == '\r'
  }

  /** A text that holds no line terminator: one line once read back. */
  predicate NoLineBreak(s: string)
  {
    forall j :: 0 <= j < |s| ==> !IsLineBreak(s[j])
  }

  /** The index of the first line terminator at or after `from`, or |text|. */
  function LineEnd(text: string, from: nat): (i: nat)
    requires from <= |text|
    ensures from <= i <= |text|
    ensures i < |text| ==> IsLineBreak(text[i])
    ensures forall j :: from <= j < i ==> !IsLineBreak(text[j])
    decreases |text| - from
  {
    if from == |text| || IsLineBreak(text[from]) then from else LineEnd(text, from + 1)
  }

  /** The lines that repeated BufferedReader.readLine calls return for `text`:
      a line ends at "\n", "\r" or "\r\n"; a last line without a terminator is
      still returned, and the end of input yields no further line. */
  function ReadLines(text: string): seq<string>
    decreases |text|
  {
    if |text| == 0 then []
    else
      var i := LineEnd(text, 0);
      if i == |text| then [text]
      else
        var next := if text[i] == '\r' && i + 1 < |text| && text[i + 1] == '\n' then i + 2 else i + 1;
        [text[..i]] + ReadLines(text[next..])
  }

  /** Lines each followed by "\n", as successive PrintWriter.println calls write them. */
  function JoinLines(lines: seq<string>): string
  {
    if |lines| == 0 then "" else lines[0] + "\n" + JoinLines(lines[1..])
  }

  /** Reading back lines that were each written with a trailing newline gives
      the same lines, provided none of them holds a line terminator. */
  lemma {:induction false} ReadJoinLines(lines: seq<string>)
    requires forall k :: 0 <= k < |lines| ==> NoLineBreak(lines[k])
    ensures ReadLines(JoinLines(lines)) == lines
    decreases |lines|
  {
    if |lines| > 0 {
      var l := lines[0];
      var rest := JoinLines(lines[1..]);
      var text := JoinLines(lines);
      assert text == l + "\n" + rest;
      assert text[|l|] == '\n';
      assert forall j :: 0 <= j < |l| ==> text[j] == l[j];
      var i := LineEnd(text, 0);
      assert i == |l|;
      assert text[..i] == l;
      assert text[i + 1..] == rest;
      ReadJoinLines(lines[1..]);
      assert lines == [l] + lines[1..];
    }
  }

  /** `s.startsWith(prefix)`. */
  predicate StartsWith(s: string, prefix: string)
  {
    |prefix| <= |s| && s[..|prefix|] == prefix
  }

  /** `s.contains(sub)`: `sub` starts at some position of `s`. */
  predicate Contains(s: string, sub: string)
    decreases |s|
  {
    StartsWith(s, sub) || (|s| > 0 && Contains(s[1..], sub))
  }

  /** `sub` occurs in `s` starting at index `i`. */
  predicate OccursAt(s: string, sub: string, i: int)
  {
    0 <= i && i + |sub| <= |s| && s[i..i + |sub|] == sub
  }

  /** Contains holds exactly when `sub` occurs in `s` at some index. */
  lemma {:induction false} ContainsOccurrence(s: string, sub: string)
    ensures Contains(s, sub) <==> exists i :: OccursAt(s, sub, i)
    decreases |s|
  {
    if StartsWith(s, sub) {
      assert OccursAt(s, sub, 0);
    }
    if |s| > 0 {
      ContainsOccurrence(s[1..], sub);
      if Contains(s[1..], sub) {
        var i :| OccursAt(s[1..], sub, i);
        assert s[i + 1..i + 1 + |sub|] == s[1..][i..i + |sub|];
        assert OccursAt(s, sub, i + 1);
      }
      if exists i :: OccursAt(s, sub, i) {
        var i :| OccursAt(s, sub, i);
        if i > 0 {
          assert s[1..][i - 1..i - 1 + |sub|] == s[i..i + |sub|];
          assert OccursAt(s[1..], sub, i - 1);
        }
      }
    }
  }

  /** `a.compareTo(b)`: the difference of the first differing characters, or
      else the difference of the lengths. Characters are compared by their
      code, which is Java's ordinal comparison. */
  function CompareTo(a: string, b: string): int
    decreases |a|
  {
    if |a| == 0 || |b| == 0 then |a| - |b|
    else if a[0] != b[0] then a[0] as int - b[0] as int
    else CompareTo(a[1..], b[1..])
  }

  /** compareTo is zero exactly for equal strings. */
  lemma {:induction false} CompareToZero(a: string, b: string)
    ensures CompareTo(a, b) == 0 <==> a == b
    decreases |a|
  {
    if |a| > 0 && |b| > 0 && a[0] == b[0] {
      CompareToZero(a[1..], b[1..]);
      assert a == [a[0]] + a[1..];
      assert b == [b[0]] + b[1..];
    }
  }

  /** Swapping the arguments negates the result. */
  lemma {:induction false} CompareToFlip(a: string, b: string)
    ensures CompareTo(b, a) == -CompareTo(a, b)
    decreases |a|
  {
    if |a| > 0 && |b| > 0 && a[0] == b[0] {
      CompareToFlip(a[1..], b[1..]);
    }
  }

  /** "Not after" is transitive. */
  lemma {:induction false} CompareToTransitive(a: string, b: string, c: string)
    requires CompareTo(a, b) <= 0 && CompareTo(b, c) <= 0
    ensures CompareTo(a, c) <= 0
    decreases |a|
  {
    if |a| > 0 && |b| > 0 && |c| > 0 && a[0] == b[0] && b[0] == c[0] {
      CompareToTransitive(a[1..], b[1..], c[1..]);
    }
  }

  /** Upper-case ASCII letters to lower case; every other character unchanged. */
  function LowerAscii(c: char): char
  {
    if 'A' <= c <= 'Z' then (c as int + 32) as char else c
  }

  /** `a.equalsIgnoreCase(b)`, folding case for ASCII letters only. */
  predicate EqualsIgnoreCase(a: string, b: string)
  {
    |a| == |b| && forall i :: 0 <= i < |a| ==> LowerAscii(a[i]) == LowerAscii(b[i])
  }

  /** The decimal digit character for 0..9. */
  function DigitChar(d: nat): char
    requires d < 10
  {
    ('0' as int + d) as char
  }

  /** `String.valueOf(n)` for a non-negative int: decimal, no leading zeros. */
  function NatToString(n: nat): (r: string)
    ensures |r| >= 1
    ensures forall i :: 0 <= i < |r| ==> '0' <= r[i] <= '9'
    decreases n
  {
    if n < 10 then [DigitChar(n)] else NatToString(n / 10) + [DigitChar(n % 10)]
  }

  /** The number a string of decimal digits denotes. */
  function DecimalValue(s: string): nat
    requires forall i :: 0 <= i < |s| ==> '0' <= s[i] <= '9'
  {
    if |s| == 0 then 0 else 10 * DecimalValue(s[..|s| - 1]) + (s[|s| - 1] as int - '0' as int)
  }

  /** Reading the printed digits back gives the number. */
  lemma {:induction false} NatToStringValue(n: nat)
    ensures DecimalValue(NatToString(n)) == n
    decreases n
  {
    if n >= 10 {
      NatToStringValue(n / 10);
      var s := NatToString(n);
      assert s[..|s| - 1] == NatToString(n / 10);
    }
  }
}
