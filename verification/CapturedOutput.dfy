/** What the Serializer does with the standard output of an executable
    classifier: `getStringFromInputStream` reads it line by line and writes each
    line back followed by "\n", and `getAnswers` cuts that text into answers. */
module CapturedOutput {
  import opened Text

  predicate IsTerminator(c: char) {
    c == '\n' || c == '\r'
  }

  /** The index of the first line terminator in `s`, or `|s|` when there is none. */
  function LineEnd(s: string): (i: nat)
    ensures i <= |s|
    ensures forall k | 0 <= k < i :: !IsTerminator(s[k])
    ensures i < |s| ==> IsTerminator(s[i])
  {
    if s == [] || IsTerminator(s[0]) then 0 else 1 + LineEnd(s[1..])
  }

  /** The successive results of `BufferedReader.readLine` on `s`: a line ends at
      "\n", at "\r" or at "\r\n", and text after the last terminator is a line too. */
  function ReaderLines(s: string): (r: seq<string>)
    ensures forall k | 0 <= k < |r| :: '\n' !in r[k] && '\r' !in r[k]
    decreases |s|
  {
    if s == [] then []
    else
      var i := LineEnd(s);
      if i == |s| then [s]
      else if s[i] == '\r' && i + 1 < |s| && s[i + 1] == '\n' then [s[..i]] + ReaderLines(s[i + 2..])
      else [s[..i]] + ReaderLines(s[i + 1..])
  }

  /** The text `getStringFromInputStream` builds: every line followed by "\n". */
  function JoinLines(ls: seq<string>): string {
    if ls == [] then "" else ls[0] + "\n" + JoinLines(ls[1..])
  }

  /** The index of the first `c` at or after `from`, or `|s|` when there is none. */
  function NextIndex(s: string, c: char, from: nat): (n: nat)
    requires from <= |s|
    ensures from <= n <= |s|
    ensures forall k | from <= k < n :: s[k] != c
    ensures n < |s| ==> s[n] == c
    decreases |s| - from
  {
    if from == |s| || s[from] == c then from else NextIndex(s, c, from + 1)
  }

  /** The pieces of `s` from index `from` on that are followed by a "\n";
      text after the last "\n" is dropped. */
  function LinesAt(s: string, from: nat): seq<string>
    requires from <= |s|
    decreases |s| - from
  {
    var n := NextIndex(s, '\n', from);
    if n == |s| then [] else [s[from..n]] + LinesAt(s, n + 1)
  }

  /** The pieces of `s` that are followed by a "\n": one answer per "\n". */
  function Lines(s: string): seq<string> {
    LinesAt(s, 0)
  }

  /** What `getAnswers` returns as written: the search for the first "\n" starts at
      index 1, so the first character always belongs to the first answer, even
      when it is itself a "\n". */
  function AsWrittenAnswers(s: string): seq<string> {
    if s == [] then []
    else
      var rest := LinesAt(s, 1);
      if rest == [] then [] else [[s[0]] + rest[0]] + rest[1..]
  }

  /** `String.indexOf(c, from)`: the first index at or after `from` holding `c`, or -1. */
  method IndexOf(s: string, c: char, from: nat) returns (r: int)
    requires from <= |s|
    ensures r == if NextIndex(s, c, from) == |s| then -1 else NextIndex(s, c, from)
  {
    var i := from;
    while i < |s| && s[i] != c
      invariant from <= i <= |s|
      invariant NextIndex(s, c, i) == NextIndex(s, c, from)
    {
      i := i + 1;
    }
    r := if i == |s| then -1 else i;
  }

  /** `getAnswers` as written: the index walk whose first search starts at index 1. */
  method GetAnswersAsWritten(output: string) returns (lines: seq<string>)
    ensures lines == AsWrittenAnswers(output)
  {
    lines := [];
    var last := |output|;
    var current := 0;
    while current < last
      invariant 0 <= current <= last
      invariant current == 0 ==> lines == []
      invariant current > 0 ==> current < last
      invariant current > 0 ==> AsWrittenAnswers(output) == lines + LinesAt(output, current + 1)
      decreases last - current
    {
      var previous := current;
      current := IndexOf(output, '\n', current + 1);
      if current == -1 {
        if previous == 0 {
          AsWrittenNone(output);
        } else {
          LinesAtEnd(output, previous + 1);
        }
        break;
      }
      var subStringStart := if previous == 0 then 0 else previous + 1;
      var line := output[subStringStart..current];
      if previous == 0 {
        AsWrittenFirst(output, current);
        assert lines + [line] == [line];
      } else {
        LinesAtNext(output, previous + 1, current, current + 1);
        assert lines + ([line] + LinesAt(output, current + 1)) == (lines + [line]) + LinesAt(output, current + 1);
      }
      lines := lines + [line];
    }
  }

  /** With no "\n" past the first character, `getAnswers` as written finds nothing. */
  lemma AsWrittenNone(s: string)
    requires |s| >= 1 && NextIndex(s, '\n', 1) == |s|
    ensures AsWrittenAnswers(s) == []
  {
    LinesAtEnd(s, 1);
  }

  /** The first answer of `getAnswers` as written runs from index 0 to the first "\n"
      past the first character. */
  lemma AsWrittenFirst(s: string, n: nat)
    requires 1 <= n < |s| && NextIndex(s, '\n', 1) == n
    ensures AsWrittenAnswers(s) == [s[0..n]] + LinesAt(s, n + 1)
  {
    LinesAtNext(s, 1, n, n + 1);
    assert [s[0]] + s[1..n] == s[0..n];
  }

  /** `getAnswers` with the first search starting at index 0: one answer per "\n". */
  method GetAnswers(output: string) returns (lines: seq<string>)
    ensures lines == Lines(output)
  {
    lines := [];
    var begin := 0;
    var next := IndexOf(output, '\n', 0);
    while next != -1
      invariant 0 <= begin <= |output|
      invariant next == if NextIndex(output, '\n', begin) == |output| then -1 else NextIndex(output, '\n', begin)
      invariant Lines(output) == lines + LinesAt(output, begin)
      decreases |output| - begin
    {
      lines := lines + [output[begin..next]];
      begin := next + 1;
      next := IndexOf(output, '\n', begin);
    }
  }

  /** Searching in `p + s` past `p` is searching in `s`. */
  lemma {:induction false} NextIndexShift(p: string, s: string, c: char, from: nat)
    requires from <= |s|
    ensures NextIndex(p + s, c, |p| + from) == |p| + NextIndex(s, c, from)
    decreases |s| - from
  {
    if from < |s| {
      assert (p + s)[|p| + from] == s[from];
      if s[from] != c {
        NextIndexShift(p, s, c, from + 1);
      }
    }
  }

  /** The answers of `p + s` past `p` are the answers of `s`. */
  lemma {:induction false} LinesAtShift(p: string, s: string, from: nat)
    requires from <= |s|
    ensures LinesAt(p + s, |p| + from) == LinesAt(s, from)
    decreases |s| - from
  {
    var n := NextIndex(s, '\n', from);
    if n < |s| {
      LinesAtShift(p, s, n + 1);
      LinesAtShiftLine(p, s, from, n);
    } else {
      LinesAtShiftEnd(p, s, from);
    }
  }

  /** One step of `LinesAtShift`: the line of `s` that starts at `from` is the line
      of `p + s` that starts at `|p| + from`, so the answers agree as soon as the
      answers after that line do. */
  lemma LinesAtShiftLine(p: string, s: string, from: nat, n: nat)
    requires from <= n < |s| && NextIndex(s, '\n', from) == n
    requires LinesAt(p + s, |p| + (n + 1)) == LinesAt(s, n + 1)
    ensures LinesAt(p + s, |p| + from) == LinesAt(s, from)
  {
    NextIndexShift(p, s, '\n', from);
    SliceShift(p, s, from, n);
    SameLineThenSameLines(p + s, |p| + from, |p| + n, |p| + (n + 1), s, from, n, n + 1);
  }

  /** The last step of `LinesAtShift`: with no "\n" after `from` in `s`, there are
      no answers past `|p| + from` in `p + s` either. */
  lemma LinesAtShiftEnd(p: string, s: string, from: nat)
    requires from <= |s| && NextIndex(s, '\n', from) == |s|
    ensures LinesAt(p + s, |p| + from) == LinesAt(s, from)
  {
    NextIndexShift(p, s, '\n', from);
    LinesAtEnd(p + s, |p| + from);
    LinesAtEnd(s, from);
  }

  /** Two texts whose next lines are equal and whose answers after those lines
      are equal have the same answers. */
  lemma SameLineThenSameLines(t: string, tFrom: nat, tEnd: nat, tNext: nat,
                              s: string, from: nat, end: nat, next: nat)
    requires tFrom <= tEnd < |t| && NextIndex(t, '\n', tFrom) == tEnd && tNext == tEnd + 1
    requires from <= end < |s| && NextIndex(s, '\n', from) == end && next == end + 1
    requires t[tFrom..tEnd] == s[from..end] && LinesAt(t, tNext) == LinesAt(s, next)
    ensures LinesAt(t, tFrom) == LinesAt(s, from)
  {
    LinesAtNext(t, tFrom, tEnd, tNext);
    LinesAtNext(s, from, end, next);
  }

  /** A slice of `s` is the slice `|p|` further on in `p + s`. */
  lemma SliceShift(p: string, s: string, i: nat, j: nat)
    requires i <= j <= |s|
    ensures (p + s)[|p| + i..|p| + j] == s[i..j]
  {
    forall k | 0 <= k < j - i ensures (p + s)[|p| + i..|p| + j][k] == s[i..j][k] {
      assert (p + s)[|p| + i + k] == s[i + k];
    }
  }

  /** `LinesAt` past the last "\n" is empty. */
  lemma LinesAtEnd(s: string, from: nat)
    requires from <= |s| && NextIndex(s, '\n', from) == |s|
    ensures LinesAt(s, from) == []
  {
  }

  /** `LinesAt` before a "\n" at `n` starts with the line that ends there and
      goes on from `next`, just past that "\n". */
  lemma LinesAtNext(s: string, from: nat, n: nat, next: nat)
    requires from <= n < |s| && NextIndex(s, '\n', from) == n && next == n + 1
    ensures LinesAt(s, from) == [s[from..n]] + LinesAt(s, next)
  {
  }

  /** A line free of terminators, followed by "\n", ends at that "\n". */
  lemma {:induction false} LineEndOfLine(a: string, b: string)
    requires '\n' !in a && '\r' !in a
    ensures LineEnd(a + "\n" + b) == |a|
  {
    if a != [] {
      assert (a + "\n" + b)[1..] == a[1..] + "\n" + b;
      LineEndOfLine(a[1..], b);
    }
  }

  /** Reading back the text `getStringFromInputStream` builds gives its lines back. */
  lemma {:induction false} ReaderLinesOfJoined(ls: seq<string>)
    requires forall k | 0 <= k < |ls| :: '\n' !in ls[k] && '\r' !in ls[k]
    ensures ReaderLines(JoinLines(ls)) == ls
  {
    if ls != [] {
      var s := JoinLines(ls);
      var rest := JoinLines(ls[1..]);
      assert s == ls[0] + "\n" + rest;
      LineEndOfLine(ls[0], rest);
      assert s[..|ls[0]|] == ls[0];
      assert s[|ls[0]| + 1..] == rest;
      ReaderLinesOfJoined(ls[1..]);
    }
  }

  /** Cutting at every "\n" recovers the lines `getStringFromInputStream` joined. */
  lemma {:induction false} LinesOfJoined(ls: seq<string>)
    requires forall k | 0 <= k < |ls| :: '\n' !in ls[k]
    ensures Lines(JoinLines(ls)) == ls
  {
    if ls != [] {
      var a := ls[0];
      var rest := JoinLines(ls[1..]);
      var s := JoinLines(ls);
      assert s == (a + "\n") + rest;
      assert s[|a|] == '\n';
      assert forall k | 0 <= k < |a| :: s[k] == a[k];
      assert NextIndex(s, '\n', 0) == |a|;
      assert s[0..|a|] == a;
      LinesAtShift(a + "\n", rest, 0);
      LinesOfJoined(ls[1..]);
    }
  }

  /** The answers of a command are exactly the lines the classifier printed. */
  lemma AnswersAreReaderLines(raw: string)
    ensures Lines(JoinLines(ReaderLines(raw))) == ReaderLines(raw)
  {
    LinesOfJoined(ReaderLines(raw));
  }

  /** The answers `execution` stores for a command whose classifier printed `raw`:
      `getAnswers`, as written, of the text `getStringFromInputStream` builds. */
  function StoredAnswers(raw: string): seq<string> {
    AsWrittenAnswers(JoinLines(ReaderLines(raw)))
  }

  /** The stored answers are the printed lines whenever the first printed line is
      not empty (or nothing was printed). */
  lemma StoredAnswersAgree(raw: string)
    requires ReaderLines(raw) == [] || ReaderLines(raw)[0] != ""
    ensures StoredAnswers(raw) == ReaderLines(raw)
  {
    var ls := ReaderLines(raw);
    var s := JoinLines(ls);
    if ls != [] {
      assert s == ls[0] + "\n" + JoinLines(ls[1..]);
      assert s[0] == ls[0][0];
    }
    AsWrittenAgrees(s);
    LinesOfJoined(ls);
  }

  /** As written, `getAnswers` is right whenever the text does not begin with "\n",
      in particular whenever the first printed line is not empty. */
  lemma AsWrittenAgrees(s: string)
    requires s == [] || s[0] != '\n'
    ensures AsWrittenAnswers(s) == Lines(s)
  {
    if s != [] {
      var n := NextIndex(s, '\n', 1);
      assert NextIndex(s, '\n', 0) == n;
      if n < |s| {
        assert [s[0]] + s[1..n] == s[0..n];
      }
    }
  }

  /** When the first printed line is empty, `getAnswers` as written glues it to the
      second one and loses an answer: the lines "" and "a" come back as "\na". */
  lemma AsWrittenLosesLeadingEmptyLine()
    ensures JoinLines(["", "a"]) == "\na\n"
    ensures AsWrittenAnswers(JoinLines(["", "a"])) == ["\na"]
    ensures Lines(JoinLines(["", "a"])) == ["", "a"]
  {
    LinesOfJoined(["", "a"]);
    var s := "\na\n";
    assert NextIndex(s, '\n', 1) == 2;
    assert LinesAt(s, 3) == [];
    assert s[1..2] == "a";
    assert LinesAt(s, 1) == ["a"];
    assert [s[0]] + "a" == "\na";
  }

  /** A classifier that prints an empty line and then "a" gets the single stored
      answer "\na" instead of the two lines it printed. */
  lemma StoredAnswersLoseLeadingEmptyLine()
    ensures ReaderLines("\na") == ["", "a"]
    ensures StoredAnswers("\na") == ["\na"]
  {
    var raw := "\na";
    assert LineEnd(raw) == 0;
    assert raw[1..] == "a";
    assert LineEnd("a") == 1;
    assert ReaderLines("a") == ["a"];
    assert ReaderLines(raw) == [raw[..0]] + ReaderLines(raw[1..]);
    AsWrittenLosesLeadingEmptyLine();
  }
}
