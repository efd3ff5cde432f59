/** The results of a serialized execution (`Output`): the answers of every
    command, and the text file they are written to. */
module Reporting {
  import opened Wrappers
  import opened Collections
  import opened CapturedOutput

  /** One entry of the map of values: a command and its answers. */
  datatype Entry = Entry(key: string, answers: seq<string>)

  /** The items `println` writes for one entry: the key, each answer, then an empty one. */
  function Block(key: string, answers: seq<string>): (r: seq<string>)
    ensures |r| == |answers| + 2 && r[0] == key && r[|r| - 1] == ""
    ensures r[1..|r| - 1] == answers
  {
    [key] + answers + [""]
  }

  /** What `writeToFile` passes to `println`, one item per call: the blocks of
      the entries in iteration order `order`. */
  function Render(order: seq<string>, m: map<string, seq<string>>): seq<string>
    requires forall k | k in order :: k in m
  {
    if order == [] then [] else Block(order[0], m[order[0]]) + Render(order[1..], m)
  }

  /** The entries of `m` in iteration order `order`. */
  function Entries(order: seq<string>, m: map<string, seq<string>>): (es: seq<Entry>)
    requires forall k | k in order :: k in m
    ensures |es| == |order|
    ensures forall i | 0 <= i < |order| :: es[i] == Entry(order[i], m[order[i]])
  {
    seq(|order|, i requires 0 <= i < |order| => Entry(order[i], m[order[i]]))
  }

  /** The number of items each entry prints. */
  function BlockSizes(order: seq<string>, m: map<string, seq<string>>): (r: seq<nat>)
    requires forall k | k in order :: k in m
    ensures |r| == |order|
    ensures forall i | 0 <= i < |order| :: r[i] == |m[order[i]]| + 2
  {
    seq(|order|, i requires 0 <= i < |order| => |m[order[i]]| + 2)
  }

  /** The file has, for each entry, one line per answer plus two. */
  lemma {:induction false} RenderLength(order: seq<string>, m: map<string, seq<string>>)
    requires forall k | k in order :: k in m
    ensures |Render(order, m)| == Sum(BlockSizes(order, m))
  {
    if order != [] {
      RenderLength(order[1..], m);
      assert BlockSizes(order, m)[1..] == BlockSizes(order[1..], m);
    }
  }

  /** The index of the first empty line of `ls`, or `|ls|` when there is none. */
  function UntilBlank(ls: seq<string>): (n: nat)
    ensures n <= |ls| && (n < |ls| ==> ls[n] == "")
    ensures forall k | 0 <= k < n :: ls[k] != ""
  {
    if ls == [] || ls[0] == "" then 0 else 1 + UntilBlank(ls[1..])
  }

  /** Reading the file back as the tests do: a key, then the answers up to the
      next empty line. */
  function Parse(lines: seq<string>): seq<Entry>
    decreases |lines|
  {
    if lines == [] then []
    else
      var n := UntilBlank(lines[1..]);
      if n == |lines| - 1 then [Entry(lines[0], lines[1..])]
      else [Entry(lines[0], lines[1..n + 1])] + Parse(lines[n + 2..])
  }

  /** The text of the file: every printed item followed by a line separator,
      written "\n". */
  function FileText(order: seq<string>, m: map<string, seq<string>>): string
    requires forall k | k in order :: k in m
  {
    JoinLines(Render(order, m))
  }

  /** `s` holds no line terminator, so it prints as exactly one line. */
  predicate OneLine(s: string) {
    '\n' !in s && '\r' !in s
  }

  /** Keys and answers that hold no terminator give printed items that hold none. */
  lemma {:induction false} RenderOneLine(order: seq<string>, m: map<string, seq<string>>)
    requires forall k | k in order :: k in m && OneLine(k) && forall a | a in m[k] :: OneLine(a)
    ensures forall i | 0 <= i < |Render(order, m)| :: OneLine(Render(order, m)[i])
  {
    if order != [] {
      RenderOneLine(order[1..], m);
      var b := Block(order[0], m[order[0]]);
      var rest := Render(order[1..], m);
      forall i | 0 <= i < |b| ensures OneLine(b[i]) {
        if 0 < i < |b| - 1 {
          assert b[i] in m[order[0]];
        }
      }
      forall i | 0 <= i < |b + rest| ensures OneLine((b + rest)[i]) {
        if i >= |b| {
          assert (b + rest)[i] == rest[i - |b|];
        }
      }
    }
  }

  /** When every key and answer is one non-empty line, reading the file back line
      by line gives the printed items, and so every entry with its answers in
      order. */
  lemma ParseRender(order: seq<string>, m: map<string, seq<string>>)
    requires forall k | k in order :: k in m && OneLine(k) && "" !in m[k] && forall a | a in m[k] :: OneLine(a)
    ensures ReaderLines(FileText(order, m)) == Render(order, m)
    ensures Parse(ReaderLines(FileText(order, m))) == Entries(order, m)
  {
    RenderOneLine(order, m);
    ReaderLinesOfJoined(Render(order, m));
    ParseItems(order, m);
  }

  /** An answer holding "\n" prints as two lines: the file written for the answer
      "\na" is byte for byte the one written for the answers "" and "a", and it
      reads back as two entries. */
  lemma MultiLineAnswerSplits()
    ensures FileText(["k"], map["k" := ["\na"]]) == FileText(["k"], map["k" := ["", "a"]])
    ensures Parse(ReaderLines(FileText(["k"], map["k" := ["\na"]]))) == [Entry("k", []), Entry("a", [])]
  {
    var lines := ["k", "", "a", ""];
    JoinedAnswerText();
    SplitAnswersText();
    ReaderLinesOfJoined(lines);
    SplitLinesParse();
  }

  /** The file written for one entry "k" whose single answer is "\na". */
  lemma JoinedAnswerText()
    ensures FileText(["k"], map["k" := ["\na"]]) == "k\n\na\n\n"
  {
    assert Render(["k"], map["k" := ["\na"]]) == ["k", "\na", ""];
    assert JoinLines([""]) == "\n";
    assert JoinLines(["\na", ""]) == "\na\n\n";
  }

  /** The file written for one entry "k" with the answers "" and "a". */
  lemma SplitAnswersText()
    ensures FileText(["k"], map["k" := ["", "a"]]) == JoinLines(["k", "", "a", ""]) == "k\n\na\n\n"
  {
    assert Render(["k"], map["k" := ["", "a"]]) == ["k", "", "a", ""];
    assert JoinLines([""]) == "\n";
    assert JoinLines(["a", ""]) == "a\n\n";
    assert JoinLines(["", "a", ""]) == "\na\n\n";
  }

  /** The lines "k", "", "a", "" read back as two entries without answers. */
  lemma SplitLinesParse()
    ensures Parse(["k", "", "a", ""]) == [Entry("k", []), Entry("a", [])]
  {
    ParseBlock("a", [], []);
    assert ["a"] + [] + [""] + [] == ["a", ""];
    ParseBlock("k", [], ["a", ""]);
    assert ["k"] + [] + [""] + ["a", ""] == ["k", "", "a", ""];
  }

  /** When no answer is an empty line, parsing the printed items gives every
      entry, with its answers in order. */
  lemma {:induction false} ParseItems(order: seq<string>, m: map<string, seq<string>>)
    requires forall k | k in order :: k in m && "" !in m[k]
    ensures Parse(Render(order, m)) == Entries(order, m)
  {
    if order != [] {
      var key := order[0];
      var answers := m[key];
      var rest := Render(order[1..], m);
      var lines := Render(order, m);
      assert lines == [key] + answers + [""] + rest;
      ParseBlock(key, answers, rest);
      ParseItems(order[1..], m);
      EntriesCons(order, m);
    }
  }

  /** The entries of a non-empty order: the first key's, then the rest's. */
  lemma EntriesCons(order: seq<string>, m: map<string, seq<string>>)
    requires order != [] && forall k | k in order :: k in m
    ensures Entries(order, m) == [Entry(order[0], m[order[0]])] + Entries(order[1..], m)
  {
    var es := Entries(order, m);
    var rest := Entries(order[1..], m);
    assert forall i | 0 <= i < |rest| :: es[i + 1] == rest[i];
  }

  /** A block followed by more lines reads back as its entry, then the rest. */
  lemma ParseBlock(key: string, answers: seq<string>, rest: seq<string>)
    requires "" !in answers
    ensures Parse([key] + answers + [""] + rest) == [Entry(key, answers)] + Parse(rest)
  {
    var lines := [key] + answers + [""] + rest;
    assert lines[1..] == answers + [""] + rest;
    UntilBlankPast(answers, rest);
    assert lines[1..|answers| + 1] == answers;
    assert lines[|answers| + 2..] == rest;
  }

  /** The first empty line after blank-free answers is the one that ends them. */
  lemma {:induction false} UntilBlankPast(answers: seq<string>, rest: seq<string>)
    requires "" !in answers
    ensures UntilBlank(answers + [""] + rest) == |answers|
  {
    if answers != [] {
      assert (answers + [""] + rest)[1..] == answers[1..] + [""] + rest;
      UntilBlankPast(answers[1..], rest);
    }
  }

  /** `outputFileFolder + File.separator + "output.txt"`, where a folder that
      was never set is written "null". */
  function FilePath(folder: Option<string>, separator: string): (p: string)
    ensures folder.Some? ==> p == folder.value + separator + "output.txt"
    ensures folder.None? ==> p == "null" + separator + "output.txt"
  {
    (if folder.Some? then folder.value else "null") + separator + "output.txt"
  }

  class Output {
    /** None stands for `null`. */
    var outputFileFolder: Option<string>
    var mapOfValues: map<string, seq<string>>

    /** A new Output has no folder and an empty map. */
    constructor ()
      ensures outputFileFolder == None && mapOfValues == map[]
    {
      outputFileFolder := None;
      mapOfValues := map[];
    }

    method SetMapOfValues(mapOfValues: map<string, seq<string>>)
      modifies this`mapOfValues
      ensures this.mapOfValues == mapOfValues && GetMapOfValues() == mapOfValues
    {
      this.mapOfValues := mapOfValues;
    }

    function GetMapOfValues(): map<string, seq<string>>
      reads this
    {
      mapOfValues
    }

    method SetOutputFileFolder(outputFileFolder: string)
      modifies this`outputFileFolder
      ensures this.outputFileFolder == Some(outputFileFolder) && GetOutputFileFolder() == Some(outputFileFolder)
    {
      this.outputFileFolder := Some(outputFileFolder);
    }

    function GetOutputFileFolder(): Option<string>
      reads this
    {
      outputFileFolder
    }

    /** `writeToFile`: the path of the file, the order in which the map handed out
        its entries (every key once, in an order the map chooses) and the items
        passed to `println`, whose text is `FileText(order, mapOfValues)`. */
    method WriteToFile(separator: string) returns (path: string, order: seq<string>, lines: seq<string>)
      ensures path == FilePath(outputFileFolder, separator)
      ensures NoDup(order) && Elems(order) == mapOfValues.Keys
      ensures lines == Render(order, mapOfValues)
    {
      path := (if outputFileFolder.Some? then outputFileFolder.value else "null") + separator + "output.txt";
      var remaining := mapOfValues.Keys;
      order := [];
      lines := [];
      while remaining != {}
        invariant remaining <= mapOfValues.Keys
        invariant NoDup(order) && Elems(order) !! remaining && Elems(order) + remaining == mapOfValues.Keys
        invariant forall k | k in order :: k in mapOfValues
        invariant lines == Render(order, mapOfValues)
        decreases |remaining|
      {
        var key :| key in remaining;
        var block := PrintEntry(key, mapOfValues[key]);
        lines := lines + block;
        RenderSnoc(order, key, mapOfValues);
        TakeKey(order, remaining, key);
        order := order + [key];
        remaining := remaining - {key};
      }
    }
  }

  /** The printing of one entry in `writeToFile`: the key, each answer, then an
      empty line. */
  method PrintEntry(key: string, answers: seq<string>) returns (block: seq<string>)
    ensures block == Block(key, answers)
  {
    block := [key];
    var k := 0;
    while k < |answers|
      invariant 0 <= k <= |answers|
      invariant block == [key] + answers[..k]
    {
      block := block + [answers[k]];
      k := k + 1;
    }
    assert answers[..k] == answers;
    block := block + [""];
  }

  /** Moving a not yet visited key to the end of the visit order keeps every key
      visited at most once. */
  lemma TakeKey(order: seq<string>, remaining: set<string>, key: string)
    requires NoDup(order) && Elems(order) !! remaining && key in remaining
    ensures NoDup(order + [key]) && Elems(order + [key]) !! remaining - {key}
    ensures Elems(order + [key]) + (remaining - {key}) == Elems(order) + remaining
  {
    assert key !in Elems(order);
    NoDupConcat(order, [key]);
    assert Elems(order + [key]) == Elems(order) + {key};
  }

  /** Adding an entry at the end adds its block at the end of the file. */
  lemma {:induction false} RenderSnoc(order: seq<string>, key: string, m: map<string, seq<string>>)
    requires forall k | k in order :: k in m
    requires key in m
    ensures Render(order + [key], m) == Render(order, m) + Block(key, m[key])
  {
    if order == [] {
      assert Render([key], m) == Block(key, m[key]) + Render([], m);
    } else {
      assert (order + [key])[1..] == order[1..] + [key];
      RenderSnoc(order[1..], key, m);
    }
  }

  /** A map with an entry whose answers are empty and one with two answers renders
      to key, blank; key, answer, answer, blank. */
  lemma RenderExample()
    ensures Render(["a", "b"], map["a" := [], "b" := ["1", "2"]]) == ["a", "", "b", "1", "2", ""]
  {
    var m := map["a" := [], "b" := ["1", "2"]];
    assert ["a", "b"][1..] == ["b"];
    assert Render(["b"], m) == Block("b", ["1", "2"]) + Render([], m);
  }
}
