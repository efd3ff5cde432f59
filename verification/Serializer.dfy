/** The serialized execution: every combination of parameter values a
    configuration describes becomes one command line per (train set, test set)
    pair, and each command's answers are collected under that command. */
module Serialization {
  import opened Wrappers
  import opened Collections
  import opened Numeric
  import opened CapturedOutput
  import opened Text

  /** The values one coordinate takes: start, start + step, ... up to the first
      value at or past end, which may overshoot it. */
  function Axis(start: real, end: real, step: real): (a: seq<real>)
    ensures |a| == Steps(start, end, step) + 1
  {
    seq(Steps(start, end, step) + 1, k => start + (k as real) * step)
  }

  /** Every value but the last lies below `end`; the last reaches `end` when the
      step is positive, and a coordinate that cannot climb keeps its start value. */
  lemma AxisBounds(start: real, end: real, step: real)
    ensures Axis(start, end, step)[0] == start
    ensures forall k | 0 <= k < Steps(start, end, step) :: Axis(start, end, step)[k] < end
    ensures step > 0.0 ==> Axis(start, end, step)[Steps(start, end, step)] >= end
    ensures step <= 0.0 || start >= end ==> Axis(start, end, step) == [start]
  {
    var a := Axis(start, end, step);
    var n := Steps(start, end, step);
    if step > 0.0 {
      forall k | 0 <= k < n ensures a[k] < end {
        StepsBounds(start, end, step, k);
      }
      StepsBounds(start, end, step, n);
    }
  }

  /** With start -5, end 6.5 and step 4 the coordinate takes -5, -1, 3 and 7:
      the last value overshoots the end. */
  lemma AxisOvershoots()
    ensures Axis(-5.0, 6.5, 4.0) == [-5.0, -1.0, 3.0, 7.0]
  {
    assert Steps(7.0, 6.5, 4.0) == 0;
    assert Steps(3.0, 6.5, 4.0) == 1;
    assert Steps(-1.0, 6.5, 4.0) == 2;
    assert Steps(-5.0, 6.5, 4.0) == 3;
  }

  /** No value occurs twice on an axis. */
  lemma AxisNoDup(start: real, end: real, step: real)
    ensures NoDup(Axis(start, end, step))
  {
    var a := Axis(start, end, step);
    if Steps(start, end, step) > 0 {
      assert step > 0.0;
      forall i, j | 0 <= i < j < |a| ensures a[i] != a[j] {
        assert a[j] - a[i] == ((j - i) as real) * step;
      }
    }
  }

  /** One step further along an axis is the next axis value. */
  lemma AxisNext(start: real, end: real, step: real, k: nat)
    requires k < Steps(start, end, step)
    ensures Axis(start, end, step)[k] + step == Axis(start, end, step)[k + 1]
  {
    assert ((k + 1) as real) * step == (k as real) * step + step;
  }

  /** The arguments `countAllCombinations` and `run` append to the command:
      " " and the text of each value, in coordinate order. */
  function Args(v: seq<real>, nt: NumberText): string {
    if v == [] then "" else Args(v[..|v| - 1], nt) + " " + nt.show(v[|v| - 1])
  }

  /** The suffixes " train test" that `generateTrainAndTestCommand` produces for
      one train path, one per test path. */
  function Block(train: string, test: seq<string>): seq<string> {
    seq(|test|, k requires 0 <= k < |test| => " " + train + " " + test[k])
  }

  /** The suffixes for every train path (outer) and test path (inner). */
  function PairSuffixes(train: seq<string>, test: seq<string>): seq<string> {
    if train == [] then []
    else PairSuffixes(train[..|train| - 1], test) + Block(train[|train| - 1], test)
  }

  lemma {:induction false} PairSuffixesLength(train: seq<string>, test: seq<string>)
    ensures |PairSuffixes(train, test)| == |train| * |test|
  {
    if train != [] {
      PairSuffixesLength(train[..|train| - 1], test);
      assert (|train| - 1) * |test| + |test| == |train| * |test|;
    }
  }

  /** Entry `j * |test| + k` pairs train path `j` with test path `k`, i.e. entry `i`
      pairs train `i / |test|` with test `i % |test|`. */
  lemma {:induction false} PairSuffixAt(train: seq<string>, test: seq<string>, j: nat, k: nat)
    requires j < |train| && k < |test|
    ensures j * |test| + k < |PairSuffixes(train, test)|
    ensures PairSuffixes(train, test)[j * |test| + k] == " " + train[j] + " " + test[k]
  {
    var init := train[..|train| - 1];
    PairSuffixesLength(train, test);
    PairSuffixesLength(init, test);
    MulMono(j, |train|, |test|);
    if j < |init| {
      MulMono(j, |init|, |test|);
      PairSuffixAt(init, test, j, k);
      assert init[j] == train[j];
    } else {
      assert j * |test| == |init| * |test|;
    }
  }

  lemma {:induction false} MulMono(j: nat, m: nat, d: nat)
    requires j < m
    ensures j * d + d <= m * d
    decreases m
  {
    if j + 1 < m {
      MulMono(j, m - 1, d);
      assert (m - 1) * d + d == m * d;
    } else {
      assert (j + 1) * d == j * d + d;
    }
  }

  /** The suffixes `generateTrainAndTestCommand` has produced once its counters
      reach train path `j` and test path `k`. */
  ghost function Produced(train: seq<string>, test: seq<string>, j: nat, k: nat): seq<string>
    requires j <= |train| && k <= |test|
  {
    PairSuffixes(train[..j], test) + (if j < |train| then Block(train[j], test)[..k] else [])
  }

  lemma ProducedStep(train: seq<string>, test: seq<string>, j: nat, k: nat)
    requires j < |train| && k < |test|
    ensures Produced(train, test, j, k) + [" " + train[j] + " " + test[k]] ==
            if k + 1 == |test| then Produced(train, test, j + 1, 0) else Produced(train, test, j, k + 1)
  {
    var b := Block(train[j], test);
    assert b[..k] + [b[k]] == b[..k + 1];
    if k + 1 == |test| {
      assert train[..j + 1][..j] == train[..j];
      assert b[..k + 1] == b;
    }
  }

  /** Once the entry counter reaches `n * d`, the train counter has reached `n`. */
  lemma CountersAtEnd(i: nat, j: nat, k: nat, d: nat, n: nat)
    requires i == j * d + k && k < d && j <= n && i == n * d
    ensures j == n
  {
    if j < n {
      MulMono(j, n, d);
    }
  }

  /** The counters of `generateTrainAndTestCommand`: entry `i` pairs train path
      `j` of `n` with test path `k` of `d`. */
  ghost predicate Counters(i: nat, j: nat, k: nat, n: nat, d: nat) {
    i == j * d + k && j <= n && (j == n ==> k == 0) && (d > 0 ==> k < d)
  }

  /** Below the last entry, the counters name a pair, and moving on steps the test
      counter, or wraps it and steps the train counter. */
  lemma CountersStep(i: nat, j: nat, k: nat, n: nat, d: nat)
    requires Counters(i, j, k, n, d) && i < n * d
    ensures j < n && k < d
    ensures k + 1 == d ==> Counters(i + 1, j + 1, 0, n, d)
    ensures k + 1 < d ==> Counters(i + 1, j, k + 1, n, d)
  {
    if j == n {
      assert false;
    }
    assert (j + 1) * d == j * d + d;
    if k + 1 == d && j + 1 > n {
      assert false;
    }
  }

  /** One iteration of the loop of `generateTrainAndTestCommand`: the counters
      stay in step and the produced suffixes grow by the current pair's. */
  lemma PairStep(train: seq<string>, test: seq<string>, i: nat, j: nat, k: nat)
    requires Counters(i, j, k, |train|, |test|) && i < |train| * |test|
    ensures j < |train| && k < |test|
    ensures k + 1 == |test| ==>
              Counters(i + 1, j + 1, 0, |train|, |test|) &&
              Produced(train, test, j, k) + [" " + train[j] + " " + test[k]] == Produced(train, test, j + 1, 0)
    ensures k + 1 < |test| ==>
              Counters(i + 1, j, k + 1, |train|, |test|) &&
              Produced(train, test, j, k) + [" " + train[j] + " " + test[k]] == Produced(train, test, j, k + 1)
  {
    CountersStep(i, j, k, |train|, |test|);
    ProducedStep(train, test, j, k);
  }

  /** When the entry counter reaches the number of pairs, every suffix has been
      produced. */
  lemma ProducedAll(train: seq<string>, test: seq<string>, i: nat, j: nat, k: nat)
    requires Counters(i, j, k, |train|, |test|) && i == |train| * |test|
    ensures k <= |test| && Produced(train, test, j, k) == PairSuffixes(train, test)
  {
    if |test| == 0 {
      assert k == 0 by {
        assert j * |test| == 0;
      }
      PairSuffixesLength(train, test);
      PairSuffixesLength(train[..j], test);
      assert |train| * |test| == 0 && |train[..j]| * |test| == 0;
    } else {
      CountersAtEnd(i, j, k, |test|, |train|);
      assert train[..j] == train;
    }
  }

  /** Every command of `results` was launched and holds the answers `getAnswers`
      cut from what it printed. */
  ghost predicate Answered(results: map<string, seq<string>>, ec: string -> Option<string>) {
    forall c | c in results :: ec(c).Some? && results[c] == StoredAnswers(ec(c).value)
  }

  /** Storing the answers of a launched command keeps every entry answered. */
  lemma AnsweredStore(results: map<string, seq<string>>, c: string, ec: string -> Option<string>)
    requires Answered(results, ec) && ec(c).Some?
    ensures Answered(results[c := StoredAnswers(ec(c).value)], ec)
  {
  }

  /** `prefix` completed with every suffix, in order. */
  function CommandLines(prefix: string, suffixes: seq<string>): (r: seq<string>)
    ensures |r| == |suffixes|
  {
    seq(|suffixes|, p requires 0 <= p < |suffixes| => prefix + suffixes[p])
  }

  /** The commands recorded for the tuples `cs`, one block per tuple, in order. */
  function AllCommands(command: string, nt: NumberText, suffixes: seq<string>, cs: seq<seq<real>>): seq<string> {
    if cs == [] then []
    else AllCommands(command, nt, suffixes, cs[..|cs| - 1]) + CommandLines(command + Args(cs[|cs| - 1], nt), suffixes)
  }

  lemma {:induction false} AllCommandsLength(command: string, nt: NumberText, suffixes: seq<string>, cs: seq<seq<real>>)
    ensures |AllCommands(command, nt, suffixes, cs)| == |cs| * |suffixes|
  {
    if cs != [] {
      AllCommandsLength(command, nt, suffixes, cs[..|cs| - 1]);
      assert (|cs| - 1) * |suffixes| + |suffixes| == |cs| * |suffixes|;
    }
  }

  /** Recording one more tuple appends its block of commands. */
  lemma AllCommandsSnoc(command: string, nt: NumberText, suffixes: seq<string>, cs: seq<seq<real>>, w: seq<real>)
    ensures AllCommands(command, nt, suffixes, cs + [w]) ==
            AllCommands(command, nt, suffixes, cs) + CommandLines(command + Args(w, nt), suffixes)
  {
    assert (cs + [w])[..|cs|] == cs;
  }

  /** A command is recorded for the tuples `cs` exactly when it completes the
      prefix of one of them. */
  lemma {:induction false} AllCommandsMember(command: string, nt: NumberText, suffixes: seq<string>,
                                             cs: seq<seq<real>>, c: string)
    ensures c in AllCommands(command, nt, suffixes, cs) <==>
            exists g :: g in cs && c in CommandLines(command + Args(g, nt), suffixes)
  {
    if cs != [] {
      var init, last := cs[..|cs| - 1], cs[|cs| - 1];
      AllCommandsMember(command, nt, suffixes, init, c);
      assert cs == init + [last];
      var block := CommandLines(command + Args(last, nt), suffixes);
      assert AllCommands(command, nt, suffixes, cs) == AllCommands(command, nt, suffixes, init) + block;
      if c in AllCommands(command, nt, suffixes, cs) {
        if c in block {
          assert last in cs;
        } else {
          var g :| g in init && c in CommandLines(command + Args(g, nt), suffixes);
          assert g in cs;
        }
      }
      if exists g :: g in cs && c in CommandLines(command + Args(g, nt), suffixes) {
        var g :| g in cs && c in CommandLines(command + Args(g, nt), suffixes);
        if g != last {
          assert g in init;
        }
      }
    }
  }

  /** Only which tuples are recorded decides which commands are recorded. */
  lemma AllCommandsSameElems(command: string, nt: NumberText, suffixes: seq<string>,
                             a: seq<seq<real>>, b: seq<seq<real>>)
    requires Elems(a) == Elems(b)
    ensures Elems(AllCommands(command, nt, suffixes, a)) == Elems(AllCommands(command, nt, suffixes, b))
  {
    forall c ensures c in AllCommands(command, nt, suffixes, a) <==> c in AllCommands(command, nt, suffixes, b) {
      AllCommandsMember(command, nt, suffixes, a, c);
      AllCommandsMember(command, nt, suffixes, b, c);
      assert forall g :: g in a <==> g in Elems(a);
      assert forall g :: g in b <==> g in Elems(b);
    }
  }

  /** The text of each value of `v`, in order. */
  function Shows(v: seq<real>, nt: NumberText): (r: seq<string>)
    ensures |r| == |v|
  {
    seq(|v|, i requires 0 <= i < |v| => nt.show(v[i]))
  }

  /** The arguments of `v` followed by " " and space-joined fields are " " followed
      by the values' texts and those fields, all joined by spaces. */
  lemma {:induction false} ArgsJoined(v: seq<real>, nt: NumberText, rest: seq<string>)
    requires |rest| >= 1
    ensures Args(v, nt) + " " + Joined(rest, ' ') == " " + Joined(Shows(v, nt) + rest, ' ')
  {
    if v == [] {
      assert Shows(v, nt) + rest == rest;
    } else {
      var init, x := v[..|v| - 1], v[|v| - 1];
      var more := [nt.show(x)] + rest;
      assert more[1..] == rest;
      assert Joined(more, ' ') == nt.show(x) + " " + Joined(rest, ' ');
      ArgsJoined(init, nt, more);
      assert Shows(init, nt) + more == Shows(v, nt) + rest;
      calc {
        Args(v, nt) + " " + Joined(rest, ' ');
        Args(init, nt) + " " + nt.show(x) + " " + Joined(rest, ' ');
        Args(init, nt) + " " + Joined(more, ' ');
      }
    }
  }

  /** A command line is the command, " ", and the values' texts, the train path
      and the test path joined by spaces. */
  lemma CommandFields(command: string, nt: NumberText, g: seq<real>, r: string, t: string)
    ensures command + Args(g, nt) + (" " + r + " " + t) == command + " " + Joined(Shows(g, nt) + [r, t], ' ')
  {
    assert [r, t][1..] == [t];
    assert Joined([r, t], ' ') == r + " " + t;
    ArgsJoined(g, nt, [r, t]);
    assert Args(g, nt) + (" " + r + " " + t) == Args(g, nt) + " " + Joined([r, t], ' ');
    assert command + Args(g, nt) + (" " + r + " " + t) == command + (Args(g, nt) + (" " + r + " " + t));
    assert command + " " + Joined(Shows(g, nt) + [r, t], ' ') == command + (" " + Joined(Shows(g, nt) + [r, t], ' '));
  }

  /** Equal texts after a common prefix are equal. */
  lemma PrefixCancel(p: string, a: string, b: string)
    ensures p + a == p + b ==> a == b
  {
    if p + a == p + b {
      assert (p + a)[|p|..] == a && (p + b)[|p|..] == b;
    }
  }

  /** Under a faithful number text, the fields of a command line hold no space
      when its paths hold none. */
  lemma FieldsSpaceFree(nt: NumberText, g: seq<real>, r: string, t: string)
    requires Faithful(nt) && ' ' !in r && ' ' !in t
    ensures forall i | 0 <= i < |Shows(g, nt) + [r, t]| :: ' ' !in (Shows(g, nt) + [r, t])[i]
  {
    var f := Shows(g, nt) + [r, t];
    forall i | 0 <= i < |f| ensures ' ' !in f[i] {
      if i < |g| {
        var x := g[i];
        assert f[i] == nt.show(x);
      } else if i == |g| {
        assert f[i] == r;
      } else {
        assert f[i] == t;
      }
    }
  }

  /** Paths that are pairwise distinct and hold no space: the command lines built
      from them can be taken apart again. */
  ghost predicate SeparatePaths(paths: seq<string>) {
    NoDup(paths) && forall p | p in paths :: ' ' !in p
  }

  /** Under a faithful number text and space-free paths, a command line gives back
      its tuple, its train path and its test path. */
  lemma CommandInjective(command: string, nt: NumberText, g1: seq<real>, r1: string, t1: string,
                         g2: seq<real>, r2: string, t2: string)
    requires Faithful(nt) && ' ' !in r1 && ' ' !in t1 && ' ' !in r2 && ' ' !in t2
    ensures command + Args(g1, nt) + (" " + r1 + " " + t1) == command + Args(g2, nt) + (" " + r2 + " " + t2) ==>
              g1 == g2 && r1 == r2 && t1 == t2
  {
    var f1, f2 := Shows(g1, nt) + [r1, t1], Shows(g2, nt) + [r2, t2];
    CommandFields(command, nt, g1, r1, t1);
    CommandFields(command, nt, g2, r2, t2);
    PrefixCancel(command + " ", Joined(f1, ' '), Joined(f2, ' '));
    FieldsSpaceFree(nt, g1, r1, t1);
    FieldsSpaceFree(nt, g2, r2, t2);
    PiecesOfJoined(f1, ' ');
    PiecesOfJoined(f2, ' ');
    if command + Args(g1, nt) + (" " + r1 + " " + t1) == command + Args(g2, nt) + (" " + r2 + " " + t2) {
      assert f1 == f2;
      assert |g1| == |g2|;
      forall i | 0 <= i < |g1| ensures g1[i] == g2[i] {
        assert f1[i] == nt.show(g1[i]) && f2[i] == nt.show(g2[i]);
        ShowInjective(nt, g1[i], g2[i]);
      }
      assert r1 == f1[|g1|] && r2 == f2[|g2|];
      assert t1 == f1[|g1| + 1] && t2 == f2[|g2| + 1];
    }
  }

  /** The pair suffixes are exactly " " + r + " " + t for a train path r and a test
      path t. */
  lemma {:induction false} PairSuffixesMember(train: seq<string>, test: seq<string>, x: string)
    ensures x in PairSuffixes(train, test) <==>
            exists r, t | r in train && t in test :: x == " " + r + " " + t
  {
    if train != [] {
      var init, last := train[..|train| - 1], train[|train| - 1];
      PairSuffixesMember(init, test, x);
      var b := Block(last, test);
      assert train == init + [last];
      assert PairSuffixes(train, test) == PairSuffixes(init, test) + b;
      if x in PairSuffixes(train, test) {
        if x in b {
          var k :| 0 <= k < |test| && b[k] == x;
          assert last in train && test[k] in test;
        } else {
          var r, t :| r in init && t in test && x == " " + r + " " + t;
          assert r in train;
        }
      }
      if exists r, t | r in train && t in test :: x == " " + r + " " + t {
        var r, t :| r in train && t in test && x == " " + r + " " + t;
        if r == last {
          var k :| 0 <= k < |test| && test[k] == t;
          assert b[k] == x;
        } else {
          assert r in init;
        }
      }
    }
  }

  /** Space-free paths: a pair suffix gives back its train path and its test path. */
  lemma PairInjective(r1: string, t1: string, r2: string, t2: string)
    requires ' ' !in r1 && ' ' !in t1 && ' ' !in r2 && ' ' !in t2
    ensures " " + r1 + " " + t1 == " " + r2 + " " + t2 ==> r1 == r2 && t1 == t2
  {
    var f1, f2 := [r1, t1], [r2, t2];
    assert f1[1..] == [t1] && f2[1..] == [t2];
    assert " " + r1 + " " + t1 == " " + Joined(f1, ' ');
    assert " " + r2 + " " + t2 == " " + Joined(f2, ' ');
    PrefixCancel(" ", Joined(f1, ' '), Joined(f2, ' '));
    PiecesOfJoined(f1, ' ');
    PiecesOfJoined(f2, ' ');
  }

  /** Distinct, space-free train paths and distinct, space-free test paths give
      distinct pair suffixes. */
  lemma {:induction false} PairSuffixesNoDup(train: seq<string>, test: seq<string>)
    requires NoDup(train) && NoDup(test)
    requires forall r | r in train :: ' ' !in r
    requires forall t | t in test :: ' ' !in t
    ensures NoDup(PairSuffixes(train, test))
  {
    if train != [] {
      var init, last := train[..|train| - 1], train[|train| - 1];
      assert train == init + [last];
      assert NoDup(init) by {
        forall i, j | 0 <= i < j < |init| ensures init[i] != init[j] {
          assert init[i] == train[i] && init[j] == train[j];
        }
      }
      PairSuffixesNoDup(init, test);
      var b := Block(last, test);
      forall i, j | 0 <= i < j < |b| ensures b[i] != b[j] {
        PairInjective(last, test[i], last, test[j]);
      }
      forall x | x in PairSuffixes(init, test) ensures x !in b {
        PairSuffixesMember(init, test, x);
        var r, t :| r in init && t in test && x == " " + r + " " + t;
        var m :| 0 <= m < |init| && init[m] == r;
        assert train[m] != last;
        forall k | 0 <= k < |b| ensures b[k] != x {
          PairInjective(last, test[k], r, t);
        }
      }
      NoDupConcat(PairSuffixes(init, test), b);
    }
  }

  /** Distinct tuples, under a faithful number text, with distinct space-free train
      and test paths, give distinct command lines. */
  lemma {:induction false} AllCommandsNoDup(command: string, nt: NumberText, train: seq<string>,
                                            test: seq<string>, cs: seq<seq<real>>)
    requires Faithful(nt) && NoDup(train) && NoDup(test) && NoDup(cs)
    requires forall r | r in train :: ' ' !in r
    requires forall t | t in test :: ' ' !in t
    ensures NoDup(AllCommands(command, nt, PairSuffixes(train, test), cs))
  {
    if cs != [] {
      var s := PairSuffixes(train, test);
      var init, last := cs[..|cs| - 1], cs[|cs| - 1];
      assert NoDup(init) by {
        forall i, j | 0 <= i < j < |init| ensures init[i] != init[j] {
          assert init[i] == cs[i] && init[j] == cs[j];
        }
      }
      AllCommandsNoDup(command, nt, train, test, init);
      PairSuffixesNoDup(train, test);
      var prefix := command + Args(last, nt);
      var block := CommandLines(prefix, s);
      forall i, j | 0 <= i < j < |block| ensures block[i] != block[j] {
        PrefixCancel(prefix, s[i], s[j]);
      }
      forall x | x in AllCommands(command, nt, s, init) ensures x !in block {
        AllCommandsMember(command, nt, s, init, x);
        var g :| g in init && x in CommandLines(command + Args(g, nt), s);
        var m :| 0 <= m < |init| && init[m] == g;
        assert cs[m] != last;
        var p :| 0 <= p < |s| && x == command + Args(g, nt) + s[p];
        SuffixShape(train, test, s[p]);
        var r1, t1 :| r1 in train && t1 in test && s[p] == " " + r1 + " " + t1;
        forall q | 0 <= q < |s| ensures block[q] != x {
          SuffixShape(train, test, s[q]);
          var r2, t2 :| r2 in train && t2 in test && s[q] == " " + r2 + " " + t2;
          CommandInjective(command, nt, last, r2, t2, g, r1, t1);
        }
      }
      assert AllCommands(command, nt, s, cs) == AllCommands(command, nt, s, init) + block;
      NoDupConcat(AllCommands(command, nt, s, init), block);
    }
  }

  /** Every pair suffix is " " + r + " " + t for a train path r and a test path t. */
  lemma SuffixShape(train: seq<string>, test: seq<string>, x: string)
    requires x in PairSuffixes(train, test)
    ensures exists r, t | r in train && t in test :: x == " " + r + " " + t
  {
    PairSuffixesMember(train, test, x);
  }

  /** Commands starting with every pair suffix after one prefix hold that prefix
      followed by " " + r + " " + t for every train path r and test path t. */
  lemma EveryPairCommand(prefix: string, train: seq<string>, test: seq<string>, commands: seq<string>)
    requires CommandLines(prefix, PairSuffixes(train, test)) <= commands
    ensures forall r, t | r in train && t in test :: prefix + " " + r + " " + t in commands
  {
    var lines := CommandLines(prefix, PairSuffixes(train, test));
    forall r, t | r in train && t in test ensures prefix + " " + r + " " + t in commands {
      var j :| 0 <= j < |train| && train[j] == r;
      var k :| 0 <= k < |test| && test[k] == t;
      PairSuffixAt(train, test, j, k);
      var i := j * |test| + k;
      assert lines[i] == prefix + (" " + r + " " + t) == prefix + " " + r + " " + t;
      assert lines[i] == commands[i] && i < |commands|;
    }
  }

  /** The range a configuration element gives its coordinate: a Parameter stays at
      its value, a Variable runs from its start to its end by its step. */
  function StartOf(e: NumericElement): real {
    if e.Parameter? then e.value else e.start
  }

  function EndOf(e: NumericElement): real {
    if e.Parameter? then e.value else e.end
  }

  function StepOf(e: NumericElement): real {
    if e.Parameter? then 0.0 else e.step
  }

  /** The first tuple of the configuration `val`: every coordinate at its start. */
  function StartTuple(val: seq<NumericElement>): (r: seq<real>)
    ensures |r| == |val|
  {
    seq(|val|, i requires 0 <= i < |val| => StartOf(val[i]))
  }

  /** Every tuple whose coordinates lie on the ranges of the configuration `val`. */
  ghost function ConfigurationGrid(val: seq<NumericElement>): seq<seq<real>> {
    Product(seq(|val|, i requires 0 <= i < |val| => Axis(StartOf(val[i]), EndOf(val[i]), StepOf(val[i]))))
  }

  /** The train paths `generateTrainAndTestCommand` uses: "" when there are none. */
  function PaddedTrain(train: seq<string>): (r: seq<string>)
    ensures r != []
  {
    if train == [] then [""] else train
  }

  /** The commands a run on the configuration `val`, the EC at `ecPath` and the
      given test and train paths executes: every grid tuple with every
      (train, test) pair. */
  ghost function CommandSet(val: seq<NumericElement>, ecPath: string, testSet: seq<string>,
                            trainSet: seq<string>, nt: NumberText): set<string> {
    Elems(AllCommands("java -jar " + ecPath, nt, PairSuffixes(PaddedTrain(trainSet), testSet), ConfigurationGrid(val)))
  }

  /** The serializer of one configuration: the per-coordinate ranges, the command
      prefix, the test and train paths, and what one run records. */
  class Serializer {
    const numberOfParameters: nat
    const start: seq<real>
    const end: seq<real>
    const step: seq<real>
    const command: string
    const testSet: seq<string>
    const numberText: NumberText
    var trainSet: seq<string>
    var combinations: seq<seq<real>>
    var commands: seq<string>
    var results: map<string, seq<string>>
    /** The axis index of every coordinate of every recorded tuple. */
    ghost var indices: seq<seq<nat>>

    /** One range per configuration element. */
    ghost predicate Shaped() {
      |start| == numberOfParameters && |end| == numberOfParameters && |step| == numberOfParameters
    }

    /** No coordinate that can still climb has a negative step. */
    ghost predicate NoBackwardStep()
      requires Shaped()
    {
      forall i | 0 <= i < numberOfParameters :: step[i] >= 0.0 || start[i] >= end[i]
    }

    ghost function Axes(): (axes: seq<seq<real>>)
      requires Shaped()
      ensures |axes| == numberOfParameters
      ensures forall i | 0 <= i < numberOfParameters :: axes[i] == Axis(start[i], end[i], step[i])
    {
      seq(numberOfParameters, i requires 0 <= i < numberOfParameters => Axis(start[i], end[i], step[i]))
    }

    /** Every tuple whose coordinates lie on their axes. */
    ghost function Grid(): seq<seq<real>>
      requires Shaped()
    {
      Product(Axes())
    }

    /** The grid holds one tuple per choice of a value on every coordinate. */
    lemma GridLength()
      requires Shaped()
      ensures |Grid()| == Prod(AxisLengths())
    {
      ProductLength(Axes());
      assert Lengths(Axes()) == AxisLengths();
    }

    /** The number of values each coordinate takes. */
    ghost function AxisLengths(): (r: seq<nat>)
      requires Shaped()
      ensures |r| == numberOfParameters
    {
      seq(numberOfParameters, i requires 0 <= i < numberOfParameters => Steps(start[i], end[i], step[i]) + 1)
    }

    /** `v` with coordinate `i` moved one step on. */
    function Successor(v: seq<real>, i: nat): (w: seq<real>)
      requires Shaped() && i < |v| && i < numberOfParameters
      ensures |w| == |v|
    {
      v[i := v[i] + step[i]]
    }

    /** Every successor of `u` that the search would visit is in `cs`. */
    ghost predicate Expanded(u: seq<real>, cs: seq<seq<real>>)
      requires Shaped()
    {
      forall i | 0 <= i < numberOfParameters && i < |u| && u[i] < end[i] :: Successor(u, i) in cs
    }

    /** Every tuple of `cs` from index `from` on is expanded within `cs`. */
    ghost predicate ExpandedFrom(cs: seq<seq<real>>, from: nat)
      requires Shaped()
    {
      forall j {:trigger Expanded(cs[j], cs)} | from <= j < |cs| :: Expanded(cs[j], cs)
    }

    /** Axis indices within the axes' bounds. */
    ghost predicate Bounded(ks: seq<nat>)
      requires Shaped()
    {
      |ks| == numberOfParameters &&
      forall i | 0 <= i < numberOfParameters :: ks[i] <= Steps(start[i], end[i], step[i])
    }

    /** Every tuple of `cs` is the grid point of its axis indices in `ks`. */
    ghost predicate OnGrid(cs: seq<seq<real>>, ks: seq<seq<nat>>)
      requires Shaped()
    {
      |ks| == |cs| && forall j | 0 <= j < |cs| :: Bounded(ks[j]) && cs[j] == Point(ks[j])
    }

    /** Adding a grid point with its indices keeps every tuple on the grid. */
    lemma OnGridSnoc(cs: seq<seq<real>>, ks: seq<seq<nat>>, w: seq<real>, k: seq<nat>)
      requires Shaped() && OnGrid(cs, ks) && Bounded(k) && w == Point(k)
      ensures OnGrid(cs + [w], ks + [k])
    {
      forall j | 0 <= j < |cs| + 1 ensures Bounded((ks + [k])[j]) && (cs + [w])[j] == Point((ks + [k])[j]) {
        if j < |cs| {
          assert (ks + [k])[j] == ks[j] && (cs + [w])[j] == cs[j];
        }
      }
    }

    ghost predicate Valid()
      reads this
    {
      && Shaped()
      && OnGrid(combinations, indices)
      && NoDup(combinations)
      && (combinations != [] ==> trainSet != [])
      && commands == AllCommands(command, numberText, PairSuffixes(trainSet, testSet), combinations)
    }

    /** Parameters become the range (value, value, 0) and Variables keep theirs. */
    constructor (val: seq<NumericElement>, ecPath: string, testSet: seq<string>,
                 trainSet: seq<string>, numberText: NumberText)
      ensures Valid()
      ensures numberOfParameters == |val| && command == "java -jar " + ecPath
      ensures forall i | 0 <= i < |val| && val[i].Parameter? ::
                start[i] == val[i].value && end[i] == val[i].value && step[i] == 0.0
      ensures forall i | 0 <= i < |val| && val[i].Variable? ::
                start[i] == val[i].start && end[i] == val[i].end && step[i] == val[i].step
      ensures this.testSet == testSet && this.trainSet == trainSet && this.numberText == numberText
      ensures combinations == [] && commands == [] && results == map[]
      ensures Grid() == ConfigurationGrid(val) && start == StartTuple(val)
      ensures (forall k | 0 <= k < |val| :: val[k].Variable? ==> val[k].step > 0.0) ==> NoBackwardStep()
    {
      var n := |val|;
      var s := new real[n];
      var e := new real[n];
      var st := new real[n];
      var index := 0;
      while index < n
        invariant 0 <= index <= n
        invariant forall i | 0 <= i < index && val[i].Parameter? ::
                    s[i] == val[i].value && e[i] == val[i].value && st[i] == 0.0
        invariant forall i | 0 <= i < index && val[i].Variable? ::
                    s[i] == val[i].start && e[i] == val[i].end && st[i] == val[i].step
      {
        match val[index] {
          case Parameter(_, value) =>
            s[index] := value;
            e[index] := s[index];
            st[index] := 0.0;
          case Variable(_, vStart, vEnd, vStep) =>
            s[index] := vStart;
            e[index] := vEnd;
            st[index] := vStep;
        }
        index := index + 1;
      }
      numberOfParameters := n;
      start := s[..];
      end := e[..];
      step := st[..];
      command := "java -jar " + ecPath;
      this.testSet := testSet;
      this.trainSet := trainSet;
      this.numberText := numberText;
      combinations := [];
      commands := [];
      results := map[];
      indices := [];
      new;
      assert Axes() == seq(|val|, i requires 0 <= i < |val| => Axis(StartOf(val[i]), EndOf(val[i]), StepOf(val[i])));
    }

    /** `generateTrainAndTestCommand`: pads an empty train list with "" and returns
        the train/test suffixes, outer loop over train paths. */
    method GenerateTrainAndTestCommand() returns (r: seq<string>)
      modifies this`trainSet
      ensures trainSet == if old(trainSet) == [] then [""] else old(trainSet)
      ensures r == PairSuffixes(trainSet, testSet)
    {
      if |trainSet| == 0 {
        trainSet := trainSet + [""];
      }
      var train, test := trainSet, testSet;
      var dim := |test| * |train|;
      var pairs := new string[dim];
      var j := 0;
      var k := 0;
      var i := 0;
      assert dim == |train| * |test|;
      while i < dim
        modifies pairs
        invariant 0 <= i <= dim
        invariant Counters(i, j, k, |train|, |test|)
        invariant pairs[..i] == Produced(train, test, j, k)
      {
        PairStep(train, test, i, j, k);
        ghost var before := pairs[..i];
        pairs[i] := " " + train[j] + " " + test[k];
        assert pairs[..i + 1] == before + [pairs[i]];
        k := k + 1;
        if k == |test| {
          k := 0;
          j := j + 1;
        }
        i := i + 1;
      }
      ProducedAll(train, test, i, j, k);
      r := pairs[..];
    }
  
    /** `newCommand` of `run` and `countAllCombinations`: the command prefix
        followed by the text of each value. */
    method BuildCommand(v: seq<real>) returns (line: string)
      requires |v| == numberOfParameters
      ensures line == command + Args(v, numberText)
    {
      line := command;
      var j := 0;
      while j < numberOfParameters
        invariant 0 <= j <= numberOfParameters
        invariant line == command + Args(v[..j], numberText)
      {
        assert v[..j + 1][..j] == v[..j];
        line := line + " " + numberText.show(v[j]);
        j := j + 1;
      }
      assert v[..j] == v;
    }

    /** The inner loop of `run` and `countAllCombinations`: one command per
        train/test pair, appended in order. */
    method AppendCommands(newCommand: string, trainAndTest: seq<string>)
      modifies this`commands
      ensures commands == old(commands) + CommandLines(newCommand, trainAndTest)
    {
      var p := 0;
      while p < |trainAndTest|
        invariant 0 <= p <= |trainAndTest|
        invariant commands == old(commands) + CommandLines(newCommand, trainAndTest[..p])
      {
        assert CommandLines(newCommand, trainAndTest[..p + 1]) ==
               CommandLines(newCommand, trainAndTest[..p]) + [newCommand + trainAndTest[p]];
        commands := commands + [newCommand + trainAndTest[p]];
        p := p + 1;
      }
      assert trainAndTest[..p] == trainAndTest;
    }

    /** Records a new tuple and one command per train/test pair, as `run` does for
        the start tuple and `countAllCombinations` for every new tuple. */
    method Record(w: seq<real>, ghost ks: seq<nat>)
      requires Valid() && Bounded(ks) && w == Point(ks) && w !in combinations
      modifies this`combinations, this`commands, this`trainSet, this`indices
      ensures Valid()
      ensures combinations == old(combinations) + [w] && indices == old(indices) + [ks]
      ensures trainSet == if old(trainSet) == [] then [""] else old(trainSet)
      ensures commands == old(commands) + CommandLines(command + Args(w, numberText), PairSuffixes(trainSet, testSet))
    {
      var newCommand := BuildCommand(w);
      NoDupConcat(combinations, [w]);
      OnGridSnoc(combinations, indices, w, ks);
      AllCommandsSnoc(command, numberText, PairSuffixes(if trainSet == [] then [""] else trainSet, testSet), combinations, w);
      combinations := combinations + [w];
      indices := indices + [ks];
      var trainAndTest := GenerateTrainAndTestCommand();
      AppendCommands(newCommand, trainAndTest);
    }

    /** `countAllCombinations`: if coordinate `idx` of `v` is still below its end,
        step it; a tuple not seen before is recorded and searched from in every
        coordinate. */
    method CountAllCombinations(idx: nat, v: seq<real>)
      requires Valid() && NoBackwardStep() && combinations != []
      requires idx < numberOfParameters && |v| == numberOfParameters && v in combinations
      modifies this`combinations, this`commands, this`trainSet, this`indices
      ensures Valid()
      ensures trainSet == old(trainSet)
      ensures old(combinations) <= combinations && old(commands) <= commands
      ensures v[idx] < end[idx] ==> Successor(v, idx) in combinations
      ensures ExpandedFrom(combinations, |old(combinations)|)
      decreases |Elems(Grid())| - |combinations|
    {
      GridFits();
      var w, added := Visit(idx, v);
      if !added {
        return;
      }
      ghost var recorded := combinations;
      var i := 0;
      while i < numberOfParameters
        modifies this`combinations, this`commands, this`trainSet, this`indices
        invariant Valid() && trainSet == old(trainSet)
        invariant 0 <= i <= numberOfParameters
        invariant recorded <= combinations && old(commands) <= commands
        invariant SteppedIn(w, i, combinations)
        invariant ExpandedFrom(combinations, |recorded|)
      {
        ghost var before := combinations;
        GridFits();
        CountAllCombinations(i, w);
        SearchStep(w, i, before, combinations, |recorded|);
        i := i + 1;
      }
      assert Expanded(w, combinations);
      assert combinations[|old(combinations)|] == w;
    }

    /** The head of `countAllCombinations`: the successor of `v` in coordinate `idx`
        is recorded when it lies below the end and was not seen before. */
    method Visit(idx: nat, v: seq<real>) returns (w: seq<real>, added: bool)
      requires Valid() && NoBackwardStep() && combinations != []
      requires idx < numberOfParameters && |v| == numberOfParameters && v in combinations
      modifies this`combinations, this`commands, this`trainSet, this`indices
      ensures Valid() && trainSet == old(trainSet) && old(commands) <= commands
      ensures added ==> v[idx] < end[idx] && w == Successor(v, idx) && combinations == old(combinations) + [w]
      ensures !added ==> combinations == old(combinations) && (v[idx] < end[idx] ==> Successor(v, idx) in combinations)
    {
      w := v;
      if v[idx] >= end[idx] {
        return w, false;
      }
      w := v[idx := v[idx] + step[idx]];
      if w in combinations {
        return w, false;
      }
      ghost var pos :| 0 <= pos < |combinations| && combinations[pos] == v;
      ghost var ks := indices[pos];
      SuccessorPoint(ks, idx);
      Record(w, ks[idx := ks[idx] + 1]);
      added := true;
    }

    /** The successors of `w` in its first `i` coordinates are in `cs`. */
    ghost predicate SteppedIn(w: seq<real>, i: nat, cs: seq<seq<real>>)
      requires Shaped()
    {
      forall j | 0 <= j < i && j < numberOfParameters && j < |w| && w[j] < end[j] :: Successor(w, j) in cs
    }

    /** One more search step keeps what the earlier ones established. */
    lemma SearchStep(w: seq<real>, i: nat, a: seq<seq<real>>, b: seq<seq<real>>, from: nat)
      requires Shaped() && i < numberOfParameters && i < |w| && a <= b && from <= |a|
      requires SteppedIn(w, i, a) && (w[i] < end[i] ==> Successor(w, i) in b)
      requires ExpandedFrom(a, from) && ExpandedFrom(b, |a|)
      ensures SteppedIn(w, i + 1, b) && ExpandedFrom(b, from)
    {
      PrefixMember(a, b);
      forall j | from <= j < |a| ensures Expanded(b[j], b) {
        assert Expanded(a[j], a);
        assert b[j] == a[j];
        ExpandedGrows(a[j], a, b);
      }
    }

    /** `execution`: launches one command and stores its answers under it; `ec`
        gives the classifier's standard output for a command, or None when the
        command cannot be launched. */
    method Execution(commandLine: string, ec: string -> Option<string>) returns (ok: bool)
      modifies this`results
      ensures ok <==> ec(commandLine).Some?
      ensures ok ==> results == old(results)[commandLine := StoredAnswers(ec(commandLine).value)]
      ensures !ok ==> results == old(results)
    {
      var raw := ec(commandLine);
      if raw.None? {
        return false;
      }
      var executionOutput := JoinLines(ReaderLines(raw.value));
      var lines := GetAnswersAsWritten(executionOutput);
      results := results[commandLine := lines];
      ok := true;
    }

    /** `run`: records the start tuple, searches from it in every coordinate, then
        executes every command in order; None when a command cannot be launched. */
    method Run(ec: string -> Option<string>) returns (outcome: Option<map<string, seq<string>>>)
      requires Valid() && NoBackwardStep()
      requires combinations == [] && commands == [] && results == map[]
      modifies this
      ensures Valid()
      ensures trainSet == if old(trainSet) == [] then [""] else old(trainSet)
      ensures |combinations| > 0 && combinations[0] == start
      ensures CommandLines(command + Args(start, numberText), PairSuffixes(trainSet, testSet)) <= commands
      ensures Elems(combinations) == Elems(Grid())
      ensures |combinations| == Prod(AxisLengths())
      ensures |commands| == |combinations| * (|trainSet| * |testSet|)
      ensures Elems(commands) == Elems(AllCommands(command, numberText, PairSuffixes(trainSet, testSet), Grid()))
      ensures outcome.Some? <==> forall c | c in commands :: ec(c).Some?
      ensures outcome.Some? ==> outcome.value == results && results.Keys == Elems(commands)
      ensures outcome.Some? ==> forall c | c in results :: results[c] == StoredAnswers(ec(c).value)
      ensures outcome.Some? ==>
                forall r, t | r in trainSet && t in testSet :: command + Args(start, numberText) + " " + r + " " + t in results
      ensures outcome.Some? && Faithful(numberText) && SeparatePaths(trainSet) && SeparatePaths(testSet) ==>
                |results.Keys| == Prod(AxisLengths()) * (|trainSet| * |testSet|)
    {
      EnumerateCombinations();
      AllCommandsSameElems(command, numberText, PairSuffixes(trainSet, testSet), combinations, Grid());
      var ok := ExecuteAll(ec);
      outcome := if ok then Some(results) else None;
      if ok {
        EveryPairCommand(command + Args(start, numberText), trainSet, testSet, commands);
      }
      assert Faithful(numberText) && SeparatePaths(trainSet) && SeparatePaths(testSet) ==>
               |Elems(commands)| == |commands| by {
        if Faithful(numberText) && SeparatePaths(trainSet) && SeparatePaths(testSet) {
          AllCommandsNoDup(command, numberText, trainSet, testSet, combinations);
          NoDupCard(commands);
        }
      }
    }

    /** The first half of `run`: every tuple of the grid, once each, starting with
        the start tuple, and its commands. */
    method EnumerateCombinations()
      requires Valid() && NoBackwardStep()
      requires combinations == [] && commands == []
      modifies this`combinations, this`commands, this`trainSet, this`indices
      ensures Valid()
      ensures trainSet == if old(trainSet) == [] then [""] else old(trainSet)
      ensures |combinations| > 0 && combinations[0] == start
      ensures CommandLines(command + Args(start, numberText), PairSuffixes(trainSet, testSet)) <= commands
      ensures Elems(combinations) == Elems(Grid())
      ensures |combinations| == Prod(AxisLengths())
      ensures |commands| == |combinations| * (|trainSet| * |testSet|)
    {
      var arr := start;
      ghost var origin := seq(numberOfParameters, i => 0);
      forall i | 0 <= i < numberOfParameters ensures Point(origin)[i] == start[i] {
        AxisBounds(start[i], end[i], step[i]);
      }
      Record(arr, origin);
      ghost var first := commands;
      var i := 0;
      while i < numberOfParameters
        invariant trainSet == if old(trainSet) == [] then [""] else old(trainSet)
        invariant 0 <= i <= numberOfParameters
        invariant [arr] <= combinations && first <= commands
        invariant SteppedIn(arr, i, combinations)
        invariant ExpandedFrom(combinations, 1)
        invariant Valid()
      {
        ghost var before := combinations;
        CountAllCombinations(i, arr);
        SearchStep(arr, i, before, combinations, 1);
        i := i + 1;
      }
      assert Expanded(combinations[0], combinations);
      GridCovered();
      AllCommandsLength(command, numberText, PairSuffixes(trainSet, testSet), combinations);
      PairSuffixesLength(trainSet, testSet);
    }

    /** The second half of `run`: `execution` of every command in order, stopping
        at the first that cannot be launched. */
    method ExecuteAll(ec: string -> Option<string>) returns (ok: bool)
      requires results == map[]
      modifies this`results
      ensures ok <==> forall c | c in commands :: ec(c).Some?
      ensures ok ==> results.Keys == Elems(commands)
      ensures ok ==> forall c | c in results :: results[c] == StoredAnswers(ec(c).value)
    {
      var k := 0;
      while k < |commands|
        invariant 0 <= k <= |commands|
        invariant forall m | 0 <= m < k :: ec(commands[m]).Some?
        invariant results.Keys == Elems(commands[..k])
        invariant Answered(results, ec)
      {
        assert Elems(commands[..k + 1]) == Elems(commands[..k]) + {commands[k]};
        ghost var before := results;
        ok := Execution(commands[k], ec);
        if !ok {
          return;
        }
        AnsweredStore(before, commands[k], ec);
        k := k + 1;
      }
      assert commands[..k] == commands;
      ok := true;
    }

    /** Valid tuples are duplicate-free grid tuples, so there are at most as many
        as the grid holds. */
    lemma GridFits()
      requires Valid()
      ensures Elems(combinations) <= Elems(Grid())
      ensures |combinations| <= |Elems(Grid())|
    {
      forall u | u in combinations ensures u in Grid() {
        var j :| 0 <= j < |combinations| && combinations[j] == u;
        PointInGrid(indices[j]);
      }
      NoDupCard(combinations);
      SubsetCard(Elems(combinations), Elems(Grid()));
    }

    lemma ExpandedGrows(u: seq<real>, a: seq<seq<real>>, b: seq<seq<real>>)
      requires Shaped() && Expanded(u, a) && a <= b
      ensures Expanded(u, b)
    {
      PrefixMember(a, b);
    }

    /** A tuple of in-bounds axis indices is a grid tuple. */
    lemma PointInGrid(ks: seq<nat>)
      requires Shaped() && Bounded(ks)
      ensures Point(ks) in Grid()
    {
      forall i | 0 <= i < numberOfParameters ensures Point(ks)[i] in Axes()[i] {
        assert Point(ks)[i] == Axes()[i][ks[i]];
      }
      ProductMember(Axes(), Point(ks));
    }

    /** Stepping coordinate `i` of a grid tuple below its end moves its index one
        on, or leaves the tuple as it is when the step is zero. */
    lemma SuccessorPoint(ks: seq<nat>, i: nat)
      requires Shaped() && NoBackwardStep() && Bounded(ks) && i < numberOfParameters
      requires Point(ks)[i] < end[i]
      ensures step[i] >= 0.0
      ensures step[i] == 0.0 ==> Successor(Point(ks), i) == Point(ks)
      ensures step[i] > 0.0 ==> Bounded(ks[i := ks[i] + 1]) &&
                                Successor(Point(ks), i) == Point(ks[i := ks[i] + 1])
    {
      AxisBounds(start[i], end[i], step[i]);
      if step[i] > 0.0 {
        AxisNext(start[i], end[i], step[i], ks[i]);
      }
    }

    /** The tuple whose coordinate `i` is value `ks[i]` of axis `i`. */
    ghost function Point(ks: seq<nat>): (p: seq<real>)
      requires Shaped() && Bounded(ks)
      ensures |p| == numberOfParameters
    {
      seq(numberOfParameters, i requires 0 <= i < numberOfParameters => Axis(start[i], end[i], step[i])[ks[i]])
    }

    /** From the start tuple, a set closed under stepping reaches every grid tuple,
        by induction on the sum of the axis indices. */
    lemma {:induction false} Reached(cs: seq<seq<real>>, ks: seq<nat>)
      requires Shaped() && Bounded(ks)
      requires start in cs
      requires ExpandedFrom(cs, 0)
      ensures Point(ks) in cs
      decreases Sum(ks)
    {
      if forall i | 0 <= i < numberOfParameters :: ks[i] == 0 {
        forall i | 0 <= i < numberOfParameters ensures Point(ks)[i] == start[i] {
          AxisBounds(start[i], end[i], step[i]);
        }
        assert Point(ks) == start;
      } else {
        var i :| 0 <= i < numberOfParameters && ks[i] > 0;
        var less := ks[i := ks[i] - 1];
        SumDecrement(ks, i);
        Reached(cs, less);
        var u := Point(less);
        var j :| 0 <= j < |cs| && cs[j] == u;
        assert Expanded(cs[j], cs);
        AxisBounds(start[i], end[i], step[i]);
        PointStep(less, i);
        assert less[i := less[i] + 1] == ks;
      }
    }

    /** Moving one coordinate of a grid point one step on gives the grid point
        one axis index further. */
    lemma PointStep(ks: seq<nat>, i: nat)
      requires Shaped() && Bounded(ks) && i < numberOfParameters
      requires ks[i] < Steps(start[i], end[i], step[i])
      ensures Bounded(ks[i := ks[i] + 1])
      ensures Successor(Point(ks), i) == Point(ks[i := ks[i] + 1])
    {
      var next := ks[i := ks[i] + 1];
      AxisNext(start[i], end[i], step[i], ks[i]);
      forall q | 0 <= q < numberOfParameters ensures Successor(Point(ks), i)[q] == Point(next)[q] {
        if q != i {
          assert next[q] == ks[q];
        }
      }
    }

    /** Once the start tuple is recorded and every recorded tuple is expanded, the
        recorded tuples are exactly the grid, each once. */
    lemma GridCovered()
      requires Valid() && |combinations| > 0 && combinations[0] == start
      requires ExpandedFrom(combinations, 0)
      ensures Elems(combinations) == Elems(Grid())
      ensures |combinations| == Prod(AxisLengths())
    {
      GridFits();
      GridReached(combinations);
      GridNoDup();
      SameElemsSameLength(combinations, Grid());
      ProductLength(Axes());
      assert Lengths(Axes()) == AxisLengths();
    }

    /** A sequence holding the start tuple and closed under stepping holds every
        grid tuple. */
    lemma GridReached(cs: seq<seq<real>>)
      requires Shaped() && |cs| > 0 && cs[0] == start && ExpandedFrom(cs, 0)
      ensures forall g | g in Grid() :: g in cs
    {
      forall g | g in Grid() ensures g in cs {
        ProductMember(Axes(), g);
        var ks := seq(numberOfParameters, i requires 0 <= i < numberOfParameters => AxisIndex(i, g[i]));
        Reached(cs, ks);
        assert Point(ks) == g;
      }
    }

    /** No tuple occurs twice in the grid. */
    lemma GridNoDup()
      requires Shaped()
      ensures NoDup(Grid())
    {
      forall i | 0 <= i < numberOfParameters ensures NoDup(Axes()[i]) {
        AxisNoDup(start[i], end[i], step[i]);
      }
      ProductNoDup(Axes());
    }

    /** The index of value `x` on axis `i`. */
    ghost function AxisIndex(i: nat, x: real): (k: nat)
      requires Shaped() && i < numberOfParameters && x in Axes()[i]
      ensures k <= Steps(start[i], end[i], step[i]) && x == Axis(start[i], end[i], step[i])[k]
    {
      var a := Axes()[i];
      var k :| 0 <= k < |a| && a[k] == x;
      k
    }
  }
}
