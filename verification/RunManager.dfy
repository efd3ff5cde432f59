/** The start of a serialized execution (`RunManager`): checks the selection of
    files, collects the selected files by kind, checks that their paths exist,
    then runs the Serializer on them and writes the output file. */
module Runs {
  import opened Wrappers
  import opened Text
  import opened Collections
  import opened Numeric
  import opened Models
  import opened Persistence
  import Serialization
  import Reporting
  import CapturedOutput
  import Configurations

  /** What `checkClickedModels` accepts: any number of TRAIN files, at least one
      TEST file, and exactly one EC and one configuration. */
  predicate Acceptable(t: FileType, count: nat) {
    t == Train || (t == Test && count >= 1) || ((t == Ec || t == Configuration) && count == 1)
  }

  /** The index in `FileTypes` of the first kind from `from` on whose selection
      is not acceptable, or `|FileTypes|` when there is none. */
  function FirstRejected(sel: seq<seq<Model>>, from: nat): (f: nat)
    requires |sel| == |FileTypes| && from <= |FileTypes|
    ensures from <= f <= |FileTypes|
    ensures forall i | from <= i < f :: Acceptable(FileTypes[i], |sel[i]|)
    ensures f < |FileTypes| ==> !Acceptable(FileTypes[f], |sel[f]|)
    decreases |FileTypes| - from
  {
    if from == |FileTypes| || !Acceptable(FileTypes[from], |sel[from]|) then from
    else FirstRejected(sel, from + 1)
  }

  /** A selected file whose path does not exist; configurations have no file. */
  function Missing(isFile: string -> bool): Model -> bool {
    (m: Model) => !isFile(m.path) && m.fileType != Configuration
  }

  /** What `validatePaths` collects: every missing file of every list, in order. */
  function Invalid(lists: seq<seq<Model>>, isFile: string -> bool): seq<Model> {
    Filter(Missing(isFile), Concat(lists))
  }

  /** The list of lists after `resetModels`: one empty list per kind. */
  function EmptyLists(): (r: seq<seq<Model>>)
    ensures |r| == |FileTypes| && forall i | 0 <= i < |r| :: r[i] == []
  {
    seq(|FileTypes|, i => [])
  }

  /** The paths of `ms`, in order. */
  function Paths(ms: seq<Model>): (ps: seq<string>)
    ensures |ps| == |ms| && forall i | 0 <= i < |ms| :: ps[i] == ms[i].path
  {
    seq(|ms|, i requires 0 <= i < |ms| => ms[i].path)
  }

  /** Empty lists after the selection add no file. */
  lemma {:induction false} ConcatEmptyTail(lists: seq<seq<Model>>, n: nat)
    ensures Concat(lists + seq(n, i => [])) == Concat(lists)
  {
    if n > 0 {
      var tail := seq(n, i => []);
      var init := seq(n - 1, i => []);
      assert (lists + tail)[..|lists + tail| - 1] == lists + init;
      assert (lists + tail)[|lists + tail| - 1] == [];
      assert Concat(lists + tail) == Concat(lists + init) + [];
      ConcatEmptyTail(lists, n - 1);
    } else {
      assert lists + seq(n, i => []) == lists;
    }
  }

  /** After `resetModels`, the files `validatePaths` reports are those of the
      selection. */
  lemma InvalidOfSelection(sel: seq<seq<Model>>, isFile: string -> bool)
    ensures Invalid(sel + EmptyLists(), isFile) == Invalid(sel, isFile)
  {
    ConcatEmptyTail(sel, |FileTypes|);
    assert EmptyLists() == seq(|FileTypes|, i => []);
  }

  /** Every file `validatePaths` reports is a selected file of a list that does
      not exist and is no configuration, and every such file is reported. */
  lemma InvalidExactly(lists: seq<seq<Model>>, isFile: string -> bool)
    ensures forall m :: m in Invalid(lists, isFile) <==>
              (exists k :: 0 <= k < |lists| && m in lists[k]) && !isFile(m.path) && m.fileType != Configuration
  {
  }

  /** The path of the output file and the lines written to it. */
  datatype Written = Written(path: string, lines: seq<string>)

  /** The paths of `ms`, in list order, as `run` collects them. */
  method CollectPaths(ms: seq<Model>) returns (ps: seq<string>)
    ensures ps == Paths(ms)
  {
    ps := [];
    var i := 0;
    while i < |ms|
      invariant 0 <= i <= |ms|
      invariant ps == Paths(ms[..i])
    {
      ps := ps + [ms[i].path];
      i := i + 1;
    }
    assert ms[..i] == ms;
  }

  /** The inner loop of `validatePaths`: the missing files of one list. */
  method MissingOf(ms: seq<Model>, isFile: string -> bool) returns (found: seq<Model>)
    ensures found == Filter(Missing(isFile), ms)
  {
    found := [];
    var k := 0;
    while k < |ms|
      invariant 0 <= k <= |ms|
      invariant found == Filter(Missing(isFile), ms[..k])
    {
      assert ms[..k + 1][..k] == ms[..k];
      if !isFile(ms[k].path) && ms[k].fileType != Configuration {
        found := found + [ms[k]];
      }
      k := k + 1;
    }
    assert ms[..k] == ms;
  }

  class RunManager {
    const database: Database
    const outputSet: Reporting.Output
    /** The selected files, one list per kind at the kind's ordinal once loaded. */
    var model: seq<seq<Model>>

    constructor (database: Database)
      ensures this.database == database && fresh(outputSet)
      ensures outputSet.outputFileFolder == None && outputSet.mapOfValues == map[]
      ensures model == EmptyLists()
    {
      this.database := database;
      outputSet := new Reporting.Output();
      model := [];
      new;
      ResetModels();
    }

    /** The selected files of every kind, in `FileType` order. */
    ghost function Selection(): (sel: seq<seq<Model>>)
      reads database
      ensures |sel| == |FileTypes|
    {
      [database.ClickedModels(Ec), database.ClickedModels(Test),
       database.ClickedModels(Train), database.ClickedModels(Configuration)]
    }

    /** The `i`-th list of the selection is that of the `i`-th kind, stored at
        position `i`. */
    lemma SelectionAt(i: nat)
      requires i < |FileTypes|
      ensures Selection()[i] == database.ClickedModels(FileTypes[i]) && Ordinal(FileTypes[i]) == i
    {
      if i == 0 {
        assert FileTypes[i] == Ec;
      } else if i == 1 {
        assert FileTypes[i] == Test;
      } else if i == 2 {
        assert FileTypes[i] == Train;
      } else {
        assert FileTypes[i] == Configuration;
      }
    }

    /** `checkClickedModels`: whether the number of selected files of kind `t`
        allows an execution. */
    method CheckClickedModels(t: FileType) returns (ok: bool)
      ensures ok <==> Acceptable(t, |database.ClickedModels(t)|)
    {
      var clicked := database.GetClickedModels(t);
      if t == Train {
        return true;
      }
      var rejected := |clicked| == 0 || (|clicked| > 1 && (t == Ec || t == Configuration));
      ok := !rejected;
    }

    /** `resetModels`: one empty list inserted at each kind's ordinal. */
    method ResetModels()
      modifies this`model
      ensures model == EmptyLists()
    {
      model := [];
      var i := 0;
      while i < |FileTypes|
        invariant 0 <= i <= |FileTypes|
        invariant model == seq(i, k => [])
      {
        var o := Ordinal(FileTypes[i]);
        model := model[..o] + [[]] + model[o..];
        i := i + 1;
      }
    }

    /** `setModel`: the selected files of kind `t` inserted at the kind's ordinal;
        the lists from that position on move one place up. */
    method SetModel(t: FileType)
      requires Ordinal(t) <= |model|
      modifies this`model
      ensures model == old(model)[..Ordinal(t)] + [database.ClickedModels(t)] + old(model)[Ordinal(t)..]
    {
      var clicked := database.GetClickedModels(t);
      model := model[..Ordinal(t)] + [clicked] + model[Ordinal(t)..];
    }

    /** `loadModels`: checks and stores the selection kind by kind, in `FileType`
        order, up to the first kind that is rejected; when every kind passes, it
        succeeds exactly when no selected file is missing. */
    method LoadModels(ghost sel: seq<seq<Model>>, isFile: string -> bool) returns (ok: bool)
      requires sel == Selection()
      modifies this`model
      ensures model == sel[..FirstRejected(sel, 0)] + old(model)
      ensures ok <==> FirstRejected(sel, 0) == |FileTypes| && Invalid(model, isFile) == []
    {
      var passed := CheckAndStore(sel);
      if !passed {
        return false;
      }
      var invalidModel := ValidatePaths(isFile);
      ok := invalidModel == [];
    }

    /** The loop of `loadModels` over the kinds: `checkClickedModels`, then
        `setModel`, stopping at the first kind that is rejected. */
    method CheckAndStore(ghost sel: seq<seq<Model>>) returns (passed: bool)
      requires sel == Selection()
      modifies this`model
      ensures model == sel[..FirstRejected(sel, 0)] + old(model)
      ensures passed <==> FirstRejected(sel, 0) == |FileTypes|
    {
      var i := 0;
      while i < |FileTypes|
        invariant 0 <= i <= |FileTypes|
        invariant FirstRejected(sel, 0) == FirstRejected(sel, i)
        invariant model == sel[..i] + old(model)

      {
        SelectionAt(i);
        var accepted := CheckAndStoreOne(i, sel, old(model));
        if !accepted {
          return false;
        }
        i := i + 1;
      }
      passed := true;
    }

    /** One round of the loop of `loadModels`: the `i`-th kind is checked and,
        when accepted, its list stored after those of the kinds before it. */
    method CheckAndStoreOne(i: nat, ghost sel: seq<seq<Model>>, ghost base: seq<seq<Model>>) returns (accepted: bool)
      requires i < |FileTypes| && |sel| == |FileTypes| && model == sel[..i] + base
      requires sel[i] == database.ClickedModels(FileTypes[i])
      modifies this`model
      ensures accepted <==> Acceptable(FileTypes[i], |sel[i]|)
      ensures accepted ==> model == sel[..i + 1] + base
      ensures !accepted ==> model == old(model)
    {
      var t := FileTypes[i];
      assert Ordinal(t) == i;
      accepted := CheckClickedModels(t);
      if accepted {
        SetModel(t);
        InsertAfterPrefix(sel[..i], sel[i], base);
        assert sel[..i + 1] == sel[..i] + [sel[i]];
      }
    }

    /** `validatePaths`: every missing file of every list of `model`, in order. */
    method ValidatePaths(isFile: string -> bool) returns (invalidModel: seq<Model>)
      ensures invalidModel == Invalid(model, isFile)
    {
      invalidModel := [];
      var i := 0;
      while i < |model|
        invariant 0 <= i <= |model|
        invariant invalidModel == Invalid(model[..i], isFile)
      {
        var found := MissingOf(model[i], isFile);
        assert model[..i + 1][..i] == model[..i];
        FilterConcat(Missing(isFile), Concat(model[..i]), model[i]);
        invalidModel := invalidModel + found;
        i := i + 1;
      }
      assert model[..i] == model;
    }

    /** The data-assembly half of `run`: the values of the selected configuration,
        the path of the selected EC and the paths of the TEST and TRAIN files, in
        selection order. */
    method AssembleInputs() returns (val: seq<NumericElement>, ecPath: string,
                                     testSetPath: seq<string>, trainSetPath: seq<string>)
      requires |model| >= |FileTypes| && |model[Ordinal(Ec)]| >= 1 && |model[Ordinal(Configuration)]| >= 1
      ensures val == Decoded(ValuesOf(database.values, IntToString(model[Ordinal(Configuration)][0].id)))
      ensures ecPath == model[Ordinal(Ec)][0].path
      ensures testSetPath == Paths(model[Ordinal(Test)]) && trainSetPath == Paths(model[Ordinal(Train)])
    {
      var configurationId := model[Ordinal(Configuration)][0].id;
      val := database.RetrieveConfigurationValues(IntToString(configurationId));
      testSetPath := CollectPaths(model[Ordinal(Test)]);
      trainSetPath := CollectPaths(model[Ordinal(Train)]);
      ecPath := model[Ordinal(Ec)][0].path;
    }

    /** The commands a run on the accepted selection `sel` executes: those of the
        selected configuration's values, EC path and test and train paths. */
    ghost function SelectionCommands(sel: seq<seq<Model>>): set<string>
      reads database
      requires |sel| == |FileTypes| && FirstRejected(sel, 0) == |FileTypes|
    {
      AcceptedSizes(sel);
      Serialization.CommandSet(Decoded(ValuesOf(database.values, IntToString(sel[Ordinal(Configuration)][0].id))),
                               sel[Ordinal(Ec)][0].path, Paths(sel[Ordinal(Test)]), Paths(sel[Ordinal(Train)]),
                               database.numberText)
    }

    /** `run`: nothing is executed or written unless the selection is acceptable
        and every selected file exists; otherwise the Serializer runs on the
        selection and its answers are written to the output file. `ec` gives the
        classifier's output for a command (None when it cannot be launched),
        `isFile` tells whether a path names a file. */
    method Run(ec: string -> Option<string>, isFile: string -> bool, separator: string)
        returns (written: Option<Written>)
      modifies this`model, outputSet
      ensures FirstRejected(Selection(), 0) < |FileTypes| || Invalid(Selection(), isFile) != [] ==>
                written.None? && outputSet.mapOfValues == old(outputSet.mapOfValues)
      ensures written.Some? <==>
                && FirstRejected(Selection(), 0) == |FileTypes| && Invalid(Selection(), isFile) == []
                && forall c | c in SelectionCommands(Selection()) :: ec(c).Some?
      ensures written.Some? ==>
                && FirstRejected(Selection(), 0) == |FileTypes| && Invalid(Selection(), isFile) == []
                && model == Selection() + EmptyLists()
                && outputSet.mapOfValues.Keys == SelectionCommands(Selection())
                && written.value.path == Reporting.FilePath(outputSet.outputFileFolder, separator)
                && (forall c | c in outputSet.mapOfValues :: outputSet.mapOfValues[c] == AnswersOf(ec, c))
                && exists order :: NoDup(order) && Elems(order) == outputSet.mapOfValues.Keys &&
                                   written.value.lines == Reporting.Render(order, outputSet.mapOfValues)
    {
      written := RunOn(Selection(), ec, isFile, separator);
    }

    /** `run` on the selection `sel` the store holds. */
    method RunOn(ghost sel: seq<seq<Model>>, ec: string -> Option<string>, isFile: string -> bool, separator: string)
        returns (written: Option<Written>)
      requires sel == Selection()
      modifies this`model, outputSet
      ensures FirstRejected(sel, 0) < |FileTypes| || Invalid(sel, isFile) != [] ==>
                written.None? && outputSet.mapOfValues == old(outputSet.mapOfValues)
      ensures written.Some? <==>
                && FirstRejected(sel, 0) == |FileTypes| && Invalid(sel, isFile) == []
                && forall c | c in SelectionCommands(sel) :: ec(c).Some?
      ensures written.Some? ==>
                && FirstRejected(sel, 0) == |FileTypes| && Invalid(sel, isFile) == []
                && model == sel + EmptyLists()
                && outputSet.mapOfValues.Keys == SelectionCommands(sel)
                && written.value.path == Reporting.FilePath(outputSet.outputFileFolder, separator)
                && (forall c | c in outputSet.mapOfValues :: outputSet.mapOfValues[c] == AnswersOf(ec, c))
                && exists order :: NoDup(order) && Elems(order) == outputSet.mapOfValues.Keys &&
                                   written.value.lines == Reporting.Render(order, outputSet.mapOfValues)
    {
      ResetModels();
      var loaded := LoadModels(sel, isFile);
      InvalidOfSelection(sel, isFile);
      if !loaded {
        assert FirstRejected(sel, 0) == |FileTypes| ==> sel[..FirstRejected(sel, 0)] == sel;
        assert !(FirstRejected(sel, 0) == |FileTypes| && Invalid(sel, isFile) == []);
        return None;
      }
      assert sel[..FirstRejected(sel, 0)] == sel;
      assert Invalid(sel, isFile) == [];
      written := RunLoaded(sel, ec, separator);
    }

    /** The part of `run` after a successful `loadModels`: the inputs are assembled
        from the stored selection and handed to the Serializer. */
    method RunLoaded(ghost sel: seq<seq<Model>>, ec: string -> Option<string>, separator: string)
        returns (written: Option<Written>)
      requires |sel| == |FileTypes| && FirstRejected(sel, 0) == |FileTypes| && model == sel + EmptyLists()
      modifies outputSet
      ensures written.None? ==> outputSet.mapOfValues == old(outputSet.mapOfValues)
      ensures written.Some? <==> forall c | c in SelectionCommands(sel) :: ec(c).Some?
      ensures written.Some? ==>
                && outputSet.mapOfValues.Keys == SelectionCommands(sel)
                && written.value.path == Reporting.FilePath(outputSet.outputFileFolder, separator)
                && (forall c | c in outputSet.mapOfValues :: outputSet.mapOfValues[c] == AnswersOf(ec, c))
                && exists order :: NoDup(order) && Elems(order) == outputSet.mapOfValues.Keys &&
                                   written.value.lines == Reporting.Render(order, outputSet.mapOfValues)
    {
      AcceptedSizes(sel);
      assert model[Ordinal(Configuration)] == sel[Ordinal(Configuration)] && model[Ordinal(Ec)] == sel[Ordinal(Ec)];
      assert model[Ordinal(Test)] == sel[Ordinal(Test)] && model[Ordinal(Train)] == sel[Ordinal(Train)];
      var val, ecPath, testSetPath, trainSetPath := AssembleInputs();
      Configurations.DecodedValid(ValuesOf(database.values, IntToString(model[Ordinal(Configuration)][0].id)));
      written := Serialize(val, ecPath, testSetPath, trainSetPath, ec, separator);
    }

    /** The execution half of `run`: a Serializer on the assembled inputs, its
        answers set as the map of values and written out; None where the Java code
        throws `IOException` because a command cannot be launched. */
    method Serialize(val: seq<NumericElement>, ecPath: string, testSetPath: seq<string>,
                     trainSetPath: seq<string>, ec: string -> Option<string>, separator: string)
        returns (written: Option<Written>)
      requires forall k | 0 <= k < |val| :: val[k].Variable? ==> val[k].step > 0.0
      modifies outputSet
      ensures written.None? ==> outputSet.mapOfValues == old(outputSet.mapOfValues)
      ensures outputSet.outputFileFolder == old(outputSet.outputFileFolder)
      ensures written.Some? <==>
                forall c | c in Serialization.CommandSet(val, ecPath, testSetPath, trainSetPath, database.numberText) ::
                  ec(c).Some?
      ensures written.Some? ==>
                && outputSet.mapOfValues.Keys == Serialization.CommandSet(val, ecPath, testSetPath, trainSetPath, database.numberText)
                && written.value.path == Reporting.FilePath(outputSet.outputFileFolder, separator)
                && (forall c | c in outputSet.mapOfValues :: outputSet.mapOfValues[c] == AnswersOf(ec, c))
                && exists order :: NoDup(order) && Elems(order) == outputSet.mapOfValues.Keys &&
                                   written.value.lines == Reporting.Render(order, outputSet.mapOfValues)
      ensures written.Some? ==>
                forall r, t | r in Serialization.PaddedTrain(trainSetPath) && t in testSetPath ::
                  "java -jar " + ecPath + Serialization.Args(Serialization.StartTuple(val), database.numberText) +
                  " " + r + " " + t in outputSet.mapOfValues
      ensures written.Some? && Faithful(database.numberText) &&
              Serialization.SeparatePaths(Serialization.PaddedTrain(trainSetPath)) &&
              Serialization.SeparatePaths(testSetPath) ==>
                |outputSet.mapOfValues.Keys| ==
                |Serialization.ConfigurationGrid(val)| * (|Serialization.PaddedTrain(trainSetPath)| * |testSetPath|)
    {
      var s := new Serialization.Serializer(val, ecPath, testSetPath, trainSetPath, database.numberText);
      var results := s.Run(ec);
      s.GridLength();
      if results.None? {
        return None;
      }
      outputSet.SetMapOfValues(results.value);
      var path, order, lines := outputSet.WriteToFile(separator);
      written := Some(Written(path, lines));
    }
  }

  /** The answers recorded for command `c`: what `getAnswers` cut from its output. */
  ghost function AnswersOf(ec: string -> Option<string>, c: string): seq<string> {
    if ec(c).Some? then CapturedOutput.StoredAnswers(ec(c).value) else []
  }

  /** Inserting `x` at the end of the prefix `a` of `a + rest`. */
  lemma InsertAfterPrefix<T>(a: seq<T>, x: T, rest: seq<T>)
    ensures (a + rest)[..|a|] + [x] + (a + rest)[|a|..] == (a + [x]) + rest
  {
    assert (a + rest)[..|a|] == a;
    assert (a + rest)[|a|..] == rest;
  }

  /** An accepted selection has exactly one EC and one configuration. */
  lemma AcceptedSizes(sel: seq<seq<Model>>)
    requires |sel| == |FileTypes| && FirstRejected(sel, 0) == |FileTypes|
    ensures |sel[Ordinal(Ec)]| == 1 && |sel[Ordinal(Configuration)]| == 1 && |sel[Ordinal(Test)]| >= 1
  {
    assert Acceptable(FileTypes[0], |sel[0]|) && Acceptable(FileTypes[1], |sel[1]|);
    assert Acceptable(FileTypes[3], |sel[3]|);
  }
}
