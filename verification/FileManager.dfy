/** The lists of files the interface shows (`FileManager`): one list of models
    per kind, loaded from the store, and the selection flags kept in step with
    the store's CHECKED column. */
module Files {
  import opened Wrappers
  import opened Collections
  import opened Models
  import opened Persistence

  /** Selecting an EC or a configuration deselects every other one of its kind. */
  predicate Exclusive(t: FileType, checked: bool) {
    checked && (t == Ec || t == Configuration)
  }

  /** The models after `setClicked(t, j, checked)`: model `j` takes `checked`, and
      when the selection is exclusive every other model is deselected. */
  function WithClicked(ms: seq<Model>, j: nat, checked: bool, exclusive: bool): (r: seq<Model>)
    requires j < |ms|
    ensures |r| == |ms|
  {
    seq(|ms|, i requires 0 <= i < |ms| =>
      if i == j then ms[i].(clicked := checked) else if exclusive then ms[i].(clicked := false) else ms[i])
  }

  /** The models with every one unselected. */
  function Unclicked(ms: seq<Model>): (r: seq<Model>)
    ensures |r| == |ms| && forall i | 0 <= i < |ms| :: r[i] == ms[i].(clicked := false)
  {
    seq(|ms|, i requires 0 <= i < |ms| => ms[i].(clicked := false))
  }

  /** The CHECKED flag stored for a selection. */
  function Flag(checked: bool): int {
    if checked then 1 else 0
  }

  /** The rows after the updates `setClicked` sends: every row to 0 when the
      selection is exclusive, then the rows named `name` to `flag`. */
  function FlagsAfter(rows: seq<TableRow>, name: string, exclusive: bool, flag: int): seq<TableRow> {
    Marked(if exclusive then Marked(rows, "*", 0) else rows, name, flag)
  }

  /** After an exclusive selection, model `j` is the only selected one. */
  lemma ExclusiveSelection(ms: seq<Model>, j: nat)
    requires j < |ms|
    ensures forall i | 0 <= i < |ms| :: WithClicked(ms, j, true, true)[i].clicked <==> i == j
  {
  }

  /** Any other selection changes model `j`'s flag and nothing else. */
  lemma SingleSelection(ms: seq<Model>, j: nat, checked: bool)
    requires j < |ms|
    ensures WithClicked(ms, j, checked, false)[j] == ms[j].(clicked := checked)
    ensures forall i | 0 <= i < |ms| && i != j :: WithClicked(ms, j, checked, false)[i] == ms[i]
  {
  }

  /** No two rows share a name (NAME is unique in every file table). */
  predicate DistinctNames(rows: seq<TableRow>) {
    forall a, b | 0 <= a < b < |rows| :: rows[a].name != rows[b].name
  }

  /** With the selection's flag stored, the table and the list agree again: the
      models of the updated rows are the updated models. (A file named "*" would
      select every row of its table.) */
  lemma {:induction false} SelectionCoherent(rows: seq<TableRow>, t: FileType, j: nat, checked: bool)
    requires DistinctNames(rows) && j < |rows| && rows[j].name != "*"
    ensures AsModels(FlagsAfter(rows, rows[j].name, Exclusive(t, checked), Flag(checked)), t) ==
            WithClicked(AsModels(rows, t), j, checked, Exclusive(t, checked))
  {
    var ex := Exclusive(t, checked);
    var base := if ex then Marked(rows, "*", 0) else rows;
    var after := FlagsAfter(rows, rows[j].name, ex, Flag(checked));
    var ms := WithClicked(AsModels(rows, t), j, checked, ex);
    forall i | 0 <= i < |rows| ensures AsModels(after, t)[i] == ms[i] {
      if i != j {
        assert rows[i].name != rows[j].name by {
          if i < j {
            assert rows[i].name != rows[j].name;
          } else {
            assert rows[j].name != rows[i].name;
          }
        }
        assert base[i].name == rows[i].name;
        assert after[i] == base[i];
      } else {
        assert after[i] == base[i].(checked := Flag(checked));
      }
      assert AsModels(after, t)[i] == AsModel(after[i], t);
    }
  }

  /** Deselecting a TEST file as written stores CHECKED = 1: the list says the
      file is not selected while the store still selects it. */
  lemma DeselectionStoresOne()
    ensures FlagsAfter([TableRow(1, 0, "t", "t.csv", 1)], "t", Exclusive(Test, false), 1) ==
            [TableRow(1, 0, "t", "t.csv", 1)]
    ensures !WithClicked(AsModels([TableRow(1, 0, "t", "t.csv", 1)], Test), 0, false, Exclusive(Test, false))[0].clicked
    ensures AsModels(FlagsAfter([TableRow(1, 0, "t", "t.csv", 1)], "t", Exclusive(Test, false), 1), Test)[0].clicked
  {
    var row := TableRow(1, 0, "t", "t.csv", 1);
    assert Marked([row], "t", 1)[0] == row;
  }

  /** The index of the first model named `name`, if any. */
  function FirstNamed(ms: seq<Model>, name: string): (r: Option<nat>)
    ensures r.None? ==> forall i | 0 <= i < |ms| :: ms[i].name != name
    ensures r.Some? ==> r.value < |ms| && ms[r.value].name == name &&
                        forall i | 0 <= i < r.value :: ms[i].name != name
  {
    if ms == [] then None
    else if ms[0].name == name then Some(0)
    else
      var r := FirstNamed(ms[1..], name);
      if r.None? then None else Some(r.value + 1)
  }

  predicate IsClicked(m: Model) {
    m.clicked
  }

  class FileManager {
    const db: Database
    /** One list per kind, at the kind's ordinal. */
    var models: seq<seq<Model>>

    /** The lists of a new manager are those the store holds. */
    constructor (db: Database)
      ensures this.db == db && |models| == |FileTypes|
      ensures forall t :: models[Ordinal(t)] == db.Retrieved(t)
    {
      this.db := db;
      models := [[], [], [], []];
      new;
      UpdateAllModelData();
    }

    /** `getElement`: model `j` of kind `t`, or None (`null`) out of range. */
    function GetElement(t: FileType, j: int): (r: Option<Model>)
      requires |models| == |FileTypes|
      reads this
      ensures r.None? <==> j < 0 || j >= GetArraySize(t)
      ensures r.Some? ==> r.value in models[Ordinal(t)] && r.value == models[Ordinal(t)][j]
    {
      var ms := models[Ordinal(t)];
      if j < 0 || j >= |ms| then None else Some(ms[j])
    }

    /** `getArraySize`: the number of models of kind `t`. */
    function GetArraySize(t: FileType): nat
      requires |models| == |FileTypes|
      reads this
    {
      |models[Ordinal(t)]|
    }

    /** `getModelArray`: a copy of the list of kind `t`. */
    method GetModelArray(t: FileType) returns (modelArray: seq<Model>)
      requires |models| == |FileTypes|
      ensures |modelArray| == GetArraySize(t)
      ensures forall j | 0 <= j < |modelArray| :: GetElement(t, j) == Some(modelArray[j])
    {
      var ms := models[Ordinal(t)];
      modelArray := [];
      var i := 0;
      while i < |ms|
        invariant 0 <= i <= |ms|
        invariant modelArray == ms[..i]
      {
        modelArray := modelArray + [ms[i]];
        i := i + 1;
      }
    }

    /** `updateModelData`: reloads the list of kind `t` from the store. */
    method UpdateModelData(t: FileType) returns (result: seq<Model>)
      requires |models| == |FileTypes|
      modifies this`models
      ensures result == db.Retrieved(t)
      ensures models == old(models)[Ordinal(t) := result]
    {
      result := db.RetrieveFromTable(t);
      models := models[Ordinal(t) := result];
    }

    /** `updateAllModelData`: reloads every list, in `FileType` order. */
    method UpdateAllModelData()
      requires |models| == |FileTypes|
      modifies this`models
      ensures |models| == |FileTypes|
      ensures forall t :: models[Ordinal(t)] == db.Retrieved(t)
    {
      var i := 0;
      while i < |FileTypes|
        invariant 0 <= i <= |FileTypes| && |models| == |FileTypes|
        invariant forall k | 0 <= k < i :: models[k] == db.Retrieved(FileTypes[k])
      {
        var _ := UpdateModelData(FileTypes[i]);
        i := i + 1;
      }
    }

    /** The deselection loop of `setClicked`: every model of kind `t` unselected. */
    method ClearClicked(t: FileType)
      requires |models| == |FileTypes|
      modifies this`models
      ensures models == old(models)[Ordinal(t) := Unclicked(old(models)[Ordinal(t)])]
    {
      var o := Ordinal(t);
      var i := 0;
      while i < |models[o]|
        invariant |models| == |FileTypes| && |models[o]| == |old(models)[o]|
        invariant 0 <= i <= |models[o]|
        invariant forall u | 0 <= u < |models| && u != o :: models[u] == old(models)[u]
        invariant forall k | 0 <= k < |models[o]| ::
                    models[o][k] == if k < i then old(models)[o][k].(clicked := false) else old(models)[o][k]
      {
        models := models[o := models[o][i := models[o][i].(clicked := false)]];
        i := i + 1;
      }
      assert models[o] == Unclicked(old(models)[o]);
      assert models == old(models)[o := Unclicked(old(models)[o])];
    }

    /** `setClicked` as written: the store receives CHECKED = 1 for the model's name
        even when the model is being deselected. */
    method SetClickedAsWritten(t: FileType, j: int, checked: bool)
      requires |models| == |FileTypes|
      modifies this`models, db
      ensures !(0 <= j < old(GetArraySize(t))) ==>
                models == old(models) && db.Table(t) == old(db.Table(t)) && db.values == old(db.values)
      ensures 0 <= j < old(GetArraySize(t)) ==>
                && models == old(models)[Ordinal(t) := WithClicked(old(models[Ordinal(t)]), j, checked, Exclusive(t, checked))]
                && db.Table(t) == FlagsAfter(old(db.Table(t)), old(models[Ordinal(t)][j].name), Exclusive(t, checked), 1)
                && db.values == old(db.values)
      ensures forall u | u != t :: db.Table(u) == old(db.Table(u))
    {
      var o := Ordinal(t);
      if j < 0 || j >= |models[o]| {
        return;
      }
      if checked && (t == Ec || t == Configuration) {
        ClearClicked(t);
        db.UpdateClicked("*", 0, t);
      }
      var m := models[o][j].(clicked := checked);
      models := models[o := models[o][j := m]];
      db.UpdateClicked(m.name, 1, t);
      assert models[o] == WithClicked(old(models[o]), j, checked, Exclusive(t, checked));
    }

    /** `setClicked` with the store receiving the model's new flag. */
    method SetClicked(t: FileType, j: int, checked: bool)
      requires |models| == |FileTypes|
      modifies this`models, db
      ensures !(0 <= j < old(GetArraySize(t))) ==>
                models == old(models) && db.Table(t) == old(db.Table(t)) && db.values == old(db.values)
      ensures 0 <= j < old(GetArraySize(t)) ==>
                && models == old(models)[Ordinal(t) := WithClicked(old(models[Ordinal(t)]), j, checked, Exclusive(t, checked))]
                && db.Table(t) == FlagsAfter(old(db.Table(t)), old(models[Ordinal(t)][j].name), Exclusive(t, checked), Flag(checked))
                && db.values == old(db.values)
      ensures forall u | u != t :: db.Table(u) == old(db.Table(u))
    {
      var o := Ordinal(t);
      if j < 0 || j >= |models[o]| {
        return;
      }
      if checked && (t == Ec || t == Configuration) {
        ClearClicked(t);
        db.UpdateClicked("*", 0, t);
      }
      var m := models[o][j].(clicked := checked);
      models := models[o := models[o][j := m]];
      db.UpdateClicked(m.name, if checked then 1 else 0, t);
      assert models[o] == WithClicked(old(models[o]), j, checked, Exclusive(t, checked));
    }

    /** `getClicked`: the selected models of kind `t`, in list order, or None
        (`null`) when none is selected. */
    method GetClicked(t: FileType) returns (checkedModel: Option<seq<Model>>)
      requires |models| == |FileTypes|
      ensures checkedModel.None? <==> forall m | m in models[Ordinal(t)] :: !m.clicked
      ensures checkedModel.Some? ==> checkedModel.value == Filter(IsClicked, models[Ordinal(t)])
    {
      var ms := models[Ordinal(t)];
      var found: seq<Model> := [];
      var i := 0;
      while i < |ms|
        invariant 0 <= i <= |ms|
        invariant found == Filter(IsClicked, ms[..i])
      {
        assert ms[..i + 1][..i] == ms[..i];
        if ms[i].clicked {
          found := found + [ms[i]];
        }
        i := i + 1;
      }
      assert ms[..i] == ms;
      if |found| == 0 {
        assert forall m | m in ms :: !IsClicked(m);
        return None;
      }
      assert found[0] in found;
      checkedModel := Some(found);
    }

    /** `getIdByName`: the id of the first model of kind `t` named `name`, or -1. */
    method GetIdByName(name: string, t: FileType) returns (id: int)
      requires |models| == |FileTypes|
      ensures id == if FirstNamed(models[Ordinal(t)], name).None? then -1
                    else models[Ordinal(t)][FirstNamed(models[Ordinal(t)], name).value].id
    {
      var ms := models[Ordinal(t)];
      var i := 0;
      while i < |ms|
        invariant 0 <= i <= |ms|
        invariant forall k | 0 <= k < i :: ms[k].name != name
      {
        if ms[i].name == name {
          return ms[i].id;
        }
        i := i + 1;
      }
      return -1;
    }
  }
}
