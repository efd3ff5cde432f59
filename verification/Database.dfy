/** The application's store (`Database`): one table of files per kind and the
    table of configuration values, held as sequences of rows. Every query the
    Java code sends becomes an operation on those rows. */
module Persistence {
  import opened Wrappers
  import opened Text
  import opened Collections
  import opened Numeric
  import opened Models

  /** `getTableName`: the table that holds the files of kind `t`. */
  function TableName(t: FileType): string {
    match t
    case Ec => "EC_TABLE"
    case Test => "TEST_SET_TABLE"
    case Train => "TRAIN_SET_TABLE"
    case Configuration => "CONFIGURATION_TABLE"
  }

  /** Each kind of file has a table of its own. */
  lemma TableNameInjective(a: FileType, b: FileType)
    requires TableName(a) == TableName(b)
    ensures a == b
  {
    assert TableName(a)[1] == TableName(b)[1];
  }

  /** A row of a file table. EC, TEST and TRAIN rows carry a path; CONFIGURATION
      rows carry the id of their EC instead. */
  datatype TableRow = TableRow(id: int, ecId: int, name: string, path: string, checked: int)

  /** A row of CONFIGURATION_VALUES_TABLE: one numeric element of a configuration. */
  datatype ValueRow = ValueRow(configurationId: string, name: string, start: real, step: real, end: real)

  /** The `Model` built from a row of the table of kind `t`. */
  function AsModel(row: TableRow, t: FileType): Model {
    Model(row.id, row.name, if t == Configuration then "" else row.path, row.checked == 1, t)
  }

  function AsModels(rows: seq<TableRow>, t: FileType): (ms: seq<Model>)
    ensures |ms| == |rows|
  {
    seq(|rows|, i requires 0 <= i < |rows| => AsModel(rows[i], t))
  }

  predicate IsChecked(row: TableRow) {
    row.checked == 1
  }

  /** The rows with CHECKED = 1, in table order. */
  function CheckedRows(rows: seq<TableRow>): seq<TableRow> {
    Filter(IsChecked, rows)
  }

  /** One more row adds its model to the clicked ones exactly when it is checked. */
  lemma ClickedSnoc(rows: seq<TableRow>, row: TableRow, t: FileType)
    ensures AsModels(CheckedRows(rows + [row]), t) ==
            AsModels(CheckedRows(rows), t) + if row.checked == 1 then [AsModel(row, t)] else []
  {
    assert (rows + [row])[..|rows|] == rows;
    var before := CheckedRows(rows);
    if row.checked == 1 {
      assert CheckedRows(rows + [row]) == before + [row];
      assert AsModels(before + [row], t) == AsModels(before, t) + [AsModel(row, t)];
    } else {
      assert CheckedRows(rows + [row]) == before;
    }
  }

  function EcIs(ecId: int): TableRow -> bool {
    (row: TableRow) => row.ecId == ecId
  }

  function NameIsNot(name: string): TableRow -> bool {
    (row: TableRow) => row.name != name
  }

  function OwnerIs(id: string): ValueRow -> bool {
    (v: ValueRow) => v.configurationId == id
  }

  function OwnerIsNot(id: string): ValueRow -> bool {
    (v: ValueRow) => v.configurationId != id
  }

  /** The configuration rows that belong to the EC with id `ecId`. */
  function OfEc(rows: seq<TableRow>, ecId: int): seq<TableRow> {
    Filter(EcIs(ecId), rows)
  }

  /** The rows not named `name`. */
  function Unnamed(rows: seq<TableRow>, name: string): seq<TableRow> {
    Filter(NameIsNot(name), rows)
  }

  /** The value rows of configuration `id`. */
  function ValuesOf(values: seq<ValueRow>, id: string): seq<ValueRow> {
    Filter(OwnerIs(id), values)
  }

  /** The value rows of every configuration but `id`. */
  function ValuesWithout(values: seq<ValueRow>, id: string): seq<ValueRow> {
    Filter(OwnerIsNot(id), values)
  }

  /** The rows after `UPDATE ... SET CHECKED = clicked`, for every row when
      `selectedName` is "*" and for the rows named `selectedName` otherwise. */
  function Marked(rows: seq<TableRow>, selectedName: string, clicked: int): seq<TableRow> {
    seq(|rows|, i requires 0 <= i < |rows| =>
      if selectedName == "*" || rows[i].name == selectedName then rows[i].(checked := clicked) else rows[i])
  }

  /** Marking every row selects all of them or none of them. */
  lemma MarkAll(rows: seq<TableRow>, clicked: int)
    ensures clicked == 1 ==> CheckedRows(Marked(rows, "*", clicked)) == Marked(rows, "*", clicked)
    ensures clicked != 1 ==> CheckedRows(Marked(rows, "*", clicked)) == []
  {
    FilterAll(IsChecked, Marked(rows, "*", clicked));
  }

  /** Marking by name decides the selection of the rows with that name and keeps
      that of every other row; nothing but the flag changes. */
  lemma MarkNamed(rows: seq<TableRow>, name: string, clicked: int)
    requires name != "*"
    ensures |Marked(rows, name, clicked)| == |rows|
    ensures forall i | 0 <= i < |rows| ::
              Marked(rows, name, clicked)[i].(checked := rows[i].checked) == rows[i]
    ensures forall i | 0 <= i < |rows| ::
              IsChecked(Marked(rows, name, clicked)[i]) <==>
                if rows[i].name == name then clicked == 1 else IsChecked(rows[i])
  {
  }

  /** The id `removeFromTable` finds: that of the last row named `name`. */
  function LastIdNamed(rows: seq<TableRow>, name: string): Option<int> {
    if rows == [] then None
    else if rows[|rows| - 1].name == name then Some(rows[|rows| - 1].id)
    else LastIdNamed(rows[..|rows| - 1], name)
  }

  /** Row `i` is named `name` and no later row is. */
  predicate LastNamedAt(rows: seq<TableRow>, name: string, i: nat)
    requires i < |rows|
  {
    rows[i].name == name && forall k | i < k < |rows| :: rows[k].name != name
  }

  /** `LastIdNamed` finds nothing exactly when no row is named `name`, and
      otherwise the id of the last row named so. */
  lemma {:induction false} LastIdNamedIsLast(rows: seq<TableRow>, name: string)
    ensures LastIdNamed(rows, name).None? <==> forall i | 0 <= i < |rows| :: rows[i].name != name
    ensures LastIdNamed(rows, name).Some? ==>
              exists i | 0 <= i < |rows| :: LastNamedAt(rows, name, i) && rows[i].id == LastIdNamed(rows, name).value
  {
    if rows != [] {
      var n := |rows| - 1;
      if rows[n].name == name {
        assert LastNamedAt(rows, name, n);
      } else {
        var init := rows[..n];
        LastIdNamedIsLast(init, name);
        assert forall i | 0 <= i < n :: init[i] == rows[i];
        if LastIdNamed(init, name).Some? {
          var i :| 0 <= i < n && LastNamedAt(init, name, i) && init[i].id == LastIdNamed(init, name).value;
          assert LastNamedAt(rows, name, i);
        }
      }
    }
  }

  /** The element a value row stands for: a row whose step is not positive is a
      Parameter with the row's start as its value. */
  function DecodeRow(row: ValueRow): NumericElement {
    if row.step <= 0.0 then Parameter(row.name, row.start) else Variable(row.name, row.start, row.end, row.step)
  }

  function Decoded(rows: seq<ValueRow>): (els: seq<NumericElement>)
    ensures |els| == |rows|
  {
    seq(|rows|, i requires 0 <= i < |rows| => DecodeRow(rows[i]))
  }

  /** The row `insertConfigurationValues` writes for `el`: the fields of its text
      split on spaces, padded with "0", "0" when there are two, read back as
      numbers. None where the insert fails: fewer than four fields, or a field that
      is not a number. */
  function EncodeRow(id: string, el: NumericElement, nt: NumberText): Option<ValueRow> {
    var parts := JavaSplit(ToString(el, nt), ' ');
    var padded := if |parts| == 2 then parts + ["0", "0"] else parts;
    if |padded| < 4 then None
    else
      var start := nt.read(padded[1]);
      var step := nt.read(padded[3]);
      var end := nt.read(padded[2]);
      if start.None? || step.None? || end.None? then None
      else Some(ValueRow(id, padded[0], start.value, step.value, end.value))
  }

  function Encoder(id: string, nt: NumberText): NumericElement -> Option<ValueRow> {
    el => EncodeRow(id, el, nt)
  }

  /** Every element of `els` can be inserted. */
  ghost predicate AllEncode(id: string, els: seq<NumericElement>, nt: NumberText) {
    AllSome(Encoder(id, nt), els)
  }

  /** The rows inserted for `els`: those of the elements before the first one
      whose insert fails. */
  function EncodedPrefix(id: string, els: seq<NumericElement>, nt: NumberText): seq<ValueRow> {
    MapWhileSome(Encoder(id, nt), els)
  }

  /** Every row `EncodeRow` builds belongs to configuration `id`. */
  lemma EncodeRowOwned(id: string, nt: NumberText)
    ensures forall el | EncodeRow(id, el, nt).Some? :: EncodeRow(id, el, nt).value.configurationId == id
  {
  }

  /** Every inserted row belongs to configuration `id`. */
  lemma EncodedPrefixOwned(id: string, els: seq<NumericElement>, nt: NumberText)
    ensures forall k | 0 <= k < |EncodedPrefix(id, els, nt)| :: OwnerIs(id)(EncodedPrefix(id, els, nt)[k])
  {
    var f := Encoder(id, nt);
    MapWhileSomeFrom(f, els);
    forall k | 0 <= k < |EncodedPrefix(id, els, nt)| ensures OwnerIs(id)(EncodedPrefix(id, els, nt)[k]) {
      var j :| 0 <= j < |els| && f(els[j]) == Some(EncodedPrefix(id, els, nt)[k]);
      EncodeRowOwned(id, nt);
    }
  }

  /** With a space-free name, a Parameter is stored as (value, step 0, end 0) and a
      Variable as its own start, step and end. */
  lemma EncodeRowFields(id: string, el: NumericElement, nt: NumberText)
    requires Faithful(nt) && ' ' !in el.name
    ensures EncodeRow(id, el, nt) ==
              Some(if el.Parameter? then ValueRow(id, el.name, el.value, 0.0, 0.0)
                   else ValueRow(id, el.name, el.start, el.step, el.end))
  {
    SplitToString(el, nt);
  }

  /** Decoding the stored row gives back a Parameter, and a Variable whose step is
      positive. */
  lemma DecodeEncode(id: string, el: NumericElement, nt: NumberText)
    requires Faithful(nt) && ' ' !in el.name && (el.Parameter? || el.step > 0.0)
    ensures EncodeRow(id, el, nt).Some? && DecodeRow(EncodeRow(id, el, nt).value) == el
  {
    EncodeRowFields(id, el, nt);
  }

  /** A Variable whose step is not positive comes back as a Parameter holding its
      start value. */
  lemma DecodeEncodeFlatVariable(id: string, el: NumericElement, nt: NumberText)
    requires Faithful(nt) && ' ' !in el.name && el.Variable? && el.step <= 0.0
    ensures EncodeRow(id, el, nt).Some? && DecodeRow(EncodeRow(id, el, nt).value) == Parameter(el.name, el.start)
  {
    EncodeRowFields(id, el, nt);
  }

  /** The elements that store and load back unchanged. */
  ghost predicate RoundTrips(els: seq<NumericElement>, nt: NumberText) {
    Faithful(nt) && forall k | 0 <= k < |els| :: ' ' !in els[k].name && (els[k].Parameter? || els[k].step > 0.0)
  }

  lemma {:induction false} DecodedEncoded(id: string, els: seq<NumericElement>, nt: NumberText)
    requires RoundTrips(els, nt)
    ensures AllEncode(id, els, nt)
    ensures Decoded(EncodedPrefix(id, els, nt)) == els
  {
    var f := Encoder(id, nt);
    if els != [] {
      DecodeEncode(id, els[0], nt);
      var row := EncodeRow(id, els[0], nt).value;
      assert f(els[0]) == Some(row);
      RoundTripsTail(els, nt);
      DecodedEncoded(id, els[1..], nt);
      var rest := EncodedPrefix(id, els[1..], nt);
      assert EncodedPrefix(id, els, nt) == [row] + rest;
      DecodedCons(row, rest);
      assert els == [els[0]] + els[1..];
      forall k | 0 <= k < |els| ensures f(els[k]).Some? {
        if k > 0 {
          assert els[k] == els[1..][k - 1];
        }
      }
    }
  }

  lemma DecodedCons(row: ValueRow, rest: seq<ValueRow>)
    ensures Decoded([row] + rest) == [DecodeRow(row)] + Decoded(rest)
  {
    assert forall k | 1 <= k < |rest| + 1 :: ([row] + rest)[k] == rest[k - 1];
  }

  lemma RoundTripsTail(els: seq<NumericElement>, nt: NumberText)
    requires RoundTrips(els, nt) && els != []
    ensures RoundTrips(els[1..], nt)
  {
    forall k | 0 <= k < |els[1..]| ensures ' ' !in els[1..][k].name && (els[1..][k].Parameter? || els[1..][k].step > 0.0) {
      assert els[1..][k] == els[k + 1];
    }
  }

  /** After an insert for `id`, loading `id` gives the inserted elements back, in
      order, whatever the table held before. */
  lemma RetrieveAfterInsert(values: seq<ValueRow>, id: string, els: seq<NumericElement>, nt: NumberText)
    requires RoundTrips(els, nt)
    ensures Decoded(ValuesOf(ValuesWithout(values, id) + EncodedPrefix(id, els, nt), id)) == els
  {
    var rows := EncodedPrefix(id, els, nt);
    FilterConcat(OwnerIs(id), ValuesWithout(values, id), rows);
    NoneOwnedAfterRemoval(values, id);
    EncodedPrefixOwned(id, els, nt);
    FilterAll(OwnerIs(id), rows);
    DecodedEncoded(id, els, nt);
  }

  /** Once the values of `id` are removed, none is left. */
  lemma NoneOwnedAfterRemoval(values: seq<ValueRow>, id: string)
    ensures ValuesOf(ValuesWithout(values, id), id) == []
  {
    var rest := ValuesWithout(values, id);
    forall k | 0 <= k < |rest| ensures !OwnerIs(id)(rest[k]) {
      assert rest[k] in rest;
    }
    FilterAll(OwnerIs(id), rest);
  }

  /** An insert for `id` leaves the values of every other configuration as they were. */
  lemma InsertKeepsOthers(values: seq<ValueRow>, id: string, other: string, els: seq<NumericElement>, nt: NumberText)
    requires other != id
    ensures ValuesOf(ValuesWithout(values, id) + EncodedPrefix(id, els, nt), other) == ValuesOf(values, other)
  {
    var rows := EncodedPrefix(id, els, nt);
    var f := OwnerIs(other);
    FilterConcat(f, ValuesWithout(values, id), rows);
    EncodedPrefixOwned(id, els, nt);
    assert forall k | 0 <= k < |rows| :: !f(rows[k]) by {
      forall k | 0 <= k < |rows| ensures !f(rows[k]) {
        assert OwnerIs(id)(rows[k]);
      }
    }
    FilterAll(f, rows);
    OtherValuesKept(values, id, other);
  }

  lemma {:induction false} OtherValuesKept(values: seq<ValueRow>, id: string, other: string)
    requires other != id
    ensures ValuesOf(ValuesWithout(values, id), other) == ValuesOf(values, other)
  {
    if values != [] {
      var init := values[..|values| - 1];
      var v := values[|values| - 1];
      OtherValuesKept(init, id, other);
      assert values[..|values| - 1] == init;
      assert ValuesWithout(values, id) == ValuesWithout(init, id) + if OwnerIsNot(id)(v) then [v] else [];
      assert ValuesOf(values, other) == ValuesOf(init, other) + if OwnerIs(other)(v) then [v] else [];
      if OwnerIsNot(id)(v) {
        var w := ValuesWithout(init, id) + [v];
        assert w[..|w| - 1] == ValuesWithout(init, id) && w[|w| - 1] == v;
        assert ValuesOf(w, other) == ValuesOf(ValuesWithout(init, id), other) + if OwnerIs(other)(v) then [v] else [];
      } else {
        assert !OwnerIs(other)(v);
        assert ValuesWithout(values, id) == ValuesWithout(init, id);
        assert ValuesOf(values, other) == ValuesOf(init, other);
      }
    }
  }

  /** The store: the four file tables, the configuration values, and the text form
      of numbers that the SQL statements carry. */
  class Database {
    const numberText: NumberText
    var ecTable: seq<TableRow>
    var testTable: seq<TableRow>
    var trainTable: seq<TableRow>
    var configurationTable: seq<TableRow>
    var values: seq<ValueRow>

    /** A store opened on existing contents. */
    constructor (numberText: NumberText, ecTable: seq<TableRow>, testTable: seq<TableRow>,
                 trainTable: seq<TableRow>, configurationTable: seq<TableRow>, values: seq<ValueRow>)
      ensures this.numberText == numberText && this.ecTable == ecTable && this.testTable == testTable
      ensures this.trainTable == trainTable && this.configurationTable == configurationTable
      ensures this.values == values
    {
      this.numberText := numberText;
      this.ecTable := ecTable;
      this.testTable := testTable;
      this.trainTable := trainTable;
      this.configurationTable := configurationTable;
      this.values := values;
    }

    /** The table that `getTableName(t)` names. */
    function Table(t: FileType): seq<TableRow>
      reads this
    {
      match t
      case Ec => ecTable
      case Test => testTable
      case Train => trainTable
      case Configuration => configurationTable
    }

    method SetTable(t: FileType, rows: seq<TableRow>)
      modifies this
      ensures Table(t) == rows
      ensures forall u | u != t :: Table(u) == old(Table(u))
      ensures values == old(values)
    {
      match t {
        case Ec => ecTable := rows;
        case Test => testTable := rows;
        case Train => trainTable := rows;
        case Configuration => configurationTable := rows;
      }
    }

    /** What `getClickedModels(t)` returns. */
    function ClickedModels(t: FileType): seq<Model>
      reads this
    {
      AsModels(CheckedRows(Table(t)), t)
    }

    /** `getClickedModels`: the models of the rows with CHECKED = 1, in table order. */
    method GetClickedModels(t: FileType) returns (data: seq<Model>)
      ensures data == ClickedModels(t)
    {
      var rows := Table(t);
      data := [];
      var i := 0;
      while i < |rows|
        invariant 0 <= i <= |rows|
        invariant data == AsModels(CheckedRows(rows[..i]), t)
      {
        assert rows[..i + 1] == rows[..i] + [rows[i]];
        ClickedSnoc(rows[..i], rows[i], t);
        if rows[i].checked == 1 {
          data := data + [AsModel(rows[i], t)];
        }
        i := i + 1;
      }
      assert rows[..i] == rows;
    }

    /** The clicked models are exactly those of the rows with CHECKED = 1, and each
        of them is clicked. */
    lemma ClickedModelsExactly(t: FileType)
      ensures forall m | m in ClickedModels(t) :: m.clicked && m.fileType == t
      ensures forall row | row in Table(t) :: IsChecked(row) <==> AsModel(row, t) in ClickedModels(t)
    {
      var rows := CheckedRows(Table(t));
      forall row | row in Table(t) && AsModel(row, t) in ClickedModels(t) ensures IsChecked(row) {
        var k :| 0 <= k < |rows| && ClickedModels(t)[k] == AsModel(row, t);
        assert rows[k] in rows;
      }
      forall row | row in Table(t) && IsChecked(row) ensures AsModel(row, t) in ClickedModels(t) {
        var k :| 0 <= k < |rows| && rows[k] == row;
        assert ClickedModels(t)[k] == AsModel(row, t);
      }
      forall m | m in ClickedModels(t) ensures m.clicked && m.fileType == t {
        var k :| 0 <= k < |rows| && ClickedModels(t)[k] == m;
        assert rows[k] in rows;
      }
    }

    /** What `retrieveFromTable(t)` returns: every row of the table, except that
        configurations are those of the first clicked EC only, and none when no EC
        is clicked. */
    function Retrieved(t: FileType): seq<Model>
      reads this
    {
      if t != Configuration then AsModels(Table(t), t)
      else
        var ecs := CheckedRows(ecTable);
        if ecs == [] then [] else AsModels(OfEc(configurationTable, ecs[0].id), Configuration)
    }

    /** `retrieveFromTable`. */
    method RetrieveFromTable(t: FileType) returns (data: seq<Model>)
      ensures data == Retrieved(t)
    {
      data := [];
      var ecId := 0;
      if t == Configuration {
        var clickedEc := GetClickedModels(Ec);
        if |clickedEc| == 0 {
          return;
        }
        ecId := clickedEc[0].id;
        assert ecId == CheckedRows(ecTable)[0].id;
      }
      var rows := if t == Configuration then OfEc(configurationTable, ecId) else Table(t);
      data := ReadModels(rows, t);
    }

    /** The loop over the result set of a "select": one model per row, in order. */
    static method ReadModels(rows: seq<TableRow>, t: FileType) returns (data: seq<Model>)
      ensures data == AsModels(rows, t)
    {
      data := [];
      var i := 0;
      while i < |rows|
        invariant 0 <= i <= |rows|
        invariant data == AsModels(rows[..i], t)
      {
        data := data + [AsModel(rows[i], t)];
        i := i + 1;
      }
      assert rows[..i] == rows;
    }

    /** The configurations retrieved are those of the rows whose EC is the first
        clicked one, and none when no EC is clicked. */
    lemma RetrievedConfigurations()
      ensures CheckedRows(ecTable) == [] ==> Retrieved(Configuration) == []
      ensures CheckedRows(ecTable) != [] ==>
                forall m :: m in Retrieved(Configuration) <==>
                  exists row :: row in configurationTable && row.ecId == CheckedRows(ecTable)[0].id &&
                                m == AsModel(row, Configuration)
    {
      var ecs := CheckedRows(ecTable);
      if ecs != [] {
        var rows := OfEc(configurationTable, ecs[0].id);
        var ms := Retrieved(Configuration);
        forall m | m in ms
          ensures exists row :: row in configurationTable && row.ecId == ecs[0].id && m == AsModel(row, Configuration)
        {
          var k :| 0 <= k < |ms| && ms[k] == m;
          assert rows[k] in rows;
          assert EcIs(ecs[0].id)(rows[k]);
        }
        forall row | row in configurationTable && row.ecId == ecs[0].id
          ensures AsModel(row, Configuration) in ms
        {
          assert EcIs(ecs[0].id)(row);
          var k :| 0 <= k < |rows| && rows[k] == row;
          assert ms[k] == AsModel(row, Configuration);
        }
      }
    }

    /** `updateClicked`: sets CHECKED of every row ("*") or of the rows named
        `selectedName` in the table of kind `t`. */
    method UpdateClicked(selectedName: string, clicked: int, t: FileType)
      modifies this
      ensures Table(t) == Marked(old(Table(t)), selectedName, clicked)
      ensures forall u | u != t :: Table(u) == old(Table(u))
      ensures values == old(values)
    {
      SetTable(t, Marked(Table(t), selectedName, clicked));
    }

    /** The loop of `removeFromTable` that looks for the id of a row named `name`. */
    method FindId(rows: seq<TableRow>, name: string) returns (id: Option<int>)
      ensures id == LastIdNamed(rows, name)
    {
      id := None;
      var i := 0;
      while i < |rows|
        invariant 0 <= i <= |rows|
        invariant id == LastIdNamed(rows[..i], name)
      {
        assert rows[..i + 1][..i] == rows[..i];
        if rows[i].name == name {
          id := Some(rows[i].id);
        }
        i := i + 1;
      }
      assert rows[..i] == rows;
    }

    /** `removeFromTable` as written: when a row is named `name`, the rows with that
        name are deleted, and so are the configuration values whose configuration
        id is that row's id, whatever the kind of table. */
    method RemoveFromTableAsWritten(name: string, t: FileType) returns (removed: bool)
      modifies this
      ensures removed <==> LastIdNamed(old(Table(t)), name).Some?
      ensures !removed ==> Table(t) == old(Table(t)) && values == old(values)
      ensures removed ==> Table(t) == Unnamed(old(Table(t)), name)
      ensures removed ==> values == ValuesWithout(old(values), IntToString(LastIdNamed(old(Table(t)), name).value))
      ensures forall u | u != t :: Table(u) == old(Table(u))
    {
      var id := FindId(Table(t), name);
      if id.None? {
        return false;
      }
      values := ValuesWithout(values, IntToString(id.value));
      SetTable(t, Unnamed(Table(t), name));
      removed := true;
    }

    /** `removeFromTable` with the value rows deleted only when the removed row is a
        configuration: removing a file of another kind keeps every configuration's
        values. */
    method RemoveFromTable(name: string, t: FileType) returns (removed: bool)
      modifies this
      ensures removed <==> LastIdNamed(old(Table(t)), name).Some?
      ensures !removed ==> Table(t) == old(Table(t)) && values == old(values)
      ensures removed ==> Table(t) == Unnamed(old(Table(t)), name)
      ensures removed && t == Configuration ==>
                values == ValuesWithout(old(values), IntToString(LastIdNamed(old(Table(t)), name).value))
      ensures t != Configuration ==> values == old(values)
      ensures forall u | u != t :: Table(u) == old(Table(u))
    {
      var id := FindId(Table(t), name);
      if id.None? {
        return false;
      }
      if t == Configuration {
        values := ValuesWithout(values, IntToString(id.value));
      }
      SetTable(t, Unnamed(Table(t), name));
      removed := true;
    }

    /** `retrieveConfigurationValues`: the elements stored for configuration `id`,
        in row order. */
    method RetrieveConfigurationValues(id: string) returns (val: seq<NumericElement>)
      ensures val == Decoded(ValuesOf(values, id))
    {
      val := [];
      var i := 0;
      while i < |values|
        invariant 0 <= i <= |values|
        invariant val == Decoded(ValuesOf(values[..i], id))
      {
        assert values[..i + 1][..i] == values[..i];
        if values[i].configurationId == id {
          val := val + [DecodeRow(values[i])];
        }
        i := i + 1;
      }
      assert values[..i] == values;
    }

    /** `insertConfigurationValues`: deletes the rows of configuration `id`, then
        inserts one row per element, in order, until an element cannot be
        inserted. */
    method InsertConfigurationValues(id: string, value: seq<NumericElement>) returns (ok: bool)
      modifies this`values
      ensures ok <==> AllEncode(id, value, numberText)
      ensures values == ValuesWithout(old(values), id) + EncodedPrefix(id, value, numberText)
    {
      values := ValuesWithout(values, id);
      ok := InsertRows(value, Encoder(id, numberText));
    }

    /** The loop of `insertConfigurationValues`: appends the row `encode` builds for
        each element, in order, and stops at the first element it builds none for. */
    method InsertRows(value: seq<NumericElement>, encode: NumericElement -> Option<ValueRow>) returns (ok: bool)
      modifies this`values
      ensures ok <==> AllSome(encode, value)
      ensures values == old(values) + MapWhileSome(encode, value)
    {
      var i := 0;
      while i < |value|
        invariant 0 <= i <= |value|
        invariant AllSome(encode, value[..i])
        invariant values == old(values) + MapWhileSome(encode, value[..i])
      {
        var row := encode(value[i]);
        if row.None? {
          MapWhileSomeStops(encode, value, i);
          return false;
        }
        MapWhileSomeAppend(encode, value[..i], value[i]);
        assert value[..i + 1] == value[..i] + [value[i]];
        values := values + [row.value];
        i := i + 1;
      }
      assert value[..i] == value;
      ok := true;
    }
  }

  /** Removing an EC named "c" whose id is 1, as written, also deletes the values of
      configuration "k", whose id is 1 as well, although "k" stays in its table. */
  lemma RemovingEcDropsConfigurationValues()
    ensures LastIdNamed([TableRow(1, 0, "c", "ec.jar", 0)], "c") == Some(1)
    ensures IntToString(1) == "1"
    ensures ValuesOf([ValueRow("1", "x", 2.0, 0.0, 0.0)], "1") != []
    ensures ValuesWithout([ValueRow("1", "x", 2.0, 0.0, 0.0)], IntToString(1)) == []
  {
    var v := ValueRow("1", "x", 2.0, 0.0, 0.0);
    assert [v][..0] == [];
    assert "1" == [Digit(1)];
  }
}
