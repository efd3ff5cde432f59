/** The configuration being edited (`ConfigurationManager`): its numeric
    elements, the id it is stored under, and the store it is written to. */
module Configurations {
  import opened Wrappers
  import opened Numeric
  import opened Persistence

  /** The elements the rows of the editor hold, or None when some row's text is
      no number (`retrieveValue` throws `IllegalArgumentException`). */
  function RowValues(rows: seq<Option<NumericElement>>): (r: Option<seq<NumericElement>>)
    ensures r.Some? <==> forall k | 0 <= k < |rows| :: rows[k].Some?
    ensures r.Some? ==> |r.value| == |rows| && forall k | 0 <= k < |rows| :: r.value[k] == rows[k].value
  {
    if rows == [] then Some([])
    else
      var init := RowValues(rows[..|rows| - 1]);
      assert forall k | 0 <= k < |rows| - 1 :: rows[..|rows| - 1][k] == rows[k];
      if init.None? || rows[|rows| - 1].None? then None
      else Some(init.value + [rows[|rows| - 1].value])
  }

  /** What `checkValidity` accepts of one element: every Parameter, and a Variable
      whose step is not negative and whose start is not above its end. */
  predicate ValidElement(e: NumericElement) {
    e.Parameter? || (e.step >= 0.0 && e.start <= e.end)
  }

  predicate ValidConfiguration(els: seq<NumericElement>) {
    forall k | 0 <= k < |els| :: ValidElement(els[k])
  }

  class ConfigurationManager {
    const db: Database
    var numericElements: seq<NumericElement>
    var stringId: string

    /** A new manager holds no element and the id "". */
    constructor (db: Database)
      ensures this.db == db && numericElements == [] && stringId == ""
    {
      this.db := db;
      numericElements := [];
      stringId := "";
    }

    /** `setConfigurationFromRow`: all the rows' elements, in order, or none at all
        when one row holds no number. */
    method SetConfigurationFromRow(rows: seq<Option<NumericElement>>) returns (ok: bool)
      modifies this`numericElements
      ensures ok <==> RowValues(rows).Some?
      ensures numericElements == if ok then RowValues(rows).value else []
    {
      numericElements := [];
      var i := 0;
      while i < |rows|
        invariant 0 <= i <= |rows|
        invariant RowValues(rows[..i]) == Some(numericElements)
      {
        assert rows[..i + 1][..i] == rows[..i];
        var element := rows[i];
        if element.None? {
          numericElements := [];
          assert !RowValues(rows).Some? by {
            assert !rows[i].Some?;
          }
          return false;
        }
        numericElements := numericElements + [element.value];
        i := i + 1;
      }
      assert rows[..i] == rows;
      ok := true;
    }

    /** `setConfigurationFromNumericElement`: a copy of `elements`, in order. */
    method SetConfigurationFromNumericElement(elements: seq<NumericElement>)
      modifies this`numericElements
      ensures numericElements == elements
    {
      numericElements := [];
      var i := 0;
      while i < |elements|
        invariant 0 <= i <= |elements|
        invariant numericElements == elements[..i]
      {
        numericElements := numericElements + [elements[i]];
        i := i + 1;
      }
      assert elements[..i] == elements;
    }

    /** `checkValidity`: false where the Java code throws, at the first Variable
        with a negative step or a start above its end. */
    method CheckValidity() returns (valid: bool)
      ensures valid <==> ValidConfiguration(numericElements)
    {
      var i := 0;
      while i < |numericElements|
        invariant 0 <= i <= |numericElements|
        invariant forall k | 0 <= k < i :: ValidElement(numericElements[k])
      {
        var element := numericElements[i];
        if element.Variable? {
          if element.step < 0.0 {
            return false;
          }
          if element.start > element.end {
            return false;
          }
        }
        i := i + 1;
      }
      valid := true;
    }

    /** `write`: stores the elements under the current id when the configuration
        is valid; an invalid one leaves the store as it was. `ok` is false where the
        Java code throws. */
    method Write() returns (ok: bool)
      modifies db`values
      ensures !ValidConfiguration(numericElements) ==> !ok && db.values == old(db.values)
      ensures ValidConfiguration(numericElements) ==>
                && (ok <==> AllEncode(stringId, numericElements, db.numberText))
                && db.values == ValuesWithout(old(db.values), stringId) + EncodedPrefix(stringId, numericElements, db.numberText)
      ensures ok && RoundTrips(numericElements, db.numberText) ==>
                Decoded(ValuesOf(db.values, stringId)) == numericElements
    {
      var valid := CheckValidity();
      if !valid {
        return false;
      }
      ok := db.InsertConfigurationValues(stringId, numericElements);
      if RoundTrips(numericElements, db.numberText) {
        RetrieveAfterInsert(old(db.values), stringId, numericElements, db.numberText);
      }
    }

    /** `load`: the id becomes `id` and the elements those stored under it. */
    method Load(id: string)
      modifies this`stringId, this`numericElements
      ensures stringId == id && GetId() == id
      ensures numericElements == Decoded(ValuesOf(db.values, id))
    {
      stringId := id;
      numericElements := db.RetrieveConfigurationValues(id);
    }

    function GetId(): string
      reads this
    {
      stringId
    }
  }

  /** The elements loaded from the store never have a negative step: a row whose
      step is not positive comes back as a Parameter. */
  lemma DecodedValid(rows: seq<ValueRow>)
    ensures forall k | 0 <= k < |Decoded(rows)| :: Decoded(rows)[k].Variable? ==> Decoded(rows)[k].step > 0.0
  {
  }
}
