/**
 The generated form: the values the user has entered, keyed by field id, and
 the required-field check run on submit.

 A text, number or date input stores the input's string; a checkbox stores
 whether it is checked. A value counts as missing exactly when the script's
 truthiness test rejects it: no entry, the empty string, or `false`. The string
 "0" is a non-empty string and therefore present.
 */
module Form {
  import opened Fields

  /** What an input stores: its text, or a checkbox's checked state. */
  datatype Value = Str(s: string) | Bool(b: bool)

  /** The entered values, keyed by field id. */
  type FormData = map<int, Value>

  /** The validation messages, keyed by field id. */
  type Errors = map<int, string>

  /** The one message the check produces. */
  const RequiredMessage: string := "This field is required"

  /** The script's truthiness of a stored value. */
  predicate Truthy(v: Value)
  {
    match v
    case Str(s) => s != ""
    case Bool(b) => b
  }

  /** `!formData[id]`: no value, or a falsy one. */
  predicate Missing(data: FormData, id: int)
  {
    id !in data || !Truthy(data[id])
  }

  /** The ids the check reports: required fields whose value is missing. */
  function MissingIds(fields: seq<Field>, data: FormData): set<int>
  {
    set f | f in fields && f.required && Missing(data, f.id) :: f.id
  }

  /** The form is acceptable when every required field has a value. */
  predicate Complete(fields: seq<Field>, data: FormData)
  {
    forall f :: f in fields && f.required ==> !Missing(data, f.id)
  }

  /** `handleChange`: records `v` for `id`, nothing else changes. */
  function HandleChange(data: FormData, id: int, v: Value): (r: FormData)
    ensures id in r && r[id] == v
    ensures r.Keys == data.Keys + {id}
    ensures forall k :: k in data && k != id ==> r[k] == data[k]
  {
    data[id := v]
  }

  /**
   `validateForm`: rebuilds the error map from nothing, one entry per required
   field with a missing value, and reports whether it came out empty.
   */
  method ValidateForm(fields: seq<Field>, data: FormData) returns (errors: Errors, ok: bool)
    ensures errors.Keys == MissingIds(fields, data)
    ensures forall k :: k in errors ==> errors[k] == RequiredMessage
    ensures ok <==> |errors| == 0
    ensures ok <==> Complete(fields, data)
  {
    errors := map[];
    for i := 0 to |fields|
      invariant errors.Keys == MissingIds(fields[..i], data)
      invariant forall k :: k in errors ==> errors[k] == RequiredMessage
    {
      var f := fields[i];
      assert fields[..i + 1] == fields[..i] + [f];
      if f.required && Missing(data, f.id) {
        errors := errors[f.id := RequiredMessage];
      }
    }
    assert fields[..|fields|] == fields;
    ok := |errors| == 0;
    CompleteIffNoneMissing(fields, data);
  }

  // ---------------------------------------------------------------------------
  // How the builder's edits and the user's input move the reported ids

  /** The form is complete exactly when no id would be reported. */
  lemma CompleteIffNoneMissing(fields: seq<Field>, data: FormData)
    ensures Complete(fields, data) <==> MissingIds(fields, data) == {}
  {
    if !Complete(fields, data) {
      var f :| f in fields && f.required && Missing(data, f.id);
      assert f.id in MissingIds(fields, data);
    }
  }

  /** Entering a value touches only that id's report: a truthy value clears it,
      a falsy one raises it if some required field carries the id. */
  lemma MissingAfterChange(fields: seq<Field>, data: FormData, id: int, v: Value)
    ensures Truthy(v) ==>
              MissingIds(fields, HandleChange(data, id, v)) == MissingIds(fields, data) - {id}
    ensures !Truthy(v) ==>
              MissingIds(fields, HandleChange(data, id, v))
              == MissingIds(fields, data) + (set f | f in fields && f.required && f.id == id :: f.id)
  {
    var d := HandleChange(data, id, v);
    forall f | f in fields && f.id != id ensures Missing(d, f.id) == Missing(data, f.id) {
    }
  }

  /** A new field is not required, so adding one never adds a report. */
  lemma MissingAfterAdd(fields: seq<Field>, kind: FieldType, id: int, data: FormData)
    ensures MissingIds(AddField(fields, kind, id), data) == MissingIds(fields, data)
  {
    var r := AddField(fields, kind, id);
    assert r == fields + [NewField(kind, id)];
  }

  /** Removing the fields with an id withdraws that id's report and no other. */
  lemma MissingAfterRemove(fields: seq<Field>, id: int, data: FormData)
    ensures MissingIds(RemoveField(fields, id), data) == MissingIds(fields, data) - {id}
  {
    var r := RemoveField(fields, id);
    forall x | x in MissingIds(fields, data) - {id} ensures x in MissingIds(r, data) {
      var f :| f in fields && f.required && Missing(data, f.id) && f.id == x;
      var i :| 0 <= i < |fields| && fields[i] == f;
      assert f in r;
    }
    forall x | x in MissingIds(r, data) ensures x in MissingIds(fields, data) - {id} {
      var f :| f in r && f.required && Missing(data, f.id) && f.id == x;
      var i :| 0 <= i < |r| && r[i] == f;
    }
  }

  /** Relabelling a field never changes what the check reports. */
  lemma MissingAfterRelabel(fields: seq<Field>, id: int, text: string, data: FormData)
    ensures MissingIds(UpdateField(fields, id, SetLabel(text)), data) == MissingIds(fields, data)
  {
    var r := UpdateField(fields, id, SetLabel(text));
    forall x | x in MissingIds(fields, data) ensures x in MissingIds(r, data) {
      var f :| f in fields && f.required && Missing(data, f.id) && f.id == x;
      var i :| 0 <= i < |fields| && fields[i] == f;
      assert r[i] in r;
    }
    forall x | x in MissingIds(r, data) ensures x in MissingIds(fields, data) {
      var f :| f in r && f.required && Missing(data, f.id) && f.id == x;
      var i :| 0 <= i < |r| && r[i] == f;
      assert fields[i] in fields;
    }
  }

  /** Clearing the required flag of an id withdraws that id's report and no other. */
  lemma MissingAfterOptional(fields: seq<Field>, id: int, data: FormData)
    ensures MissingIds(UpdateField(fields, id, SetRequired(false)), data)
         == MissingIds(fields, data) - {id}
  {
    var r := UpdateField(fields, id, SetRequired(false));
    forall x | x in MissingIds(fields, data) - {id} ensures x in MissingIds(r, data) {
      var f :| f in fields && f.required && Missing(data, f.id) && f.id == x;
      var i :| 0 <= i < |fields| && fields[i] == f;
      assert r[i] in r;
    }
    forall x | x in MissingIds(r, data) ensures x in MissingIds(fields, data) - {id} {
      var f :| f in r && f.required && Missing(data, f.id) && f.id == x;
      var i :| 0 <= i < |r| && r[i] == f;
      assert fields[i] in fields;
    }
  }

  /** Setting the required flag of a present id reports it exactly when its value is missing. */
  lemma MissingAfterRequire(fields: seq<Field>, id: int, data: FormData)
    requires id in Ids(fields)
    ensures Missing(data, id) ==>
              MissingIds(UpdateField(fields, id, SetRequired(true)), data)
              == MissingIds(fields, data) + {id}
    ensures !Missing(data, id) ==>
              MissingIds(UpdateField(fields, id, SetRequired(true)), data)
              == MissingIds(fields, data)
  {
    var r := UpdateField(fields, id, SetRequired(true));
    forall x | x in MissingIds(fields, data) ensures x in MissingIds(r, data) {
      var f :| f in fields && f.required && Missing(data, f.id) && f.id == x;
      var i :| 0 <= i < |fields| && fields[i] == f;
      assert r[i] in r;
    }
    forall x | x in MissingIds(r, data) ensures x in MissingIds(fields, data) + {id} {
      var f :| f in r && f.required && Missing(data, f.id) && f.id == x;
      var i :| 0 <= i < |r| && r[i] == f;
      assert fields[i] in fields;
    }
    if Missing(data, id) {
      var i :| 0 <= i < |fields| && fields[i].id == id;
      assert r[i] in r;
    }
  }

  /** Only the required fields' values matter: two forms that agree on which
      required fields are missing get the same report. */
  lemma OptionalValuesIrrelevant(fields: seq<Field>, data: FormData, other: FormData)
    requires forall f :: f in fields && f.required ==> Missing(data, f.id) == Missing(other, f.id)
    ensures MissingIds(fields, data) == MissingIds(fields, other)
  {
    forall x | x in MissingIds(fields, data) ensures x in MissingIds(fields, other) {
      var f :| f in fields && f.required && Missing(data, f.id) && f.id == x;
    }
    forall x | x in MissingIds(fields, other) ensures x in MissingIds(fields, data) {
      var f :| f in fields && f.required && Missing(other, f.id) && f.id == x;
    }
  }

  /** A required checkbox passes exactly when it is ticked: leaving it
      unticked and never touching it are both reported. */
  lemma RequiredCheckbox(id: int, text: string, data: FormData, ticked: bool)
    ensures Complete([Field(id, Checkbox, text, true)], HandleChange(data, id, Bool(ticked))) <==> ticked
    ensures id !in data ==> !Complete([Field(id, Checkbox, text, true)], data)
  {
    var fields := [Field(id, Checkbox, text, true)];
    assert fields[0] in fields;
  }
}
