/**
 The field list of the form builder: an ordered sequence of field records and
 the three edits the builder panel applies to it (append a new field, change one
 attribute of the fields with a given id, drop the fields with a given id).

 Ids are produced by a clock in the application, so nothing here assumes they
 are distinct: the new id is a parameter, and update and remove act on EVERY
 record carrying the id they are given.
 */
module Fields {

  /** The field types offered by the builder's "Add" buttons. */
  datatype FieldType = Text | Number | Date | Checkbox

  /** The buttons of the builder panel, in display order. */
  const FieldTypes: seq<FieldType> := [Text, Number, Date, Checkbox]

  /** One field definition `{id, type, label, required}`. */
  datatype Field = Field(id: int, kind: FieldType, labelText: string, required: bool)

  /** The attribute an update writes, with a value of the attribute's own type. */
  datatype Edit = SetLabel(text: string) | SetRequired(required: bool)

  /** The ids occurring in a field list (an id may occur more than once). */
  function Ids(fields: seq<Field>): set<int>
  {
    set i | 0 <= i < |fields| :: fields[i].id
  }

  /** The record a freshly added field gets: empty label, not required. */
  function NewField(kind: FieldType, id: int): (f: Field)
    ensures f.id == id && f.kind == kind
    ensures f.labelText == "" && !f.required
  {
    Field(id, kind, "", false)
  }

  /** The record after `{ ...field, [key]: value }`. */
  function Apply(f: Field, e: Edit): (g: Field)
    ensures g.id == f.id && g.kind == f.kind
    ensures e.SetLabel? ==> g.labelText == e.text && g.required == f.required
    ensures e.SetRequired? ==> g.required == e.required && g.labelText == f.labelText
  {
    match e
    case SetLabel(l) => f.(labelText := l)
    case SetRequired(b) => f.(required := b)
  }

  /** `addField`: the old list with one new record at the end. */
  function AddField(fields: seq<Field>, kind: FieldType, id: int): (r: seq<Field>)
    ensures |r| == |fields| + 1
    ensures r[..|fields|] == fields
    ensures r[|fields|].id == id && r[|fields|].kind == kind
    ensures r[|fields|].labelText == "" && !r[|fields|].required
  {
    fields + [NewField(kind, id)]
  }

  /** `updateField`: every record with the id gets the edit, the rest stay as they were. */
  function UpdateField(fields: seq<Field>, id: int, e: Edit): (r: seq<Field>)
    ensures |r| == |fields|
    ensures forall i :: 0 <= i < |fields| && fields[i].id != id ==> r[i] == fields[i]
    ensures forall i :: 0 <= i < |fields| && fields[i].id == id ==> r[i] == Apply(fields[i], e)
  {
    if |fields| == 0 then []
    else
      var head := if fields[0].id == id then Apply(fields[0], e) else fields[0];
      [head] + UpdateField(fields[1..], id, e)
  }

  /** `removeField`: keeps the records whose id differs, in their order. */
  function RemoveField(fields: seq<Field>, id: int): (r: seq<Field>)
    ensures |r| <= |fields|
    ensures forall i :: 0 <= i < |r| ==> r[i] in fields && r[i].id != id
    ensures forall i :: 0 <= i < |fields| && fields[i].id != id ==> fields[i] in r
    ensures id !in Ids(r)
  {
    if |fields| == 0 then []
    else if fields[0].id == id then RemoveField(fields[1..], id)
    else [fields[0]] + RemoveField(fields[1..], id)
  }

  /** Positions `0 <= i < n` of the records whose id differs from `id`, ascending. */
  function Kept(fields: seq<Field>, id: int, n: nat): (ks: seq<nat>)
    requires n <= |fields|
    ensures forall j :: 0 <= j < |ks| ==> ks[j] < n
    ensures forall j, k :: 0 <= j < k < |ks| ==> ks[j] < ks[k]
  {
    if n == 0 then []
    else Kept(fields, id, n - 1) + (if fields[n - 1].id != id then [n - 1] else [])
  }

  // ---------------------------------------------------------------------------
  // addField

  /** Adding a field contributes exactly its id to the ids of the list. */
  lemma AddFieldIds(fields: seq<Field>, kind: FieldType, id: int)
    ensures Ids(AddField(fields, kind, id)) == Ids(fields) + {id}
  {
    var r := AddField(fields, kind, id);
    assert r[|fields|].id == id;
    forall x | x in Ids(fields) ensures x in Ids(r) {
      var i :| 0 <= i < |fields| && fields[i].id == x;
      assert r[i] == fields[i];
    }
  }

  /** Removing the id just added removes the new record together with every
      older record carrying the same id; when the id was fresh, it restores
      the original list. */
  lemma {:induction false} RemoveUndoesAdd(fields: seq<Field>, kind: FieldType, id: int)
    ensures RemoveField(AddField(fields, kind, id), id) == RemoveField(fields, id)
    ensures id !in Ids(fields) ==> RemoveField(AddField(fields, kind, id), id) == fields
  {
    RemoveAppend(fields, [NewField(kind, id)], id);
    assert RemoveField([NewField(kind, id)], id) == [];
    if id !in Ids(fields) {
      RemoveAbsent(fields, id);
    }
  }

  // ---------------------------------------------------------------------------
  // updateField

  /** An update never adds, drops or re-ids a record, and never changes a type. */
  lemma UpdateFieldKeepsShape(fields: seq<Field>, id: int, e: Edit)
    ensures Ids(UpdateField(fields, id, e)) == Ids(fields)
    ensures forall i :: 0 <= i < |fields| ==>
              UpdateField(fields, id, e)[i].id == fields[i].id &&
              UpdateField(fields, id, e)[i].kind == fields[i].kind
  {
    var r := UpdateField(fields, id, e);
    forall x | x in Ids(fields) ensures x in Ids(r) {
      var i :| 0 <= i < |fields| && fields[i].id == x;
      assert r[i].id == x;
    }
    forall x | x in Ids(r) ensures x in Ids(fields) {
      var i :| 0 <= i < |r| && r[i].id == x;
      assert fields[i].id == x;
    }
  }

  /** Updating an id that no record carries leaves the list as it was. */
  lemma UpdateFieldAbsent(fields: seq<Field>, id: int, e: Edit)
    requires id !in Ids(fields)
    ensures UpdateField(fields, id, e) == fields
  {
    var r := UpdateField(fields, id, e);
    forall i | 0 <= i < |fields| ensures r[i] == fields[i] {
      assert fields[i].id in Ids(fields);
    }
  }

  /** Writing the same value twice is the same as writing it once. */
  lemma UpdateFieldIdempotent(fields: seq<Field>, id: int, e: Edit)
    ensures UpdateField(UpdateField(fields, id, e), id, e) == UpdateField(fields, id, e)
  {
    var r := UpdateField(fields, id, e);
    var rr := UpdateField(r, id, e);
    forall i | 0 <= i < |fields| ensures rr[i] == r[i] {
      if fields[i].id == id {
        assert r[i] == Apply(fields[i], e);
      }
    }
  }

  /** Edits of different ids, or of different attributes, commute. */
  lemma UpdateFieldCommutes(fields: seq<Field>, a: int, ea: Edit, b: int, eb: Edit)
    requires a != b || ea.SetLabel? != eb.SetLabel?
    ensures UpdateField(UpdateField(fields, a, ea), b, eb)
         == UpdateField(UpdateField(fields, b, eb), a, ea)
  {
    var ab := UpdateField(UpdateField(fields, a, ea), b, eb);
    var ba := UpdateField(UpdateField(fields, b, eb), a, ea);
    forall i | 0 <= i < |fields| ensures ab[i] == ba[i] {
      var f := fields[i];
      if f.id == a && f.id == b {
        assert ab[i] == Apply(Apply(f, ea), eb);
        assert ba[i] == Apply(Apply(f, eb), ea);
      }
    }
  }

  // ---------------------------------------------------------------------------
  // removeField

  /** Removal distributes over concatenation: it is a filter. */
  lemma {:induction false} RemoveAppend(a: seq<Field>, b: seq<Field>, id: int)
    ensures RemoveField(a + b, id) == RemoveField(a, id) + RemoveField(b, id)
  {
    if |a| == 0 {
      assert a + b == b;
    } else {
      assert (a + b)[1..] == a[1..] + b;
      RemoveAppend(a[1..], b, id);
    }
  }

  /** Removing an id that no record carries leaves the list as it was. */
  lemma {:induction false} RemoveAbsent(fields: seq<Field>, id: int)
    requires id !in Ids(fields)
    ensures RemoveField(fields, id) == fields
  {
    if |fields| > 0 {
      assert fields[0].id in Ids(fields);
      assert Ids(fields[1..]) <= Ids(fields) by {
        forall x | x in Ids(fields[1..]) ensures x in Ids(fields) {
          var i :| 0 <= i < |fields[1..]| && fields[1..][i].id == x;
          assert fields[i + 1].id == x;
        }
      }
      RemoveAbsent(fields[1..], id);
      assert fields == [fields[0]] + fields[1..];
    }
  }

  /** Removing twice removes nothing more. */
  lemma RemoveIdempotent(fields: seq<Field>, id: int)
    ensures RemoveField(RemoveField(fields, id), id) == RemoveField(fields, id)
  {
    RemoveAbsent(RemoveField(fields, id), id);
  }

  /** Extending the prefix by one record extends the result by that record or by nothing. */
  lemma RemoveSnoc(fields: seq<Field>, id: int, n: nat)
    requires 0 < n <= |fields|
    ensures RemoveField(fields[..n], id)
         == RemoveField(fields[..n - 1], id) + (if fields[n - 1].id != id then [fields[n - 1]] else [])
  {
    var x := fields[n - 1];
    assert fields[..n] == fields[..n - 1] + [x];
    RemoveAppend(fields[..n - 1], [x], id);
    assert [x][1..] == [];
  }

  /** `r` lists, in order, the records of `fields` at the positions `ks`. */
  predicate Selects(fields: seq<Field>, r: seq<Field>, ks: seq<nat>)
  {
    |r| == |ks| && forall j :: 0 <= j < |ks| ==> ks[j] < |fields| && r[j] == fields[ks[j]]
  }

  /** Selecting one more position appends that position's record. */
  lemma SelectsSnoc(fields: seq<Field>, r: seq<Field>, ks: seq<nat>, p: nat)
    requires Selects(fields, r, ks) && p < |fields|
    ensures Selects(fields, r + [fields[p]], ks + [p])
  {
    var r', ks' := r + [fields[p]], ks + [p];
    forall j | 0 <= j < |ks'| ensures ks'[j] < |fields| && r'[j] == fields[ks'[j]] {
      if j < |ks| {
        assert r'[j] == r[j] && ks'[j] == ks[j];
      }
    }
  }

  /** The result is exactly the records at the positions whose id differs, in order. */
  lemma {:induction false} RemoveSelectsKept(fields: seq<Field>, id: int, n: nat)
    requires n <= |fields|
    ensures Selects(fields, RemoveField(fields[..n], id), Kept(fields, id, n))
  {
    if n > 0 {
      RemoveSelectsKept(fields, id, n - 1);
      RemoveSnoc(fields, id, n);
      if fields[n - 1].id != id {
        SelectsSnoc(fields, RemoveField(fields[..n - 1], id), Kept(fields, id, n - 1), n - 1);
      }
    }
  }

  /** The kept positions are exactly those whose id differs. */
  lemma {:induction false} KeptExactly(fields: seq<Field>, id: int, n: nat)
    requires n <= |fields|
    ensures forall i :: 0 <= i < n ==> (fields[i].id != id <==> i in Kept(fields, id, n))
  {
    if n > 0 {
      KeptExactly(fields, id, n - 1);
      var ks := Kept(fields, id, n - 1);
      assert n - 1 !in ks;
    }
  }

  /** `removeField` is the filter "id differs" over the whole list. */
  lemma RemoveIsFilter(fields: seq<Field>, id: int)
    ensures Selects(fields, RemoveField(fields, id), Kept(fields, id, |fields|))
    ensures forall i :: 0 <= i < |fields| ==> (fields[i].id != id <==> i in Kept(fields, id, |fields|))
  {
    KeptExactly(fields, id, |fields|);
    RemoveSelectsKept(fields, id, |fields|);
    assert fields[..|fields|] == fields;
  }
}
