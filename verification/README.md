# Form builder: field list and required-field validation

A model of the data layer of a small client-side form builder. The builder
panel keeps an ordered list of field definitions `{id, type, label, required}`
and edits it three ways: append a new field, change the label or the required
flag of the fields with a given id, and remove the fields with a given id. The
generated form keeps the values the user entered, keyed by field id, and on
submit rebuilds an error map holding "This field is required" for every
required field whose value is missing.

- `fields.dfy`, module `Fields`: the field record, the type set
  (text, number, date, checkbox), `AddField`, `UpdateField`, `RemoveField`
  and their properties.
- `form.dfy`, module `Form`: entered values (`Str(string)` for text, number
  and date inputs, `Bool(bool)` for checkboxes), `HandleChange`,
  `ValidateForm`, and how each edit and each input moves the set of reported
  ids.

The type set has four members (frontend/src/App.jsx:25); a new field's label
is the empty string (frontend/src/App.jsx:28); ids come from the clock, so
they are taken as a parameter and are not assumed distinct. Update and removal therefore act on
every record carrying the id. "Missing" is the script's falsiness of
`formData[id]`: no entry, `Str("")` or `Bool(false)`. `Str("0")` counts as a
value, because inputs store strings.

## Model

| member | source | states |
|---|---|---|
| Fields.NewField | frontend/src/App.jsx:28 | a new record has the given id and type, the empty label and is not required |
| Fields.Apply | frontend/src/App.jsx:33 | `{ ...field, [key]: value }` writes only the named attribute; id, type and the other attribute are kept |
| Fields.AddField | frontend/src/App.jsx:27-29 | the result is the old list unchanged and in order, followed by exactly one new record with the given id and type, empty label, not required |
| Fields.AddFieldIds | frontend/src/App.jsx:27-29 | adding a field contributes exactly its id to the list's ids |
| Fields.RemoveUndoesAdd | frontend/src/App.jsx:27-39 | removing the id just added equals removing it from the old list, so it also drops older records with a reused id; for a fresh id it restores the original list |
| Fields.UpdateField | frontend/src/App.jsx:31-35 | same length; each record with a different id is unchanged; each record with the id has only the edited attribute set to the value |
| Fields.UpdateFieldKeepsShape | frontend/src/App.jsx:31-35 | an update keeps every record's id and type, so the set of ids is unchanged |
| Fields.UpdateFieldAbsent | frontend/src/App.jsx:33 | updating an id no record carries returns the list unchanged |
| Fields.UpdateFieldIdempotent | frontend/src/App.jsx:31-35 | applying the same update twice equals applying it once |
| Fields.UpdateFieldCommutes | frontend/src/App.jsx:31-35 | updates of different ids, or of different attributes of one id, can be applied in either order |
| Fields.RemoveField | frontend/src/App.jsx:37-39 | every kept record comes from the list and has a different id; every record with a different id is kept; no kept record carries the id |
| Fields.Kept | frontend/src/App.jsx:38 | the reference selection for the filter: strictly ascending positions inside the list |
| Fields.KeptExactly | frontend/src/App.jsx:38 | a position is selected exactly when its record's id differs from the removed id |
| Fields.RemoveAppend | frontend/src/App.jsx:38 | removal distributes over concatenation |
| Fields.RemoveSnoc | frontend/src/App.jsx:38 | one more record at the end adds that record to the result when its id differs, nothing otherwise |
| Fields.RemoveSelectsKept | frontend/src/App.jsx:38 | on every prefix, the result is the records at the kept positions, in their original order |
| Fields.RemoveIsFilter | frontend/src/App.jsx:37-39 | the result is exactly the records whose id differs, in their original relative order |
| Fields.RemoveAbsent | frontend/src/App.jsx:38 | removing an id no record carries is the identity |
| Fields.RemoveIdempotent | frontend/src/App.jsx:37-39 | removing the same id twice equals removing it once |
| Form.HandleChange | frontend/src/App.jsx:78-80 | the map holds the new value at the id, gains only that key, and keeps every other key's value |
| Form.ValidateForm | frontend/src/App.jsx:82-91 | the error keys are exactly the ids of required fields whose value is missing, each message is "This field is required", and the result is true iff the map is empty iff every required field has a value |
| Form.CompleteIffNoneMissing | frontend/src/App.jsx:85-90 | the form passes exactly when no id is reported |
| Form.MissingAfterChange | frontend/src/App.jsx:78-88 | entering a truthy value withdraws that id's report; a falsy one adds it when a required field carries the id; other ids are unaffected |
| Form.OptionalValuesIrrelevant | frontend/src/App.jsx:84-88 | values of non-required fields never affect the report |
| Form.RequiredCheckbox | frontend/src/App.jsx:82-91 | a required checkbox passes exactly when it is ticked, and fails when never touched |
| Form.MissingAfterAdd | frontend/src/App.jsx:27-29 | a newly added field is not required, so it never adds a report |
| Form.MissingAfterRemove | frontend/src/App.jsx:37-39 | removing an id withdraws that id's report and no other |
| Form.MissingAfterRelabel | frontend/src/App.jsx:31-35 | changing a label never changes the report |
| Form.MissingAfterOptional | frontend/src/App.jsx:31-35 | clearing an id's required flag withdraws that id's report and no other |
| Form.MissingAfterRequire | frontend/src/App.jsx:31-35 | setting a present id's required flag adds its report exactly when its value is missing |

## Left out

- React rendering, JSX, context and state hooks (frontend/src/App.jsx:1-21, 41-70, 100-134): view-framework wiring, not logic. The model passes the field list and form data explicitly.
- Loading and saving the list through `localStorage` with `JSON.parse`/`JSON.stringify` (frontend/src/App.jsx:8-14): browser I/O over a library outside the model. Note that a malformed stored value makes `JSON.parse` throw rather than yield an empty list.
- `Date.now()` id generation (frontend/src/App.jsx:28): it reads a clock, so the new id is a parameter of `AddField`. Nothing in the code makes ids unique, so the model does not assume they are; uniqueness of a new id is therefore not a property of the model.
- The persist-then-reload round trip of the field list: it rests on `localStorage` and JSON, both outside the model.
- `handleSubmit`'s `preventDefault` and `alert` (frontend/src/App.jsx:93-98): browser side effects; only the boolean from `ValidateForm` that it branches on is modelled.
- Arbitrary computed-key writes in `updateField`: the key is restricted to `SetLabel(string)` or `SetRequired(bool)`, the two writes the builder panel makes (frontend/src/App.jsx:58, 63).
- The stored `type` is a string in the code; here it is the four-valued `FieldType`, the only values the "Add" buttons pass (frontend/src/App.jsx:25, 46).
