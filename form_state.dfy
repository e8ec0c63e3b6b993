/**
 * The `useForm` hook of src/ui/hooks/useForm.ts: one state cell holding a
 * map from field name to string value, a change handler that overwrites one
 * key, and a reset that restores the defaults the hook was created with.
 */
module FormState {

  /** The form field set: field name to current text value. */
  type Fields = map<string, string>

  /** The update `{...prev, [name]: value}` that `handleChange` applies. */
  function Changed(prev: Fields, name: string, value: string): (r: Fields)
    ensures r.Keys == prev.Keys + {name}
    ensures r[name] == value
    ensures forall k :: k in prev && k != name ==> r[k] == prev[k]
  {
    prev[name := value]
  }

  /** The two things a form can be asked to do. */
  datatype FormEvent = Change(name: string, value: string) | Reset

  /** The fields after one event, for a form created with `initialValues`. */
  function Apply(fields: Fields, initialValues: Fields, e: FormEvent): Fields {
    match e
    case Change(name, value) => Changed(fields, name, value)
    case Reset => initialValues
  }

  /** The fields after a series of events, applied in order. */
  function Replay(fields: Fields, initialValues: Fields, events: seq<FormEvent>): Fields
    decreases |events|
  {
    if events == [] then fields
    else Replay(Apply(fields, initialValues, events[0]), initialValues, events[1..])
  }

  /** A form's state cell. */
  class Form {
    /** The defaults captured when the hook was created. */
    const initialValues: Fields
    var formFields: Fields

    /** `useForm(initialValues)`: the fields start as the defaults. */
    constructor (initialValues: Fields)
      ensures this.initialValues == initialValues
      ensures formFields == initialValues
    {
      this.initialValues := initialValues;
      formFields := initialValues;
    }

    /** `useForm()`: the defaults are the empty object. */
    constructor WithoutDefaults()
      ensures initialValues == map[]
      ensures formFields == map[]
    {
      initialValues := map[];
      formFields := map[];
    }

    /** `handleChange` for an input named `name` now holding `value`. */
    method HandleChange(name: string, value: string)
      modifies this
      ensures formFields == Apply(old(formFields), initialValues, Change(name, value))
      ensures formFields[name] == value
      ensures forall k :: k in old(formFields) ==> k in formFields
      ensures forall k :: k in old(formFields) && k != name ==> formFields[k] == old(formFields)[k]
    {
      formFields := Changed(formFields, name, value);
    }

    /** `resetFields`. */
    method ResetFields()
      modifies this
      ensures formFields == Apply(old(formFields), initialValues, Reset)
      ensures formFields == initialValues
    {
      formFields := initialValues;
    }
  }

  // ---------------------------------------------------------------------
  // Laws of the change handler.
  // ---------------------------------------------------------------------

  /** Making the same change twice is making it once. */
  lemma ChangeIdempotent(fields: Fields, name: string, value: string)
    ensures Changed(Changed(fields, name, value), name, value) == Changed(fields, name, value)
  {
  }

  /** Of two changes to one field, the later one wins. */
  lemma ChangeLastWriteWins(fields: Fields, name: string, first: string, second: string)
    ensures Changed(Changed(fields, name, first), name, second) == Changed(fields, name, second)
  {
  }

  /** Changes to different fields can be made in either order. */
  lemma ChangesCommute(fields: Fields, name1: string, value1: string, name2: string, value2: string)
    requires name1 != name2
    ensures Changed(Changed(fields, name1, value1), name2, value2)
         == Changed(Changed(fields, name2, value2), name1, value1)
  {
  }

  /** Resetting twice is resetting once. */
  lemma ResetIdempotent(fields: Fields, initialValues: Fields)
    ensures Apply(Apply(fields, initialValues, Reset), initialValues, Reset)
         == Apply(fields, initialValues, Reset)
    ensures Apply(fields, initialValues, Reset) == initialValues
  {
  }

  // ---------------------------------------------------------------------
  // Laws over whole histories.
  // ---------------------------------------------------------------------

  /** A reset at the end of any history leaves exactly the defaults. */
  lemma {:induction false} ResetRestores(fields: Fields, initialValues: Fields, events: seq<FormEvent>)
    ensures Replay(fields, initialValues, events + [Reset]) == initialValues
    decreases |events|
  {
    if events != [] {
      ResetRestores(Apply(fields, initialValues, events[0]), initialValues, events[1..]);
      assert (events + [Reset])[1..] == events[1..] + [Reset];
    }
  }

  /** Changes never remove a field: without a reset, every key present stays present. */
  lemma {:induction false} ChangesKeepKeys(fields: Fields, initialValues: Fields, events: seq<FormEvent>)
    requires forall i :: 0 <= i < |events| ==> events[i].Change?
    ensures fields.Keys <= Replay(fields, initialValues, events).Keys
    decreases |events|
  {
    if events != [] {
      ChangesKeepKeys(Apply(fields, initialValues, events[0]), initialValues, events[1..]);
    }
  }

  /** A form that holds every default field keeps holding it, whatever happens. */
  lemma {:induction false} DefaultKeysKept(fields: Fields, initialValues: Fields, events: seq<FormEvent>)
    requires initialValues.Keys <= fields.Keys
    ensures initialValues.Keys <= Replay(fields, initialValues, events).Keys
    decreases |events|
  {
    if events != [] {
      DefaultKeysKept(Apply(fields, initialValues, events[0]), initialValues, events[1..]);
    }
  }

  /** A field's value after a history of changes is the value of its last change. */
  lemma {:induction false} LastChangeWins(fields: Fields, initialValues: Fields, events: seq<FormEvent>, name: string, value: string)
    requires forall i :: 0 <= i < |events| ==> events[i].Change? && events[i].name != name
    ensures name in Replay(fields, initialValues, [Change(name, value)] + events)
    ensures Replay(fields, initialValues, [Change(name, value)] + events)[name] == value
  {
    var after := Apply(fields, initialValues, Change(name, value));
    assert ([Change(name, value)] + events)[1..] == events;
    UnrelatedChanges(after, initialValues, events, name);
  }

  lemma {:induction false} UnrelatedChanges(fields: Fields, initialValues: Fields, events: seq<FormEvent>, name: string)
    requires name in fields
    requires forall i :: 0 <= i < |events| ==> events[i].Change? && events[i].name != name
    ensures name in Replay(fields, initialValues, events)
    ensures Replay(fields, initialValues, events)[name] == fields[name]
    decreases |events|
  {
    if events != [] {
      UnrelatedChanges(Apply(fields, initialValues, events[0]), initialValues, events[1..], name);
    }
  }
}
