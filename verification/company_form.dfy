/**
 * The add/edit form's record state: its initial value, the effect that
 * loads `initialData`, a change event on one input, and submission.
 */
module CompanyForm {
  import opened Wrappers
  import opened Json

  /** The nineteen fields the form starts with, in declaration order. */
  const FormFields: seq<string> := [
    "companyName", "website", "jobDescriptionUrl", "jobDescriptionText",
    "contactDate", "city", "state", "zip", "companyProducts",
    "companyDescription", "companySize", "companyType", "industry",
    "foundedYear", "headquarters", "contactEmail", "contactPhone",
    "applicationStatus", "notes"
  ]

  /** The form's fields are nineteen distinct names. */
  lemma FormFieldsDistinct()
    ensures |FormFields| == 19
    ensures forall i, j :: 0 <= i < j < |FormFields| ==> FormFields[i] != FormFields[j]
  {
  }

  /** Every form field as an empty string. */
  function DefaultForm(): (r: Record)
    ensures r.Keys == set f | f in FormFields
    ensures forall f :: f in r ==> r[f] == JStr("")
  {
    map f | f in FormFields :: JStr("")
  }

  /** `useState({...defaults, ...initialData})`: supplied fields override the defaults. */
  function InitialState(initialData: Option<Record>): (r: Record)
    ensures initialData.None? ==> r == DefaultForm()
    ensures initialData.Some? ==> forall f :: f in initialData.value ==> Get(r, f) == Some(initialData.value[f])
    ensures forall f :: (initialData.None? || f !in initialData.value) ==>
      Get(r, f) == (if f in FormFields then Some(JStr("")) else None)
  {
    DefaultForm() + initialData.GetOr(map[])
  }

  /** The effect on `initialData`: when it is given, it replaces the state wholesale. */
  function LoadInitialData(state: Record, initialData: Option<Record>): (r: Record)
    ensures initialData.Some? ==> r == initialData.value
    ensures initialData.None? ==> r == state
  {
    match initialData
    case Some(d) => d
    case None => state
  }

  /**
   * The state once the form is mounted: the initial state, then the effect.
   * With `initialData` the defaults do not survive: a field the data lacks is
   * `undefined`, not "".
   */
  function Mounted(initialData: Option<Record>): Record {
    LoadInitialData(InitialState(initialData), initialData)
  }

  lemma MountedState(initialData: Option<Record>)
    ensures initialData.Some? ==> Mounted(initialData) == initialData.value
    ensures initialData.None? ==> Mounted(initialData) == DefaultForm()
  {
  }

  /** `handleChange`: the named field takes the input's value; no other field changes. */
  function HandleChange(state: Record, name: string, value: string): (r: Record)
    ensures Get(r, name) == Some(JStr(value))
    ensures forall f :: f != name ==> Get(r, f) == Get(state, f)
  {
    state[name := JStr(value)]
  }

  /** A change that writes back a field's current string value changes nothing. */
  lemma HandleChangeSameValue(state: Record, name: string, value: string)
    requires Get(state, name) == Some(JStr(value))
    ensures HandleChange(state, name, value) == state
  {
  }

  /** `handleSubmit`: what `onSubmit` receives. */
  function HandleSubmit(state: Record): (submitted: Record)
    ensures forall f :: Get(submitted, f) == Get(state, f)
  {
    state
  }
}
