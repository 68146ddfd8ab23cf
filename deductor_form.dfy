/**
 * The deductor details form: its state, the generic field-update handler and
 * the two Yes/No Address Change selects. The state is the form object itself,
 * a map from field name to value; `WellTyped` states the declared interface
 * (exactly these 36 fields, two of them booleans and the rest strings).
 */
module DeductorForm {
  import opened Values

  type FormData = map<string, Value>

  const FieldNames := {
    "tan", "pan", "gstin", "name", "nameAsPerDept", "doorNo", "building", "road", "area", "city",
    "state", "pincode", "addressChange", "stdCode", "telephone", "email", "branchDivision",
    "deductorType", "financialYear", "rpName", "rpDesignation", "rpDoorNo", "rpBuilding", "rpRoad",
    "rpArea", "rpCity", "rpState", "rpPincode", "rpAddressChange", "rpStdCode", "rpTelephone",
    "rpEmail", "rpPan", "rpFatherName", "rpMobileNo", "rpGender"}

  const BooleanFields := {"addressChange", "rpAddressChange"}

  /** The declared shape of `DeductorFormData`. */
  predicate WellTyped(d: FormData) {
    (forall k :: k in d ==> k in FieldNames) && (forall k :: k in FieldNames ==> k in d) &&
    (forall k :: k in d ==> if k in BooleanFields then d[k].Flag? else d[k].Text?)
  }

  /** The initial `formData`: '' everywhere, except false for the two flags and '2025-26' for the financial year. */
  function Initial(): (d: FormData)
    ensures WellTyped(d)
    ensures d["financialYear"] == Text("2025-26")
    ensures forall k :: k in d && k != "financialYear" ==> d[k] == Text("") || d[k] == Flag(false)
  {
    map k | k in FieldNames ::
      if k in BooleanFields then Flag(false)
      else if k == "financialYear" then Text("2025-26")
      else Text("")
  }

  /** The parts of a change event's target that the handler reads. */
  datatype Target = Target(inputType: string, value: string, checked: bool)

  /** A checkbox target contributes `checked`, any other target `value`. */
  function TargetValue(t: Target): (v: Value)
    ensures t.inputType == "checkbox" ==> v == Flag(t.checked)
    ensures t.inputType != "checkbox" ==> v == Text(t.value)
  {
    if t.inputType == "checkbox" then Flag(t.checked) else Text(t.value)
  }

  /** `handleInputChange(field)(event)`: `{ ...prev, [field]: value }`, so only `field` changes. */
  function HandleInputChange(d: FormData, field: string, t: Target): (r: FormData)
    ensures field in r && r[field] == TargetValue(t)
    ensures forall k :: k != field ==> (k in r <==> k in d)
    ensures forall k :: k in d && k != field ==> r[k] == d[k]
    ensures field in d ==> r.Keys == d.Keys
  {
    d[field := TargetValue(t)]
  }

  /** A change of a declared field by a value of its declared kind keeps the form well typed. */
  lemma InputChangeKeepsTyped(d: FormData, field: string, t: Target)
    requires WellTyped(d) && field in FieldNames
    requires (field in BooleanFields) == (t.inputType == "checkbox")
    ensures WellTyped(HandleInputChange(d, field, t))
  {
  }

  /** `flag ? 'Yes' : 'No'`, on the field's truthiness. */
  function YesNo(d: FormData, field: string): (s: string)
    ensures s == "Yes" <==> field in d && !Falsy(d[field])
    ensures s == "Yes" || s == "No"
  {
    if field in d && !Falsy(d[field]) then "Yes" else "No"
  }

  /** An Address Change select's `onChange`: the flag becomes (value == 'Yes'), nothing else changes. */
  function SelectYesNo(d: FormData, field: string, value: string): (r: FormData)
    ensures field in r && r[field] == Flag(value == "Yes")
    ensures forall k :: k != field ==> (k in r <==> k in d)
    ensures forall k :: k in d && k != field ==> r[k] == d[k]
  {
    d[field := Flag(value == "Yes")]
  }

  /** The deductor's Address Change select. */
  function AddressChangeShown(d: FormData): string {
    YesNo(d, "addressChange")
  }

  function SelectAddressChange(d: FormData, value: string): FormData {
    SelectYesNo(d, "addressChange", value)
  }

  /** The responsible person's Address Change select. */
  function RpAddressChangeShown(d: FormData): string {
    YesNo(d, "rpAddressChange")
  }

  function SelectRpAddressChange(d: FormData, value: string): FormData {
    SelectYesNo(d, "rpAddressChange", value)
  }

  lemma SelectShows(d: FormData, field: string, value: string)
    requires value == "Yes" || value == "No"
    ensures YesNo(SelectYesNo(d, field, value), field) == value
  {
  }

  lemma ReselectUnchanged(d: FormData, field: string)
    requires field in d && d[field].Flag?
    ensures SelectYesNo(d, field, YesNo(d, field)) == d
  {
    assert d[field := d[field]] == d;
  }

  lemma SelectKeepsOther(d: FormData, field: string, other: string, value: string)
    requires other != field
    ensures YesNo(SelectYesNo(d, field, value), other) == YesNo(d, other)
  {
  }

  lemma SelectKeepsTyped(d: FormData, field: string, value: string)
    requires WellTyped(d) && field in BooleanFields
    ensures WellTyped(SelectYesNo(d, field, value))
  {
  }

  /**
   * Both Address Change selects round-trip: choosing 'Yes' or 'No' shows that
   * choice, re-selecting what a well-typed form shows changes nothing, and
   * each select leaves the other's flag alone.
   */
  lemma AddressChangeRoundTrip(d: FormData, value: string)
    requires value == "Yes" || value == "No"
    ensures AddressChangeShown(SelectAddressChange(d, value)) == value
    ensures RpAddressChangeShown(SelectRpAddressChange(d, value)) == value
    ensures WellTyped(d) ==> SelectAddressChange(d, AddressChangeShown(d)) == d
    ensures WellTyped(d) ==> SelectRpAddressChange(d, RpAddressChangeShown(d)) == d
    ensures RpAddressChangeShown(SelectAddressChange(d, value)) == RpAddressChangeShown(d)
    ensures AddressChangeShown(SelectRpAddressChange(d, value)) == AddressChangeShown(d)
    ensures WellTyped(d) ==> WellTyped(SelectAddressChange(d, value)) && WellTyped(SelectRpAddressChange(d, value))
  {
    SelectShows(d, "addressChange", value);
    SelectShows(d, "rpAddressChange", value);
    SelectKeepsOther(d, "addressChange", "rpAddressChange", value);
    SelectKeepsOther(d, "rpAddressChange", "addressChange", value);
    if WellTyped(d) {
      assert "addressChange" in FieldNames && "rpAddressChange" in FieldNames;
      ReselectUnchanged(d, "addressChange");
      ReselectUnchanged(d, "rpAddressChange");
      SelectKeepsTyped(d, "addressChange", value);
      SelectKeepsTyped(d, "rpAddressChange", value);
    }
  }
}
