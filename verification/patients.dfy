/** The patient form and list (frontend/src/components/Patients.jsx): the
    contact-number sanitising as the user types, the length check on
    submit, clearing the form, filling it for an edit, and the list
    search. */
module Patients {
  import opened Common
  import opened Numbers
  import opened Sorting
  import Reports

  // ---------------------------------------------------------------------
  // Contact number

  /** The characters of `s` that are ASCII digits, in order
      (`replace(/[^0-9]/g, '')`). */
  function DigitsOf(s: string): (d: string)
    ensures AllDigits(d)
    ensures |d| <= |s|
  {
    Filter(s, IsDigit)
  }

  const ContactLength := 10

  /** The first ten digits of what was typed. */
  function SanitizeContact(s: string): (r: string)
    ensures AllDigits(r)
    ensures |r| == if |DigitsOf(s)| < ContactLength then |DigitsOf(s)| else ContactLength
    ensures r == DigitsOf(s)[..|r|]
  {
    Take(DigitsOf(s), ContactLength)
  }

  /** Sanitising a sanitised number changes nothing. */
  lemma {:induction false} SanitizeIdempotent(s: string)
    ensures SanitizeContact(SanitizeContact(s)) == SanitizeContact(s)
  {
    var r := SanitizeContact(s);
    FilterKeepsAll(r, IsDigit);
  }

  /** Once ten digits are in, typing more changes nothing. */
  lemma {:induction false} SanitizeSaturates(s: string, more: string)
    requires |DigitsOf(s)| >= ContactLength
    ensures SanitizeContact(s + more) == SanitizeContact(s)
  {
    FilterAppend(s, more, IsDigit);
    var d := DigitsOf(s);
    assert DigitsOf(s + more)[..ContactLength] == d[..ContactLength];
  }

  // ---------------------------------------------------------------------
  // The form

  datatype Field = FullName | Age | Gender | ContactNumber | Email | Address | RefBy | PatientCode

  datatype PatientForm = PatientForm(
    fullName: string,
    age: string,
    gender: string,
    contactNumber: string,
    email: string,
    address: string,
    refBy: string,
    patientCode: string)

  function Get(form: PatientForm, f: Field): string {
    match f
    case FullName => form.fullName
    case Age => form.age
    case Gender => form.gender
    case ContactNumber => form.contactNumber
    case Email => form.email
    case Address => form.address
    case RefBy => form.refBy
    case PatientCode => form.patientCode
  }

  function SetField(form: PatientForm, f: Field, v: string): (r: PatientForm)
    ensures Get(r, f) == v
    ensures forall g :: g != f ==> Get(r, g) == Get(form, g)
  {
    match f
    case FullName => form.(fullName := v)
    case Age => form.(age := v)
    case Gender => form.(gender := v)
    case ContactNumber => form.(contactNumber := v)
    case Email => form.(email := v)
    case Address => form.(address := v)
    case RefBy => form.(refBy := v)
    case PatientCode => form.(patientCode := v)
  }

  /** `handleChange`: the contact number is sanitised, every other field
      takes what was typed; no other field changes. */
  function HandleChange(form: PatientForm, f: Field, v: string): (r: PatientForm)
    ensures f == ContactNumber ==> r.contactNumber == SanitizeContact(v)
    ensures f != ContactNumber ==> Get(r, f) == v
    ensures forall g :: g != f ==> Get(r, g) == Get(form, g)
  {
    SetField(form, f, if f == ContactNumber then SanitizeContact(v) else v)
  }

  /** A contact number made only of digits, at most ten, stays so
      through any edit. */
  lemma {:induction false} ContactStaysClean(form: PatientForm, f: Field, v: string)
    requires AllDigits(form.contactNumber) && |form.contactNumber| <= ContactLength
    ensures var r := HandleChange(form, f, v);
      AllDigits(r.contactNumber) && |r.contactNumber| <= ContactLength
  {
  }

  const ContactError := "Contact number must be exactly 10 digits"

  /** The check `handleSubmit` makes before any request: an error unless
      the contact number has exactly ten characters. */
  function SubmitCheck(form: PatientForm): (r: Option<string>)
    ensures r.Some? <==> |form.contactNumber| != ContactLength
    ensures r.Some? ==> r.value == ContactError
  {
    if |form.contactNumber| != ContactLength then Some(ContactError) else None
  }

  /** Typing into the contact field leads to a form that can be submitted
      exactly when what was typed holds at least ten digits. */
  lemma {:induction false} TypedContactAccepted(form: PatientForm, typed: string)
    ensures SubmitCheck(HandleChange(form, ContactNumber, typed)).None? <==> |DigitsOf(typed)| >= ContactLength
  {
  }

  /** `handleClearForm`: every field empty but the patient code, which is
      kept for the next registration. */
  function ClearForm(form: PatientForm): (r: PatientForm)
    ensures forall g :: Get(r, g) == if g == PatientCode then form.patientCode else ""
  {
    PatientForm("", "", "", "", "", "", "", form.patientCode)
  }

  /** A stored patient as the edit dialog receives it: any field may be
      missing (`None`). */
  datatype StoredPatient = StoredPatient(
    fullName: Option<string>,
    age: Option<int>,
    gender: Option<string>,
    contactNumber: Option<string>,
    email: Option<string>,
    address: Option<string>,
    refBy: Option<string>,
    patientCode: Option<string>)

  /** `age || ''`: a missing age and the falsy age 0 both give ""; any
      other age is shown as its decimal text. */
  function AgeOrBlank(x: Option<int>): (r: string)
    ensures r == "" <==> x.None? || x.value == 0
  {
    if x.Some? && x.value != 0 then Reports.IntText(x.value) else ""
  }

  /** The form filled for editing a stored patient. */
  function EditForm(p: StoredPatient): (r: PatientForm)
    ensures r.fullName == OrBlank(p.fullName) && r.gender == OrBlank(p.gender)
    ensures r.contactNumber == OrBlank(p.contactNumber) && r.email == OrBlank(p.email)
    ensures r.address == OrBlank(p.address) && r.refBy == OrBlank(p.refBy)
    ensures r.patientCode == OrBlank(p.patientCode)
    ensures r.age == "" <==> p.age.None? || p.age.value == 0
  {
    PatientForm(
      OrBlank(p.fullName),
      AgeOrBlank(p.age),
      OrBlank(p.gender),
      OrBlank(p.contactNumber),
      OrBlank(p.email),
      OrBlank(p.address),
      OrBlank(p.refBy),
      OrBlank(p.patientCode))
  }

  /** A patient with nothing stored opens as a blank form. */
  lemma {:induction false} EditEmptyIsBlank()
    ensures EditForm(StoredPatient(None, None, None, None, None, None, None, None))
      == PatientForm("", "", "", "", "", "", "", "")
  {
  }

  // ---------------------------------------------------------------------
  // List search

  datatype ListedPatient = ListedPatient(fullName: string, patientCode: string, contactNumber: string)

  /** The list search: name or code contain the query ignoring case, or
      the contact number contains it exactly. */
  predicate ListMatches(p: ListedPatient, query: string) {
    || ContainsIgnoreCase(p.fullName, query)
    || ContainsIgnoreCase(p.patientCode, query)
    || Contains(p.contactNumber, query)
  }

  function SearchList(patients: seq<ListedPatient>, query: string): (r: seq<ListedPatient>)
    ensures forall p :: p in r <==> p in patients && ListMatches(p, query)
  {
    Filter(patients, p => ListMatches(p, query))
  }

  /** The kept patients keep their order: searching two lists one after the
      other gives the two results one after the other. */
  lemma {:induction false} SearchListInOrder(ps: seq<ListedPatient>, qs: seq<ListedPatient>, query: string)
    ensures SearchList(ps + qs, query) == SearchList(ps, query) + SearchList(qs, query)
  {
    FilterAppend(ps, qs, p => ListMatches(p, query));
  }

  /** The list search finds everything the report page's patient search
      finds, and also patients found only by their contact number. */
  lemma {:induction false} ListSearchWider(p: ListedPatient, query: string)
    ensures Reports.PatientMatches(Reports.Patient(p.fullName, p.patientCode), query) ==> ListMatches(p, query)
    ensures Contains(p.contactNumber, query) ==> ListMatches(p, query)
  {
  }
}
