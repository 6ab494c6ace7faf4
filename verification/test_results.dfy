/** The add-test-results form (the first component of
    frontend/src/components/Test.jsx): a list of result rows, each edited
    in place, looked up in the catalog, added, removed, cleared, and sent
    as one request. */
module TestResults {
  import opened Common
  import opened Grouping
  import opened Catalog
  import opened Backend

  datatype ResultRow = ResultRow(category: string, subcategory: string, testName: string, value: string, normalRange: string, unit: string)

  const BlankRow := ResultRow("", "", "", "", "", "")

  datatype RowField = CategoryField | SubcategoryField | TestNameField | ValueField | NormalRangeField | UnitField

  function Get(row: ResultRow, f: RowField): string {
    match f
    case CategoryField => row.category
    case SubcategoryField => row.subcategory
    case TestNameField => row.testName
    case ValueField => row.value
    case NormalRangeField => row.normalRange
    case UnitField => row.unit
  }

  function SetField(row: ResultRow, f: RowField, v: string): (r: ResultRow)
    ensures Get(r, f) == v
    ensures forall g :: g != f ==> Get(r, g) == Get(row, g)
  {
    match f
    case CategoryField => row.(category := v)
    case SubcategoryField => row.(subcategory := v)
    case TestNameField => row.(testName := v)
    case ValueField => row.(value := v)
    case NormalRangeField => row.(normalRange := v)
    case UnitField => row.(unit := v)
  }

  // ---------------------------------------------------------------------
  // findTest

  /** `findTest`: the first category with the name, its first subcategory
      with the name, its first test with the name; nothing when any of the
      three is missing. */
  function FindTest(catalog: seq<Cat<CatalogTest>>, category: string, subcategory: string, name: string): (r: Option<CatalogTest>)
    ensures r.Some? ==> r.value.name == name
    ensures r.Some? <==>
      (FindCat(catalog, category) < |catalog|
       && FindSub(catalog[FindCat(catalog, category)].subs, subcategory) < |catalog[FindCat(catalog, category)].subs|
       && exists k :: (0 <= k < |catalog[FindCat(catalog, category)].subs[FindSub(catalog[FindCat(catalog, category)].subs, subcategory)].items|
           && catalog[FindCat(catalog, category)].subs[FindSub(catalog[FindCat(catalog, category)].subs, subcategory)].items[k].name == name))
  {
    var i := FindCat(catalog, category);
    if i == |catalog| then None
    else
      var j := FindSub(catalog[i].subs, subcategory);
      if j == |catalog[i].subs| then None
      else
        var items := catalog[i].subs[j].items;
        var k := FirstIndex(items, (t: CatalogTest) => t.name == name);
        if k == |items| then None else Some(items[k])
  }

  /** A test the catalog lists is found under its own category and
      subcategory, provided it is the first of that name there and they
      are the first of their names. */
  lemma {:induction false} FindTestFinds(catalog: seq<Cat<CatalogTest>>, i: nat, j: nat, k: nat)
    requires i < |catalog| && j < |catalog[i].subs| && k < |catalog[i].subs[j].items|
    requires forall a :: 0 <= a < i ==> catalog[a].name != catalog[i].name
    requires forall b :: 0 <= b < j ==> catalog[i].subs[b].name != catalog[i].subs[j].name
    requires forall c :: 0 <= c < k ==> catalog[i].subs[j].items[c].name != catalog[i].subs[j].items[k].name
    ensures FindTest(catalog, catalog[i].name, catalog[i].subs[j].name, catalog[i].subs[j].items[k].name)
      == Some(catalog[i].subs[j].items[k])
  {
    assert FindCat(catalog, catalog[i].name) == i;
    assert FindSub(catalog[i].subs, catalog[i].subs[j].name) == j;
    var t := catalog[i].subs[j].items[k];
    assert FirstIndex(catalog[i].subs[j].items, (u: CatalogTest) => u.name == t.name) == k;
  }

  // ---------------------------------------------------------------------
  // Editing a row

  /** One row after `handleTestChange`: the field takes the value; a new
      category or subcategory empties the test name; a new test name found
      in the catalog under the row's category and subcategory brings its
      reference range and unit (empty when the catalog has none), and one
      not found leaves them as they were. */
  function EditRow(catalog: seq<Cat<CatalogTest>>, row: ResultRow, f: RowField, v: string): (r: ResultRow)
    ensures f == CategoryField || f == SubcategoryField ==>
      Get(r, f) == v && r.testName == "" && forall g :: g != f && g != TestNameField ==> Get(r, g) == Get(row, g)
    ensures f == TestNameField ==>
      var found := FindTest(catalog, row.category, row.subcategory, v);
      && r.testName == v && r.category == row.category && r.subcategory == row.subcategory && r.value == row.value
      && (found.Some? ==> r.normalRange == OrBlank(found.value.referenceRange) && r.unit == OrBlank(found.value.unit))
      && (found.None? ==> r.normalRange == row.normalRange && r.unit == row.unit)
    ensures f == ValueField || f == NormalRangeField || f == UnitField ==>
      Get(r, f) == v && forall g :: g != f ==> Get(r, g) == Get(row, g)
  {
    var r := SetField(row, f, v);
    if f == CategoryField || f == SubcategoryField then r.(testName := "")
    else if f == TestNameField then
      match FindTest(catalog, r.category, r.subcategory, v)
      case Some(t) => r.(normalRange := OrBlank(t.referenceRange), unit := OrBlank(t.unit))
      case None => r
    else r
  }

  /** `handleTestChange(index, field, value)` on the list; the form only
      calls it with the index of a row it shows. */
  function ChangeRow(catalog: seq<Cat<CatalogTest>>, rows: seq<ResultRow>, index: nat, f: RowField, v: string): (r: seq<ResultRow>)
    requires index < |rows|
    ensures |r| == |rows|
    ensures r[index] == EditRow(catalog, rows[index], f, v)
    ensures forall j :: 0 <= j < |rows| && j != index ==> r[j] == rows[j]
  {
    rows[index := EditRow(catalog, rows[index], f, v)]
  }

  /** Choosing a catalog test in a row whose category and subcategory lead
      to it fills the row's range and unit from the catalog. */
  lemma {:induction false} ChooseCatalogTest(catalog: seq<Cat<CatalogTest>>, row: ResultRow, i: nat, j: nat, k: nat)
    requires i < |catalog| && j < |catalog[i].subs| && k < |catalog[i].subs[j].items|
    requires forall a :: 0 <= a < i ==> catalog[a].name != catalog[i].name
    requires forall b :: 0 <= b < j ==> catalog[i].subs[b].name != catalog[i].subs[j].name
    requires forall c :: 0 <= c < k ==> catalog[i].subs[j].items[c].name != catalog[i].subs[j].items[k].name
    requires row.category == catalog[i].name && row.subcategory == catalog[i].subs[j].name
    ensures var t := catalog[i].subs[j].items[k];
      EditRow(catalog, row, TestNameField, t.name)
        == row.(testName := t.name, normalRange := OrBlank(t.referenceRange), unit := OrBlank(t.unit))
  {
    FindTestFinds(catalog, i, j, k);
  }

  // ---------------------------------------------------------------------
  // Adding, removing and clearing rows

  function AddRow(rows: seq<ResultRow>): (r: seq<ResultRow>)
    ensures |r| == |rows| + 1
    ensures r[..|rows|] == rows && r[|rows|] == BlankRow
  {
    rows + [BlankRow]
  }

  /** `tests.filter((_, i) => i !== index)`: an index past the end removes
      nothing. */
  function RemoveRow(rows: seq<ResultRow>, index: nat): (r: seq<ResultRow>)
    ensures index < |rows| ==> |r| == |rows| - 1
    ensures index < |rows| ==> forall j :: 0 <= j < |r| ==> r[j] == if j < index then rows[j] else rows[j + 1]
    ensures index >= |rows| ==> r == rows
  {
    if index < |rows| then rows[..index] + rows[index + 1..] else rows
  }

  /** Removing the row just added gives the list back. */
  lemma {:induction false} RemoveAdded(rows: seq<ResultRow>)
    ensures RemoveRow(AddRow(rows), |rows|) == rows
  {
  }

  datatype Form = Form(rows: seq<ResultRow>, patientId: string, testDate: string, notes: string)

  /** `handleClearForm`: as many rows as before, all blank; no patient and
      no notes; the date back to `today`. */
  function ClearForm(form: Form, today: string): (r: Form)
    ensures |r.rows| == |form.rows|
    ensures forall j, f :: 0 <= j < |r.rows| ==> Get(r.rows[j], f) == ""
    ensures r.patientId == "" && r.notes == "" && r.testDate == today
  {
    Form(seq(|form.rows|, _ => BlankRow), "", today, "")
  }

  // ---------------------------------------------------------------------
  // The request

  datatype ResultLine = ResultLine(testName: string, value: string, normalRange: string, unit: string)

  datatype ResultPayload = ResultPayload(
    patientId: string,
    category: string,
    subcategory: string,
    tests: seq<ResultLine>,
    testDate: string,
    notes: string)

  function Line(row: ResultRow): ResultLine {
    ResultLine(row.testName, row.value, row.normalRange, row.unit)
  }

  /** The body of the submit request. The request carries one category and
      subcategory, those of the first row; every row sends only its name,
      value, range and unit. With no row left, reading the first row
      throws and the form reports "Failed to add test results". */
  function SubmitPayload(form: Form): (r: Result<ResultPayload>)
    ensures r.Fail? <==> |form.rows| == 0
    ensures r.Fail? ==> r.error.message == "Failed to add test results"
    ensures r.Ok? ==> r.value.category == form.rows[0].category && r.value.subcategory == form.rows[0].subcategory
    ensures r.Ok? ==> |r.value.tests| == |form.rows|
    ensures r.Ok? ==> forall j :: 0 <= j < |form.rows| ==>
      r.value.tests[j] == ResultLine(form.rows[j].testName, form.rows[j].value, form.rows[j].normalRange, form.rows[j].unit)
  {
    if |form.rows| == 0 then Fail(Error(0, "Failed to add test results"))
    else
      var lines := seq(|form.rows|, j requires 0 <= j < |form.rows| => Line(form.rows[j]));
      Ok(ResultPayload(form.patientId, form.rows[0].category, form.rows[0].subcategory, lines, form.testDate, form.notes))
  }

  /** The keys of the JSON body: `JSON.stringify` keeps every key whose
      value is defined, and the form sends a string or a list under each
      of the six. */
  const SentKeys: set<string> := {"patientId", "category", "subcategory", "tests", "testDate", "notes"}

  /** One element of the body's `tests` list as the endpoint reads it: a
      key the element does not have is `None`. */
  datatype LineBody = LineBody(testName: Option<string>, value: Option<string>, normalRange: Option<string>, unit: Option<string>)

  /** The JSON body as `add_test_results` receives it: the top-level keys
      present, and the values under them. */
  datatype ResultBody = ResultBody(
    keys: set<string>,
    patientId: string,
    category: string,
    subcategory: string,
    tests: seq<LineBody>,
    testDate: string,
    notes: string)

  /** The body the form's request arrives as: the six keys, and every line
      with its four keys. */
  function Received(p: ResultPayload): (b: ResultBody)
    ensures b.keys == SentKeys && |b.tests| == |p.tests|
  {
    ResultBody(SentKeys, p.patientId, p.category, p.subcategory,
      seq(|p.tests|, j requires 0 <= j < |p.tests| =>
        LineBody(Some(p.tests[j].testName), Some(p.tests[j].value), Some(p.tests[j].normalRange), Some(p.tests[j].unit))),
      p.testDate, p.notes)
  }

  /** A line the insert can read: `test['testName']` and `test['value']`
      raise `KeyError` when the key is absent, `.get` does not. */
  predicate Readable(line: LineBody) {
    line.testName.Some? && line.value.Some?
  }

  /** The 500 answer to an unreadable line: `str` of the `KeyError`, which
      quotes the first key the insert's argument tuple reads. */
  function LineError(line: LineBody): Error {
    Error(500, if line.testName.None? then "'testName'" else "'value'")
  }

  /** A row of the `tests` table as `add_test_results` inserts it; a
      missing range, unit or note is stored as NULL. */
  datatype StoredResult = StoredResult(
    patientId: string,
    category: string,
    subcategory: string,
    testName: string,
    value: string,
    normalRange: Option<string>,
    unit: Option<string>,
    testDate: string,
    note: Option<string>)

  /** `add_test_results` on the body `b`: the required-key check (400),
      then one inserted row per line, in order, each with the body's
      patient, category and subcategory, the body's date (`now` when it
      has none) and its notes. A line without a name or value raises
      before the commit, so the answer is 500 and nothing is stored. */
  function StoreResults(b: ResultBody, now: string): (r: Result<seq<StoredResult>>)
    ensures r.Fail? <==>
      (exists i :: 0 <= i < |ResultFields| && ResultFields[i] !in b.keys)
      || (exists j :: 0 <= j < |b.tests| && !Readable(b.tests[j]))
    ensures (exists i :: 0 <= i < |ResultFields| && ResultFields[i] !in b.keys) ==> r.Fail? && r.error.code == 400
    ensures r.Fail? && (forall i :: 0 <= i < |ResultFields| ==> ResultFields[i] in b.keys) ==>
      exists j :: 0 <= j < |b.tests| && !Readable(b.tests[j])
        && (forall k :: 0 <= k < j ==> Readable(b.tests[k])) && r.error == LineError(b.tests[j])
    ensures r.Ok? ==> |r.value| == |b.tests|
    ensures r.Ok? ==> forall j :: 0 <= j < |b.tests| ==>
      r.value[j].patientId == b.patientId && r.value[j].category == b.category
      && r.value[j].subcategory == b.subcategory && Some(r.value[j].testName) == b.tests[j].testName
      && Some(r.value[j].value) == b.tests[j].value && r.value[j].normalRange == b.tests[j].normalRange
      && r.value[j].unit == b.tests[j].unit
      && r.value[j].testDate == (if "testDate" in b.keys then b.testDate else now)
      && r.value[j].note == (if "notes" in b.keys then Some(b.notes) else None)
  {
    var missing := CheckRequired(ResultFields, b.keys);
    if missing.Some? then Fail(missing.value)
    else
      var k := FirstIndex(b.tests, (line: LineBody) => !Readable(line));
      if k < |b.tests| then Fail(LineError(b.tests[k]))
      else
        var date := if "testDate" in b.keys then b.testDate else now;
        var note := if "notes" in b.keys then Some(b.notes) else None;
        Ok(seq(|b.tests|, j requires 0 <= j < |b.tests| =>
          StoredResult(b.patientId, b.category, b.subcategory, b.tests[j].testName.value, b.tests[j].value.value,
            b.tests[j].normalRange, b.tests[j].unit, date, note)))
  }

  /** Submitting a form with at least one row stores one row per form row,
      in order, each under the form's patient and the FIRST row's category
      and subcategory, with the form's date and notes. The form always
      sends every key, so the endpoint's checks pass even when no patient
      was chosen; the insert then fails in the database, which is outside
      this model. */
  lemma {:induction false} SubmitStores(form: Form, now: string)
    requires |form.rows| > 0
    ensures SubmitPayload(form).Ok?
    ensures StoreResults(Received(SubmitPayload(form).value), now).Ok?
    ensures var stored := StoreResults(Received(SubmitPayload(form).value), now).value;
      |stored| == |form.rows| && forall j :: 0 <= j < |form.rows| ==>
        stored[j] == StoredResult(form.patientId, form.rows[0].category, form.rows[0].subcategory,
          form.rows[j].testName, form.rows[j].value, Some(form.rows[j].normalRange), Some(form.rows[j].unit),
          form.testDate, Some(form.notes))
  {
    var b := Received(SubmitPayload(form).value);
    assert ResultFields[0] in SentKeys && ResultFields[1] in SentKeys;
    assert ResultFields[2] in SentKeys && ResultFields[3] in SentKeys;
    assert forall j :: 0 <= j < |b.tests| ==> Readable(b.tests[j]);
  }

  /** Rows with their own category are still filed under the first row's:
      changing any later row's category leaves the request as it was. */
  lemma {:induction false} LaterCategoryIgnored(form: Form, index: nat, category: string)
    requires 0 < index < |form.rows|
    ensures var changed := form.(rows := form.rows[index := form.rows[index].(category := category)]);
      SubmitPayload(changed) == SubmitPayload(form)
  {
    var changed := form.(rows := form.rows[index := form.rows[index].(category := category)]);
    assert SubmitPayload(changed).value.tests == SubmitPayload(form).value.tests;
  }
}
