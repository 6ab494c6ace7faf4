/** The catalog side of the administration page
    (frontend/src/components/Administration.jsx): the filtered catalog
    view, the filter drop-downs, the add/edit form's field updates and the
    payload it submits. The catalog is the grouped answer of the catalog
    endpoint. */
module Administration {
  import opened Common
  import opened Grouping
  import opened Catalog
  import opened Backend

  // ---------------------------------------------------------------------
  // The filtered catalog view

  /** An empty filter lets everything through. */
  predicate Selected(selection: string, name: string) {
    selection == "" || name == selection
  }

  /** The search box: the test's name contains the query, ignoring case. */
  predicate NameMatches(query: string, t: CatalogTest) {
    query == "" || ContainsIgnoreCase(t.name, query)
  }

  function MatchingTests(items: seq<CatalogTest>, query: string): (r: seq<CatalogTest>)
    ensures forall t :: t in r <==> t in items && NameMatches(query, t)
  {
    Filter(items, t => NameMatches(query, t))
  }

  /** The subcategories that pass the subcategory filter, each with its
      matching tests, dropping those left with none. */
  function KeepSubs(subs: seq<Sub<CatalogTest>>, selSub: string, query: string): (r: seq<Sub<CatalogTest>>)
    ensures forall j :: 0 <= j < |r| ==> |r[j].items| > 0
  {
    if |subs| == 0 then []
    else
      var items := MatchingTests(subs[0].items, query);
      (if Selected(selSub, subs[0].name) && |items| > 0 then [Sub(subs[0].name, items)] else [])
        + KeepSubs(subs[1..], selSub, query)
  }

  /** `filteredTests`: the categories that pass the category filter, each
      with its kept subcategories, dropping those left with none. */
  function FilteredTests(cats: seq<Cat<CatalogTest>>, selCat: string, selSub: string, query: string): (r: seq<Cat<CatalogTest>>)
    ensures forall i :: 0 <= i < |r| ==> |r[i].subs| > 0
    ensures forall i, j :: 0 <= i < |r| && 0 <= j < |r[i].subs| ==> |r[i].subs[j].items| > 0
  {
    if |cats| == 0 then []
    else
      var subs := KeepSubs(cats[0].subs, selSub, query);
      (if Selected(selCat, cats[0].name) && |subs| > 0 then [Cat(cats[0].name, subs)] else [])
        + FilteredTests(cats[1..], selCat, selSub, query)
  }

  /** Test `t` is listed under subcategory `sn`. */
  ghost predicate InSubs(subs: seq<Sub<CatalogTest>>, sn: string, t: CatalogTest) {
    exists j :: 0 <= j < |subs| && subs[j].name == sn && t in subs[j].items
  }

  /** Test `t` is listed under category `cn` and subcategory `sn`. */
  ghost predicate InCats(cats: seq<Cat<CatalogTest>>, cn: string, sn: string, t: CatalogTest) {
    exists i :: 0 <= i < |cats| && cats[i].name == cn && InSubs(cats[i].subs, sn, t)
  }

  lemma {:induction false} InSubsCons(subs: seq<Sub<CatalogTest>>, sn: string, t: CatalogTest)
    requires |subs| > 0
    ensures InSubs(subs, sn, t) <==> (subs[0].name == sn && t in subs[0].items) || InSubs(subs[1..], sn, t)
  {
    if InSubs(subs[1..], sn, t) {
      var j :| 0 <= j < |subs[1..]| && subs[1..][j].name == sn && t in subs[1..][j].items;
      assert subs[j + 1] == subs[1..][j];
    }
    if InSubs(subs, sn, t) && !(subs[0].name == sn && t in subs[0].items) {
      var j :| 0 <= j < |subs| && subs[j].name == sn && t in subs[j].items;
      assert subs[1..][j - 1] == subs[j];
    }
  }

  lemma {:induction false} InCatsCons(cats: seq<Cat<CatalogTest>>, cn: string, sn: string, t: CatalogTest)
    requires |cats| > 0
    ensures InCats(cats, cn, sn, t) <==>
      ((cats[0].name == cn && InSubs(cats[0].subs, sn, t)) || InCats(cats[1..], cn, sn, t))
  {
    if InCats(cats[1..], cn, sn, t) {
      var i :| 0 <= i < |cats[1..]| && cats[1..][i].name == cn && InSubs(cats[1..][i].subs, sn, t);
      assert cats[i + 1] == cats[1..][i];
    }
    if InCats(cats, cn, sn, t) && !(cats[0].name == cn && InSubs(cats[0].subs, sn, t)) {
      var i :| 0 <= i < |cats| && cats[i].name == cn && InSubs(cats[i].subs, sn, t);
      assert cats[1..][i - 1] == cats[i];
    }
  }

  lemma {:induction false} KeepSubsListed(subs: seq<Sub<CatalogTest>>, selSub: string, query: string, sn: string, t: CatalogTest)
    ensures InSubs(KeepSubs(subs, selSub, query), sn, t) <==>
      (InSubs(subs, sn, t) && Selected(selSub, sn) && NameMatches(query, t))
    decreases |subs|
  {
    if |subs| > 0 {
      var r := KeepSubs(subs, selSub, query);
      var items := MatchingTests(subs[0].items, query);
      var rest := KeepSubs(subs[1..], selSub, query);
      KeepSubsListed(subs[1..], selSub, query, sn, t);
      InSubsCons(subs, sn, t);
      if Selected(selSub, subs[0].name) && |items| > 0 {
        assert r == [Sub(subs[0].name, items)] + rest;
        InSubsCons(r, sn, t);
        assert r[1..] == rest;
      } else {
        assert r == rest;
      }
    }
  }

  /** The selection rule: a test is listed in the view under a category
      and subcategory exactly when the catalog lists it there, both filters
      let them through, and its name matches the search. So the view is a
      part of the catalog, and nothing that passes is lost. */
  lemma {:induction false} FilteredTestsListed(cats: seq<Cat<CatalogTest>>, selCat: string, selSub: string, query: string,
                                               cn: string, sn: string, t: CatalogTest)
    ensures InCats(FilteredTests(cats, selCat, selSub, query), cn, sn, t) <==>
      (InCats(cats, cn, sn, t) && Selected(selCat, cn) && Selected(selSub, sn) && NameMatches(query, t))
    decreases |cats|
  {
    if |cats| > 0 {
      var r := FilteredTests(cats, selCat, selSub, query);
      var subs := KeepSubs(cats[0].subs, selSub, query);
      var rest := FilteredTests(cats[1..], selCat, selSub, query);
      FilteredTestsListed(cats[1..], selCat, selSub, query, cn, sn, t);
      KeepSubsListed(cats[0].subs, selSub, query, sn, t);
      InCatsCons(cats, cn, sn, t);
      if Selected(selCat, cats[0].name) && |subs| > 0 {
        assert r == [Cat(cats[0].name, subs)] + rest;
        InCatsCons(r, cn, sn, t);
        assert r[1..] == rest;
      } else {
        assert r == rest;
        if cats[0].name == cn && InSubs(subs, sn, t) {
          var j :| 0 <= j < |subs| && subs[j].name == sn && t in subs[j].items;
        }
      }
    }
  }

  /** With no filter and no search the view is the catalog minus its
      empty levels; for a catalog without empty levels, the catalog
      itself. */
  lemma {:induction false} NoFilterKeepsAll(cats: seq<Cat<CatalogTest>>, cn: string, sn: string, t: CatalogTest)
    ensures InCats(FilteredTests(cats, "", "", ""), cn, sn, t) <==> InCats(cats, cn, sn, t)
  {
    FilteredTestsListed(cats, "", "", "", cn, sn, t);
  }

  // ---------------------------------------------------------------------
  // Filter drop-downs

  function CategoryNames(cats: seq<Cat<CatalogTest>>): (names: seq<string>)
    ensures |names| == |cats|
    ensures forall i :: 0 <= i < |cats| ==> names[i] == cats[i].name
  {
    seq(|cats|, i requires 0 <= i < |cats| => cats[i].name)
  }

  function SubNames(subs: seq<Sub<CatalogTest>>): (names: seq<string>)
    ensures |names| == |subs|
    ensures forall j :: 0 <= j < |subs| ==> names[j] == subs[j].name
  {
    seq(|subs|, j requires 0 <= j < |subs| => subs[j].name)
  }

  /** `categories`: every category name once. */
  function CategoryOptions(cats: seq<Cat<CatalogTest>>): (r: seq<string>)
    ensures forall i, j :: 0 <= i < j < |r| ==> r[i] != r[j]
    ensures forall c :: c in r <==> exists i :: 0 <= i < |cats| && cats[i].name == c
  {
    var names := CategoryNames(cats);
    assert forall c :: c in names <==> exists i :: 0 <= i < |cats| && cats[i].name == c;
    Distinct(names)
  }

  /** `subcategories` (and `formSubcategories`): nothing without a chosen
      category; otherwise every subcategory name of the first category of
      that name once, or nothing when there is no such category. */
  function SubcategoryOptions(cats: seq<Cat<CatalogTest>>, selected: string): (r: seq<string>)
    ensures forall i, j :: 0 <= i < j < |r| ==> r[i] != r[j]
    ensures selected == "" || FindCat(cats, selected) == |cats| ==> r == []
    ensures selected != "" && FindCat(cats, selected) < |cats| ==>
      forall s :: s in r <==> HasSub(cats[FindCat(cats, selected)], s)
  {
    if selected == "" then []
    else
      var i := FindCat(cats, selected);
      if i == |cats| then []
      else
        var names := SubNames(cats[i].subs);
        forall s
          ensures s in names <==> HasSub(cats[i], s)
        {
          if s in names {
            var j :| 0 <= j < |names| && names[j] == s;
            assert cats[i].subs[j].name == s;
          }
        }
        Distinct(names)
  }

  /** Category `c` has a subcategory called `s`. */
  predicate HasSub(c: Cat<CatalogTest>, s: string) {
    exists j :: 0 <= j < |c.subs| && c.subs[j].name == s
  }

  /** After a reload the category filter is kept only while some category
      still has that name. */
  function KeptSelection(cats: seq<Cat<CatalogTest>>, selected: string): (r: string)
    ensures r == selected || r == ""
    ensures r == selected <==> selected == "" || exists i :: 0 <= i < |cats| && cats[i].name == selected
  {
    if selected != "" && FindCat(cats, selected) == |cats| then "" else selected
  }

  // ---------------------------------------------------------------------
  // The add/edit form

  datatype Field = Name | Category | Subcategory | NewCategory | NewSubcategory | ReferenceRange | Unit | Price

  datatype TestForm = TestForm(
    name: string,
    category: string,
    subcategory: string,
    newCategory: string,
    newSubcategory: string,
    referenceRange: string,
    unit: string,
    price: string)

  const BlankForm := TestForm("", "", "", "", "", "", "", "")

  function Get(form: TestForm, f: Field): string {
    match f
    case Name => form.name
    case Category => form.category
    case Subcategory => form.subcategory
    case NewCategory => form.newCategory
    case NewSubcategory => form.newSubcategory
    case ReferenceRange => form.referenceRange
    case Unit => form.unit
    case Price => form.price
  }

  /** `{ ...form, [f]: v }`: reading the field back gives `v`, every other
      field reads as before. */
  function SetField(form: TestForm, f: Field, v: string): (r: TestForm)
    ensures Get(r, f) == v
    ensures forall g :: g != f ==> Get(r, g) == Get(form, g)
  {
    match f
    case Name => form.(name := v)
    case Category => form.(category := v)
    case Subcategory => form.(subcategory := v)
    case NewCategory => form.(newCategory := v)
    case NewSubcategory => form.(newSubcategory := v)
    case ReferenceRange => form.(referenceRange := v)
    case Unit => form.(unit := v)
    case Price => form.(price := v)
  }

  /** `handleTestChange`: the edited field takes the new value; a new
      category also empties both subcategory fields; nothing else
      changes. */
  function ChangeTestField(form: TestForm, f: Field, v: string): (r: TestForm)
    ensures forall g :: (Get(r, g) ==
      if g == f then v
      else if f == Category && (g == Subcategory || g == NewSubcategory) then ""
      else Get(form, g))
  {
    var r := SetField(form, f, v);
    if f == Category then r.(subcategory := "", newSubcategory := "") else r
  }

  /** The body of the create or update request. The typed-in new category
      or subcategory wins over the chosen one; the optional fields are left
      out when empty. Every other field is sent as it is. */
  datatype TestPayload = TestPayload(
    name: string,
    category: string,
    subcategory: string,
    newCategory: string,
    newSubcategory: string,
    referenceRange: Option<string>,
    unit: Option<string>,
    price: Option<string>)

  function NonEmptyOrNone(s: string): (r: Option<string>)
    ensures r.Some? <==> s != ""
    ensures r.Some? ==> r.value == s
  {
    if s == "" then None else Some(s)
  }

  function SubmitPayload(form: TestForm): (p: TestPayload)
    ensures form.newCategory == "" ==> p.category == form.category
    ensures form.newCategory != "" ==> p.category == form.newCategory
    ensures form.newSubcategory == "" ==> p.subcategory == form.subcategory
    ensures form.newSubcategory != "" ==> p.subcategory == form.newSubcategory
    ensures p.name == form.name && p.newCategory == form.newCategory && p.newSubcategory == form.newSubcategory
    ensures p.referenceRange.Some? <==> form.referenceRange != ""
    ensures p.unit.Some? <==> form.unit != ""
    ensures p.price.Some? <==> form.price != ""
    ensures p.referenceRange == NonEmptyOrNone(form.referenceRange)
    ensures p.unit == NonEmptyOrNone(form.unit)
    ensures p.price == NonEmptyOrNone(form.price)
  {
    TestPayload(
      form.name,
      if form.newCategory != "" then form.newCategory else form.category,
      if form.newSubcategory != "" then form.newSubcategory else form.subcategory,
      form.newCategory,
      form.newSubcategory,
      NonEmptyOrNone(form.referenceRange),
      NonEmptyOrNone(form.unit),
      NonEmptyOrNone(form.price))
  }

  /** The keys of the request body. */
  function PayloadKeys(p: TestPayload): (keys: set<string>)
    ensures {"name", "category", "subcategory", "newCategory", "newSubcategory"} <= keys
    ensures "referenceRange" in keys <==> p.referenceRange.Some?
    ensures "unit" in keys <==> p.unit.Some?
    ensures "price" in keys <==> p.price.Some?
  {
    {"name", "category", "subcategory", "newCategory", "newSubcategory"}
      + (if p.referenceRange.Some? then {"referenceRange"} else {})
      + (if p.unit.Some? then {"unit"} else {})
      + (if p.price.Some? then {"price"} else {})
  }

  /** The payload always has the keys the catalog endpoints require, so the
      required-field check lets it through even when the name or the
      category is empty: the backend checks for keys, not values. */
  lemma {:induction false} PayloadPassesRequired(form: TestForm)
    ensures CheckRequired(CatalogFields, PayloadKeys(SubmitPayload(form))) == None
  {
    var keys := PayloadKeys(SubmitPayload(form));
    assert CatalogFields[0] in keys && CatalogFields[1] in keys && CatalogFields[2] in keys;
  }

  /** `handleEditTest`: the form is filled from a catalog entry listed
      under `category` and `subcategory`; the typed-in new names are
      cleared and a missing optional field shows as empty. `price` is the
      stored price as the form holds it ("" when there is none). */
  function EditTestForm(t: CatalogTest, category: string, subcategory: string, price: string): (form: TestForm)
    ensures form.name == t.name && form.price == price
    ensures form.category == category && form.subcategory == subcategory
    ensures form.newCategory == "" && form.newSubcategory == ""
    ensures t.referenceRange.Some? ==> form.referenceRange == t.referenceRange.value
    ensures t.referenceRange.None? ==> form.referenceRange == ""
    ensures t.unit.Some? ==> form.unit == t.unit.value
    ensures t.unit.None? ==> form.unit == ""
  {
    TestForm(t.name, category, subcategory, "", "", OrBlank(t.referenceRange), OrBlank(t.unit), price)
  }

  /** Saving an edit form nobody touched sends the entry back as it is
      listed: the same name, category and subcategory, and each optional
      field exactly when it holds text, with that text. */
  lemma {:induction false} ResubmitUnchanged(t: CatalogTest, category: string, subcategory: string, price: string)
    ensures SubmitPayload(EditTestForm(t, category, subcategory, price)).name == t.name
    ensures SubmitPayload(EditTestForm(t, category, subcategory, price)).category == category
    ensures SubmitPayload(EditTestForm(t, category, subcategory, price)).subcategory == subcategory
    ensures SubmitPayload(EditTestForm(t, category, subcategory, price)).referenceRange
      == (if t.referenceRange == Some("") then None else t.referenceRange)
    ensures SubmitPayload(EditTestForm(t, category, subcategory, price)).unit
      == (if t.unit == Some("") then None else t.unit)
    ensures SubmitPayload(EditTestForm(t, category, subcategory, price)).price == NonEmptyOrNone(price)
  {
    var form := EditTestForm(t, category, subcategory, price);
    var p := SubmitPayload(form);
    assert p.category == category && p.subcategory == subcategory;
  }

  /** Submitting a blank form sends empty strings for the name, category
      and subcategory and no optional field. */
  lemma {:induction false} BlankPayload()
    ensures SubmitPayload(BlankForm) == TestPayload("", "", "", "", "", None, None, None)
  {
  }
}
