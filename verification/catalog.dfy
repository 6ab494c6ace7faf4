/** The test catalog as `get_test_categories` (backend/run.py) returns it:
    the catalog rows grouped by category and subcategory in one pass, then
    every category's subcategories sorted by name and every subcategory's
    tests sorted by name, both with Python's stable sort. */
module Catalog {
  import opened Common
  import opened Grouping
  import opened Sorting

  /** A `test_catalog` row; name, category and subcategory are NOT NULL. */
  datatype CatalogRow = CatalogRow(
    id: int,
    name: string,
    category: string,
    subcategory: string,
    referenceRange: Option<string>,
    unit: Option<string>,
    price: Option<real>)

  /** The entry listed under a subcategory. */
  datatype CatalogTest = CatalogTest(
    id: int,
    name: string,
    referenceRange: Option<string>,
    unit: Option<string>,
    price: Option<real>)

  function Entry(r: CatalogRow): CatalogTest {
    CatalogTest(r.id, r.name, r.referenceRange, r.unit, r.price)
  }

  function CatalogRows(rows: seq<CatalogRow>): (rs: seq<Row<CatalogTest>>)
    ensures |rs| == |rows|
    ensures forall n :: 0 <= n < |rows| ==>
      rs[n] == Row(rows[n].category, rows[n].subcategory, Entry(rows[n]))
  {
    seq(|rows|, n requires 0 <= n < |rows| => Row(rows[n].category, rows[n].subcategory, Entry(rows[n])))
  }

  function TestName(t: CatalogTest): string { t.name }

  function SubName(s: Sub<CatalogTest>): string { s.name }

  function SortSub(s: Sub<CatalogTest>): Sub<CatalogTest> {
    Sub(s.name, SortBy(s.items, TestName, LexLe))
  }

  function SortedItems(subs: seq<Sub<CatalogTest>>): (r: seq<Sub<CatalogTest>>)
    ensures |r| == |subs|
    ensures forall j :: 0 <= j < |subs| ==> r[j] == SortSub(subs[j])
  {
    seq(|subs|, j requires 0 <= j < |subs| => SortSub(subs[j]))
  }

  function SortCat(c: Cat<CatalogTest>): Cat<CatalogTest> {
    Cat(c.name, SortBy(SortedItems(c.subs), SubName, LexLe))
  }

  /** The endpoint's answer: categories in first-seen order, each with its
      subcategories and tests sorted by name. */
  function TestCategories(rows: seq<CatalogRow>): (r: seq<Cat<CatalogTest>>)
    ensures CatalogOK(rows, r)
  {
    CatalogCorrect(rows);
    SortCats(Group(CatalogRows(rows)))
  }

  function SortCats(g: seq<Cat<CatalogTest>>): (r: seq<Cat<CatalogTest>>)
    ensures |r| == |g|
    ensures forall i :: 0 <= i < |g| ==> r[i] == SortCat(g[i])
  {
    seq(|g|, i requires 0 <= i < |g| => SortCat(g[i]))
  }

  // ---------------------------------------------------------------------
  // What a correct catalog is

  /** The subcategory lists exactly the tests of the rows filed under it,
      each as often as it occurs, sorted by name, and is not empty. */
  ghost predicate SortedSubOK(rs: seq<Row<CatalogTest>>, c: string, sb: Sub<CatalogTest>) {
    && |sb.items| > 0
    && multiset(sb.items) == multiset(Items(Select(rs, c, sb.name)))
    && SortedBy(sb.items, TestName, LexLe)
  }

  ghost predicate SortedCatOK(rs: seq<Row<CatalogTest>>, ct: Cat<CatalogTest>) {
    && |ct.subs| > 0
    && SortedBy(ct.subs, SubName, LexLe)
    && KeysDistinct(ct.subs, SubName)
    && forall j :: 0 <= j < |ct.subs| ==> SortedSubOK(rs, ct.name, ct.subs[j])
  }

  /** Category names are distinct, every category is correct and sorted,
      and every row has a subcategory under its category. */
  ghost predicate CatalogOK(rows: seq<CatalogRow>, cats: seq<Cat<CatalogTest>>) {
    var rs := CatalogRows(rows);
    CatNamesDistinct(cats) && (forall i :: 0 <= i < |cats| ==> SortedCatOK(rs, cats[i])) && AllFiled(rs, cats)
  }

  // ---------------------------------------------------------------------
  // Proofs

  lemma {:induction false} SortSubOK(rs: seq<Row<CatalogTest>>, c: string, sb: Sub<CatalogTest>)
    requires SubOK(rs, c, sb)
    ensures SortedSubOK(rs, c, SortSub(sb))
  {
    LexIsTotalPreorder();
    SortBySorted(sb.items, TestName, LexLe);
  }

  /** Sorting a correct category keeps it correct and sorts it. */
  lemma {:induction false} SortCatOK(rs: seq<Row<CatalogTest>>, ct: Cat<CatalogTest>)
    requires CatOK(rs, ct)
    ensures SortedCatOK(rs, SortCat(ct))
  {
    var m := SortedItems(ct.subs);
    var s := SortCat(ct).subs;
    LexIsTotalPreorder();
    SortBySorted(m, SubName, LexLe);
    assert KeysDistinct(m, SubName);
    SortByDistinct(m, SubName, LexLe);
    forall j | 0 <= j < |s|
      ensures SortedSubOK(rs, ct.name, s[j])
    {
      SortedSubFrom(rs, ct, j);
    }
  }

  lemma {:induction false} SortedSubFrom(rs: seq<Row<CatalogTest>>, ct: Cat<CatalogTest>, j: nat)
    requires CatOK(rs, ct)
    requires j < |SortCat(ct).subs|
    ensures SortedSubOK(rs, ct.name, SortCat(ct).subs[j])
  {
    var m := SortedItems(ct.subs);
    var s := SortCat(ct).subs;
    assert s[j] in multiset(m);
    var k :| 0 <= k < |m| && m[k] == s[j];
    SortSubOK(rs, ct.name, ct.subs[k]);
  }

  /** Sorting keeps every subcategory name of the category. */
  lemma {:induction false} SortCatKeepsNames(ct: Cat<CatalogTest>, k: nat)
    requires k < |ct.subs|
    ensures exists j :: 0 <= j < |SortCat(ct).subs| && SortCat(ct).subs[j].name == ct.subs[k].name
  {
    var m := SortedItems(ct.subs);
    var s := SortCat(ct).subs;
    assert m[k] in multiset(s);
    var j :| 0 <= j < |s| && s[j] == m[k];
    assert s[j].name == ct.subs[k].name;
  }

  /** The endpoint files every catalog row under its own category and
      subcategory, exactly as often as it occurs, with both levels sorted
      by name and no empty level. */
  lemma {:induction false} CatalogCorrect(rows: seq<CatalogRow>)
    ensures CatalogOK(rows, SortCats(Group(CatalogRows(rows))))
  {
    var rs := CatalogRows(rows);
    var g := Group(rs);
    GroupCorrect(rs);
    SortedCats(rs, g);
    SortedNames(g);
    SortedFiled(rs, g);
  }

  lemma {:induction false} SortedCats(rs: seq<Row<CatalogTest>>, g: seq<Cat<CatalogTest>>)
    requires AllCatsOK(rs, g)
    ensures var r := SortCats(g);
      forall i :: 0 <= i < |r| ==> SortedCatOK(rs, r[i])
  {
    forall i | 0 <= i < |g|
      ensures SortedCatOK(rs, SortCat(g[i]))
    {
      SortCatOK(rs, g[i]);
    }
  }

  lemma {:induction false} SortedNames(g: seq<Cat<CatalogTest>>)
    requires CatNamesDistinct(g)
    ensures CatNamesDistinct(SortCats(g))
  {
  }

  lemma {:induction false} SortedFiled(rs: seq<Row<CatalogTest>>, g: seq<Cat<CatalogTest>>)
    requires AllFiled(rs, g)
    ensures AllFiled(rs, SortCats(g))
  {
    var r := SortCats(g);
    forall n | 0 <= n < |rs|
      ensures HasBucket(r, rs[n].category, rs[n].subcategory)
    {
      assert HasBucket(g, rs[n].category, rs[n].subcategory);
      var i, k :| 0 <= i < |g| && 0 <= k < |g[i].subs|
        && g[i].name == rs[n].category && g[i].subs[k].name == rs[n].subcategory;
      SortCatKeepsNames(g[i], k);
      var j :| 0 <= j < |r[i].subs| && r[i].subs[j].name == g[i].subs[k].name;
      assert r[i].name == g[i].name;
    }
  }
}
