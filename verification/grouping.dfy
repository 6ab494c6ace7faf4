/** Two-level grouping: rows carrying a category and a subcategory are
    collected into category → subcategory → ordered list of items, in one
    left-to-right pass. A category or subcategory is created the first time
    a row names it, and each list keeps input order; the order of the
    category and subcategory names themselves is not stated. The report screen groups test results this way, and
    the test-catalog endpoint groups catalog rows this way before sorting. */
module Grouping {
  import opened Common

  datatype Row<T> = Row(category: string, subcategory: string, item: T)
  datatype Sub<T> = Sub(name: string, items: seq<T>)
  datatype Cat<T> = Cat(name: string, subs: seq<Sub<T>>)

  function Items<T>(rows: seq<Row<T>>): (xs: seq<T>)
    ensures |xs| == |rows|
    ensures forall i :: 0 <= i < |rows| ==> xs[i] == rows[i].item
  {
    if |rows| == 0 then [] else Items(rows[..|rows| - 1]) + [rows[|rows| - 1].item]
  }

  /** The rows filed under (c, s), in input order. */
  function Select<T>(rows: seq<Row<T>>, c: string, s: string): seq<Row<T>>
  {
    if |rows| == 0 then []
    else
      var r := rows[|rows| - 1];
      Select(rows[..|rows| - 1], c, s) + (if r.category == c && r.subcategory == s then [r] else [])
  }

  // ---------------------------------------------------------------------
  // The grouping pass

  /** Index of the first subcategory called `s`, or |subs| when none is. */
  function FindSub<T>(subs: seq<Sub<T>>, s: string): nat {
    FirstIndex(subs, (x: Sub<T>) => x.name == s)
  }

  /** Index of the first category called `c`, or |cats| when none is. */
  function FindCat<T>(cats: seq<Cat<T>>, c: string): nat {
    FirstIndex(cats, (x: Cat<T>) => x.name == c)
  }

  function AddToSubs<T>(subs: seq<Sub<T>>, s: string, x: T): seq<Sub<T>>
  {
    var j := FindSub(subs, s);
    if j < |subs| then subs[j := Sub(s, subs[j].items + [x])]
    else subs + [Sub(s, [x])]
  }

  /** One step of the pass: locate or create the row's category, then its
      subcategory, then append the row's item. */
  function AddRow<T>(cats: seq<Cat<T>>, r: Row<T>): seq<Cat<T>>
  {
    var i := FindCat(cats, r.category);
    if i < |cats| then cats[i := Cat(r.category, AddToSubs(cats[i].subs, r.subcategory, r.item))]
    else cats + [Cat(r.category, [Sub(r.subcategory, [r.item])])]
  }

  function Group<T>(rows: seq<Row<T>>): seq<Cat<T>>
  {
    if |rows| == 0 then [] else AddRow(Group(rows[..|rows| - 1]), rows[|rows| - 1])
  }

  // ---------------------------------------------------------------------
  // What a correct grouping is

  function SubTotal<T>(subs: seq<Sub<T>>): int
  {
    Sum(seq(|subs|, j requires 0 <= j < |subs| => |subs[j].items|))
  }

  /** Number of items filed anywhere. */
  function Total<T>(cats: seq<Cat<T>>): int
  {
    Sum(seq(|cats|, i requires 0 <= i < |cats| => SubTotal(cats[i].subs)))
  }

  /** The bucket holds exactly the items of the rows filed under it, in
      input order, and is not empty. */
  ghost predicate SubOK<T>(rows: seq<Row<T>>, c: string, sb: Sub<T>) {
    |sb.items| > 0 && sb.items == Items(Select(rows, c, sb.name))
  }

  ghost predicate CatOK<T>(rows: seq<Row<T>>, ct: Cat<T>) {
    && |ct.subs| > 0
    && (forall j :: 0 <= j < |ct.subs| ==> SubOK(rows, ct.name, ct.subs[j]))
    && (forall j, k :: 0 <= j < k < |ct.subs| ==> ct.subs[j].name != ct.subs[k].name)
  }

  ghost predicate HasBucket<T>(cats: seq<Cat<T>>, c: string, s: string) {
    exists i, j :: 0 <= i < |cats| && 0 <= j < |cats[i].subs| && cats[i].name == c && cats[i].subs[j].name == s
  }

  ghost predicate AllCatsOK<T>(rows: seq<Row<T>>, cats: seq<Cat<T>>) {
    forall i :: 0 <= i < |cats| ==> CatOK(rows, cats[i])
  }

  ghost predicate CatNamesDistinct<T>(cats: seq<Cat<T>>) {
    forall i, k :: 0 <= i < k < |cats| ==> cats[i].name != cats[k].name
  }

  ghost predicate AllFiled<T>(rows: seq<Row<T>>, cats: seq<Cat<T>>) {
    forall n :: 0 <= n < |rows| ==> HasBucket(cats, rows[n].category, rows[n].subcategory)
  }

  /** `cats` is a correct grouping of `rows`: every category and every
      subcategory within one is named once, no level is empty, each bucket
      lists its rows' items in order, and every row has a bucket. */
  ghost predicate GroupOK<T>(rows: seq<Row<T>>, cats: seq<Cat<T>>) {
    AllCatsOK(rows, cats) && CatNamesDistinct(cats) && AllFiled(rows, cats)
  }

  // ---------------------------------------------------------------------
  // Proofs

  lemma {:induction false} SumUpdate(xs: seq<int>, i: nat, v: int)
    requires i < |xs|
    ensures Sum(xs[i := v]) == Sum(xs) - xs[i] + v
  {
    var n := |xs| - 1;
    if i < n {
      assert xs[i := v][..n] == xs[..n][i := v];
      SumUpdate(xs[..n], i, v);
    } else {
      assert xs[i := v][..n] == xs[..n];
    }
  }

  lemma {:induction false} SumAppend(xs: seq<int>, v: int)
    ensures Sum(xs + [v]) == Sum(xs) + v
  {
    assert (xs + [v])[..|xs|] == xs;
  }

  lemma {:induction false} ItemsAppend<T>(rows: seq<Row<T>>, r: Row<T>)
    ensures Items(rows + [r]) == Items(rows) + [r.item]
  {
    assert (rows + [r])[..|rows|] == rows;
  }

  lemma {:induction false} SelectAppend<T>(rows: seq<Row<T>>, r: Row<T>, c: string, s: string)
    ensures Select(rows + [r], c, s)
         == Select(rows, c, s) + (if r.category == c && r.subcategory == s then [r] else [])
  {
    assert (rows + [r])[..|rows|] == rows;
  }

  /** Rows are selected only from the input, so nothing is selected under
      a pair that no row carries. */
  lemma {:induction false} SelectEmpty<T>(rows: seq<Row<T>>, c: string, s: string)
    requires forall n :: 0 <= n < |rows| ==> !(rows[n].category == c && rows[n].subcategory == s)
    ensures Select(rows, c, s) == []
  {
    if |rows| > 0 {
      SelectEmpty(rows[..|rows| - 1], c, s);
    }
  }

  /** A bucket that was correct stays correct when a row filed elsewhere
      arrives. */
  lemma {:induction false} SubStays<T>(rows: seq<Row<T>>, r: Row<T>, c: string, sb: Sub<T>)
    requires SubOK(rows, c, sb)
    requires !(r.category == c && r.subcategory == sb.name)
    ensures SubOK(rows + [r], c, sb)
  {
    SelectAppend(rows, r, c, sb.name);
  }

  /** The bucket the new row is appended to stays correct. */
  lemma {:induction false} SubGrows<T>(rows: seq<Row<T>>, r: Row<T>, sb: Sub<T>)
    requires SubOK(rows, r.category, sb) && sb.name == r.subcategory
    ensures SubOK(rows + [r], r.category, Sub(sb.name, sb.items + [r.item]))
  {
    SelectAppend(rows, r, r.category, sb.name);
    ItemsAppend(Select(rows, r.category, sb.name), r);
  }

  /** A bucket created for the new row is correct when no earlier row had
      its pair. */
  lemma {:induction false} SubFresh<T>(rows: seq<Row<T>>, r: Row<T>)
    requires forall n :: 0 <= n < |rows| ==> !(rows[n].category == r.category && rows[n].subcategory == r.subcategory)
    ensures SubOK(rows + [r], r.category, Sub(r.subcategory, [r.item]))
  {
    SelectEmpty(rows, r.category, r.subcategory);
    SelectAppend(rows, r, r.category, r.subcategory);
    ItemsAppend([], r);
  }

  lemma {:induction false} CatStays<T>(rows: seq<Row<T>>, r: Row<T>, ct: Cat<T>)
    requires CatOK(rows, ct) && ct.name != r.category
    ensures CatOK(rows + [r], ct)
  {
    forall j | 0 <= j < |ct.subs|
      ensures SubOK(rows + [r], ct.name, ct.subs[j])
    {
      SubStays(rows, r, ct.name, ct.subs[j]);
    }
  }

  /** Every row of category `ct.name` has a subcategory in `ct`. */
  ghost predicate Covers<T>(rows: seq<Row<T>>, ct: Cat<T>) {
    forall n :: 0 <= n < |rows| && rows[n].category == ct.name ==>
      exists j :: 0 <= j < |ct.subs| && ct.subs[j].name == rows[n].subcategory
  }

  lemma {:induction false} CoversFromGroup<T>(rows: seq<Row<T>>, cats: seq<Cat<T>>, i: nat)
    requires CatNamesDistinct(cats) && AllFiled(rows, cats) && i < |cats|
    ensures Covers(rows, cats[i])
  {
    forall n | 0 <= n < |rows| && rows[n].category == cats[i].name
      ensures exists j :: 0 <= j < |cats[i].subs| && cats[i].subs[j].name == rows[n].subcategory
    {
      assert HasBucket(cats, rows[n].category, rows[n].subcategory);
      var i2, j2 :| 0 <= i2 < |cats| && 0 <= j2 < |cats[i2].subs|
        && cats[i2].name == rows[n].category && cats[i2].subs[j2].name == rows[n].subcategory;
      assert i2 == i;
    }
  }

  lemma {:induction false} SubTotalAdd<T>(subs: seq<Sub<T>>, s: string, x: T)
    ensures SubTotal(AddToSubs(subs, s, x)) == SubTotal(subs) + 1
  {
    var subs' := AddToSubs(subs, s, x);
    var lens := seq(|subs|, j requires 0 <= j < |subs| => |subs[j].items|);
    var j := FindSub(subs, s);
    if j < |subs| {
      assert seq(|subs'|, k requires 0 <= k < |subs'| => |subs'[k].items|) == lens[j := |subs[j].items| + 1];
      SumUpdate(lens, j, |subs[j].items| + 1);
    } else {
      assert seq(|subs'|, k requires 0 <= k < |subs'| => |subs'[k].items|) == lens + [1];
      SumAppend(lens, 1);
    }
  }

  lemma {:induction false} TotalAdd<T>(cats: seq<Cat<T>>, r: Row<T>)
    ensures Total(AddRow(cats, r)) == Total(cats) + 1
  {
    var cats' := AddRow(cats, r);
    var totals := seq(|cats|, k requires 0 <= k < |cats| => SubTotal(cats[k].subs));
    var i := FindCat(cats, r.category);
    if i < |cats| {
      SubTotalAdd(cats[i].subs, r.subcategory, r.item);
      assert seq(|cats'|, k requires 0 <= k < |cats'| => SubTotal(cats'[k].subs))
          == totals[i := SubTotal(cats'[i].subs)];
      SumUpdate(totals, i, SubTotal(cats'[i].subs));
    } else {
      var created := cats'[|cats|];
      assert SubTotal(created.subs) == 1 by {
        assert seq(1, j requires 0 <= j < 1 => |created.subs[j].items|) == [] + [1];
        SumAppend([], 1);
      }
      assert seq(|cats'|, k requires 0 <= k < |cats'| => SubTotal(cats'[k].subs)) == totals + [1];
      SumAppend(totals, 1);
    }
  }

  /** Adding the row to its own, already existing subcategory. */
  lemma {:induction false} CatGrowsOld<T>(rows: seq<Row<T>>, ct: Cat<T>, r: Row<T>)
    requires CatOK(rows, ct) && ct.name == r.category
    requires FindSub(ct.subs, r.subcategory) < |ct.subs|
    ensures CatOK(rows + [r], Cat(ct.name, AddToSubs(ct.subs, r.subcategory, r.item)))
  {
    var subs' := AddToSubs(ct.subs, r.subcategory, r.item);
    var j := FindSub(ct.subs, r.subcategory);
    forall k | 0 <= k < |subs'|
      ensures SubOK(rows + [r], r.category, subs'[k])
    {
      if k == j { SubGrows(rows, r, ct.subs[j]); }
      else { SubStays(rows, r, r.category, ct.subs[k]); }
    }
  }

  /** Adding the row to its category under a subcategory seen for the
      first time. */
  lemma {:induction false} CatGrowsNew<T>(rows: seq<Row<T>>, ct: Cat<T>, r: Row<T>)
    requires CatOK(rows, ct) && Covers(rows, ct) && ct.name == r.category
    requires FindSub(ct.subs, r.subcategory) == |ct.subs|
    ensures CatOK(rows + [r], Cat(ct.name, AddToSubs(ct.subs, r.subcategory, r.item)))
  {
    var subs' := AddToSubs(ct.subs, r.subcategory, r.item);
    forall n | 0 <= n < |rows|
      ensures !(rows[n].category == r.category && rows[n].subcategory == r.subcategory)
    {
      if rows[n].category == r.category {
        var j :| 0 <= j < |ct.subs| && ct.subs[j].name == rows[n].subcategory;
        assert ct.subs[j].name != r.subcategory;
      }
    }
    forall k | 0 <= k < |subs'|
      ensures SubOK(rows + [r], r.category, subs'[k])
    {
      if k == |ct.subs| { SubFresh(rows, r); }
      else { SubStays(rows, r, r.category, ct.subs[k]); }
    }
  }

  /** After the step, the row's own category has a bucket for it. */
  lemma {:induction false} AddToSubsHasName<T>(subs: seq<Sub<T>>, s: string, x: T)
    ensures exists j :: 0 <= j < |AddToSubs(subs, s, x)| && AddToSubs(subs, s, x)[j].name == s
  {
    var j := FindSub(subs, s);
    if j < |subs| { assert AddToSubs(subs, s, x)[j].name == s; }
    else { assert AddToSubs(subs, s, x)[|subs|].name == s; }
  }

  /** Buckets never disappear: what had a bucket still has one. */
  lemma {:induction false} AddToSubsKeepsNames<T>(subs: seq<Sub<T>>, s: string, x: T, k: nat)
    requires k < |subs|
    ensures k < |AddToSubs(subs, s, x)| && AddToSubs(subs, s, x)[k].name == subs[k].name
  {
  }

  /** Category names stay distinct: a category is only created when no
      existing one carries the row's name. */
  lemma {:induction false} NamesAddRow<T>(cats: seq<Cat<T>>, r: Row<T>)
    requires CatNamesDistinct(cats)
    ensures CatNamesDistinct(AddRow(cats, r))
  {
  }

  /** Every row that had a bucket still has one, and so does the new row. */
  lemma {:induction false} FiledAddRow<T>(rows: seq<Row<T>>, cats: seq<Cat<T>>, r: Row<T>)
    requires AllFiled(rows, cats)
    ensures AllFiled(rows + [r], AddRow(cats, r))
  {
    var rows' := rows + [r];
    var cats' := AddRow(cats, r);
    var i := FindCat(cats, r.category);
    forall n | 0 <= n < |rows'|
      ensures HasBucket(cats', rows'[n].category, rows'[n].subcategory)
    {
      if n == |rows| {
        if i < |cats| {
          AddToSubsHasName(cats[i].subs, r.subcategory, r.item);
          var j :| 0 <= j < |cats'[i].subs| && cats'[i].subs[j].name == r.subcategory;
        } else {
          assert cats'[|cats|].subs[0].name == r.subcategory;
        }
      } else {
        assert HasBucket(cats, rows[n].category, rows[n].subcategory);
        var i2, j2 :| 0 <= i2 < |cats| && 0 <= j2 < |cats[i2].subs|
          && cats[i2].name == rows[n].category && cats[i2].subs[j2].name == rows[n].subcategory;
        if i2 == i {
          AddToSubsKeepsNames(cats[i].subs, r.subcategory, r.item, j2);
        }
        assert cats'[i2].subs[j2].name == rows[n].subcategory;
      }
    }
  }

  lemma {:induction false} CatsOKExisting<T>(rows: seq<Row<T>>, cats: seq<Cat<T>>, r: Row<T>)
    requires GroupOK(rows, cats)
    requires FindCat(cats, r.category) < |cats|
    ensures AllCatsOK(rows + [r], AddRow(cats, r))
  {
    var cats' := AddRow(cats, r);
    var i := FindCat(cats, r.category);
    var ct := cats[i];
    assert CatOK(rows, ct);
    CoversFromGroup(rows, cats, i);
    if FindSub(ct.subs, r.subcategory) < |ct.subs| {
      CatGrowsOld(rows, ct, r);
    } else {
      CatGrowsNew(rows, ct, r);
    }
    forall k | 0 <= k < |cats'|
      ensures CatOK(rows + [r], cats'[k])
    {
      if k != i {
        assert CatOK(rows, cats[k]);
        CatStays(rows, r, cats[k]);
      }
    }
  }

  /** No earlier row carries the category of a row that creates one. */
  lemma {:induction false} CreatedIsFresh<T>(rows: seq<Row<T>>, cats: seq<Cat<T>>, r: Row<T>)
    requires AllFiled(rows, cats)
    requires FindCat(cats, r.category) == |cats|
    ensures forall n :: 0 <= n < |rows| ==> rows[n].category != r.category
  {
    forall n | 0 <= n < |rows|
      ensures rows[n].category != r.category
    {
      assert HasBucket(cats, rows[n].category, rows[n].subcategory);
      var i2, j2 :| 0 <= i2 < |cats| && 0 <= j2 < |cats[i2].subs|
        && cats[i2].name == rows[n].category && cats[i2].subs[j2].name == rows[n].subcategory;
    }
  }

  /** Categories other than the row's own are untouched and stay correct. */
  lemma {:induction false} OthersStay<T>(rows: seq<Row<T>>, cats: seq<Cat<T>>, r: Row<T>)
    requires AllCatsOK(rows, cats)
    requires forall k :: 0 <= k < |cats| ==> cats[k].name != r.category
    ensures AllCatsOK(rows + [r], cats)
  {
    forall k | 0 <= k < |cats|
      ensures CatOK(rows + [r], cats[k])
    {
      CatStays(rows, r, cats[k]);
    }
  }

  lemma {:induction false} CatsOKCreated<T>(rows: seq<Row<T>>, cats: seq<Cat<T>>, r: Row<T>)
    requires AllCatsOK(rows, cats) && AllFiled(rows, cats)
    requires FindCat(cats, r.category) == |cats|
    ensures AllCatsOK(rows + [r], AddRow(cats, r))
  {
    CreatedIsFresh(rows, cats, r);
    SubFresh(rows, r);
    OthersStay(rows, cats, r);
    var created := Cat(r.category, [Sub(r.subcategory, [r.item])]);
    assert CatOK(rows + [r], created);
    assert AddRow(cats, r) == cats + [created];
  }

  lemma {:induction false} AddRowOK<T>(rows: seq<Row<T>>, cats: seq<Cat<T>>, r: Row<T>)
    requires GroupOK(rows, cats)
    ensures GroupOK(rows + [r], AddRow(cats, r))
    ensures Total(AddRow(cats, r)) == Total(cats) + 1
  {
    TotalAdd(cats, r);
    NamesAddRow(cats, r);
    FiledAddRow(rows, cats, r);
    if FindCat(cats, r.category) < |cats| {
      CatsOKExisting(rows, cats, r);
    } else {
      CatsOKCreated(rows, cats, r);
    }
  }

  /** The grouping pass is correct, and it files every row exactly once:
      the buckets together hold as many items as there were rows. */
  lemma {:induction false} GroupCorrect<T>(rows: seq<Row<T>>)
    ensures GroupOK(rows, Group(rows))
    ensures Total(Group(rows)) == |rows|
  {
    if |rows| == 0 {
      TotalEmpty<T>();
    } else {
      var front, last := rows[..|rows| - 1], rows[|rows| - 1];
      assert front + [last] == rows;
      GroupCorrect(front);
      AddRowOK(front, Group(front), last);
    }
  }

  lemma {:induction false} TotalEmpty<T>()
    ensures Total<T>([]) == 0
  {
    assert seq(0, k requires 0 <= k < 0 => SubTotal<T>([])) == [];
  }
}
