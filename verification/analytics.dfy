/** The reductions of the analytics page (frontend/src/components/Analytics.jsx):
    age buckets, the gender tally, the per-category tally, the normal and
    abnormal tally over interval ranges, the six-month trend, the report
    completion rate and the activity list. Each reduction is a function of
    the field values it reads. */
module Analytics {
  import opened Common
  import opened Numbers
  import opened Ranges
  import opened Activity
  import opened Grouping

  // ---------------------------------------------------------------------
  // Age groups

  datatype AgeGroup = AgeGroup(name: string, min: int, max: int)

  const AgeGroups: seq<AgeGroup> := [
    AgeGroup("0-17 years", 0, 17),
    AgeGroup("18-29 years", 18, 29),
    AgeGroup("30-44 years", 30, 44),
    AgeGroup("45-59 years", 45, 59),
    AgeGroup("60+ years", 60, 200)]

  predicate InGroup(age: int, k: nat)
    requires k < |AgeGroups|
  {
    AgeGroups[k].min <= age <= AgeGroups[k].max
  }

  /** The loop over the groups from index `k`: the first whose bounds
      hold the age. */
  function FirstGroup(age: int, k: nat): (r: Option<nat>)
    ensures r.Some? ==> k <= r.value < |AgeGroups| && InGroup(age, r.value)
    ensures r.Some? ==> forall j :: k <= j < r.value ==> !InGroup(age, j)
    ensures r.None? ==> forall j :: k <= j < |AgeGroups| ==> !InGroup(age, j)
    decreases |AgeGroups| - k
  {
    if k >= |AgeGroups| then None
    else if InGroup(age, k) then Some(k)
    else FirstGroup(age, k + 1)
  }

  /** The group a patient's `parseInt(age, 10)` falls in; NaN compares
      false with every bound and falls in none. */
  function AgeBucket(age: string): (r: Option<nat>)
    ensures JsParseInt(age).None? ==> r.None?
    ensures r.Some? ==> r.value < |AgeGroups| && JsParseInt(age).Some? && InGroup(JsParseInt(age).value, r.value)
  {
    match JsParseInt(age)
    case None => None
    case Some(a) => FirstGroup(a, 0)
  }

  /** The groups do not overlap and together cover exactly 0..200. */
  lemma {:induction false} AgeGroupsPartition(age: int)
    ensures (0 <= age <= 200) <==> exists k :: 0 <= k < |AgeGroups| && InGroup(age, k)
    ensures forall j, k :: 0 <= j < k < |AgeGroups| ==> !(InGroup(age, j) && InGroup(age, k))
  {
    if 0 <= age <= 200 {
      if age <= 17 { assert InGroup(age, 0); }
      else if age <= 29 { assert InGroup(age, 1); }
      else if age <= 44 { assert InGroup(age, 2); }
      else if age <= 59 { assert InGroup(age, 3); }
      else { assert InGroup(age, 4); }
    }
  }

  /** A readable age in 0..200 lands in exactly the one group that holds
      it; an unreadable or out-of-range age lands in none. */
  lemma {:induction false} AgeBucketExact(age: string)
    ensures AgeBucket(age).Some? <==> JsParseInt(age).Some? && 0 <= JsParseInt(age).value <= 200
    ensures AgeBucket(age).Some? ==> InGroup(JsParseInt(age).value, AgeBucket(age).value)
  {
    if JsParseInt(age).Some? {
      AgeGroupsPartition(JsParseInt(age).value);
    }
  }

  /** The count of each group after the loop over all patients. */
  function AgeTally(ages: seq<string>): (counts: seq<nat>)
    ensures |counts| == |AgeGroups|
  {
    if |ages| == 0 then [0, 0, 0, 0, 0]
    else
      var counts := AgeTally(ages[..|ages| - 1]);
      match AgeBucket(ages[|ages| - 1])
      case None => counts
      case Some(k) => counts[k := counts[k] + 1]
  }

  /** How many of the ages fall in group `k`. */
  function InGroupCount(ages: seq<string>, k: nat): nat {
    if |ages| == 0 then 0
    else InGroupCount(ages[..|ages| - 1], k) + (if AgeBucket(ages[|ages| - 1]) == Some(k) then 1 else 0)
  }

  /** How many of the ages fall in some group. */
  function BucketedCount(ages: seq<string>): nat {
    if |ages| == 0 then 0
    else BucketedCount(ages[..|ages| - 1]) + (if AgeBucket(ages[|ages| - 1]).Some? then 1 else 0)
  }

  /** Each group counts exactly the patients whose age falls in it, and
      the groups together count every patient with a readable age in
      0..200 once. */
  lemma {:induction false} AgeTallyCounts(ages: seq<string>)
    ensures forall k :: 0 <= k < |AgeGroups| ==> AgeTally(ages)[k] == InGroupCount(ages, k)
    ensures Sum(AgeTally(ages)) == BucketedCount(ages)
  {
    AgeTallyPerGroup(ages);
    AgeTallySum(ages);
  }

  lemma {:induction false} AgeTallyPerGroup(ages: seq<string>)
    ensures forall k :: 0 <= k < |AgeGroups| ==> AgeTally(ages)[k] == InGroupCount(ages, k)
  {
    if |ages| > 0 {
      AgeTallyPerGroup(ages[..|ages| - 1]);
    }
  }

  lemma {:induction false} AgeTallySum(ages: seq<string>)
    ensures Sum(AgeTally(ages)) == BucketedCount(ages)
  {
    if |ages| > 0 {
      var front := ages[..|ages| - 1];
      AgeTallySum(front);
      var counts := AgeTally(front);
      var b := AgeBucket(ages[|ages| - 1]);
      if b.Some? {
        SumUpdate(counts, b.value, counts[b.value] + 1);
      }
    } else {
      FiveZeros();
    }
  }

  lemma {:induction false} FiveZeros()
    ensures Sum([0, 0, 0, 0, 0]) == 0
  {
    assert [0, 0, 0, 0, 0][..4] == [0, 0, 0, 0];
    assert [0, 0, 0, 0][..3] == [0, 0, 0];
    assert [0, 0, 0][..2] == [0, 0];
    assert [0, 0][..1] == [0];
  }

  // ---------------------------------------------------------------------
  // Gender

  datatype GenderCounts = GenderCounts(male: nat, female: nat, other: nat)

  predicate IsMale(g: string) { Lower(g) == "male" }
  predicate IsFemale(g: string) { Lower(g) == "female" }
  predicate IsOther(g: string) { !IsMale(g) && !IsFemale(g) }

  /** `p.gender.toLowerCase()` compared with "male", then "female"; every
      other value counts as other. */
  function GenderTally(genders: seq<string>): (c: GenderCounts)
    ensures c.male + c.female + c.other == |genders|
  {
    if |genders| == 0 then GenderCounts(0, 0, 0)
    else
      var c := GenderTally(genders[..|genders| - 1]);
      var g := Lower(genders[|genders| - 1]);
      if g == "male" then c.(male := c.male + 1)
      else if g == "female" then c.(female := c.female + 1)
      else c.(other := c.other + 1)
  }

  lemma {:induction false} GenderTallyCounts(genders: seq<string>)
    ensures GenderTally(genders).male == Count(genders, IsMale)
    ensures GenderTally(genders).female == Count(genders, IsFemale)
    ensures GenderTally(genders).other == Count(genders, IsOther)
  {
    if |genders| > 0 {
      GenderTallyCounts(genders[..|genders| - 1]);
    }
  }

  // ---------------------------------------------------------------------
  // Tests per category

  /** `testCategories`, an object filled in insertion order, as a list of
      (category, count) pairs. */
  type Tally = seq<(string, nat)>

  function FindKey(t: Tally, c: string): (i: nat)
    ensures i <= |t|
    ensures i < |t| ==> t[i].0 == c
    ensures forall j :: 0 <= j < i ==> t[j].0 != c
  {
    if |t| == 0 || t[0].0 == c then 0 else FindKey(t[1..], c) + 1
  }

  /** `testCategories[c] = (testCategories[c] || 0) + 1`. */
  function Bump(t: Tally, c: string): (r: Tally)
    ensures |t| <= |r|
    ensures forall i :: 0 <= i < |t| ==> r[i].0 == t[i].0
    ensures |r| == |t| <==> exists i :: 0 <= i < |t| && t[i].0 == c
    ensures |r| != |t| ==> |r| == |t| + 1 && r[|t|] == (c, 1)
  {
    var i := FindKey(t, c);
    if i < |t| then t[i := (c, t[i].1 + 1)] else t + [(c, 1)]
  }

  /** Only tests whose category is non-empty are counted. */
  function CategoryTally(categories: seq<string>): (t: Tally)
    ensures forall i :: 0 <= i < |t| ==> t[i].0 != "" && t[i].0 in categories
  {
    if |categories| == 0 then []
    else
      var t := CategoryTally(categories[..|categories| - 1]);
      var c := categories[|categories| - 1];
      assert forall x :: x in categories[..|categories| - 1] ==> x in categories;
      if c != "" then Bump(t, c) else t
  }

  /** How many of the tests carry category `c`. */
  function Occurrences(xs: seq<string>, c: string): (n: nat)
    ensures n <= |xs|
    ensures n == 0 <==> c !in xs
  {
    if |xs| == 0 then 0
    else
      var front := xs[..|xs| - 1];
      assert forall x :: x in xs <==> x in front || x == xs[|xs| - 1];
      Occurrences(front, c) + (if xs[|xs| - 1] == c then 1 else 0)
  }

  function Counts(t: Tally): seq<int> {
    seq(|t|, i requires 0 <= i < |t| => t[i].1 as int)
  }

  predicate NonEmpty(c: string) { c != "" }

  /** Every category appears once, with the number of tests that carry
      it; the empty category never appears; every category of a test
      appears; and the counts add up to the number of tests with a
      category. */
  ghost predicate TallyOK(categories: seq<string>, t: Tally) {
    && (forall i, j :: 0 <= i < j < |t| ==> t[i].0 != t[j].0)
    && (forall i :: 0 <= i < |t| ==> t[i].0 != "" && t[i].1 == Occurrences(categories, t[i].0))
    && (forall c :: c != "" && c in categories ==> exists i :: 0 <= i < |t| && t[i].0 == c)
    && Sum(Counts(t)) == Count(categories, NonEmpty)
  }

  lemma {:induction false} CountsBump(t: Tally, c: string)
    ensures Sum(Counts(Bump(t, c))) == Sum(Counts(t)) + 1
  {
    var i := FindKey(t, c);
    var xs := Counts(t);
    if i < |t| {
      assert Counts(Bump(t, c)) == xs[i := xs[i] + 1];
      SumUpdate(xs, i, xs[i] + 1);
    } else {
      assert Counts(Bump(t, c)) == xs + [1];
      SumAppend(xs, 1);
    }
  }

  lemma {:induction false} OccurrencesSnoc(xs: seq<string>, c: string, x: string)
    ensures Occurrences(xs + [c], x) == Occurrences(xs, x) + (if c == x then 1 else 0)
  {
    assert (xs + [c])[..|xs|] == xs;
  }

  /** Adding one test: the list keeps its shape, whether the category is
      empty, already listed or new. */
  lemma {:induction false} TallyStep(front: seq<string>, c: string, t: Tally)
    requires TallyOK(front, t)
    ensures TallyOK(front + [c], if c != "" then Bump(t, c) else t)
  {
    if c == "" {
      TallySkip(front, t);
    } else if FindKey(t, c) < |t| {
      TallyExisting(front, c, t);
    } else {
      TallyNew(front, c, t);
    }
  }

  lemma {:induction false} TallySkip(front: seq<string>, t: Tally)
    requires TallyOK(front, t)
    ensures TallyOK(front + [""], t)
  {
    CountSnoc(front, "", NonEmpty);
    forall i | 0 <= i < |t|
      ensures t[i].1 == Occurrences(front + [""], t[i].0)
    {
      OccurrencesSnoc(front, "", t[i].0);
    }
    assert forall x :: x in front + [""] <==> x in front || x == "";
  }

  lemma {:induction false} TallyExisting(front: seq<string>, c: string, t: Tally)
    requires TallyOK(front, t) && c != "" && FindKey(t, c) < |t|
    ensures TallyOK(front + [c], Bump(t, c))
  {
    CountSnoc(front, c, NonEmpty);
    CountsBump(t, c);
    var k := FindKey(t, c);
    var b := Bump(t, c);
    forall i | 0 <= i < |b|
      ensures b[i].0 != "" && b[i].1 == Occurrences(front + [c], b[i].0)
    {
      OccurrencesSnoc(front, c, b[i].0);
    }
    forall x | x != "" && x in front + [c]
      ensures exists i :: 0 <= i < |b| && b[i].0 == x
    {
      assert x in front || x == c;
      if x == c {
        assert b[k].0 == x;
      } else {
        var i :| 0 <= i < |t| && t[i].0 == x;
        assert b[i].0 == x;
      }
    }
  }

  lemma {:induction false} TallyNew(front: seq<string>, c: string, t: Tally)
    requires TallyOK(front, t) && c != "" && FindKey(t, c) == |t|
    ensures TallyOK(front + [c], Bump(t, c))
  {
    CountSnoc(front, c, NonEmpty);
    CountsBump(t, c);
    var b := Bump(t, c);
    assert c !in front;
    forall i | 0 <= i < |b|
      ensures b[i].0 != "" && b[i].1 == Occurrences(front + [c], b[i].0)
    {
      OccurrencesSnoc(front, c, b[i].0);
    }
    forall x | x != "" && x in front + [c]
      ensures exists i :: 0 <= i < |b| && b[i].0 == x
    {
      assert x in front || x == c;
      if x == c {
        assert b[|t|].0 == x;
      } else {
        var i :| 0 <= i < |t| && t[i].0 == x;
        assert b[i].0 == x;
      }
    }
  }

  lemma {:induction false} CategoryTallyCorrect(categories: seq<string>)
    ensures TallyOK(categories, CategoryTally(categories))
  {
    if |categories| == 0 {
      assert Counts([]) == [];
    } else {
      var front := categories[..|categories| - 1];
      var c := categories[|categories| - 1];
      CategoryTallyCorrect(front);
      assert categories == front + [c];
      TallyStep(front, c, CategoryTally(front));
    }
  }

  // ---------------------------------------------------------------------
  // Normal and abnormal results

  /** The analytics reading of one result: `Some(true)` for abnormal,
      `Some(false)` for normal, `None` when it is not counted. Only a
      non-empty value against a non-empty range that is an interval once
      the first en-dash is a hyphen and spaces are gone, and a value that
      `parseFloat` reads, are counted. */
  function Judge(value: string, normalRange: string): (r: Option<bool>)
    ensures r.Some? <==>
      (value != "" && normalRange != ""
       && MatchInterval(Cleaned(normalRange)).Some? && JsParseFloat(value).Some?)
    ensures r == Some(true) <==>
      (r.Some?
       && (JsParseFloat(value).value < MatchInterval(Cleaned(normalRange)).value.0
           || JsParseFloat(value).value > MatchInterval(Cleaned(normalRange)).value.1))
  {
    if value == "" || normalRange == "" then None
    else
      match MatchInterval(Cleaned(normalRange))
      case None => None
      case Some((low, high)) =>
        match JsParseFloat(value)
        case None => None
        case Some(v) => Some(v < low || v > high)
  }

  datatype ResultCounts = ResultCounts(normal: nat, abnormal: nat)

  function ResultTally(results: seq<(string, string)>): (c: ResultCounts)
    ensures c.normal + c.abnormal <= |results|
  {
    if |results| == 0 then ResultCounts(0, 0)
    else
      var c := ResultTally(results[..|results| - 1]);
      var (value, range) := results[|results| - 1];
      match Judge(value, range)
      case None => c
      case Some(true) => c.(abnormal := c.abnormal + 1)
      case Some(false) => c.(normal := c.normal + 1)
  }

  predicate IsAbnormal(vr: (string, string)) { Judge(vr.0, vr.1) == Some(true) }
  predicate IsNormal(vr: (string, string)) { Judge(vr.0, vr.1) == Some(false) }

  lemma {:induction false} ResultTallyCounts(results: seq<(string, string)>)
    ensures ResultTally(results).abnormal == Count(results, IsAbnormal)
    ensures ResultTally(results).normal == Count(results, IsNormal)
  {
    if |results| > 0 {
      ResultTallyCounts(results[..|results| - 1]);
    }
  }

  // ---------------------------------------------------------------------
  // The six-month trend

  /** A calendar month; `month` counts from 0 as `Date.getMonth` does. */
  datatype YearMonth = YearMonth(year: int, month: int)

  function MonthIndex(m: YearMonth): int { m.year * 12 + m.month }

  /** `new Date(year, month - back, 1)`: the date normalises a month
      outside 0..11 into the neighbouring years. */
  function MonthsBack(now: YearMonth, back: int): YearMonth {
    YearMonth(now.year + (now.month - back) / 12, (now.month - back) % 12)
  }

  /** `getLast6Months`: the month five months ago through this month. */
  function Last6Months(now: YearMonth): (ms: seq<YearMonth>)
    ensures |ms| == 6
  {
    seq(6, k requires 0 <= k < 6 => MonthsBack(now, 5 - k))
  }

  lemma {:induction false} MonthsBackIndex(now: YearMonth, back: int)
    ensures MonthIndex(MonthsBack(now, back)) == MonthIndex(now) - back
    ensures 0 <= MonthsBack(now, back).month < 12
  {
  }

  /** The window holds six consecutive months, oldest first, ending at the
      current month; years roll over between December and January. */
  lemma {:induction false} Last6MonthsCorrect(now: YearMonth)
    requires 0 <= now.month < 12
    ensures Last6Months(now)[5] == now
    ensures forall k :: 0 <= k < 6 ==> 0 <= Last6Months(now)[k].month < 12
    ensures forall k :: 0 <= k < 6 ==> MonthIndex(Last6Months(now)[k]) == MonthIndex(now) - 5 + k
    ensures forall k :: 0 <= k < 5 ==>
      var a, b := Last6Months(now)[k], Last6Months(now)[k + 1];
      if a.month == 11 then b == YearMonth(a.year + 1, 0) else b == YearMonth(a.year, a.month + 1)
  {
    var ms := Last6Months(now);
    forall k | 0 <= k < 6
      ensures 0 <= ms[k].month < 12 && MonthIndex(ms[k]) == MonthIndex(now) - 5 + k
    {
      WindowMonth(now, k);
    }
    forall k | 0 <= k < 5
      ensures var a, b := ms[k], ms[k + 1];
        if a.month == 11 then b == YearMonth(a.year + 1, 0) else b == YearMonth(a.year, a.month + 1)
    {
      WindowMonth(now, k);
      WindowMonth(now, k + 1);
      NextMonth(ms[k], ms[k + 1]);
    }
    WindowMonth(now, 5);
  }

  /** The k-th month of the window lies 5 - k months before this one. */
  lemma {:induction false} WindowMonth(now: YearMonth, k: int)
    requires 0 <= k < 6
    ensures 0 <= Last6Months(now)[k].month < 12
    ensures MonthIndex(Last6Months(now)[k]) == MonthIndex(now) - 5 + k
  {
    assert Last6Months(now)[k] == MonthsBack(now, 5 - k);
    MonthsBackIndex(now, 5 - k);
  }

  /** A month whose index is one more is the next calendar month. */
  lemma {:induction false} NextMonth(a: YearMonth, b: YearMonth)
    requires 0 <= a.month < 12 && 0 <= b.month < 12
    requires MonthIndex(b) == MonthIndex(a) + 1
    ensures if a.month == 11 then b == YearMonth(a.year + 1, 0) else b == YearMonth(a.year, a.month + 1)
  {
    if b.year > a.year + 1 || b.year < a.year {
      assert false;
    }
  }

  /** The monthly counts: each dated test adds one to the first window
      month it falls in, if any. */
  function TrendCounts(months: seq<YearMonth>, dates: seq<YearMonth>): (counts: seq<nat>)
    ensures |counts| == |months|
  {
    if |dates| == 0 then seq(|months|, _ => 0)
    else
      var counts := TrendCounts(months, dates[..|dates| - 1]);
      var k := FirstMonth(months, dates[|dates| - 1]);
      if k < |months| then counts[k := counts[k] + 1] else counts
  }

  function FirstMonth(months: seq<YearMonth>, d: YearMonth): (k: nat)
    ensures k <= |months|
    ensures k < |months| ==> months[k] == d
    ensures k == |months| ==> d !in months
  {
    if |months| == 0 || months[0] == d then 0
    else
      var k := FirstMonth(months[1..], d) + 1;
      assert forall x :: x in months <==> x == months[0] || x in months[1..];
      k
  }

  /** The counts add up to the number of tests dated inside the window,
      never more than the number of dated tests. */
  lemma {:induction false} TrendCountsTotal(months: seq<YearMonth>, dates: seq<YearMonth>)
    ensures Sum(TrendCounts(months, dates)) == Count(dates, d => d in months)
    ensures Sum(TrendCounts(months, dates)) <= |dates|
  {
    if |dates| == 0 {
      ZeroSum(|months|);
    } else {
      var front := dates[..|dates| - 1];
      TrendCountsTotal(months, front);
      var counts := TrendCounts(months, front);
      var k := FirstMonth(months, dates[|dates| - 1]);
      if k < |months| {
        SumUpdate(counts, k, counts[k] + 1);
      }
    }
  }

  /** The test of being dated in month `m`. */
  function InMonth(m: YearMonth): YearMonth -> bool {
    d => d == m
  }

  /** Over distinct window months, each month's count is the number of
      tests dated in that month. */
  lemma {:induction false} TrendCountsPerMonth(months: seq<YearMonth>, dates: seq<YearMonth>)
    requires forall i, j :: 0 <= i < j < |months| ==> months[i] != months[j]
    ensures forall k :: 0 <= k < |months| ==> TrendCounts(months, dates)[k] == Count(dates, InMonth(months[k]))
  {
    forall k | 0 <= k < |months|
      ensures TrendCounts(months, dates)[k] == Count(dates, InMonth(months[k]))
    {
      TrendCountAt(months, dates, k);
    }
  }

  /** Over the six-month window ending at `now`, the k-th bar counts the
      tests dated in the k-th month of the window. */
  lemma {:induction false} WindowTrend(now: YearMonth, dates: seq<YearMonth>)
    requires 0 <= now.month < 12
    ensures forall k :: 0 <= k < 6 ==>
      TrendCounts(Last6Months(now), dates)[k] == Count(dates, InMonth(Last6Months(now)[k]))
  {
    var ms := Last6Months(now);
    Last6MonthsCorrect(now);
    assert forall i, j :: 0 <= i < j < |ms| ==> MonthIndex(ms[i]) < MonthIndex(ms[j]);
    TrendCountsPerMonth(ms, dates);
  }

  lemma {:induction false} TrendCountAt(months: seq<YearMonth>, dates: seq<YearMonth>, k: nat)
    requires forall i, j :: 0 <= i < j < |months| ==> months[i] != months[j]
    requires k < |months|
    ensures TrendCounts(months, dates)[k] == Count(dates, InMonth(months[k]))
  {
    if |dates| > 0 {
      var front, last := dates[..|dates| - 1], dates[|dates| - 1];
      TrendCountAt(months, front, k);
      var j := FirstMonth(months, last);
      assert j == k <==> last == months[k] by {
        if last == months[k] {
          assert j < |months| && months[j] == months[k];
        }
      }
    }
  }

  lemma {:induction false} ZeroSum(n: nat)
    ensures Sum(seq(n, _ => 0)) == 0
  {
    if n > 0 {
      assert seq(n, _ => 0)[..n - 1] == seq(n - 1, _ => 0);
      ZeroSum(n - 1);
    }
  }

  // ---------------------------------------------------------------------
  // Completion rate

  /** `tests.length > 0 ? Math.round(reports / tests.length * 100) : 0`.
      `Math.round(x)` is the floor of `x + 1/2`, and for
      `x = 100 * reports / tests` that is the floor of
      `(200 * reports + tests) / (2 * tests)`: the percentage of reports per
      test, to the nearest whole number, halves rounding up. */
  function CompletionRate(reports: int, tests: nat): (rate: int)
    ensures tests == 0 ==> rate == 0
    ensures tests > 0 ==> (2 * rate - 1) * tests <= 200 * reports < (2 * rate + 1) * tests
  {
    if tests > 0 then
      var n, d := 200 * reports + tests, 2 * tests;
      var rate := n / d;
      assert n == d * rate + n % d;
      assert (2 * rate - 1) * tests == d * rate - tests;
      assert (2 * rate + 1) * tests == d * rate + tests;
      rate
    else 0
  }

  /** The width of the progress bar: the rate, but never past 100. */
  function BarWidth(rate: int): (w: int)
    ensures w <= 100
    ensures w == rate || (rate > 100 && w == 100)
  {
    if rate > 100 then 100 else rate
  }

  lemma {:induction false} MulMonotone(a: int, b: int, t: int)
    requires t > 0 && a <= b
    ensures a * t <= b * t
  {
    assert b * t - a * t == (b - a) * t;
  }

  /** The rate itself is not clamped: it passes 100 exactly when there are
      at least 100.5 reports per 100 tests, and only the bar stops at
      100. */
  lemma {:induction false} RateAbove100(reports: int, tests: nat)
    requires tests > 0
    ensures CompletionRate(reports, tests) > 100 <==> 200 * reports >= 201 * tests
  {
    var rate := CompletionRate(reports, tests);
    if rate > 100 {
      MulMonotone(201, 2 * rate - 1, tests);
    } else {
      MulMonotone(2 * rate + 1, 201, tests);
    }
  }

  /** Between zero and as many reports as tests, the rate stays in
      0..100. */
  lemma {:induction false} RateInRange(reports: int, tests: nat)
    requires 0 <= reports <= tests
    ensures 0 <= CompletionRate(reports, tests) <= 100
  {
    if tests > 0 {
      var rate := CompletionRate(reports, tests);
      if rate > 100 {
        MulMonotone(201, 2 * rate - 1, tests);
      }
      if rate < 0 {
        MulMonotone(2 * rate + 1, -1, tests);
      }
    }
  }

  // ---------------------------------------------------------------------
  // Activity

  /** The analytics page keeps the ten most recent entries. */
  function RecentActivity(patients: seq<FeedPatient>, tests: seq<FeedTest>, reports: seq<FeedReport>): (r: seq<Entry>)
    ensures |r| <= 10
    ensures multiset(r) <= multiset(Merged(patients, tests, reports))
  {
    Newest(Merged(patients, tests, reports), 10)
  }
}
