/** The report screen (frontend/src/components/Reports.jsx): the status
    shown next to each result, its colour and arrow, the grouping of a
    report's results by category and subcategory, the patient search and
    the age/sex caption. */
module Reports {
  import opened Common
  import opened Numbers
  import opened Ranges
  import opened Grouping

  /** A result as the report screen receives it. */
  datatype ReportTest = ReportTest(
    testCategory: string,
    testSubcategory: string,
    testName: string,
    testValue: string,
    normalRange: Option<string>,
    unit: string)

  /** What `getStatus` returns: one of five fixed words, or the result's
      own value, verbatim, for a categorical range it does not recognise. */
  datatype Shown = Low | High | Normal | Negative | Positive | Verbatim(text: string)

  function Text(s: Shown): string {
    match s
    case Low => "Low"
    case High => "High"
    case Normal => "Normal"
    case Negative => "Negative"
    case Positive => "Positive"
    case Verbatim(t) => t
  }

  // ---------------------------------------------------------------------
  // getStatus

  /** `String(normalRange || '').trim()`. */
  function RefText(normalRange: Option<string>): string {
    Trim(if normalRange.Some? then normalRange.value else "", IsJsSpace)
  }

  /** `/negative|positive/i.test(ref)`. */
  predicate Categorical(ref: string) {
    Contains(Lower(ref), "negative") || Contains(Lower(ref), "positive")
  }

  function GetStatus(value: string, normalRange: Option<string>): (r: Shown)
    ensures r.Verbatim? ==> r.text == value
  {
    var ref := RefText(normalRange);
    if Categorical(ref) then WordShown(value)
    else RangeShown(Cleaned(ref), JsParseFloat(value))
  }

  /** Against a categorical range: the value's own word, case ignored. */
  function WordShown(value: string): (r: Shown)
    ensures r.Verbatim? ==> r.text == value
    ensures r != Low && r != High && r != Normal
  {
    if Lower(value) == "negative" then Negative
    else if Lower(value) == "positive" then Positive
    else Verbatim(value)
  }

  /** Against a cleaned numeric range, with `parseFloat` of the value. */
  function RangeShown(range: string, num: Option<real>): (r: Shown)
    ensures r == Low || r == High || r == Normal
    ensures num.None? ==> r == Normal
  {
    match MatchInterval(range)
    case Some((low, high)) =>
      if num.None? then Normal
      else if num.value < low then Low
      else if num.value > high then High
      else Normal
    case None =>
      if |range| > 0 && range[0] == '<' then
        match (JsParseFloat(range[1..]), num)
        case (Some(h), Some(v)) => if v >= h then High else Normal
        case _ => Normal
      else if |range| > 0 && range[0] == '>' then
        match (JsParseFloat(range[1..]), num)
        case (Some(l), Some(v)) => if v <= l then Low else Normal
        case _ => Normal
      else Normal
  }

  // ---------------------------------------------------------------------
  // The case table of getStatus

  /** Interval ranges: Low exactly below the interval, High exactly above
      it, Normal inside it, bounds included. */
  lemma {:induction false} IntervalStatus(value: string, normalRange: Option<string>, low: real, high: real, v: real)
    requires !Categorical(RefText(normalRange))
    requires MatchInterval(Cleaned(RefText(normalRange))) == Some((low, high))
    requires JsParseFloat(value) == Some(v)
    ensures GetStatus(value, normalRange) == Low <==> v < low
    ensures GetStatus(value, normalRange) == High <==> low <= v && v > high
    ensures GetStatus(value, normalRange) == Normal <==> low <= v <= high
  {
    var range := Cleaned(RefText(normalRange));
    assert GetStatus(value, normalRange) == RangeShown(range, Some(v));
    IntervalShown(range, low, high, v);
  }

  lemma {:induction false} IntervalShown(range: string, low: real, high: real, v: real)
    requires MatchInterval(range) == Some((low, high))
    ensures RangeShown(range, Some(v)) == if v < low then Low else if v > high then High else Normal
  {
  }

  /** `<h` ranges: High exactly when the value reaches the bound; the
      bound itself counts as High. */
  lemma {:induction false} BelowStatus(value: string, normalRange: Option<string>, h: real, v: real)
    requires !Categorical(RefText(normalRange))
    requires var range := Cleaned(RefText(normalRange));
      |range| > 0 && range[0] == '<' && JsParseFloat(range[1..]) == Some(h)
    requires JsParseFloat(value) == Some(v)
    ensures GetStatus(value, normalRange) == High <==> v >= h
    ensures GetStatus(value, normalRange) == Normal <==> v < h
  {
    var range := Cleaned(RefText(normalRange));
    IntervalStartsWithDigit(range);
  }

  /** `>l` ranges: Low exactly when the value is at most the bound. */
  lemma {:induction false} AboveStatus(value: string, normalRange: Option<string>, l: real, v: real)
    requires !Categorical(RefText(normalRange))
    requires var range := Cleaned(RefText(normalRange));
      |range| > 0 && range[0] == '>' && JsParseFloat(range[1..]) == Some(l)
    requires JsParseFloat(value) == Some(v)
    ensures GetStatus(value, normalRange) == Low <==> v <= l
    ensures GetStatus(value, normalRange) == Normal <==> v > l
  {
    var range := Cleaned(RefText(normalRange));
    IntervalStartsWithDigit(range);
  }

  /** A range that is neither an interval nor begins with `<` or `>` is
      not understood, and every value against it is Normal. */
  lemma {:induction false} UnknownRangeIsNormal(value: string, normalRange: Option<string>)
    requires !Categorical(RefText(normalRange))
    requires var range := Cleaned(RefText(normalRange));
      |range| > 0 && !IsDigit(range[0]) && range[0] != '<' && range[0] != '>'
    ensures GetStatus(value, normalRange) == Normal
  {
    IntervalStartsWithDigit(Cleaned(RefText(normalRange)));
  }

  /** Outside the categorical case, `getStatus` sees a range only through
      its cleaned text: two ranges that clean to the same text give every
      value the same status. */
  lemma {:induction false} SameCleanedSameStatus(value: string, n1: Option<string>, n2: Option<string>)
    requires !Categorical(RefText(n1)) && !Categorical(RefText(n2))
    requires Cleaned(RefText(n1)) == Cleaned(RefText(n2))
    ensures GetStatus(value, n1) == GetStatus(value, n2)
  {
  }

  /** A matched interval needs no trimming or cleaning and mentions
      neither word. */
  lemma {:induction false} IntervalIsPlain(range: string)
    requires MatchInterval(range).Some?
    ensures RefText(Some(range)) == range
    ensures Cleaned(range) == range
    ensures !Categorical(range)
  {
    IntervalAlphabet(range);
    IntervalTrimmed(range);
    assert '–' !in range && ' ' !in range;
    assert ReplaceFirst(range, '–', '-') == range;
    RemoveAbsent(range, ' ');
    IntervalNotCategorical(range);
  }

  lemma {:induction false} IntervalTrimmed(range: string)
    requires forall i :: 0 <= i < |range| ==> IsDigit(range[i]) || range[i] == '.' || range[i] == '-'
    ensures RefText(Some(range)) == range
  {
    TrimUnchanged(range, IsJsSpace);
  }

  lemma {:induction false} IntervalNotCategorical(range: string)
    requires forall i :: 0 <= i < |range| ==> IsDigit(range[i]) || range[i] == '.' || range[i] == '-'
    ensures !Categorical(range)
  {
    LowerUnchanged(range);
    AbsentInitialNotContained(range, "negative");
    AbsentInitialNotContained(range, "positive");
  }

  /** Outside the categorical case only the number read from a value
      matters: two values read as the same number get the same status. */
  lemma {:induction false} SameNumberSameStatus(v1: string, v2: string, normalRange: Option<string>)
    requires !Categorical(RefText(normalRange))
    requires JsParseFloat(v1) == JsParseFloat(v2)
    ensures GetStatus(v1, normalRange) == GetStatus(v2, normalRange)
  {
  }

  /** Written as two number tokens around a hyphen, a range classifies
      every numeric value by comparison with the two numbers read from
      it. */
  lemma {:induction false} TokenIntervalStatus(a: string, b: string, value: string, v: real)
    requires NumberToken(a).Some? && NumberToken(b).Some?
    requires JsParseFloat(value) == Some(v)
    ensures var low, high := NumberToken(a).value, NumberToken(b).value;
      var r := GetStatus(value, Some(a + "-" + b));
      && (r == Low <==> v < low)
      && (r == High <==> low <= v && v > high)
      && (r == Normal <==> low <= v <= high)
  {
    var range := a + "-" + b;
    MatchIntervalOf(a, b);
    IntervalIsPlain(range);
    IntervalStatus(value, Some(range), NumberToken(a).value, NumberToken(b).value, v);
  }

  /** Categorical ranges: the value is compared with the two words, case
      ignored, and shown verbatim when it is neither; no number is read. */
  lemma {:induction false} CategoricalStatus(value: string, normalRange: Option<string>)
    requires Categorical(RefText(normalRange))
    ensures GetStatus(value, normalRange) == Negative <==> Lower(value) == "negative"
    ensures GetStatus(value, normalRange) == Positive <==> Lower(value) == "positive"
    ensures GetStatus(value, normalRange) == Verbatim(value)
        <==> Lower(value) != "negative" && Lower(value) != "positive"
  {
  }

  /** `getStatus` is fail-safe: Low and High only come from a successful
      numeric comparison on a non-categorical range, and a value that is
      not a number is Normal against every non-categorical range. */
  lemma {:induction false} StatusFailSafe(value: string, normalRange: Option<string>)
    ensures var r := GetStatus(value, normalRange);
      (r == Low || r == High) ==> !Categorical(RefText(normalRange)) && JsParseFloat(value).Some?
    ensures !Categorical(RefText(normalRange)) ==>
      GetStatus(value, normalRange) in {Low, High, Normal}
    ensures !Categorical(RefText(normalRange)) && JsParseFloat(value).None? ==>
      GetStatus(value, normalRange) == Normal
  {
    var ref := RefText(normalRange);
    if Categorical(ref) {
      assert GetStatus(value, normalRange) == WordShown(value);
    } else {
      assert GetStatus(value, normalRange) == RangeShown(Cleaned(ref), JsParseFloat(value));
    }
  }

  // ---------------------------------------------------------------------
  // Colour and arrow

  const Red := "#d32f2f"
  const Green := "#388e3c"

  /** The colour of the value and status cells, chosen from the status
      text alone. */
  function Colour(status: string): (r: string)
    ensures r == Red || r == Green
    ensures r == Red <==> status == "Low" || status == "High" || status == "Positive"
  {
    if status == "Low" || status == "High" || status == "Positive" then Red else Green
  }

  /** Down for "Low", up for "High", nothing for any other status. */
  function Arrow(status: string): (r: string)
    ensures r != "" <==> status == "Low" || status == "High"
    ensures r == "↓" <==> status == "Low"
    ensures r == "↑" <==> status == "High"
  {
    if status == "Low" then "↓" else if status == "High" then "↑" else ""
  }

  /** The display depends on the status text only, so a categorical value
      shown verbatim as "Low", "High" or "Positive" is drawn exactly like
      the status of that name. */
  lemma {:induction false} DisplayOfStatus(s: Shown)
    ensures Arrow(Text(s)) == "↓" <==> s == Low || s == Verbatim("Low")
    ensures Arrow(Text(s)) == "↑" <==> s == High || s == Verbatim("High")
    ensures Colour(Text(s)) == Red <==>
      s in {Low, High, Positive, Verbatim("Low"), Verbatim("High"), Verbatim("Positive")}
  {
    match s
    case Verbatim(t) =>
    case _ =>
  }

  // ---------------------------------------------------------------------
  // Grouping the report's results

  function ReportRows(tests: seq<ReportTest>): (rows: seq<Row<ReportTest>>)
    ensures |rows| == |tests|
    ensures forall i :: 0 <= i < |tests| ==>
      rows[i] == Row(tests[i].testCategory, tests[i].testSubcategory, tests[i])
  {
    seq(|tests|, i requires 0 <= i < |tests| => Row(tests[i].testCategory, tests[i].testSubcategory, tests[i]))
  }

  /** `groupTestsByCategory`: every result lands in the one list of its
      category and subcategory, in input order, no list is empty, and the
      lists together hold as many results as the input. */
  function GroupTestsByCategory(tests: seq<ReportTest>): (g: seq<Cat<ReportTest>>)
    ensures GroupOK(ReportRows(tests), g)
    ensures Total(g) == |tests|
  {
    GroupCorrect(ReportRows(tests));
    Group(ReportRows(tests))
  }

  // ---------------------------------------------------------------------
  // Patient search

  datatype Patient = Patient(fullName: string, patientCode: string)

  /** The search box matches the lower-cased query against the lower-cased
      name or code. */
  predicate PatientMatches(p: Patient, query: string) {
    ContainsIgnoreCase(p.fullName, query) || ContainsIgnoreCase(p.patientCode, query)
  }

  function FilteredPatients(patients: seq<Patient>, query: string): (r: seq<Patient>)
    ensures forall p :: p in r <==> p in patients && PatientMatches(p, query)
  {
    Filter(patients, p => PatientMatches(p, query))
  }

  /** Searching two lists one after the other gives the two results one
      after the other: the kept patients keep their order. */
  lemma {:induction false} FilteredPatientsInOrder(ps: seq<Patient>, qs: seq<Patient>, query: string)
    ensures FilteredPatients(ps + qs, query) == FilteredPatients(ps, query) + FilteredPatients(qs, query)
  {
    FilterAppend(ps, qs, p => PatientMatches(p, query));
  }

  /** An empty query keeps every patient. */
  lemma {:induction false} EmptyQueryKeepsAll(ps: seq<Patient>)
    ensures FilteredPatients(ps, "") == ps
  {
    forall i | 0 <= i < |ps|
      ensures PatientMatches(ps[i], "")
    {
      EmptyIsContained(Lower(ps[i].fullName));
    }
    FilterKeepsAll(ps, p => PatientMatches(p, ""));
  }

  // ---------------------------------------------------------------------
  // Age and sex caption

  /** `${n}` for an integer. */
  function IntText(n: int): (s: string)
    ensures |s| > 0
  {
    if n < 0 then "-" + NatToDigits(-n) else NatToDigits(n)
  }

  /** `getAgeSex`: `${age} Years / ${gender}`. */
  function AgeSex(age: int, gender: string): (s: string)
    ensures |s| >= |gender| && s[|s| - |gender|..] == gender
  {
    IntText(age) + " Years / " + gender
  }

  /** Digits followed by a non-digit are read by `parseInt` as their
      value. */
  lemma {:induction false} ParseIntOfDigits(d: string, rest: string)
    requires |d| > 0 && AllDigits(d) && |rest| > 0 && !IsDigit(rest[0])
    ensures JsParseInt(d + rest) == Some(DigitsValue(d) as int)
    ensures JsParseInt("-" + d + rest) == Some(-(DigitsValue(d) as int))
  {
    var s := d + rest;
    assert !IsJsSpace(s[0]) && s[0] != '-' && s[0] != '+';
    assert s[0..] == s;
    assert s[..|d|] == d;
    LeadingDigitsExact(s, |d|);
    var t := "-" + d + rest;
    assert t[0..] == t;
    assert t[1..] == s;
  }

  /** `parseInt` reads an integer's text back, whatever non-digit text
      follows it. */
  lemma {:induction false} IntTextRead(n: int, rest: string)
    requires |rest| > 0 && !IsDigit(rest[0])
    ensures JsParseInt(IntText(n) + rest) == Some(n)
  {
    if n < 0 {
      var d := NatToDigits(-n);
      ParseIntOfDigits(d, rest);
      assert IntText(n) + rest == "-" + d + rest;
    } else {
      ParseIntOfDigits(NatToDigits(n), rest);
    }
  }

  /** The caption begins with the age: reading its leading integer gives
      the age back. */
  lemma {:induction false} AgeSexStartsWithAge(age: int, gender: string)
    ensures JsParseInt(AgeSex(age, gender)) == Some(age)
  {
    var rest := " Years / " + gender;
    assert rest[0] == ' ';
    assert AgeSex(age, gender) == IntText(age) + rest;
    IntTextRead(age, rest);
  }
}
