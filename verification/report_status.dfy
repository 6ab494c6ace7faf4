/** The status the back end returns with each result of a generated
    report (`generate_report` in backend/run.py); it is not written to the
    database, and the browser does not read it. It reads the range after one
    fixed string substitution and the removal of spaces, recognises
    intervals, `<h`, `upto h` and the exact words "positive"/"negative",
    and reads values with Python's `float()`, whose failure on an interval
    range aborts the whole report with status 500. */
module ReportStatus {
  import opened Common
  import opened Numbers
  import opened Ranges

  datatype Status = Normal | Low | High | Abnormal

  /** The three characters U+00E2 U+20AC U+201C: what the bytes of an
      en-dash look like when decoded as Windows-1252. This, and not the
      en-dash itself, is what the back end replaces with a hyphen. */
  const Mojibake: string := "\U{00E2}\U{20AC}\U{201C}"

  /** `str(x)` of a text column: `None` becomes the word "None". */
  function PyStr(x: Option<string>): string {
    if x.Some? then x.value else "None"
  }

  /** `ref_range.replace(MOJIBAKE, '-').replace(' ', '')`. */
  function BackRef(normalRange: Option<string>): (ref: string)
    ensures ' ' !in ref
  {
    RemoveChar(ReplaceAll(PyStr(normalRange), Mojibake, "-"), ' ')
  }

  /** `re.match(r'^(\d+(?:\.\d+)?)-(\d+(?:\.\d+)?)$', ref)`: in Python `$`
      also matches just before a final newline. */
  function PyMatchInterval(ref: string): Option<(real, real)> {
    match MatchInterval(ref)
    case Some(m) => Some(m)
    case None =>
      if |ref| > 0 && ref[|ref| - 1] == '\n' then MatchInterval(ref[..|ref| - 1]) else None
  }

  /** The failure of `float(value)` on an interval range; the report
      endpoint answers it with status 500. */
  const NotANumber := Error(500, "could not convert string to float")

  /** The one way a row can fail: its range is an interval and `float()`
      cannot read its value. */
  predicate Unreadable(value: string, normalRange: Option<string>) {
    PyMatchInterval(BackRef(normalRange)).Some? && PyFloat(value).None?
  }

  function StatusOf(value: string, normalRange: Option<string>): (r: Result<Status>)
    ensures r.Fail? <==> Unreadable(value, normalRange)
    ensures r.Fail? ==> r.error == NotANumber
  {
    var ref := BackRef(normalRange);
    match PyMatchInterval(ref)
    case Some((low, high)) =>
      (match PyFloat(value)
       case None => Fail(NotANumber)
       case Some(v) => Ok(if v < low then Low else if v > high then High else Normal))
    case None => Ok(TextStatus(ref, value))
  }

  /** The checks made once the range is not an interval, in order. */
  function TextStatus(ref: string, value: string): Status {
    if |ref| > 0 && ref[0] == '<' then BelowStatusOf(ref, value)
    else if UptoLed(ref) then UptoStatusOf(ref, value)
    else WordStatusOf(Lower(ref), value)
  }

  predicate UptoLed(ref: string) {
    StartsWith(Lower(ref), "upto") || StartsWith(Lower(ref), "up to")
  }

  /** `<h`: every failure to read a number is swallowed as Normal. */
  function BelowStatusOf(ref: string, value: string): Status
    requires |ref| > 0
  {
    match (PyFloat(ref[1..]), PyFloat(value))
    case (Some(h), Some(v)) => if v >= h then High else Normal
    case _ => Normal
  }

  function UptoStatusOf(ref: string, value: string): Status {
    match (FirstNumber(ref), PyFloat(value))
    case (Some(h), Some(v)) => if v > h then High else Normal
    case _ => Normal
  }

  /** The exact words, compared after lower-casing both sides. */
  function WordStatusOf(lowered: string, value: string): Status {
    if lowered == "positive" then (if Lower(value) != "positive" then Abnormal else Normal)
    else if lowered == "negative" then (if Lower(value) != "negative" then Abnormal else Normal)
    else Normal
  }

  /** Two strings whose first characters differ are different. */
  lemma {:induction false} HeadsDiffer(s: string, t: string)
    requires |s| > 0 && |t| > 0 && s[0] != t[0]
    ensures s != t
  {
  }

  /** A range whose lower-cased first character is none of `<`, `u`, `p`,
      `n` and which is not an interval is Normal for every value. */
  lemma {:induction false} OtherLeadIsNormal(ref: string, value: string)
    requires |ref| > 0 && ref[0] != '<'
    requires var c := LowerChar(ref[0]); c != 'u' && c != 'p' && c != 'n'
    ensures TextStatus(ref, value) == Normal
  {
    var low := Lower(ref);
    assert low[0] == LowerChar(ref[0]);
    StartsWithHead(low, "upto");
    StartsWithHead(low, "up to");
    HeadsDiffer(low, "positive");
    HeadsDiffer(low, "negative");
  }

  // ---------------------------------------------------------------------
  // The case table

  /** Intervals: Low below, High above, Normal inside, bounds included;
      a value `float()` cannot read fails the report. */
  lemma {:induction false} IntervalStatus(value: string, normalRange: Option<string>, low: real, high: real)
    requires PyMatchInterval(BackRef(normalRange)) == Some((low, high))
    ensures PyFloat(value).None? <==> StatusOf(value, normalRange) == Fail(NotANumber)
    ensures StatusOf(value, normalRange) == Ok(Low) <==> PyFloat(value).Some? && PyFloat(value).value < low
    ensures StatusOf(value, normalRange) == Ok(High)
        <==> PyFloat(value).Some? && low <= PyFloat(value).value && PyFloat(value).value > high
    ensures StatusOf(value, normalRange) == Ok(Normal)
        <==> PyFloat(value).Some? && low <= PyFloat(value).value <= high
  {
  }

  /** `<h`: High exactly when both numbers read and the value reaches the
      bound; every failure to read is swallowed as Normal. */
  lemma {:induction false} BelowStatus(value: string, normalRange: Option<string>)
    requires var ref := BackRef(normalRange); |ref| > 0 && ref[0] == '<'
    ensures var ref := BackRef(normalRange);
      (StatusOf(value, normalRange) == Ok(High) <==>
         PyFloat(ref[1..]).Some? && PyFloat(value).Some? && PyFloat(value).value >= PyFloat(ref[1..]).value)
    ensures StatusOf(value, normalRange).Ok?
    ensures StatusOf(value, normalRange) != Ok(High) ==> StatusOf(value, normalRange) == Ok(Normal)
  {
    var ref := BackRef(normalRange);
    NotIntervalUnlessDigit(ref);
    assert StatusOf(value, normalRange) == Ok(BelowStatusOf(ref, value));
  }

  /** `upto h`: High exactly when the value is strictly above the first
      number written in the range. */
  lemma {:induction false} UptoStatus(value: string, normalRange: Option<string>)
    requires var ref := BackRef(normalRange); StartsWith(Lower(ref), "upto")
    ensures var ref := BackRef(normalRange);
      (StatusOf(value, normalRange) == Ok(High) <==>
         FirstNumber(ref).Some? && PyFloat(value).Some? && PyFloat(value).value > FirstNumber(ref).value)
    ensures StatusOf(value, normalRange) != Ok(High) ==> StatusOf(value, normalRange) == Ok(Normal)
  {
    var ref := BackRef(normalRange);
    UptoIsNotEarlierCase(ref);
    assert TextStatus(ref, value) == UptoStatusOf(ref, value);
    assert StatusOf(value, normalRange) == Ok(UptoStatusOf(ref, value));
  }

  /** A range beginning with "upto" is neither an interval nor `<h`. */
  lemma {:induction false} UptoIsNotEarlierCase(ref: string)
    requires StartsWith(Lower(ref), "upto")
    ensures PyMatchInterval(ref).None? && !(|ref| > 0 && ref[0] == '<')
  {
    NotIntervalUnlessDigit(ref);
    assert Lower(ref)[..4][0] == 'u';
    assert LowerChar(ref[0]) == 'u';
  }

  /** The exact words: Abnormal exactly when the value is a different word,
      case ignored. */
  lemma {:induction false} WordStatus(value: string, normalRange: Option<string>, word: string)
    requires word == "positive" || word == "negative"
    requires Lower(BackRef(normalRange)) == word
    ensures StatusOf(value, normalRange) == Ok(Abnormal) <==> Lower(value) != word
    ensures StatusOf(value, normalRange) == Ok(Normal) <==> Lower(value) == word
  {
    var ref := BackRef(normalRange);
    var low := Lower(ref);
    NotIntervalUnlessDigit(ref);
    assert low[0] == word[0] && |ref| == |word| && low[0] == LowerChar(ref[0]);
    assert !IsDigit(ref[0]) && ref[0] != '<';
    StartsWithHead(low, "upto");
    StartsWithHead(low, "up to");
    assert TextStatus(ref, value) == WordStatusOf(word, value);
  }

  /** `>l` ranges are not recognised by the back end: always Normal. */
  lemma {:induction false} AboveIsNormal(value: string, normalRange: Option<string>)
    requires var ref := BackRef(normalRange); |ref| > 0 && ref[0] == '>'
    ensures StatusOf(value, normalRange) == Ok(Normal)
  {
    var ref := BackRef(normalRange);
    NotIntervalUnlessDigit(ref);
    OtherLeadIsNormal(ref, value);
  }

  /** A range that begins with a digit but is not an interval is not
      understood: every value is Normal against it. */
  lemma {:induction false} NumberLedNonIntervalIsNormal(value: string, normalRange: Option<string>)
    requires var ref := BackRef(normalRange); |ref| > 0 && IsDigit(ref[0])
    requires '-' !in BackRef(normalRange)
    ensures StatusOf(value, normalRange) == Ok(Normal)
  {
    var ref := BackRef(normalRange);
    assert FirstDash(ref) == |ref|;
    if |ref| > 0 && ref[|ref| - 1] == '\n' {
      assert FirstDash(ref[..|ref| - 1]) == |ref| - 1;
    }
    OtherLeadIsNormal(ref, value);
  }

  /** The alternative `startswith('up to')` can never hold: the spaces
      were removed from the range before the test. */
  lemma {:induction false} UpToWithSpaceIsDead(normalRange: Option<string>)
    ensures !StartsWith(Lower(BackRef(normalRange)), "up to")
  {
    NoSpaceNoUpTo(BackRef(normalRange));
  }

  lemma {:induction false} NoSpaceNoUpTo(ref: string)
    requires ' ' !in ref
    ensures !StartsWith(Lower(ref), "up to")
  {
    if |ref| >= 5 {
      var c := ref[2];
      assert c in ref;
      assert LowerChar(c) != ' ';
      assert Lower(ref)[..5][2] == LowerChar(c);
    }
  }

  /** Neither reading of an interval accepts a range that starts with
      anything but a digit. */
  lemma {:induction false} NotIntervalUnlessDigit(ref: string)
    ensures PyMatchInterval(ref).Some? ==> |ref| > 0 && IsDigit(ref[0])
  {
    IntervalStartsWithDigit(ref);
    if |ref| > 0 && ref[|ref| - 1] == '\n' {
      IntervalStartsWithDigit(ref[..|ref| - 1]);
    }
  }

  // ---------------------------------------------------------------------
  // The whole report

  /** A result row as read from the database: the value column is
      NOT NULL, the range column may be NULL. */
  datatype StoredTest = StoredTest(value: string, normalRange: Option<string>)

  /** The status loop of `generate_report`: every row's status in order,
      or the failure of the first row whose value cannot be read against
      an interval, which discards the whole report. */
  function RowStatus(t: StoredTest): Result<Status> {
    StatusOf(t.value, t.normalRange)
  }

  function Statuses(tests: seq<StoredTest>): (r: Result<seq<Status>>)
    ensures r.Ok? ==> |r.value| == |tests|
    ensures r.Fail? ==> r.error == NotANumber
    ensures r.Fail? <==> exists i :: 0 <= i < |tests| && Unreadable(tests[i].value, tests[i].normalRange)
  {
    if |tests| == 0 then Ok([])
    else
      var first := RowStatus(tests[0]);
      var rest := Statuses(tests[1..]);
      assert forall i :: 1 <= i < |tests| ==> tests[i] == tests[1..][i - 1];
      if first.Fail? then Fail(first.error)
      else if rest.Fail? then
        assert exists i :: 0 <= i < |tests| && Unreadable(tests[i].value, tests[i].normalRange) by {
          var j :| 0 <= j < |tests[1..]| && Unreadable(tests[1..][j].value, tests[1..][j].normalRange);
          assert tests[j + 1] == tests[1..][j];
        }
        Fail(rest.error)
      else Ok([first.value] + rest.value)
  }

  /** The report is produced exactly when every row has a status, and then
      it holds each row's status in row order. */
  lemma {:induction false} StatusesCorrect(tests: seq<StoredTest>)
    ensures Statuses(tests).Ok? <==> forall i :: 0 <= i < |tests| ==> RowStatus(tests[i]).Ok?
    ensures Statuses(tests).Ok? ==>
      forall i :: 0 <= i < |tests| ==> Ok(Statuses(tests).value[i]) == RowStatus(tests[i])
  {
    StatusesOk(tests);
    StatusesValues(tests);
  }

  lemma {:induction false} StatusesOk(tests: seq<StoredTest>)
    ensures Statuses(tests).Ok? <==> forall i :: 0 <= i < |tests| ==> RowStatus(tests[i]).Ok?
  {
    forall i | 0 <= i < |tests|
      ensures RowStatus(tests[i]).Ok? <==> !Unreadable(tests[i].value, tests[i].normalRange)
    {
    }
  }

  lemma {:induction false} StatusesValues(tests: seq<StoredTest>)
    ensures Statuses(tests).Ok? ==>
      forall i :: 0 <= i < |tests| ==> Ok(Statuses(tests).value[i]) == RowStatus(tests[i])
  {
    if |tests| > 0 && Statuses(tests).Ok? {
      var tail := tests[1..];
      StatusesValues(tail);
      StatusesCons(tests);
      forall i | 0 <= i < |tests|
        ensures Ok(Statuses(tests).value[i]) == RowStatus(tests[i])
      {
        if i > 0 {
          assert tests[i] == tail[i - 1];
        }
      }
    }
  }

  lemma {:induction false} StatusesCons(tests: seq<StoredTest>)
    requires |tests| > 0 && Statuses(tests).Ok?
    ensures RowStatus(tests[0]).Ok? && Statuses(tests[1..]).Ok?
    ensures Statuses(tests).value == [RowStatus(tests[0]).value] + Statuses(tests[1..]).value
  {
  }
}
