/** The recent-activity list that both the dashboard and the analytics
    page build: one entry per patient with a registration date, one per
    test with a test date, one per recent report, sorted newest first with
    JavaScript's stable sort and cut to the first few. Dates are taken as
    already parsed into numbers (`new Date(rawDate)`). */
module Activity {
  import opened Common
  import opened Sorting

  datatype Kind = PatientRegistered | TestCompleted | ReportGenerated

  datatype Entry = Entry(kind: Kind, title: string, description: string, at: int)

  /** The fields of a patient, a test result and a recent report that the
      list reads; a missing date is `None`. */
  datatype FeedPatient = FeedPatient(id: int, fullName: string, createdAt: Option<int>)
  datatype FeedTest = FeedTest(patientId: int, testName: string, testDate: Option<int>)
  /** A recent report by its `patient_name` and `generated_at` columns, the
      two the list is evidently meant to show. */
  datatype FeedReport = FeedReport(patientName: string, generatedAt: int)

  function PatientEntry(fullName: string, at: int): Entry {
    Entry(PatientRegistered, "New Patient Registration", fullName + " registered as a new patient", at)
  }

  function TestEntry(testName: string, patientName: string, at: int): Entry {
    Entry(TestCompleted, "Test Completed", testName + " results are ready for " + patientName, at)
  }

  /** The report entry as intended: the row's patient name and date. The
      pages as written read other keys; see `ReportEntryAsWritten`. */
  function ReportEntry(r: FeedReport): Entry {
    Entry(ReportGenerated, "Report Generated", "Report generated for " + r.patientName, r.generatedAt)
  }

  /** `patients.find(p => p.id == id)`, then its name, or "Unknown". */
  function PatientName(patients: seq<FeedPatient>, id: int): (name: string)
    ensures (forall i :: 0 <= i < |patients| ==> patients[i].id != id) ==> name == "Unknown"
    ensures (exists i :: 0 <= i < |patients| && patients[i].id == id) ==>
      exists k :: 0 <= k < |patients| && patients[k].id == id && name == patients[k].fullName
  {
    var k := FirstIndex(patients, (p: FeedPatient) => p.id == id);
    if k < |patients| then patients[k].fullName else "Unknown"
  }

  predicate Registered(p: FeedPatient) { p.createdAt.Some? }

  predicate Dated(t: FeedTest) { t.testDate.Some? }

  function PatientEntries(patients: seq<FeedPatient>): (es: seq<Entry>)
    ensures forall e :: e in es <==>
      exists p :: p in patients && p.createdAt.Some? && e == PatientEntry(p.fullName, p.createdAt.value)
    ensures |es| == Count(patients, Registered)
  {
    if |patients| == 0 then []
    else
      var p := patients[|patients| - 1];
      var front := PatientEntries(patients[..|patients| - 1]);
      assert forall q :: q in patients <==> q in patients[..|patients| - 1] || q == p;
      front + (if p.createdAt.Some? then [PatientEntry(p.fullName, p.createdAt.value)] else [])
  }

  function TestEntries(patients: seq<FeedPatient>, tests: seq<FeedTest>): (es: seq<Entry>)
    ensures forall e :: e in es <==>
      exists t :: t in tests && t.testDate.Some?
        && e == TestEntry(t.testName, PatientName(patients, t.patientId), t.testDate.value)
    ensures |es| == Count(tests, Dated)
  {
    if |tests| == 0 then []
    else
      var t := tests[|tests| - 1];
      var front := TestEntries(patients, tests[..|tests| - 1]);
      assert forall q :: q in tests <==> q in tests[..|tests| - 1] || q == t;
      front + (if t.testDate.Some? then [TestEntry(t.testName, PatientName(patients, t.patientId), t.testDate.value)] else [])
  }

  function ReportEntries(reports: seq<FeedReport>): (es: seq<Entry>)
    ensures |es| == |reports|
    ensures forall i :: 0 <= i < |reports| ==> es[i] == ReportEntry(reports[i])
  {
    seq(|reports|, i requires 0 <= i < |reports| => ReportEntry(reports[i]))
  }

  /** Patients first, then tests, then reports, each in list order. */
  function Merged(patients: seq<FeedPatient>, tests: seq<FeedTest>, reports: seq<FeedReport>): (es: seq<Entry>)
    ensures |es| == Count(patients, Registered) + Count(tests, Dated) + |reports|
  {
    PatientEntries(patients) + TestEntries(patients, tests) + ReportEntries(reports)
  }

  /** The comparator `(a, b) => b.at - a.at` as an order: `a` may come
      before `b` when it is at least as recent. */
  predicate NewerOrSame(a: int, b: int) { a >= b }

  function At(e: Entry): int { e.at }

  /** `entries.sort(newest first).slice(0, n)`. */
  function Newest(entries: seq<Entry>, n: nat): (r: seq<Entry>)
    ensures |r| == if |entries| < n then |entries| else n
    ensures multiset(r) <= multiset(entries)
  {
    var sorted := SortBy(entries, At, NewerOrSame);
    var r := Take(sorted, n);
    assert sorted == r + sorted[|r|..];
    r
  }

  /** A shorter feed is the beginning of a longer one. */
  lemma {:induction false} NewestPrefix(entries: seq<Entry>, m: nat, n: nat)
    requires m <= n
    ensures Newest(entries, m) == Newest(entries, n)[..|Newest(entries, m)|]
  {
    var sorted := SortBy(entries, At, NewerOrSame);
    assert Newest(entries, m) == sorted[..|Newest(entries, m)|];
    assert Newest(entries, n) == sorted[..|Newest(entries, n)|];
  }

  // ---------------------------------------------------------------------
  // Properties

  /** A test names the first patient with its id, and "Unknown" when no
      patient has it. */
  lemma {:induction false} PatientNameFound(patients: seq<FeedPatient>, id: int)
    ensures (forall i :: 0 <= i < |patients| ==> patients[i].id != id) ==> PatientName(patients, id) == "Unknown"
    ensures forall i :: 0 <= i < |patients| && patients[i].id == id ==>
      exists k :: 0 <= k <= i && patients[k].id == id && PatientName(patients, id) == patients[k].fullName
  {
  }

  /** The patient entries of two lists are those of the first followed by
      those of the second: each patient gives its entry in list order. */
  lemma {:induction false} PatientEntriesAppend(ps: seq<FeedPatient>, qs: seq<FeedPatient>)
    ensures PatientEntries(ps + qs) == PatientEntries(ps) + PatientEntries(qs)
  {
    if |qs| > 0 {
      var front := qs[..|qs| - 1];
      assert (ps + qs)[..|ps + qs| - 1] == ps + front;
      PatientEntriesAppend(ps, front);
    } else {
      assert ps + qs == ps;
    }
  }

  /** Likewise for the test entries. */
  lemma {:induction false} TestEntriesAppend(patients: seq<FeedPatient>, ts: seq<FeedTest>, us: seq<FeedTest>)
    ensures TestEntries(patients, ts + us) == TestEntries(patients, ts) + TestEntries(patients, us)
  {
    if |us| > 0 {
      var front := us[..|us| - 1];
      assert (ts + us)[..|ts + us| - 1] == ts + front;
      TestEntriesAppend(patients, ts, front);
    } else {
      assert ts + us == ts;
    }
  }

  lemma {:induction false} NewerOrSameIsTotalPreorder()
    ensures TotalPreorder(NewerOrSame)
  {
  }

  /** The list holds exactly: one entry per patient with a registration
      date, one per dated test naming its patient (or "Unknown"), and one
      per recent report. */
  lemma {:induction false} FeedContents(patients: seq<FeedPatient>, tests: seq<FeedTest>, reports: seq<FeedReport>, e: Entry)
    ensures e in Merged(patients, tests, reports) <==>
      ((exists p :: p in patients && p.createdAt.Some? && e == PatientEntry(p.fullName, p.createdAt.value))
      || (exists t :: (t in tests && t.testDate.Some?
          && e == TestEntry(t.testName, PatientName(patients, t.patientId), t.testDate.value)))
      || (exists r :: r in reports && e == ReportEntry(r)))
  {
    var rs := ReportEntries(reports);
    if e in rs {
      var i :| 0 <= i < |rs| && rs[i] == e;
      assert reports[i] in reports;
    }
    if exists r :: r in reports && e == ReportEntry(r) {
      var r :| r in reports && e == ReportEntry(r);
      var i :| 0 <= i < |reports| && reports[i] == r;
      assert rs[i] == e;
    }
  }

  /** The kept entries are sorted newest first, are the first entries of
      the whole sorted list, and no entry left out is newer than any kept
      one. */
  lemma {:induction false} NewestCorrect(entries: seq<Entry>, n: nat)
    ensures SortedBy(Newest(entries, n), At, NewerOrSame)
    ensures Newest(entries, n) == SortBy(entries, At, NewerOrSame)[..|Newest(entries, n)|]
    ensures var sorted := SortBy(entries, At, NewerOrSame);
      forall i, j :: 0 <= i < |Newest(entries, n)| <= j < |sorted| ==> sorted[j].at <= sorted[i].at
  {
    var sorted := SortBy(entries, At, NewerOrSame);
    NewerOrSameIsTotalPreorder();
    SortBySorted(entries, At, NewerOrSame);
    TakeSorted(sorted, n, At, NewerOrSame);
  }

  /** Entries with the same date keep their order in the merged list:
      patients, then tests, then reports. */
  lemma {:induction false} NewestKeepsTies(entries: seq<Entry>, at: int)
    ensures WithKey(SortBy(entries, At, NewerOrSame), At, at) == WithKey(entries, At, at)
  {
    NewerOrSameIsTotalPreorder();
    SortByStable(entries, At, NewerOrSame, at);
  }

  // ---------------------------------------------------------------------
  // Report rows as the pages read them

  /** The keys of a row of `/api/reports/recent`: `r.*` of the reports
      table and the patient's `full_name` as `patient_name`. */
  const ReportRowKeys: set<string> := {"id", "patient_id", "generated_at", "patient_name"}

  /** A feed entry whose date may be an Invalid Date (`None`). */
  datatype RawEntry = RawEntry(description: string, at: Option<int>)

  /** The report entry both pages build from a row with keys `keys`: they
      read `report.patientName` and `report.generatedAt`, and a key the row
      lacks is `undefined`, printed as "undefined" and parsed by
      `new Date` as an Invalid Date. */
  function ReportEntryAsWritten(keys: set<string>, r: FeedReport): (e: RawEntry)
    ensures "patientName" in keys ==> e.description == ReportEntry(r).description
    ensures "patientName" !in keys ==> e.description == "Report generated for undefined"
    ensures e.at.Some? <==> "generatedAt" in keys
    ensures e.at.Some? ==> e.at.value == ReportEntry(r).at
  {
    var name := if "patientName" in keys then r.patientName else "undefined";
    RawEntry("Report generated for " + name, if "generatedAt" in keys then Some(r.generatedAt) else None)
  }

  /** `new Date(b.rawDate) - new Date(a.rawDate)` as `Array.prototype.sort`
      reads it: positive puts `b` first, and the NaN an Invalid Date on
      either side gives counts as 0. */
  function DateDiff(a: Option<int>, b: Option<int>): (d: int)
    ensures a.Some? && b.Some? ==> (d > 0 <==> b.value > a.value) && (d == 0 <==> a.value == b.value)
    ensures a.None? || b.None? ==> d == 0
  {
    if a.Some? && b.Some? then b.value - a.value else 0
  }

  /** As written, a report row from the endpoint shows "undefined" and
      ties with every entry, an older and a newer one alike, which do not
      tie with each other. The comparator then breaks the consistency that
      ECMA-262 asks of an `Array.prototype.sort` comparator, and the order
      `sort` gives the feed is left to the implementation. */
  lemma {:induction false} ReportRowBreaksOrder(r: FeedReport, older: int, newer: int)
    requires older < newer
    ensures ReportEntryAsWritten(ReportRowKeys, r).description == "Report generated for undefined"
    ensures var at := ReportEntryAsWritten(ReportRowKeys, r).at;
      DateDiff(Some(older), at) == 0 && DateDiff(at, Some(newer)) == 0
      && DateDiff(Some(older), Some(newer)) != 0
  {
  }

  /** Read under the keys the pages expect, a row gives the intended entry,
      and the comparator on such dates orders them as `NewerOrSame` does. */
  lemma {:induction false} ReportEntryCorrected(r: FeedReport, s: FeedReport)
    ensures var e := ReportEntryAsWritten({"patientName", "generatedAt"}, r);
      e.description == ReportEntry(r).description && e.at == Some(ReportEntry(r).at)
    ensures DateDiff(Some(ReportEntry(r).at), Some(ReportEntry(s).at)) <= 0
      <==> NewerOrSame(ReportEntry(r).at, ReportEntry(s).at)
  {
  }
}
