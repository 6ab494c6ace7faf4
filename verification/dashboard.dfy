/** The dashboard (frontend/src/components/Dashboard.jsx): three counters
    and the five most recent activities, refreshed from four requests
    that must all succeed. A response body that is not an array is `None`
    and counts as an empty list. */
module Dashboard {
  import opened Common
  import opened Sorting
  import opened Activity

  datatype Stats = Stats(totalPatients: nat, totalTests: nat, reportsGenerated: int)

  datatype Page = Page(stats: Stats, activity: seq<Entry>, error: Option<string>)

  const LoadFailed := "Failed to load dashboard data"

  function OrEmpty<T>(xs: Option<seq<T>>): (r: seq<T>)
    ensures xs.None? ==> r == []
    ensures xs.Some? ==> r == xs.value
  {
    if xs.Some? then xs.value else []
  }

  /** The five newest activities; ids match as strings, which for the
      integer ids of the database is the same as matching as numbers. */
  function DashboardFeed(patients: Option<seq<FeedPatient>>, tests: Option<seq<FeedTest>>, reports: Option<seq<FeedReport>>): (r: seq<Entry>)
    ensures |r| <= 5
    ensures multiset(r) <= multiset(Merged(OrEmpty(patients), OrEmpty(tests), OrEmpty(reports)))
  {
    Newest(Merged(OrEmpty(patients), OrEmpty(tests), OrEmpty(reports)), 5)
  }

  /** One refresh. When any of the four requests fails, the page keeps its
      counters and list and shows the error; otherwise the counters and
      the list are rebuilt and the error cleared. `reportsCount` is the
      `count` field of the report count, `None` when it is missing or
      falsy. */
  function Refresh(page: Page, allOk: bool, patients: Option<seq<FeedPatient>>, tests: Option<seq<FeedTest>>,
                   reportsCount: Option<int>, reports: Option<seq<FeedReport>>): (p: Page)
    ensures !allOk ==> p == page.(error := Some(LoadFailed))
    ensures allOk ==> p.error.None?
    ensures allOk ==> p.stats.totalPatients == |OrEmpty(patients)| && p.stats.totalTests == |OrEmpty(tests)|
    ensures allOk && reportsCount.Some? ==> p.stats.reportsGenerated == reportsCount.value
    ensures allOk && reportsCount.None? ==> p.stats.reportsGenerated == 0
    ensures allOk ==> p.activity == DashboardFeed(patients, tests, reports)
  {
    if !allOk then page.(error := Some(LoadFailed))
    else
      var count := if reportsCount.Some? then reportsCount.value else 0;
      Page(Stats(|OrEmpty(patients)|, |OrEmpty(tests)|, count), DashboardFeed(patients, tests, reports), None)
  }

  /** With the same data, the dashboard list is the first five entries of
      the analytics page's ten: both sort the same merged list the same
      way. */
  lemma {:induction false} DashboardPrefixOfAnalytics(patients: seq<FeedPatient>, tests: seq<FeedTest>, reports: seq<FeedReport>)
    ensures var d := DashboardFeed(Some(patients), Some(tests), Some(reports));
      d == Newest(Merged(patients, tests, reports), 10)[..|d|]
  {
    NewestPrefix(Merged(patients, tests, reports), 5, 10);
  }

  /** Without a patient list, no registration is listed and every test is
      listed for "Unknown". */
  lemma {:induction false} NoPatientsUnknown(tests: seq<FeedTest>, reports: seq<FeedReport>, e: Entry)
    ensures e in Merged([], tests, reports) <==>
      ((exists t :: t in tests && t.testDate.Some? && e == TestEntry(t.testName, "Unknown", t.testDate.value))
      || (exists r :: r in reports && e == ReportEntry(r)))
  {
    FeedContents([], tests, reports, e);
    assert forall id :: PatientName([], id) == "Unknown";
  }
}
