# Lab-Assists data logic in Dafny

Lab-Assists is a laboratory information system: a Flask back end over a
MySQL database and a React front end for patient registration, test-result
entry, printed reports and dashboards. Almost all of it is CRUD plumbing.
This project models the pure data logic inside it and proves what that
logic guarantees. It covers:

- the two reference-range status evaluators: the browser's `getStatus`,
  whose word is printed on the report, and the back end's status loop in
  `generate_report`, which returns a status with each result of the
  report. It also proves where the two agree and where they do not. The
  browser ignores that returned status, so the divergences matter only to
  other clients of the endpoint; the 500 on an unreadable value matters to
  every caller;
- the two-level category → subcategory grouping of report results and of
  the test catalog, which is sorted by name at both levels;
- the administration page's filtered catalog view, filter drop-downs and
  test form;
- the result-entry form rows and the test history grouped by patient;
- the patient form: contact sanitising, the submit check, clearing, the
  edit form and the list search;
- the account security forms' validation and error clearing;
- the analytics reductions (age buckets, gender, category and
  normal/abnormal tallies, the six-month trend, the completion rate) and
  the recent-activity feed shared with the dashboard;
- the back end's small pieces: the Bearer header, required-field checks
  and the next `PAT` patient code.

Numbers are `real`. JavaScript's `parseFloat`/`parseInt` are modelled as
leading-prefix parsers. Python's `float()` is modelled as a whole-string
parser that can fail. Case-insensitive comparisons use ASCII lower-casing.

Modules:

| module | file | source |
|---|---|---|
| Common | common.dfy | `Option`/`Result`, strings, filtering, counting |
| Numbers | numbers.dfy | the number readers of both runtimes |
| Ranges | ranges.dfy | the interval regular expression |
| Sorting | sorting.dfy | stable sort by key, string order |
| Grouping | grouping.dfy | category → subcategory grouping |
| Catalog | catalog.dfy | `get_test_categories` |
| Backend | backend.dfy | `token_required`, required fields, next patient code |
| ReportStatus | report_status.dfy | status loop of `generate_report` |
| Reports | reports.dfy | Reports.jsx |
| StatusAgreement | status_agreement.dfy | the two evaluators side by side |
| Administration | administration.dfy | Administration.jsx |
| TestResults | test_results.dfy | `AddTestResults` in Test.jsx |
| TestHistory | test_history.dfy | `TestHistory` in Test.jsx |
| Patients | patients.dfy | Patients.jsx |
| Security | security.dfy | Security.jsx |
| Analytics | analytics.dfy | Analytics.jsx |
| Activity | activity.dfy | the activity feed of Analytics.jsx and Dashboard.jsx |
| Dashboard | dashboard.dfy | Dashboard.jsx |

Details of the code's behaviour that the model follows:

- In the browser, a range counts as categorical when it mentions either
  word, one being enough (`/negative|positive/i`).
- In the browser, the value is lower-cased but not trimmed before it is
  compared with the words.
- In the browser, only the first en-dash of a range is replaced, and of
  all whitespace only the ASCII space is removed, after the range has been
  trimmed. The back end does not trim; it replaces every occurrence of the
  mis-decoded en-dash and removes every ASCII space.
- The back end replaces the three-character mis-decoded form of the
  en-dash, not the en-dash itself. An interval written with a real
  en-dash is therefore never an interval on the server, and every value
  against it is returned as Normal (`StatusAgreement.EnDashDiverges`).
- `Object.keys` lists the integer patient ids of the test history in
  increasing numeric order, so the history lists patients by id, not by
  first appearance.

## Model

| member | source | states |
|---|---|---|
| Backend.BearerToken | backend/run.py:36-40 | a token is read only from a header that begins "Bearer "; it is the non-empty, space-free word after it; anything else is the 401 "Token is missing" |
| Backend.BearerRoundTrip | backend/run.py:37-38 | writing "Bearer " and a token, with or without further words after a space, reads the token back |
| Backend.BearerDoubleSpace | backend/run.py:37-40 | a second space after "Bearer " leaves `split(' ')[1]` empty, so the request is refused as a missing token |
| Backend.BearerNeedsScheme | backend/run.py:37-40 | a header with any other scheme, "bearer" in lower case included, is refused as a missing token |
| Backend.CheckRequired | backend/run.py:106-109 | the request passes exactly when every required key is present; otherwise the 400 names a missing field |
| Backend.FirstMissingReported | backend/run.py:261-264 | the 400 names the first missing field in list order, whatever comes after it |
| Backend.CodeNumber | backend/run.py:893-896 | a number is read only from a code that starts with "PAT" and a digit |
| Backend.FormatCode | backend/run.py:897 | a formatted code is "PAT" followed by the decimal digits of its number, zero-padded to six and with no leading zero beyond that |
| Backend.CodeOfRead | backend/run.py:893-895 | a well-formed code reads back as its number |
| Backend.ZeroPadValue | backend/run.py:897 | zero padding keeps the digits' value |
| Backend.CodeRoundTrip | backend/run.py:893-897 | reading a formatted code gives its number back |
| Backend.NextPatientCode | backend/run.py:890-901 | the next code is the well-formed code of the latest code's number plus one, or of 1 when there is no usable latest code |
| Backend.NextCodeIncrements | backend/run.py:893-897 | the next code carries the latest code's number plus one |
| Backend.NextCodeFallback | backend/run.py:898-901 | with no latest code, or one not starting "PAT" and a digit, the code is PAT000001, number 1 |
| Numbers.FloatParsersAgree | backend/run.py:465 | on a whitespace-free number, Python's `float` and `parseFloat` read the same value |
| Numbers.JsParseFloat | frontend/src/components/Reports.jsx:424-426 | `parseFloat` reads a number exactly when, after leading whitespace and an optional sign, the text starts with a digit or with a dot and a digit; a negative result needs a '-' sign |
| Numbers.JsParseInt | frontend/src/components/Analytics.jsx:108 | `parseInt` reads a number exactly when, after leading whitespace and an optional sign, the text starts with a digit; a negative result needs a '-' sign |
| Numbers.PyFloat | backend/run.py:465 | `float` accepts only text that, once stripped, is digits and dots with at most a leading sign; stripped text of digits alone reads as its decimal value |
| Numbers.ParseFloatIgnoresSuffix | frontend/src/components/Reports.jsx:426 | `parseFloat` reads a decimal and ignores whatever non-digit text follows it |
| Numbers.FirstNumber | backend/run.py:478 | `re.findall(...)[0]` fails exactly when the text has no digit |
| Ranges.MatchIntervalAccepts | frontend/src/components/Reports.jsx:422 | the interval matcher accepts exactly two number tokens joined by one hyphen |
| Ranges.Cleaned | frontend/src/components/Reports.jsx:421 | the cleaned range has no space, keeps every other character except an en-dash, and adds nothing but hyphens |
| Ranges.MatchInterval | frontend/src/components/Reports.jsx:422-425 | a match splits the range at a hyphen into two number tokens whose values are the bounds |
| Ranges.MatchIntervalOf | frontend/src/components/Reports.jsx:422-425 | matching two tokens around a hyphen gives their two values back |
| Ranges.IntervalStartsWithDigit | frontend/src/components/Reports.jsx:422 | an interval begins with a digit, so no `<` or `>` range is one |
| ReportStatus.BackRef | backend/run.py:460-461 | the range the back end examines has no space left in it |
| ReportStatus.StatusOf | backend/run.py:455-488 | a row fails exactly when its range is an interval and `float` cannot read its value, and the failure is the 500 conversion error |
| ReportStatus.IntervalStatus | backend/run.py:462-468 | on an interval: failure exactly when the value is not a number, else Low below, High above, Normal inside, bounds included |
| ReportStatus.BelowStatus | backend/run.py:469-475 | on `<h`: High exactly when both numbers read and the value reaches h; any read failure is swallowed as Normal |
| ReportStatus.UptoStatus | backend/run.py:476-482 | on `upto…`: High exactly when the value is strictly above the first number in the range, otherwise Normal |
| ReportStatus.UptoIsNotEarlierCase | backend/run.py:462-476 | a range beginning "upto" is neither an interval nor a `<` range |
| ReportStatus.WordStatus | backend/run.py:483-488 | on exactly "positive" or "negative": Abnormal exactly when the value is a different word, case ignored, otherwise Normal |
| ReportStatus.AboveIsNormal | backend/run.py:458-488 | a `>l` range is not recognised: every value is Normal |
| ReportStatus.OtherLeadIsNormal | backend/run.py:469-488 | a range beginning with anything but `<`, `u`, `p` or `n` (case ignored) that is not an interval is Normal |
| ReportStatus.NumberLedNonIntervalIsNormal | backend/run.py:462-488 | a range that begins with a digit but has no hyphen is Normal whatever the value |
| ReportStatus.UpToWithSpaceIsDead | backend/run.py:461-476 | the alternative "up to" never holds, because spaces are removed first |
| ReportStatus.NotIntervalUnlessDigit | backend/run.py:462 | Python's interval match needs a leading digit |
| ReportStatus.Statuses | backend/run.py:455-488 | a report has one status per row; it fails exactly when some row has an interval range and an unreadable value |
| ReportStatus.StatusesCorrect | backend/run.py:455-516 | the report is produced exactly when every row has a status, and each row's status is its own; one bad row makes the whole request fail |
| Reports.GetStatus | frontend/src/components/Reports.jsx:413-450 | a shown text that is not one of the five status words is the value itself |
| Reports.WordShown | frontend/src/components/Reports.jsx:416-420 | against a categorical range the result is never Low, High or Normal |
| Reports.RangeShown | frontend/src/components/Reports.jsx:421-449 | against a non-categorical range the result is Low, High or Normal, and Normal when the value is not a number |
| Reports.IntervalStatus | frontend/src/components/Reports.jsx:421-431 | on an interval: Low exactly below it, High exactly above it, Normal inside it, bounds included |
| Reports.BelowStatus | frontend/src/components/Reports.jsx:433-440 | on `<h`: High exactly when the value reaches h, the bound counting as High; otherwise Normal |
| Reports.AboveStatus | frontend/src/components/Reports.jsx:441-448 | on `>l`: Low exactly when the value is at most l; otherwise Normal |
| Reports.UnknownRangeIsNormal | frontend/src/components/Reports.jsx:449 | a range that is no interval and begins with neither `<` nor `>` is Normal for every value |
| Reports.CategoricalStatus | frontend/src/components/Reports.jsx:416-420 | a range mentioning either word, in any case, gives Negative or Positive when the value is that word and the value verbatim otherwise |
| Reports.StatusFailSafe | frontend/src/components/Reports.jsx:413-450 | Low and High come only from a number read from the value; an unreadable value is Normal against every non-categorical range |
| Reports.SameCleanedSameStatus | frontend/src/components/Reports.jsx:421 | outside the categorical case, two ranges that clean to the same text classify alike |
| Reports.SameNumberSameStatus | frontend/src/components/Reports.jsx:426-446 | outside the categorical case, two values read as the same number get the same status |
| Reports.TokenIntervalStatus | frontend/src/components/Reports.jsx:422-431 | a range written as two number tokens around a hyphen classifies by those two numbers |
| Reports.IntervalIsPlain | frontend/src/components/Reports.jsx:415-421 | an interval is unchanged by trimming and cleaning and mentions neither word |
| Reports.DisplayOfStatus | frontend/src/components/Reports.jsx:676-682 | the arrow is down exactly for Low and up exactly for High; red exactly for Low, High and Positive; a verbatim value that spells a status word is displayed as that status |
| Reports.Colour | frontend/src/components/Reports.jsx:678 | red exactly for "Low", "High" and "Positive", green for everything else |
| Reports.Arrow | frontend/src/components/Reports.jsx:681-682 | a down arrow exactly for "Low", an up arrow exactly for "High", and no arrow otherwise |
| Reports.GroupTestsByCategory | frontend/src/components/Reports.jsx:399-411 | every result is in the one list of its category and subcategory, in input order; no list is empty; the lists hold as many results as the input |
| Reports.FilteredPatients | frontend/src/components/Reports.jsx:133-137 | a patient is kept exactly when the query is in the name or code, case ignored |
| Reports.FilteredPatientsInOrder | frontend/src/components/Reports.jsx:133-137 | the kept patients keep their order |
| Reports.EmptyQueryKeepsAll | frontend/src/components/Reports.jsx:133-137 | an empty query keeps every patient |
| Reports.AgeSex | frontend/src/components/Reports.jsx:210 | the caption ends with the gender |
| Reports.AgeSexStartsWithAge | frontend/src/components/Reports.jsx:210 | reading the caption's leading integer gives the age back |
| StatusAgreement.BackKeepsInterval | backend/run.py:461-462 | an interval written without spaces reaches the back end's matcher unchanged and matches with the same bounds |
| StatusAgreement.AgreeOnIntervals | backend/run.py:462-468 | on an interval of two number tokens, written with any ASCII spaces in it, and a value both runtimes read as the same number (with any whitespace both skip around it), the back end does not fail and the two evaluators give the same Low, High or Normal |
| StatusAgreement.NonNumericValueDiverges | backend/run.py:465 | on an interval, an unreadable value is Normal on the printed report but makes the back end's request fail |
| StatusAgreement.EnDashDiverges | backend/run.py:461 | an interval written with an en-dash is read as an interval by the browser but is Normal on the server whatever the value |
| StatusAgreement.FrontEnDash | frontend/src/components/Reports.jsx:421 | the browser turns the en-dash form into the hyphen form |
| StatusAgreement.UptoDiverges | backend/run.py:476-482 | `upto h` is Normal in the browser, while the back end flags values above h as High |
| StatusAgreement.AboveDiverges | frontend/src/components/Reports.jsx:441-448 | `>l` flags values at or below l as Low in the browser, while the back end calls everything Normal |
| StatusAgreement.UnitSuffixDiverges | backend/run.py:463-465 | a value with a unit after it is read by the browser as its number and refused by the back end |
| StatusAgreement.WordDiverges | backend/run.py:483-488 | a one-word range against a value that is neither word: the browser shows the value verbatim, the back end returns Abnormal |
| Catalog.TestCategories | backend/run.py:836-875 | the endpoint's answer is a correct catalog: every row under its own category and subcategory as often as it occurs, names distinct, both levels sorted by name, no empty level |
| Catalog.CatalogCorrect | backend/run.py:836-873 | grouping then sorting gives that correct catalog |
| Grouping.GroupCorrect | frontend/src/components/Reports.jsx:399-411 | the one-pass grouping files each row once in its own bucket, in input order, with distinct names and no empty bucket |
| Sorting.SortBySorted | backend/run.py:871-873 | the stable sort orders by key and keeps every element as often as before |
| Sorting.SortByStable | frontend/src/components/Dashboard.jsx:137 | elements with equal keys keep their input order |
| Sorting.LexIsTotalPreorder | backend/run.py:871 | Python's string order is total and transitive |
| Administration.MatchingTests | frontend/src/components/Administration.jsx:271-273 | a test is kept exactly when the search is empty or in its name, case ignored |
| Administration.KeepSubs | frontend/src/components/Administration.jsx:265-275 | no kept subcategory is empty |
| Administration.FilteredTests | frontend/src/components/Administration.jsx:259-277 | no kept category and no kept subcategory is empty |
| Administration.KeepSubsListed | frontend/src/components/Administration.jsx:265-275 | a test is listed under a kept subcategory exactly when it is in the catalog there, the filter lets the subcategory through and its name matches |
| Administration.FilteredTestsListed | frontend/src/components/Administration.jsx:259-277 | a test is listed under a category and subcategory exactly when the catalog lists it there, both filters let them through and its name matches |
| Administration.NoFilterKeepsAll | frontend/src/components/Administration.jsx:259-277 | with no filter and no search, the view lists exactly what the catalog lists |
| Common.Distinct | frontend/src/components/Administration.jsx:244-255 | `Array.from(new Set(xs))`: no repeats, exactly the elements of the input, each kept in the order of its first occurrence |
| Administration.CategoryOptions | frontend/src/components/Administration.jsx:244 | each category name appears once, and every name of the catalog appears |
| Administration.SubcategoryOptions | frontend/src/components/Administration.jsx:245-256 | no options without a chosen, existing category; otherwise each subcategory name of that category, once |
| Administration.KeptSelection | frontend/src/components/Administration.jsx:63-66 | after a reload, the category filter is kept exactly when it is empty or some category still has that name; otherwise it is emptied |
| Administration.ChangeTestField | frontend/src/components/Administration.jsx:93-104 | the edited field takes the value; a new category empties both subcategory fields; every other field is unchanged |
| Administration.SubmitPayload | frontend/src/components/Administration.jsx:136-145 | the category is the typed-in new one when it is non-empty and the chosen one otherwise, and likewise the subcategory; name and the two new-name fields are sent as typed; range, unit and price are sent, as typed, exactly when non-empty |
| Administration.EditTestForm | frontend/src/components/Administration.jsx:195-208 | editing fills the form with the entry's name, its category and subcategory, empty new-name fields, and its range and unit or "" when missing |
| Administration.ResubmitUnchanged | frontend/src/components/Administration.jsx:136-145 | saving an untouched edit form sends back the entry's name, category and subcategory, and each optional field exactly when it holds text |
| Administration.PayloadKeys | frontend/src/components/Administration.jsx:136-145 | the request always has the five form keys, and each optional key exactly when it is set |
| Administration.PayloadPassesRequired | backend/run.py:226-229 | every submitted form passes the catalog endpoint's required-field check, empty name included |
| Administration.BlankPayload | frontend/src/components/Administration.jsx:136-145 | a blank form sends empty strings and no optional field |
| TestResults.FindTest | frontend/src/components/Test.jsx:95-103 | a test is found only when the category, its subcategory and a test of that name all exist; the found test has the requested name |
| TestResults.FindTestFinds | frontend/src/components/Test.jsx:95-103 | a catalog test is found under its own names when it and they are the first of their names |
| TestResults.EditRow | frontend/src/components/Test.jsx:74-93 | the field takes the value; a new category or subcategory empties the test name; a test name found in the catalog brings its range and unit, missing ones as ""; one not found keeps them |
| TestResults.ChangeRow | frontend/src/components/Test.jsx:74-93 | only the edited row changes; the row count and every other row are unchanged |
| TestResults.ChooseCatalogTest | frontend/src/components/Test.jsx:84-90 | choosing a catalog test fills the row's range and unit from the catalog |
| TestResults.AddRow | frontend/src/components/Test.jsx:105-107 | one blank row is appended and the others are kept |
| TestResults.RemoveRow | frontend/src/components/Test.jsx:109-111 | exactly the row at the index is removed and the others keep their order; an index past the end removes nothing |
| TestResults.RemoveAdded | frontend/src/components/Test.jsx:105-111 | removing the row just added gives the rows back |
| TestResults.ClearForm | frontend/src/components/Test.jsx:201-215 | the row count is kept and every field of every row is emptied; patient and notes are cleared; the date is today's |
| TestResults.SubmitPayload | frontend/src/components/Test.jsx:119-147 | every row is filed under the first row's category and subcategory and sends its name, value, range and unit; with no rows the submit fails with "Failed to add test results" |
| TestResults.StoreResults | backend/run.py:258-303 | the request is refused with 400 exactly when a required key is missing; otherwise a line without `testName` or `value` makes it fail with 500 and the quoted key, the first such line deciding; otherwise one row is stored per line, in order, with the body's patient, category and subcategory, the line's range and unit or NULL, its date or the current time, and its notes or NULL |
| TestResults.SubmitStores | backend/run.py:258-303 | a submitted form with rows is stored as one row per form row, in order, under the first row's category and subcategory, with the form's patient, date and notes; it passes the endpoint's key and line checks even when no patient was chosen (the insert then fails in the database, which is not modelled) |
| TestResults.LaterCategoryIgnored | frontend/src/components/Test.jsx:126-133 | changing a later row's category leaves the request unchanged |
| TestHistory.ResultsOf | frontend/src/components/Test.jsx:494-498 | one patient's results are exactly that patient's, in list order |
| TestHistory.Collect | frontend/src/components/Test.jsx:494-498 | no group is empty, and every result in a group is one of the listed results and belongs to the group's patient |
| TestHistory.GroupByPatient | frontend/src/components/Test.jsx:494-501 | the listed groups are the collected groups, reordered |
| TestHistory.CollectCorrect | frontend/src/components/Test.jsx:494-498 | one group per patient with results, each holding exactly that patient's results in order; together every result once |
| TestHistory.GroupByPatientCorrect | frontend/src/components/Test.jsx:494-501 | the page lists those groups by strictly increasing patient id, holding every result once |
| TestHistory.ShownIds | frontend/src/components/Test.jsx:501-505 | an id is shown exactly when it has a group, its patient is known and the name contains the search, case ignored |
| Patients.DigitsOf | frontend/src/components/Patients.jsx:77 | only digits are kept, never more characters than were typed |
| Patients.SanitizeContact | frontend/src/components/Patients.jsx:75-80 | the contact number is the first ten digits of what was typed, in order |
| Patients.SanitizeIdempotent | frontend/src/components/Patients.jsx:75-80 | sanitising twice is sanitising once |
| Patients.SanitizeSaturates | frontend/src/components/Patients.jsx:77-79 | once ten digits are in, typing more changes nothing |
| Patients.HandleChange | frontend/src/components/Patients.jsx:71-84 | the contact number is sanitised, every other field takes what was typed, and no other field changes |
| Patients.ContactStaysClean | frontend/src/components/Patients.jsx:71-84 | a contact number of at most ten digits stays so through any edit |
| Patients.SubmitCheck | frontend/src/components/Patients.jsx:92-95 | submit is refused with the ten-digit message exactly when the number is not ten characters long |
| Patients.TypedContactAccepted | frontend/src/components/Patients.jsx:75-95 | after typing into the contact field, the form can be submitted exactly when at least ten digits were typed |
| Patients.ClearForm | frontend/src/components/Patients.jsx:128-139 | every field is emptied except the patient code, which is kept |
| Patients.AgeOrBlank | frontend/src/components/Patients.jsx:24 | a missing age and the age 0 both show as "" |
| Patients.EditForm | frontend/src/components/Patients.jsx:22-32 | each missing text field becomes "", each present one is kept |
| Patients.EditEmptyIsBlank | frontend/src/components/Patients.jsx:22-32 | a patient with nothing stored opens as a blank form |
| Patients.SearchList | frontend/src/components/Patients.jsx:313-317 | a patient is kept exactly when the name or code contains the search, case ignored, or the contact number contains it exactly |
| Patients.SearchListInOrder | frontend/src/components/Patients.jsx:313-317 | the kept patients keep their order |
| Patients.ListSearchWider | frontend/src/components/Patients.jsx:313-317 | the list search finds every patient the report page's search finds, and those found by contact number too |
| Security.PasswordErrors | frontend/src/pages/Security.jsx:54-75 | each field has at most one error, present exactly when the field fails; an empty new password is "required", not "too short" |
| Security.PasswordValid | frontend/src/pages/Security.jsx:54-75 | the form is valid exactly when the current password is given, the new one has at least eight characters and the confirmation equals it |
| Security.MismatchNeedsConfirmation | frontend/src/pages/Security.jsx:67-71 | "Passwords do not match" appears exactly when a non-empty confirmation differs |
| Security.ScanEmail | frontend/src/pages/Security.jsx:86 | the scan finds a match exactly when the address contains a non-space, `@`, non-spaces, a dot and a non-space |
| Security.EmailErrors | frontend/src/pages/Security.jsx:77-92 | the password error is present exactly when it is empty; the email error exactly when there is no match, "required" for an empty address |
| Security.EmailValid | frontend/src/pages/Security.jsx:77-92 | the form is valid exactly when the current password is given and the address contains a match |
| Security.EmailUnanchored | frontend/src/pages/Security.jsx:86 | anything around a well-formed address, spaces included, is accepted |
| Security.ClearError | frontend/src/pages/Security.jsx:31-36 | a truthy error of the field is emptied, not removed; no other entry changes |
| Security.ChangePassword | frontend/src/pages/Security.jsx:24-37 | the typed field takes the value and only its error is emptied |
| Security.ChangeEmail | frontend/src/pages/Security.jsx:39-52 | the typed field takes the value and only its error is emptied, shared with the password form |
| Analytics.FirstGroup | frontend/src/components/Analytics.jsx:109-114 | the first group whose bounds hold the age, or none when no group holds it |
| Analytics.AgeGroupsPartition | frontend/src/components/Analytics.jsx:12-18 | the groups are pairwise disjoint and cover exactly 0..200 |
| Analytics.AgeBucketExact | frontend/src/components/Analytics.jsx:108-114 | an age is counted exactly when it reads as an integer in 0..200, and then in the group that holds it |
| Analytics.AgeBucket | frontend/src/components/Analytics.jsx:108-114 | an age that `parseInt` cannot read falls in no group; a bucketed age reads as a number inside its group |
| Analytics.AgeTally | frontend/src/components/Analytics.jsx:108-114 | there is one count per group |
| Analytics.AgeTallyCounts | frontend/src/components/Analytics.jsx:108-114 | each group counts exactly the patients whose age falls in it; together they count every patient with a bucketed age |
| Analytics.GenderTally | frontend/src/components/Analytics.jsx:103-106 | male, female and other add up to the number of patients |
| Analytics.GenderTallyCounts | frontend/src/components/Analytics.jsx:103-106 | male counts the "male" genders case ignored, female the "female" ones, other the rest |
| Analytics.CategoryTallyCorrect | frontend/src/components/Analytics.jsx:149-151 | each non-empty category appears once with the number of tests carrying it; the counts add up to the tests with a category |
| Analytics.CategoryTally | frontend/src/components/Analytics.jsx:149-151 | every counted category is non-empty and is the category of some test |
| Analytics.Judge | frontend/src/components/Analytics.jsx:188-204 | a result is judged only on an interval range with a readable value: abnormal exactly outside the interval |
| Analytics.ResultTally | frontend/src/components/Analytics.jsx:188-204 | normal and abnormal together never exceed the number of tests |
| Analytics.ResultTallyCounts | frontend/src/components/Analytics.jsx:188-204 | abnormal counts the results judged abnormal and normal those judged normal |
| Analytics.Last6Months | frontend/src/components/Analytics.jsx:36-49 | the window has six months |
| Analytics.MonthsBackIndex | frontend/src/components/Analytics.jsx:40 | going back k months lands on a real month k months earlier |
| Analytics.Last6MonthsCorrect | frontend/src/components/Analytics.jsx:36-49 | six consecutive calendar months, oldest first, ending at this month, wrapping across years |
| Analytics.TrendCounts | frontend/src/components/Analytics.jsx:168-173 | one count per month of the window |
| Analytics.TrendCountsPerMonth | frontend/src/components/Analytics.jsx:154-173 | over distinct months, each month's count is the number of tests dated in that month |
| Analytics.WindowTrend | frontend/src/components/Analytics.jsx:154-173 | over the six-month window, the k-th bar counts the tests dated in the window's k-th month |
| Analytics.TrendCountsTotal | frontend/src/components/Analytics.jsx:154-173 | the counts add up to the dated tests inside the window, never more than the dated tests |
| Analytics.CompletionRate | frontend/src/components/Analytics.jsx:246 | 0 without tests; otherwise the percentage of reports per test to the nearest whole number |
| Analytics.RateAbove100 | frontend/src/components/Analytics.jsx:246 | the rate is not clamped: it passes 100 exactly when reports exceed tests by at least half a percent |
| Analytics.RateInRange | frontend/src/components/Analytics.jsx:246 | with at most as many reports as tests the rate is within 0..100 |
| Analytics.BarWidth | frontend/src/components/Analytics.jsx:429 | the bar is the rate, stopped at 100 |
| Analytics.RecentActivity | frontend/src/components/Analytics.jsx:230-232 | at most ten entries, all taken from the merged list |
| Common.FirstIndex | frontend/src/components/Analytics.jsx:176 | `find` returns the first element the test accepts; every element before it fails the test, and "not found" means no element passes |
| Activity.PatientNameFound | frontend/src/components/Dashboard.jsx:106-113 | a test names the first patient with its id, and "Unknown" when there is none |
| Activity.PatientName | frontend/src/components/Dashboard.jsx:107-113 | "Unknown" when no patient has the id; otherwise the name of a patient with that id |
| Activity.PatientEntries | frontend/src/components/Dashboard.jsx:88-101 | the entries are exactly the registrations of patients with a date, one per such patient |
| Activity.PatientEntriesAppend | frontend/src/components/Dashboard.jsx:88-101 | each patient contributes its entry in list order |
| Activity.TestEntries | frontend/src/components/Dashboard.jsx:104-120 | the entries are exactly the completions of dated tests, naming their patients, one per dated test |
| Activity.TestEntriesAppend | frontend/src/components/Dashboard.jsx:104-120 | each test contributes its entry in list order |
| Activity.ReportEntries | frontend/src/components/Dashboard.jsx:123-134 | one entry for each recent report, in order, read as intended from the row's patient name and date (see Findings) |
| Activity.ReportEntryAsWritten | frontend/src/components/Dashboard.jsx:123-134 | the pages read `patientName` and `generatedAt`: a row with those keys gives the intended entry; without them the name prints as "undefined" and the date is invalid |
| Activity.DateDiff | frontend/src/components/Dashboard.jsx:137 | the comparator puts the later date first, ties equal dates, and, NaN counting as 0, ties any invalid date with everything |
| Activity.ReportRowBreaksOrder | backend/run.py:643-653 | a report row with the endpoint's keys prints "undefined" and ties with an older and a newer entry that do not tie with each other, so the sort's comparator is inconsistent |
| Activity.ReportEntryCorrected | frontend/src/components/Dashboard.jsx:123-137 | read under the keys the pages expect, a row gives the intended entry, and the comparator on such dates agrees with newest-first |
| Activity.FeedContents | frontend/src/components/Dashboard.jsx:88-134 | the merged list holds exactly the registration, completion and report entries |
| Activity.Merged | frontend/src/components/Dashboard.jsx:84-134 | the merged list has one entry per dated patient, one per dated test and one per recent report |
| Activity.Newest | frontend/src/components/Dashboard.jsx:137-140 | as many entries as asked for, or all, taken from the list |
| Activity.NewestCorrect | frontend/src/components/Dashboard.jsx:136-140 | the kept entries are sorted newest first, are the start of the whole sorted list, and none left out is newer |
| Activity.NewestKeepsTies | frontend/src/components/Dashboard.jsx:137 | entries with the same date keep their merged order: patients, tests, reports |
| Activity.NewestPrefix | frontend/src/components/Analytics.jsx:230-232 | a shorter feed is the start of a longer one |
| Dashboard.DashboardFeed | frontend/src/components/Dashboard.jsx:84-140 | at most five entries, all from the merged list; a body that is not a list counts as empty |
| Dashboard.Refresh | frontend/src/components/Dashboard.jsx:62-143 | a failed request keeps the page and shows the error; otherwise the totals are the list lengths, the report count is `count` or 0, and the feed is rebuilt |
| Dashboard.DashboardPrefixOfAnalytics | frontend/src/components/Dashboard.jsx:137-140 | the dashboard's five entries are the start of the analytics page's ten |
| Dashboard.NoPatientsUnknown | frontend/src/components/Dashboard.jsx:104-113 | without a patient list, no registration is listed and every test is listed for "Unknown" |

## Left out

- Database access, Flask routing and HTTP transport are outside the model. Request bodies, rows and responses are values; a database error is not modelled.
- JWT decoding, bcrypt, login and the browser's token storage are calls into libraries. `BearerToken` stops at the token's text.
- React rendering, PDF and print generation, QR codes and WhatsApp links are presentation only. Only the colour and arrow choice is modelled.
- Polling with `setInterval` and the parallel fetching are left out because they are about timing. One refresh is modelled as a function of the four responses.
- The clock is outside the model: `new Date()`, time zones and locale formatting. "Now" and the dates are parameters. The today, this-week and this-month counters of both pages are not modelled.
- The date and time rendering done by `formatDateDMY` is not modelled.
- Floating point is modelled as exact `real` arithmetic. Exponent notation, `Infinity`, `NaN` literals and rounding are not modelled.
- Case folding is modelled as ASCII only. Lengths count characters, not UTF-16 code units.
- `parseRange` in Analytics.jsx is dead code; nothing calls it.
- `handleSaveAndGenerateReport` in Test.jsx is not modelled. Its row payload is the one `SubmitPayload` builds.
- Deleting a catalog test and cancelling an edit are not modelled. Neither are the lab-information and referring-doctor forms. All of them are plain field copies.
- Administration.EditTestForm: takes the stored price as the text the form holds. The page keeps the number itself, and `test.price || ''` turns a price of 0 into an empty field that is then not sent. That number-to-text step is not modelled.
- The test history sorts each patient's results newest first when it draws them (Test.jsx:567). That display-time sort is not modelled; the groups hold the results in list order.
- The test history's `getPatientName` caption and its delete button are display-only.
- `request.json` being `None`, or a body that is not an object, is not modelled. `CheckRequired` takes the set of keys present. A `tests` value that is not a list of objects is not modelled either.
- TestResults.StoreResults: the database's own constraints are not modelled. An empty or unknown patient id violates the `patient_id` NOT NULL foreign key (backend/database.py:41,51), so the insert fails and the endpoint answers 500, where the model stores the rows.
- TestResults.ChangeRow: requires an index inside the list. The form only ever passes the index of a row it shows; an index past the end would add a row in JavaScript.
- The analytics reductions read the `category`, `value` and `normalRange` fields. The back end's `/api/tests` sends different column names, so real data fills them with `undefined`. The reductions are kept as functions of the field values, and nothing is stated about what real data produces.
- Reports.GroupTestsByCategory: categories and subcategories keep first-seen order. JavaScript would list integer-like names first, in numeric order; that key order is not modelled. Names a plain `{}` inherits from Object.prototype are not modelled either: a category such as "constructor" or "toString" finds the inherited value already there, so its results are written onto it and `Object.entries` does not list them, and a subcategory "constructor" makes `.push` throw.
- Grouping.GroupCorrect: treats every name as a fresh key. The grouping it stands for uses a plain object, so names inherited from Object.prototype ("constructor", "toString", "__proto__" and the like) lose their rows or throw; they are not modelled.
- Analytics.CategoryTally: treats every category as a fresh key. With a plain object, `(acc["constructor"] || 0) + 1` gives a string and an assignment to `acc["__proto__"]` is ignored; names inherited from Object.prototype are not modelled.
- Analytics.CategoryTallyCorrect: states the counts for every category, including names inherited from Object.prototype, whose counts the page gets wrong or drops, as said for CategoryTally.
- Dashboard.DashboardFeed: patient ids are compared as integers. The page compares `String(id)`, which is the same for the database's integer ids.
- Analytics.TrendCounts: takes each test's (year, month) as already read from its date.
- Analytics.CompletionRate: uses exact rational rounding, where `Math.round` works on a floating-point quotient.
- ReportStatus.StatusOf: the 500 error's message is the fixed text "could not convert string to float". Python's `str(e)` appends a colon and the quoted value; the value is not carried in the message.
- Digits are ASCII only. Python's `\d`, `float()` and `int()` also accept every other Unicode decimal digit, so "PAT٣" gives PAT000004 on the back end; the model reads no number from it.
- Patients.AgeOrBlank: shows the age as its decimal text. The page keeps the number itself (`editPatient.age || ''`) and the input renders it; that number-to-text step is not modelled.
- Activity.ReportEntries: models the intended reading of a report row. `/api/reports/recent` (backend/run.py:643-653) sends `patient_name` and `generated_at`, while both pages read `patientName` and `generatedAt`, so on real data every report entry reads "Report generated for undefined" and has an Invalid Date. The as-written reading is `Activity.ReportEntryAsWritten`; see Findings.
- NewestCorrect: holds for the intended report dates only. On real data each report's Invalid Date makes the comparator return NaN, which counts as 0, so the comparator is inconsistent as soon as a report and two differently dated patients or tests are present (`Activity.ReportRowBreaksOrder`), and the order the pages show is left to the JavaScript engine.
- NewestKeepsTies: the same; with an inconsistent comparator the stable sort promises nothing, so ties are kept only under the intended report dates.
- Numbers.PyFloat: does not accept the digit-group underscores `float()` allows ("1_0" reads as 10). Such a value fails in the model.

## Findings

| source | as written | input that shows it | evidently intended | confidence | as-written member | corrected member |
|---|---|---|---|---|---|---|
| frontend/src/components/Dashboard.jsx:123-137 | the report entry reads `report.patientName` and `report.generatedAt`, keys the rows of `/api/reports/recent` do not have (backend/run.py:643-653) | any recent report row, e.g. one with `patient_name` "Asha" and a valid `generated_at`, next to a patient and a test with different dates | the entry names the row's `patient_name` and sorts by its `generated_at` | high, by reading; not executed | Activity.ReportEntryAsWritten, Activity.ReportRowBreaksOrder | Activity.ReportEntries, Activity.ReportEntryCorrected, Activity.NewestCorrect |
