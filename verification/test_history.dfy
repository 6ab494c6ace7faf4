/** The test history (the second component of
    frontend/src/components/Test.jsx): stored results grouped by patient,
    and the patients whose name matches the search. The groups live in an
    object keyed by patient id; database ids are non-negative integers, so
    `Object.keys` lists them in increasing numeric order. */
module TestHistory {
  import opened Common
  import opened Sorting

  /** The fields of a stored result the grouping reads or shows. */
  datatype StoredResult = StoredResult(id: int, patientId: nat, category: string, testName: string, value: string)

  type Group = (nat, seq<StoredResult>)

  /** The results of one patient, in list order. */
  function ResultsOf(results: seq<StoredResult>, pid: nat): (r: seq<StoredResult>)
    ensures |r| <= |results|
    ensures forall k :: 0 <= k < |r| ==> r[k].patientId == pid
    ensures forall t :: t in r <==> t in results && t.patientId == pid
  {
    if |results| == 0 then []
    else
      var front := results[..|results| - 1];
      var t := results[|results| - 1];
      assert forall x :: x in results <==> x in front || x == t;
      ResultsOf(front, pid) + (if t.patientId == pid then [t] else [])
  }

  function FindGroup(g: seq<Group>, pid: nat): (i: nat)
    ensures i <= |g|
    ensures i < |g| ==> g[i].0 == pid
    ensures forall k :: 0 <= k < i ==> g[k].0 != pid
  {
    if |g| == 0 || g[0].0 == pid then 0 else FindGroup(g[1..], pid) + 1
  }

  /** `if (!grouped[id]) grouped[id] = []; grouped[id].push(test)`, in
      list order: groups in first-seen order. */
  function Collect(results: seq<StoredResult>): (g: seq<Group>)
    ensures forall i :: 0 <= i < |g| ==> |g[i].1| > 0
    ensures forall i, k :: 0 <= i < |g| && 0 <= k < |g[i].1| ==>
      g[i].1[k].patientId == g[i].0 && g[i].1[k] in results
  {
    if |results| == 0 then []
    else
      var g := Collect(results[..|results| - 1]);
      var t := results[|results| - 1];
      assert forall x :: x in results[..|results| - 1] ==> x in results;
      var i := FindGroup(g, t.patientId);
      if i < |g| then g[i := (t.patientId, g[i].1 + [t])] else g + [(t.patientId, [t])]
  }

  function Key(g: Group): nat { g.0 }

  predicate IdLe(a: nat, b: nat) { a <= b }

  /** The groups as the page lists them: by increasing patient id. */
  function GroupByPatient(results: seq<StoredResult>): (groups: seq<Group>)
    ensures multiset(groups) == multiset(Collect(results))
  {
    SortBy(Collect(results), Key, IdLe)
  }

  /** How many results the groups hold together. */
  function Total(g: seq<Group>): nat {
    if |g| == 0 then 0 else Total(g[..|g| - 1]) + |g[|g| - 1].1|
  }

  // ---------------------------------------------------------------------
  // What a correct grouping is

  ghost predicate KeysUnique(g: seq<Group>) {
    forall i, j :: 0 <= i < j < |g| ==> g[i].0 != g[j].0
  }

  /** Every group holds exactly its patient's results, in list order, and
      is not empty. */
  ghost predicate GroupsExact(results: seq<StoredResult>, g: seq<Group>) {
    forall i :: 0 <= i < |g| ==> |g[i].1| > 0 && g[i].1 == ResultsOf(results, g[i].0)
  }

  /** Every result's patient has a group. */
  ghost predicate Covered(results: seq<StoredResult>, g: seq<Group>) {
    forall n :: 0 <= n < |results| ==> HasGroup(g, results[n].patientId)
  }

  ghost predicate HasGroup(g: seq<Group>, pid: nat) {
    exists i :: 0 <= i < |g| && g[i].0 == pid
  }

  /** One group per patient with results, holding exactly that patient's
      results in list order, and none empty. */
  ghost predicate GroupsOK(results: seq<StoredResult>, g: seq<Group>) {
    KeysUnique(g) && GroupsExact(results, g) && Covered(results, g)
  }

  lemma {:induction false} ResultsOfSnoc(results: seq<StoredResult>, t: StoredResult, pid: nat)
    ensures ResultsOf(results + [t], pid) == ResultsOf(results, pid) + (if t.patientId == pid then [t] else [])
  {
    assert (results + [t])[..|results|] == results;
  }

  lemma {:induction false} ResultsOfNone(results: seq<StoredResult>, pid: nat)
    requires forall n :: 0 <= n < |results| ==> results[n].patientId != pid
    ensures ResultsOf(results, pid) == []
  {
    if |results| > 0 {
      ResultsOfNone(results[..|results| - 1], pid);
    }
  }

  lemma {:induction false} TotalUpdate(g: seq<Group>, i: nat, x: Group)
    requires i < |g|
    ensures Total(g[i := x]) == Total(g) - |g[i].1| + |x.1|
  {
    var n := |g| - 1;
    if i < n {
      assert g[i := x][..n] == g[..n][i := x];
      TotalUpdate(g[..n], i, x);
    } else {
      assert g[i := x][..n] == g[..n];
    }
  }

  lemma {:induction false} TotalAppend(g: seq<Group>, x: Group)
    ensures Total(g + [x]) == Total(g) + |x.1|
  {
    assert (g + [x])[..|g|] == g;
  }

  /** A result of a patient that already has a group joins it. */
  lemma {:induction false} StepExisting(front: seq<StoredResult>, t: StoredResult, g: seq<Group>, i: nat)
    requires GroupsOK(front, g) && i < |g| && g[i].0 == t.patientId
    ensures GroupsOK(front + [t], g[i := (t.patientId, g[i].1 + [t])])
  {
    var h := g[i := (t.patientId, g[i].1 + [t])];
    assert KeysUnique(h) by {
      assert forall k :: 0 <= k < |h| ==> h[k].0 == g[k].0;
    }
    ExistingExact(front, t, g, i);
    ExistingCovered(front, t, g, i);
  }

  lemma {:induction false} ExistingExact(front: seq<StoredResult>, t: StoredResult, g: seq<Group>, i: nat)
    requires GroupsExact(front, g) && KeysUnique(g) && i < |g| && g[i].0 == t.patientId
    ensures GroupsExact(front + [t], g[i := (t.patientId, g[i].1 + [t])])
  {
    var h := g[i := (t.patientId, g[i].1 + [t])];
    forall k | 0 <= k < |h|
      ensures |h[k].1| > 0 && h[k].1 == ResultsOf(front + [t], h[k].0)
    {
      ResultsOfSnoc(front, t, g[k].0);
    }
  }

  lemma {:induction false} ExistingCovered(front: seq<StoredResult>, t: StoredResult, g: seq<Group>, i: nat)
    requires Covered(front, g) && i < |g| && g[i].0 == t.patientId
    ensures Covered(front + [t], g[i := (t.patientId, g[i].1 + [t])])
  {
    var h := g[i := (t.patientId, g[i].1 + [t])];
    var results := front + [t];
    forall n | 0 <= n < |results|
      ensures HasGroup(h, results[n].patientId)
    {
      if n < |front| {
        assert results[n] == front[n] && HasGroup(g, front[n].patientId);
        var k :| 0 <= k < |g| && g[k].0 == front[n].patientId;
        assert h[k].0 == g[k].0;
      } else {
        assert h[i].0 == t.patientId;
      }
    }
  }

  /** A result of a patient without a group opens a new one at the end. */
  lemma {:induction false} StepNew(front: seq<StoredResult>, t: StoredResult, g: seq<Group>)
    requires GroupsOK(front, g) && forall k :: 0 <= k < |g| ==> g[k].0 != t.patientId
    ensures GroupsOK(front + [t], g + [(t.patientId, [t])])
  {
    NewIsFresh(front, t, g);
    NewExact(front, t, g);
    NewCovered(front, t, g);
  }

  /** No earlier result belongs to a patient without a group. */
  lemma {:induction false} NewIsFresh(front: seq<StoredResult>, t: StoredResult, g: seq<Group>)
    requires Covered(front, g) && forall k :: 0 <= k < |g| ==> g[k].0 != t.patientId
    ensures ResultsOf(front, t.patientId) == []
  {
    forall n | 0 <= n < |front|
      ensures front[n].patientId != t.patientId
    {
      assert HasGroup(g, front[n].patientId);
      var k :| 0 <= k < |g| && g[k].0 == front[n].patientId;
    }
    ResultsOfNone(front, t.patientId);
  }

  lemma {:induction false} NewExact(front: seq<StoredResult>, t: StoredResult, g: seq<Group>)
    requires GroupsExact(front, g) && ResultsOf(front, t.patientId) == []
    requires forall k :: 0 <= k < |g| ==> g[k].0 != t.patientId
    ensures GroupsExact(front + [t], g + [(t.patientId, [t])])
  {
    var h := g + [(t.patientId, [t])];
    forall k | 0 <= k < |h|
      ensures |h[k].1| > 0 && h[k].1 == ResultsOf(front + [t], h[k].0)
    {
      ResultsOfSnoc(front, t, h[k].0);
    }
  }

  lemma {:induction false} NewCovered(front: seq<StoredResult>, t: StoredResult, g: seq<Group>)
    requires Covered(front, g)
    ensures Covered(front + [t], g + [(t.patientId, [t])])
  {
    var h := g + [(t.patientId, [t])];
    var results := front + [t];
    forall n | 0 <= n < |results|
      ensures HasGroup(h, results[n].patientId)
    {
      if n < |front| {
        assert results[n] == front[n] && HasGroup(g, front[n].patientId);
        var k :| 0 <= k < |g| && g[k].0 == front[n].patientId;
        assert h[k].0 == g[k].0;
      } else {
        assert h[|g|].0 == t.patientId;
      }
    }
  }

  lemma {:induction false} CollectCorrect(results: seq<StoredResult>)
    ensures GroupsOK(results, Collect(results))
    ensures Total(Collect(results)) == |results|
  {
    if |results| > 0 {
      var front := results[..|results| - 1];
      var t := results[|results| - 1];
      assert front + [t] == results;
      CollectCorrect(front);
      var g := Collect(front);
      var i := FindGroup(g, t.patientId);
      if i < |g| {
        StepExisting(front, t, g, i);
        TotalUpdate(g, i, (t.patientId, g[i].1 + [t]));
      } else {
        StepNew(front, t, g);
        TotalAppend(g, (t.patientId, [t]));
      }
    }
  }

  lemma {:induction false} TotalRemove(g: seq<Group>, k: nat)
    requires k < |g|
    ensures Total(g) == Total(g[..k] + g[k + 1..]) + |g[k].1|
  {
    var n := |g| - 1;
    if k < n {
      TotalRemove(g[..n], k);
      assert g[..n][..k] + g[..n][k + 1..] == (g[..k] + g[k + 1..])[..n - 1];
      assert (g[..k] + g[k + 1..])[n - 1] == g[n];
    } else {
      assert g[..k] + g[k + 1..] == g[..n];
    }
  }

  /** Reordering the groups keeps their total. */
  lemma {:induction false} TotalPermutation(a: seq<Group>, b: seq<Group>)
    requires multiset(a) == multiset(b)
    ensures Total(a) == Total(b)
    decreases |a|
  {
    if |a| > 0 {
      var n := |a| - 1;
      var x := a[n];
      assert a == a[..n] + [x];
      assert x in multiset(b);
      var k := IndexOf(x, b);
      var rest := b[..k] + b[k + 1..];
      assert b == b[..k] + [x] + b[k + 1..];
      assert multiset(rest) == multiset(b) - multiset{x};
      TotalPermutation(a[..n], rest);
      TotalRemove(b, k);
    } else {
      assert b == [];
    }
  }

  /** A reordering of a correct grouping is correct. */
  lemma {:induction false} ReorderedOK(results: seq<StoredResult>, c: seq<Group>, groups: seq<Group>)
    requires GroupsExact(results, c) && Covered(results, c)
    requires multiset(groups) == multiset(c)
    ensures GroupsExact(results, groups) && Covered(results, groups)
  {
    forall i | 0 <= i < |groups|
      ensures |groups[i].1| > 0 && groups[i].1 == ResultsOf(results, groups[i].0)
    {
      assert groups[i] in multiset(c);
      var k := IndexOf(groups[i], c);
    }
    forall n | 0 <= n < |results|
      ensures HasGroup(groups, results[n].patientId)
    {
      assert HasGroup(c, results[n].patientId);
      var k :| 0 <= k < |c| && c[k].0 == results[n].patientId;
      assert c[k] in multiset(groups);
      var i := IndexOf(c[k], groups);
    }
  }

  lemma {:induction false} IdLeIsTotalPreorder()
    ensures TotalPreorder(IdLe)
  {
  }

  /** The page lists one group per patient with results, by increasing
      id, each holding exactly that patient's results in list order, and
      together every result once. */
  lemma {:induction false} GroupByPatientCorrect(results: seq<StoredResult>)
    ensures GroupsOK(results, GroupByPatient(results))
    ensures var groups := GroupByPatient(results);
      forall i, j :: 0 <= i < j < |groups| ==> groups[i].0 < groups[j].0
    ensures Total(GroupByPatient(results)) == |results|
  {
    var c := Collect(results);
    var groups := GroupByPatient(results);
    CollectCorrect(results);
    IdLeIsTotalPreorder();
    SortBySorted(c, Key, IdLe);
    assert KeysDistinct(c, Key);
    SortByDistinct(c, Key, IdLe);
    TotalPermutation(groups, c);
    ReorderedOK(results, c, groups);
  }

  // ---------------------------------------------------------------------
  // Search

  function GroupIds(groups: seq<Group>): (ids: seq<nat>)
    ensures |ids| == |groups|
    ensures forall i :: 0 <= i < |groups| ==> ids[i] == groups[i].0
  {
    seq(|groups|, i requires 0 <= i < |groups| => groups[i].0)
  }

  /** `filteredPatientIds`: the ids of the groups whose patient is known and
      whose name contains the search, ignoring case. A group whose patient
      is not in the patient list is never shown. */
  function ShownIds(groups: seq<Group>, names: map<nat, string>, search: string): (r: seq<nat>)
    ensures forall pid :: pid in r <==>
      ((exists i :: 0 <= i < |groups| && groups[i].0 == pid)
       && pid in names && ContainsIgnoreCase(names[pid], search))
  {
    var ids := GroupIds(groups);
    assert forall pid :: pid in ids <==> exists i :: 0 <= i < |groups| && groups[i].0 == pid;
    Filter(ids, pid => pid in names && ContainsIgnoreCase(names[pid], search))
  }
}
