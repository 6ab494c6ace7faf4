/** Stable sorting by a key, as Python's `list.sort(key=…)` and
    JavaScript's `Array.prototype.sort` both do, and Python's string order,
    the key order of the catalog. Strings compare code point by code point,
    and a proper prefix comes first. */
module Sorting {
  import opened Common

  /** `a < b` on Python strings. */
  predicate LexLess(a: string, b: string)
    decreases |a|
  {
    if |a| == 0 then |b| > 0
    else if |b| == 0 then false
    else if a[0] != b[0] then a[0] < b[0]
    else LexLess(a[1..], b[1..])
  }

  predicate LexLe(a: string, b: string) {
    a == b || LexLess(a, b)
  }

  lemma {:induction false} LexLessIrreflexive(a: string)
    ensures !LexLess(a, a)
    decreases |a|
  {
    if |a| > 0 {
      LexLessIrreflexive(a[1..]);
    }
  }

  /** Any two strings are ordered one way or the other. */
  lemma {:induction false} LexTotal(a: string, b: string)
    ensures LexLe(a, b) || LexLess(b, a)
    decreases |a|
  {
    if |a| > 0 && |b| > 0 && a[0] == b[0] {
      LexTotal(a[1..], b[1..]);
      if a[1..] == b[1..] {
        assert a == [a[0]] + a[1..] && b == [b[0]] + b[1..];
      }
    }
  }

  lemma {:induction false} LexLessAsymmetric(a: string, b: string)
    requires LexLess(a, b)
    ensures !LexLess(b, a)
    decreases |a|
  {
    if |a| > 0 && |b| > 0 && a[0] == b[0] {
      LexLessAsymmetric(a[1..], b[1..]);
    }
  }

  lemma {:induction false} LexLessTransitive(a: string, b: string, c: string)
    requires LexLess(a, b) && LexLess(b, c)
    ensures LexLess(a, c)
    decreases |a|
  {
    if |a| > 0 && a[0] == b[0] && b[0] == c[0] {
      LexLessTransitive(a[1..], b[1..], c[1..]);
    }
  }

  lemma {:induction false} LexLeTransitive(a: string, b: string, c: string)
    requires LexLe(a, b) && LexLe(b, c)
    ensures LexLe(a, c)
  {
    if a != b && b != c {
      LexLessTransitive(a, b, c);
    }
  }

  /** Python's string order is a total order. */
  lemma {:induction false} LexIsTotalPreorder()
    ensures TotalPreorder(LexLe)
  {
    forall a: string, b: string
      ensures LexLe(a, b) || LexLe(b, a)
    {
      LexTotal(a, b);
    }
    forall a: string, b: string, c: string | LexLe(a, b) && LexLe(b, c)
      ensures LexLe(a, c)
    {
      LexLeTransitive(a, b, c);
    }
  }

  // ---------------------------------------------------------------------
  // Stable sort by a key

  /** `le` compares every pair of keys and is transitive. */
  ghost predicate TotalPreorder<K(!new)>(le: (K, K) -> bool) {
    && (forall a, b :: le(a, b) || le(b, a))
    && (forall a, b, c :: le(a, b) && le(b, c) ==> le(a, c))
  }

  ghost predicate SortedBy<T, K>(xs: seq<T>, key: T -> K, le: (K, K) -> bool) {
    forall i, j :: 0 <= i < j < |xs| ==> le(key(xs[i]), key(xs[j]))
  }

  /** Puts `x` in front of the first element whose key is not below its
      own: `x` lands after every smaller key and before every equal one. */
  function Insert<T, K>(x: T, ys: seq<T>, key: T -> K, le: (K, K) -> bool): (r: seq<T>)
    ensures |r| == |ys| + 1
    ensures multiset(r) == multiset(ys) + multiset{x}
  {
    if |ys| == 0 then [x]
    else if le(key(x), key(ys[0])) then [x] + ys
    else
      assert ys == [ys[0]] + ys[1..];
      [ys[0]] + Insert(x, ys[1..], key, le)
  }

  /** The stable sort: sorting from the back, each element is placed before
      the equal keys that follow it in the input. */
  function SortBy<T, K>(xs: seq<T>, key: T -> K, le: (K, K) -> bool): (r: seq<T>)
    ensures |r| == |xs|
    ensures multiset(r) == multiset(xs)
  {
    if |xs| == 0 then []
    else
      assert xs == [xs[0]] + xs[1..];
      Insert(xs[0], SortBy(xs[1..], key, le), key, le)
  }

  /** An element of a sequence sits at some index of it. */
  lemma {:induction false} IndexOf<T>(z: T, xs: seq<T>) returns (k: nat)
    requires z in multiset(xs)
    ensures k < |xs| && xs[k] == z
  {
    assert z in xs;
    k :| 0 <= k < |xs| && xs[k] == z;
  }

  lemma {:induction false} InsertSorted<T, K(!new)>(x: T, ys: seq<T>, key: T -> K, le: (K, K) -> bool)
    requires TotalPreorder(le)
    requires SortedBy(ys, key, le)
    ensures SortedBy(Insert(x, ys, key, le), key, le)
    decreases |ys|
  {
    if |ys| > 0 && !le(key(x), key(ys[0])) {
      var rest := Insert(x, ys[1..], key, le);
      InsertSorted(x, ys[1..], key, le);
      var r := [ys[0]] + rest;
      forall j | 0 < j < |r|
        ensures le(key(ys[0]), key(r[j]))
      {
        var z := r[j];
        assert z == rest[j - 1];
        assert z in multiset(rest);
        if z != x {
          var k := IndexOf(z, ys[1..]);
          assert ys[k + 1] == z;
        }
      }
    }
  }

  /** The sort orders by key and keeps every element exactly as often. */
  lemma {:induction false} SortBySorted<T, K(!new)>(xs: seq<T>, key: T -> K, le: (K, K) -> bool)
    requires TotalPreorder(le)
    ensures SortedBy(SortBy(xs, key, le), key, le)
    ensures multiset(SortBy(xs, key, le)) == multiset(xs)
    decreases |xs|
  {
    if |xs| > 0 {
      SortBySorted(xs[1..], key, le);
      InsertSorted(xs[0], SortBy(xs[1..], key, le), key, le);
    }
  }

  // ---------------------------------------------------------------------
  // Stability and distinct keys

  /** The elements with key `k`, in order. */
  ghost function WithKey<T, K>(xs: seq<T>, key: T -> K, k: K): (r: seq<T>)
    ensures |r| <= |xs|
    ensures forall i :: 0 <= i < |r| ==> key(r[i]) == k
  {
    if |xs| == 0 then []
    else (if key(xs[0]) == k then [xs[0]] else []) + WithKey(xs[1..], key, k)
  }

  lemma {:induction false} InsertStable<T, K(!new)>(x: T, ys: seq<T>, key: T -> K, le: (K, K) -> bool, k: K)
    requires TotalPreorder(le)
    ensures WithKey(Insert(x, ys, key, le), key, k) == WithKey([x] + ys, key, k)
    decreases |ys|
  {
    assert ([x] + ys)[1..] == ys;
    if |ys| > 0 && !le(key(x), key(ys[0])) {
      InsertStable(x, ys[1..], key, le, k);
      var r := [ys[0]] + Insert(x, ys[1..], key, le);
      assert r[1..] == Insert(x, ys[1..], key, le);
      assert ([x] + ys[1..])[1..] == ys[1..];
      assert le(key(ys[0]), key(ys[0]));
    }
  }

  /** Elements with equal keys keep their input order. */
  lemma {:induction false} SortByStable<T, K(!new)>(xs: seq<T>, key: T -> K, le: (K, K) -> bool, k: K)
    requires TotalPreorder(le)
    ensures WithKey(SortBy(xs, key, le), key, k) == WithKey(xs, key, k)
    decreases |xs|
  {
    if |xs| > 0 {
      SortByStable(xs[1..], key, le, k);
      InsertStable(xs[0], SortBy(xs[1..], key, le), key, le, k);
      assert ([xs[0]] + SortBy(xs[1..], key, le))[1..] == SortBy(xs[1..], key, le);
    }
  }

  ghost predicate KeysDistinct<T, K>(xs: seq<T>, key: T -> K) {
    forall i, j :: 0 <= i < j < |xs| ==> key(xs[i]) != key(xs[j])
  }

  lemma {:induction false} InsertDistinct<T, K>(x: T, ys: seq<T>, key: T -> K, le: (K, K) -> bool)
    requires KeysDistinct(ys, key)
    requires forall i :: 0 <= i < |ys| ==> key(ys[i]) != key(x)
    ensures KeysDistinct(Insert(x, ys, key, le), key)
    decreases |ys|
  {
    if |ys| > 0 && !le(key(x), key(ys[0])) {
      var rest := Insert(x, ys[1..], key, le);
      InsertDistinct(x, ys[1..], key, le);
      var r := [ys[0]] + rest;
      forall j | 0 < j < |r|
        ensures key(ys[0]) != key(r[j])
      {
        var z := r[j];
        assert z == rest[j - 1];
        assert z in multiset(rest);
        if z != x {
          var k := IndexOf(z, ys[1..]);
          assert ys[k + 1] == z;
        }
      }
    }
  }

  /** Sorting a list whose keys are pairwise different keeps them so. */
  lemma {:induction false} SortByDistinct<T, K>(xs: seq<T>, key: T -> K, le: (K, K) -> bool)
    requires KeysDistinct(xs, key)
    ensures KeysDistinct(SortBy(xs, key, le), key)
    decreases |xs|
  {
    if |xs| > 0 {
      var s := SortBy(xs[1..], key, le);
      SortByDistinct(xs[1..], key, le);
      forall i | 0 <= i < |s|
        ensures key(s[i]) != key(xs[0])
      {
        assert s[i] in multiset(xs[1..]);
        var k := IndexOf(s[i], xs[1..]);
        assert xs[k + 1] == s[i];
      }
      InsertDistinct(xs[0], s, key, le);
    }
  }

  // ---------------------------------------------------------------------
  // Keeping the first n

  /** `xs.slice(0, n)`. */
  function Take<T>(xs: seq<T>, n: nat): (r: seq<T>)
    ensures |r| <= n && |r| <= |xs|
    ensures |r| == if |xs| < n then |xs| else n
    ensures r == xs[..|r|]
  {
    if |xs| <= n then xs else xs[..n]
  }

  lemma {:induction false} TakeSorted<T, K>(xs: seq<T>, n: nat, key: T -> K, le: (K, K) -> bool)
    requires SortedBy(xs, key, le)
    ensures SortedBy(Take(xs, n), key, le)
  {
    var r := Take(xs, n);
    forall i, j | 0 <= i < j < |r|
      ensures le(key(r[i]), key(r[j]))
    {
      assert r[i] == xs[i] && r[j] == xs[j];
    }
  }
}
