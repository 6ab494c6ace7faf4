/** Shared vocabulary: optional values, the string operations the front end
    and back end both lean on (lower-casing, substring search, prefixes,
    whitespace trimming) and small counting helpers. */
module Common {

  datatype Option<+T> = None | Some(value: T)

  /** An HTTP-style failure: status code and the message the caller sees. */
  datatype Error = Error(code: int, message: string)

  datatype Result<+T> = Ok(value: T) | Fail(error: Error)

  /** `x || ''` for an optional text: missing gives "". */
  function OrBlank(x: Option<string>): (r: string)
    ensures x.Some? ==> r == x.value
    ensures x.None? ==> r == ""
  {
    if x.Some? then x.value else ""
  }

  // ---------------------------------------------------------------------
  // Characters

  predicate IsDigit(c: char) { '0' <= c <= '9' }

  predicate IsUpper(c: char) { 'A' <= c <= 'Z' }

  /** Lower-casing restricted to ASCII letters; every other character is
      left as it is. */
  function LowerChar(c: char): (r: char)
    ensures IsUpper(c) ==> r as int == c as int + 32
    ensures !IsUpper(c) ==> r == c
    ensures !IsUpper(r)
  {
    if IsUpper(c) then (c as int + 32) as char else c
  }

  function Lower(s: string): (r: string)
    ensures |r| == |s|
    ensures forall i :: 0 <= i < |s| ==> r[i] == LowerChar(s[i])
  {
    if |s| == 0 then [] else [LowerChar(s[0])] + Lower(s[1..])
  }

  /** A string without ASCII capitals is its own lower-case form. */
  lemma {:induction false} LowerUnchanged(s: string)
    requires forall i :: 0 <= i < |s| ==> !IsUpper(s[i])
    ensures Lower(s) == s
  {
  }

  /** Whitespace as JavaScript's `trim`, `\s` and `parseFloat` see it. */
  predicate IsJsSpace(c: char) {
    c == ' ' || c == '\t' || c == '\n' || c == '\r' || c == '\U{000B}' || c == '\U{000C}'
    || c == '\U{00A0}' || c == '\U{1680}' || ('\U{2000}' <= c <= '\U{200A}')
    || c == '\U{2028}' || c == '\U{2029}' || c == '\U{202F}' || c == '\U{205F}'
    || c == '\U{3000}' || c == '\U{FEFF}'
  }

  /** Whitespace as Python's `str.strip()` and `float()` see it. */
  predicate IsPySpace(c: char) {
    c == ' ' || c == '\t' || c == '\n' || c == '\r' || c == '\U{000B}' || c == '\U{000C}'
    || ('\U{001C}' <= c <= '\U{001F}') || c == '\U{0085}' || c == '\U{00A0}'
    || c == '\U{1680}' || ('\U{2000}' <= c <= '\U{200A}') || c == '\U{2028}'
    || c == '\U{2029}' || c == '\U{202F}' || c == '\U{205F}' || c == '\U{3000}'
  }

  // ---------------------------------------------------------------------
  // Prefixes, substrings and replacement

  predicate StartsWith(s: string, p: string) {
    |p| <= |s| && s[..|p|] == p
  }

  lemma {:induction false} StartsWithHead(s: string, p: string)
    requires |p| > 0 && |s| > 0 && s[0] != p[0]
    ensures !StartsWith(s, p)
  {
    if |p| <= |s| {
      assert s[..|p|][0] == s[0];
    }
  }

  /** `p` occurs in `s` starting at index `i`. */
  predicate OccursAt(s: string, p: string, i: int) {
    0 <= i <= |s| - |p| && s[i..i + |p|] == p
  }

  /** `s.includes(p)` / Python's `p in s`. */
  predicate Contains(s: string, p: string) {
    exists i :: 0 <= i <= |s| - |p| && OccursAt(s, p, i)
  }

  /** Case-insensitive `includes`: both sides lower-cased first. */
  predicate ContainsIgnoreCase(s: string, p: string) {
    Contains(Lower(s), Lower(p))
  }

  lemma {:induction false} EmptyIsContained(s: string)
    ensures Contains(s, "")
  {
    assert OccursAt(s, "", 0);
  }

  /** A word whose first character never appears in `s` does not occur
      in `s`. */
  lemma {:induction false} AbsentInitialNotContained(s: string, w: string)
    requires |w| > 0 && w[0] !in s
    ensures !Contains(s, w)
  {
    forall i | 0 <= i <= |s| - |w|
      ensures !OccursAt(s, w, i)
    {
      assert s[i..i + |w|][0] == s[i];
    }
  }

  /** `s.replace(from, to)` with a string pattern: only the first
      occurrence is replaced. */
  function ReplaceFirst(s: string, from: char, to: char): (r: string)
    ensures |r| == |s|
    ensures from !in s ==> r == s
  {
    if |s| == 0 then []
    else if s[0] == from then [to] + s[1..]
    else [s[0]] + ReplaceFirst(s[1..], from, to)
  }

  /** Replacing changes at most one `from` into `to`. */
  lemma {:induction false} ReplaceFirstChars(s: string, from: char, to: char)
    ensures forall x :: x in ReplaceFirst(s, from, to) ==> x in s || x == to
    ensures forall x :: x in s && x != from ==> x in ReplaceFirst(s, from, to)
  {
    if |s| > 0 {
      ReplaceFirstChars(s[1..], from, to);
      assert forall x :: x in s ==> x == s[0] || x in s[1..];
    }
  }

  /** The first `from` is the one after a prefix that has none. */
  lemma {:induction false} ReplaceFirstAt(p: string, q: string, from: char, to: char)
    requires from !in p
    ensures ReplaceFirst(p + [from] + q, from, to) == p + [to] + q
  {
    if |p| > 0 {
      assert (p + [from] + q)[1..] == p[1..] + [from] + q;
      ReplaceFirstAt(p[1..], q, from, to);
    } else {
      assert p + [from] + q == [from] + q;
    }
  }

  /** Deletes every occurrence of `c` (`/ /g` with an empty replacement). */
  function RemoveChar(s: string, c: char): (r: string)
    ensures c !in r
    ensures |r| <= |s|
    ensures forall x :: x in r ==> x in s
  {
    if |s| == 0 then []
    else if s[0] == c then RemoveChar(s[1..], c)
    else [s[0]] + RemoveChar(s[1..], c)
  }

  lemma {:induction false} RemoveAbsent(s: string, c: char)
    requires c !in s
    ensures RemoveChar(s, c) == s
  {
    if |s| > 0 {
      RemoveAbsent(s[1..], c);
      assert [s[0]] + s[1..] == s;
    }
  }

  /** Removal works piece by piece. */
  lemma {:induction false} RemoveCharAppend(x: string, y: string, c: char)
    ensures RemoveChar(x + y, c) == RemoveChar(x, c) + RemoveChar(y, c)
  {
    if |x| > 0 {
      assert (x + y)[1..] == x[1..] + y;
      RemoveCharAppend(x[1..], y, c);
    } else {
      assert x + y == y;
    }
  }

  /** A string made only of `c` disappears. */
  lemma {:induction false} RemoveCharAll(s: string, c: char)
    requires forall i :: 0 <= i < |s| ==> s[i] == c
    ensures RemoveChar(s, c) == []
  {
    if |s| > 0 {
      RemoveCharAll(s[1..], c);
    }
  }

  /** Every other character survives the removal. */
  lemma {:induction false} RemoveCharKeeps(s: string, c: char)
    ensures forall x :: x in s && x != c ==> x in RemoveChar(s, c)
  {
    if |s| > 0 {
      RemoveCharKeeps(s[1..], c);
      assert forall x :: x in s ==> x == s[0] || x in s[1..];
    }
  }

  /** Python's `s.replace(pat, rep)`: every non-overlapping occurrence,
      scanning left to right. */
  function ReplaceAll(s: string, pat: string, rep: string): string
    requires |pat| > 0
  {
    if |s| < |pat| then s
    else if s[..|pat|] == pat then rep + ReplaceAll(s[|pat|..], pat, rep)
    else [s[0]] + ReplaceAll(s[1..], pat, rep)
  }

  lemma {:induction false} ReplaceAllAbsent(s: string, pat: string, rep: string)
    requires |pat| > 0
    requires !Contains(s, pat)
    ensures ReplaceAll(s, pat, rep) == s
  {
    if |s| < |pat| {
    } else {
      assert !OccursAt(s, pat, 0);
      assert !Contains(s[1..], pat) by {
        if Contains(s[1..], pat) {
          var i :| 0 <= i <= |s| - 1 - |pat| && OccursAt(s[1..], pat, i);
          assert s[1..][i..i + |pat|] == s[i + 1..i + 1 + |pat|];
          assert OccursAt(s, pat, i + 1);
        }
      }
      ReplaceAllAbsent(s[1..], pat, rep);
    }
  }

  /** Number of characters at the front of `s` that `isSpace` accepts. */
  function LeadingSpaces(s: string, isSpace: char -> bool): (n: nat)
    ensures n <= |s|
    ensures forall i :: 0 <= i < n ==> isSpace(s[i])
    ensures n < |s| ==> !isSpace(s[n])
  {
    if |s| > 0 && isSpace(s[0]) then
      var k := LeadingSpaces(s[1..], isSpace);
      assert forall i :: 1 <= i < k + 1 ==> s[i] == s[1..][i - 1];
      k + 1
    else 0
  }

  /** Number of characters at the back of `s` that `isSpace` accepts. */
  function TrailingSpaces(s: string, isSpace: char -> bool): (n: nat)
    ensures n <= |s|
    ensures forall i :: |s| - n <= i < |s| ==> isSpace(s[i])
    ensures n < |s| ==> !isSpace(s[|s| - n - 1])
  {
    if |s| > 0 && isSpace(s[|s| - 1]) then TrailingSpaces(s[..|s| - 1], isSpace) + 1
    else 0
  }

  /** `trim()` / `strip()`: whitespace removed from both ends. */
  function Trim(s: string, isSpace: char -> bool): (r: string)
    ensures |r| > 0 ==> !isSpace(r[0]) && !isSpace(r[|r| - 1])
  {
    var t := s[LeadingSpaces(s, isSpace)..];
    t[..|t| - TrailingSpaces(t, isSpace)]
  }

  /** Trimming a string that neither begins nor ends with whitespace
      leaves it as it is. */
  lemma {:induction false} TrimUnchanged(s: string, isSpace: char -> bool)
    requires |s| > 0 ==> !isSpace(s[0]) && !isSpace(s[|s| - 1])
    ensures Trim(s, isSpace) == s
  {
    assert LeadingSpaces(s, isSpace) == 0;
    assert s[0..] == s;
    assert TrailingSpaces(s, isSpace) == 0;
    assert s[..|s|] == s;
  }

  /** Whitespace around a word that neither begins nor ends with
      whitespace is exactly what trimming removes. */
  lemma {:induction false} TrimPadded(pre: string, core: string, post: string, isSpace: char -> bool)
    requires |core| > 0 && !isSpace(core[0]) && !isSpace(core[|core| - 1])
    requires forall i :: 0 <= i < |pre| ==> isSpace(pre[i])
    requires forall i :: 0 <= i < |post| ==> isSpace(post[i])
    ensures LeadingSpaces(pre + core + post, isSpace) == |pre|
    ensures Trim(pre + core + post, isSpace) == core
  {
    var s := pre + core + post;
    LeadingSpacesExact(s, |pre|, isSpace);
    var t := s[|pre|..];
    assert t == core + post;
    TrailingSpacesExact(t, |post|, isSpace);
    assert t[..|t| - |post|] == core;
  }

  /** A run of `k` spaces followed by a non-space is what `LeadingSpaces`
      measures. */
  lemma {:induction false} LeadingSpacesExact(s: string, k: nat, isSpace: char -> bool)
    requires k < |s| && !isSpace(s[k])
    requires forall i :: 0 <= i < k ==> isSpace(s[i])
    ensures LeadingSpaces(s, isSpace) == k
  {
  }

  lemma {:induction false} TrailingSpacesExact(s: string, k: nat, isSpace: char -> bool)
    requires k < |s| && !isSpace(s[|s| - k - 1])
    requires forall i :: |s| - k <= i < |s| ==> isSpace(s[i])
    ensures TrailingSpaces(s, isSpace) == k
  {
  }

  /** Trimming keeps a slice of the string. */
  lemma {:induction false} TrimSlice(s: string, isSpace: char -> bool)
    ensures var l := LeadingSpaces(s, isSpace);
      var r := Trim(s, isSpace);
      l + |r| <= |s| && r == s[l..l + |r|]
      && s == s[..l] + r + s[l + |r|..]
  {
  }

  /** When `c` is the only whitespace character in `s`, removing every
      `c` makes trimming first irrelevant. */
  lemma {:induction false} RemoveCharTrim(s: string, isSpace: char -> bool, c: char)
    requires forall i :: 0 <= i < |s| && isSpace(s[i]) ==> s[i] == c
    ensures forall x :: x in Trim(s, isSpace) ==> x in s
    ensures RemoveChar(Trim(s, isSpace), c) == RemoveChar(s, c)
  {
    var l := LeadingSpaces(s, isSpace);
    var r := Trim(s, isSpace);
    TrimSlice(s, isSpace);
    var head, tail := s[..l], s[l + |r|..];
    assert forall i :: 0 <= i < |head| ==> head[i] == c;
    assert forall i :: 0 <= i < |tail| ==> tail[i] == c by {
      var t := s[l..];
      var n := TrailingSpaces(t, isSpace);
      assert |r| == |t| - n;
      forall i | 0 <= i < |tail|
        ensures tail[i] == c
      {
        assert tail[i] == t[|t| - n + i];
      }
    }
    RemoveCharAll(head, c);
    RemoveCharAll(tail, c);
    RemoveCharAppend(head, r, c);
    RemoveCharAppend(head + r, tail, c);
  }

  /** Python's `s.split(sep)` for a one-character separator. */
  function Split(s: string, sep: char): (parts: seq<string>)
    ensures |parts| >= 1
    ensures forall k :: 0 <= k < |parts| ==> sep !in parts[k]
  {
    if |s| == 0 then [""]
    else
      var rest := Split(s[1..], sep);
      if s[0] == sep then [""] + rest
      else [[s[0]] + rest[0]] + rest[1..]
  }

  // ---------------------------------------------------------------------
  // Sequences

  /** `xs.filter(keep)`: the elements `keep` accepts, in their order. */
  function Filter<T(!new)>(xs: seq<T>, keep: T -> bool): (r: seq<T>)
    ensures |r| <= |xs|
    ensures forall i :: 0 <= i < |r| ==> keep(r[i])
    ensures forall x :: x in r <==> x in xs && keep(x)
  {
    if |xs| == 0 then []
    else
      var front := Filter(xs[..|xs| - 1], keep);
      var x := xs[|xs| - 1];
      assert forall y :: y in xs <==> y in xs[..|xs| - 1] || y == x;
      if keep(x) then front + [x] else front
  }

  /** Filtering commutes with concatenation, so the kept elements keep
      their relative order. */
  lemma {:induction false} FilterAppend<T(!new)>(xs: seq<T>, ys: seq<T>, keep: T -> bool)
    ensures Filter(xs + ys, keep) == Filter(xs, keep) + Filter(ys, keep)
    decreases |ys|
  {
    if |ys| > 0 {
      var n := |ys| - 1;
      assert (xs + ys)[..|xs + ys| - 1] == xs + ys[..n];
      FilterAppend(xs, ys[..n], keep);
    } else {
      assert xs + ys == xs;
    }
  }

  /** Nothing is dropped when every element is accepted. */
  lemma {:induction false} FilterKeepsAll<T(!new)>(xs: seq<T>, keep: T -> bool)
    requires forall i :: 0 <= i < |xs| ==> keep(xs[i])
    ensures Filter(xs, keep) == xs
  {
    if |xs| > 0 {
      FilterKeepsAll(xs[..|xs| - 1], keep);
      assert xs[..|xs| - 1] + [xs[|xs| - 1]] == xs;
    }
  }

  /** Index of the first element `p` accepts, or |xs| when none does
      (`findIndex` and `find`, with "not found" as the length). */
  function FirstIndex<T>(xs: seq<T>, p: T -> bool): (k: nat)
    ensures k <= |xs|
    ensures k < |xs| ==> p(xs[k])
    ensures forall j :: 0 <= j < k ==> !p(xs[j])
  {
    if |xs| == 0 || p(xs[0]) then 0 else FirstIndex(xs[1..], p) + 1
  }

  function Sum(xs: seq<int>): int
  {
    if |xs| == 0 then 0 else Sum(xs[..|xs| - 1]) + xs[|xs| - 1]
  }

  /** How many elements `p` accepts. */
  function Count<T>(xs: seq<T>, p: T -> bool): (n: nat)
    ensures n <= |xs|
  {
    if |xs| == 0 then 0 else Count(xs[..|xs| - 1], p) + (if p(xs[|xs| - 1]) then 1 else 0)
  }

  lemma {:induction false} CountSnoc<T>(xs: seq<T>, x: T, p: T -> bool)
    ensures Count(xs + [x], p) == Count(xs, p) + (if p(x) then 1 else 0)
  {
    assert (xs + [x])[..|xs|] == xs;
  }

  /** Removes repeated elements, keeping each one's first occurrence
      (`Array.from(new Set(xs))`). */
  function Distinct(xs: seq<string>): (r: seq<string>)
    ensures forall i, j :: 0 <= i < j < |r| ==> r[i] != r[j]
    ensures forall x :: x in r <==> x in xs
    ensures |r| <= |xs|
    ensures forall i, j, k :: 0 <= i < j < |r| && 0 <= k < |xs| && xs[k] == r[j] ==> r[i] in xs[..k]
  {
    if |xs| == 0 then []
    else
      var prev := Distinct(xs[..|xs| - 1]);
      assert forall x :: x in xs <==> x in xs[..|xs| - 1] || x == xs[|xs| - 1];
      assert forall k :: 0 <= k < |xs| - 1 ==> xs[..|xs| - 1][..k] == xs[..k];
      if xs[|xs| - 1] in prev then prev else prev + [xs[|xs| - 1]]
  }
}
