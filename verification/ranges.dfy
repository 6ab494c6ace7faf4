/** The plain numeric interval `L-H` that every range evaluator in the
    system recognises first: the regular expression
    `^(\d+(?:\.\d+)?)-(\d+(?:\.\d+)?)$` applied to a range string whose
    spaces have already been removed. */
module Ranges {
  import opened Common
  import opened Numbers

  /** `range.replace('–', '-').replace(/ /g, '')` in the browser: the
      first en-dash made a hyphen, then every space removed. */
  function Cleaned(range: string): (r: string)
    ensures ' ' !in r
    ensures forall x :: x in r ==> x in range || x == '-'
    ensures forall x :: x in range && x != ' ' && x != '–' ==> x in r
  {
    var t := ReplaceFirst(range, '–', '-');
    ReplaceFirstChars(range, '–', '-');
    RemoveCharKeeps(t, ' ');
    RemoveChar(t, ' ')
  }

  /** Index of the first '-' in `s`, or |s| when there is none. */
  function FirstDash(s: string): (k: nat)
    ensures k <= |s|
    ensures k < |s| ==> s[k] == '-'
    ensures forall i :: 0 <= i < k ==> s[i] != '-'
  {
    if |s| == 0 || s[0] == '-' then 0
    else FirstDash(s[1..]) + 1
  }

  lemma {:induction false} FirstDashExact(s: string, k: nat)
    requires k < |s| && s[k] == '-'
    requires forall i :: 0 <= i < k ==> s[i] != '-'
    ensures FirstDash(s) == k
  {
    if k > 0 {
      assert forall i :: 0 <= i < k - 1 ==> s[1..][i] == s[i + 1];
      FirstDashExact(s[1..], k - 1);
    }
  }

  /** The regular expression applied to the whole of `range`, with both
      captured groups read as numbers: `Some((low, high))` on a match. */
  function MatchInterval(range: string): (r: Option<(real, real)>)
    ensures r.Some? ==> exists k :: (0 <= k < |range| && range[k] == '-'
      && NumberToken(range[..k]) == Some(r.value.0) && NumberToken(range[k + 1..]) == Some(r.value.1))
  {
    var k := FirstDash(range);
    if k == |range| then None
    else
      match (NumberToken(range[..k]), NumberToken(range[k + 1..]))
      case (Some(low), Some(high)) => Some((low, high))
      case _ => None
  }

  /** What the regular expression accepts: two number tokens joined by
      one '-'. */
  predicate IsInterval(range: string) {
    exists k :: 0 <= k < |range| && range[k] == '-'
      && IsNumberToken(range[..k]) && IsNumberToken(range[k + 1..])
  }

  lemma {:induction false} TokenHasNoDash(s: string)
    requires IsNumberToken(s)
    ensures '-' !in s
  {
    if !(|s| > 0 && AllDigits(s)) {
      var k :| 0 < k < |s| - 1 && s[k] == '.' && AllDigits(s[..k]) && AllDigits(s[k + 1..]);
      assert forall i :: 0 <= i < |s| && i != k ==> (i < k ==> s[i] == s[..k][i]) && (i > k ==> s[i] == s[k + 1..][i - k - 1]);
    }
  }

  /** The matcher accepts exactly the strings the regular expression
      accepts. */
  lemma {:induction false} MatchIntervalAccepts(range: string)
    ensures MatchInterval(range).Some? <==> IsInterval(range)
  {
    if MatchInterval(range).Some? {
      MatchedIsInterval(range);
    }
    if IsInterval(range) {
      IntervalIsMatched(range);
    }
  }

  lemma {:induction false} MatchedIsInterval(range: string)
    requires MatchInterval(range).Some?
    ensures IsInterval(range)
  {
    var low, high := MatchInterval(range).value.0, MatchInterval(range).value.1;
    var k :| 0 <= k < |range| && range[k] == '-'
      && NumberToken(range[..k]) == Some(low) && NumberToken(range[k + 1..]) == Some(high);
    NumberTokenAccepts(range[..k]);
    NumberTokenAccepts(range[k + 1..]);
  }

  lemma {:induction false} IntervalIsMatched(range: string)
    requires IsInterval(range)
    ensures MatchInterval(range).Some?
  {
    var j :| 0 <= j < |range| && range[j] == '-'
      && IsNumberToken(range[..j]) && IsNumberToken(range[j + 1..]);
    TokenHasNoDash(range[..j]);
    assert forall i :: 0 <= i < j ==> range[i] != '-' by {
      assert forall i :: 0 <= i < j ==> range[i] == range[..j][i];
    }
    FirstDashExact(range, j);
    NumberTokenAccepts(range[..j]);
    NumberTokenAccepts(range[j + 1..]);
  }

  /** Writing two tokens around a dash and matching gives them back. */
  lemma {:induction false} MatchIntervalOf(a: string, b: string)
    requires NumberToken(a).Some? && NumberToken(b).Some?
    ensures MatchInterval(a + "-" + b) == Some((NumberToken(a).value, NumberToken(b).value))
  {
    var r := a + "-" + b;
    NumberTokenAccepts(a);
    TokenHasNoDash(a);
    assert forall i :: 0 <= i < |a| ==> r[i] == a[i];
    FirstDashExact(r, |a|);
    assert r[..|a|] == a;
    assert r[|a| + 1..] == b;
  }

  /** A matched interval string is made only of digits, dots and one dash. */
  lemma {:induction false} IntervalAlphabet(range: string)
    requires MatchInterval(range).Some?
    ensures forall i :: 0 <= i < |range| ==> IsDigit(range[i]) || range[i] == '.' || range[i] == '-'
  {
    var low, high := MatchInterval(range).value.0, MatchInterval(range).value.1;
    var k :| 0 <= k < |range| && range[k] == '-'
      && NumberToken(range[..k]) == Some(low) && NumberToken(range[k + 1..]) == Some(high);
    var a, b := range[..k], range[k + 1..];
    NumberTokenAccepts(a);
    NumberTokenAccepts(b);
    TokenAlphabet(a);
    TokenAlphabet(b);
    SplitAlphabet(range, k, a, b);
  }

  lemma {:induction false} SplitAlphabet(range: string, k: nat, a: string, b: string)
    requires k < |range| && range[k] == '-' && a == range[..k] && b == range[k + 1..]
    requires forall i :: 0 <= i < |a| ==> IsDigit(a[i]) || a[i] == '.'
    requires forall i :: 0 <= i < |b| ==> IsDigit(b[i]) || b[i] == '.'
    ensures forall i :: 0 <= i < |range| ==> IsDigit(range[i]) || range[i] == '.' || range[i] == '-'
  {
    forall i | 0 <= i < |range|
      ensures IsDigit(range[i]) || range[i] == '.' || range[i] == '-'
    {
      if i < k { assert range[i] == a[i]; }
      else if i > k { assert range[i] == b[i - k - 1]; }
    }
  }

  lemma {:induction false} TokenAlphabet(s: string)
    requires IsNumberToken(s)
    ensures forall i :: 0 <= i < |s| ==> IsDigit(s[i]) || s[i] == '.'
  {
    if !(|s| > 0 && AllDigits(s)) {
      var k :| 0 < k < |s| - 1 && s[k] == '.' && AllDigits(s[..k]) && AllDigits(s[k + 1..]);
      forall i | 0 <= i < |s|
        ensures IsDigit(s[i]) || s[i] == '.'
      {
        if i < k { assert s[i] == s[..k][i]; }
        else if i > k { assert s[i] == s[k + 1..][i - k - 1]; }
      }
    }
  }

  lemma {:induction false} TokenStartsWithDigit(s: string)
    requires IsNumberToken(s)
    ensures |s| > 0 && IsDigit(s[0])
  {
    if !(|s| > 0 && AllDigits(s)) {
      var k :| 0 < k < |s| - 1 && s[k] == '.' && AllDigits(s[..k]) && AllDigits(s[k + 1..]);
      assert s[..k][0] == s[0];
    }
  }

  /** An interval begins with a digit, so a range beginning with any other
      character is never read as an interval. */
  lemma {:induction false} IntervalStartsWithDigit(range: string)
    ensures MatchInterval(range).Some? ==> |range| > 0 && IsDigit(range[0])
  {
    var k := FirstDash(range);
    if k < |range| && NumberToken(range[..k]).Some? {
      NumberTokenAccepts(range[..k]);
      TokenStartsWithDigit(range[..k]);
      assert range[..k][0] == range[0];
    }
  }
}
