/** Decimal numbers as the two runtimes read them from text.

    - `NumberToken` is the regular-expression token `\d+(\.\d+)?` that both
      range matchers capture, read as a number.
    - `JsParseFloat` is JavaScript's `parseFloat`: it skips leading
      whitespace and reads the longest decimal prefix, so "12 mg" is 12.
    - `PyFloat` is Python's `float()`: the whole string, once stripped, must
      be a number, otherwise it raises.
    - `JsParseInt` is `parseInt(s, 10)`.
    `None` stands for JavaScript's NaN and for Python's `ValueError`.
    Exponents, `Infinity`/`inf`/`nan` and digit-group underscores are not
    part of this model. */
module Numbers {
  import opened Common

  function DigitValue(c: char): nat
    requires IsDigit(c)
  {
    c as int - '0' as int
  }

  predicate AllDigits(s: string) {
    forall i :: 0 <= i < |s| ==> IsDigit(s[i])
  }

  /** The value of a string of decimal digits (the empty string is 0). */
  function DigitsValue(s: string): nat
    requires AllDigits(s)
  {
    if |s| == 0 then 0 else DigitsValue(s[..|s| - 1]) * 10 + DigitValue(s[|s| - 1])
  }

  function Pow10(n: nat): (p: nat)
    ensures p >= 1
  {
    if n == 0 then 1 else 10 * Pow10(n - 1)
  }

  /** Length of the run of digits at the front of `s`. */
  function LeadingDigits(s: string): (n: nat)
    ensures n <= |s|
    ensures AllDigits(s[..n])
    ensures n < |s| ==> !IsDigit(s[n])
  {
    if |s| > 0 && IsDigit(s[0]) then
      LeadingDigits(s[1..]) + 1
    else 0
  }

  lemma {:induction false} LeadingDigitsOfDigits(s: string)
    requires AllDigits(s)
    ensures LeadingDigits(s) == |s|
  {
  }

  /** A run of `k` digits followed by a non-digit (or the end) is exactly
      what `LeadingDigits` measures. */
  lemma {:induction false} LeadingDigitsExact(s: string, k: nat)
    requires k <= |s| && AllDigits(s[..k])
    requires k < |s| ==> !IsDigit(s[k])
    ensures LeadingDigits(s) == k
  {
    if k > 0 {
      assert IsDigit(s[..k][0]);
      assert s[1..][..k - 1] == s[1..k];
      assert forall i :: 0 <= i < k - 1 ==> s[1..k][i] == s[..k][i + 1];
      LeadingDigitsExact(s[1..], k - 1);
    }
  }

  /** The number written `ip.fp`. */
  function Decimal(ip: string, fp: string): real
    requires AllDigits(ip) && AllDigits(fp)
  {
    DigitsValue(ip) as real + DigitsValue(fp) as real / Pow10(|fp|) as real
  }

  /** A decimal with an empty fractional part is its integer part. */
  lemma {:induction false} DecimalNoFraction(ip: string)
    requires AllDigits(ip)
    ensures Decimal(ip, "") == DigitsValue(ip) as real
  {
  }

  // ---------------------------------------------------------------------
  // The regular-expression token \d+(\.\d+)?

  /** `s` read as the token `\d+(\.\d+)?` in full, or `None` when `s` is
      not such a token. */
  function NumberToken(s: string): Option<real>
  {
    var n := LeadingDigits(s);
    if n == 0 then None
    else if n == |s| then Some(DigitsValue(s) as real)
    else if s[n] == '.' && n + 1 < |s| && LeadingDigits(s[n + 1..]) == |s| - n - 1 then
      Some(Decimal(s[..n], s[n + 1..]))
    else None
  }

  /** The token grammar spelled out: digits, optionally a dot and more
      digits. */
  predicate IsNumberToken(s: string) {
    (|s| > 0 && AllDigits(s))
    || exists k :: 0 < k < |s| - 1 && s[k] == '.' && AllDigits(s[..k]) && AllDigits(s[k + 1..])
  }

  /** `NumberToken` accepts exactly the token grammar, and a token's
      value is that of its integer and fractional digits. */
  lemma {:induction false} NumberTokenAccepts(s: string)
    ensures NumberToken(s).Some? <==> IsNumberToken(s)
  {
    var n := LeadingDigits(s);
    if IsNumberToken(s) && !(|s| > 0 && AllDigits(s)) {
      var k :| 0 < k < |s| - 1 && s[k] == '.' && AllDigits(s[..k]) && AllDigits(s[k + 1..]);
      LeadingDigitsExact(s, k);
      LeadingDigitsOfDigits(s[k + 1..]);
    }
    if NumberToken(s).Some? && n < |s| {
      assert 0 < n < |s| - 1 && s[n] == '.' && AllDigits(s[..n]);
    }
  }

  lemma {:induction false} NumberTokenOfDigits(ip: string)
    requires |ip| > 0 && AllDigits(ip)
    ensures NumberToken(ip) == Some(DigitsValue(ip) as real)
  {
  }

  lemma {:induction false} NumberTokenOfDecimal(ip: string, fp: string)
    requires |ip| > 0 && AllDigits(ip) && |fp| > 0 && AllDigits(fp)
    ensures NumberToken(ip + "." + fp) == Some(Decimal(ip, fp))
  {
    var s := ip + "." + fp;
    assert s[..|ip| + 1][|ip|] == '.';
    assert s[..|ip|] == ip;
    LeadingDigitsExact(s, |ip|);
    assert s[|ip| + 1..] == fp;
    assert s[..|ip|] == ip;
  }

  /** The first match of `\d+(\.\d+)?` anywhere in `s` (Python's
      `re.findall(...)[0]`), read by `float()`; `None` when there is no
      match, which is an `IndexError` in the source. */
  function FirstNumber(s: string): (r: Option<real>)
    ensures r.None? <==> forall i :: 0 <= i < |s| ==> !IsDigit(s[i])
    decreases |s|
  {
    if |s| == 0 then None
    else if !IsDigit(s[0]) then FirstNumber(s[1..])
    else
      var n := LeadingDigits(s);
      if n + 1 < |s| && s[n] == '.' && IsDigit(s[n + 1]) then
        var f := LeadingDigits(s[n + 1..]);
        Some(Decimal(s[..n], s[n + 1..][..f]))
      else Some(DigitsValue(s[..n]) as real)
  }

  // ---------------------------------------------------------------------
  // JavaScript parseFloat / parseInt

  function Negate(r: Option<real>): Option<real> {
    match r
    case None => None
    case Some(v) => Some(-v)
  }

  /** The longest unsigned decimal prefix of `u`: digits, then optionally a
      dot and digits, with at least one digit somewhere. */
  function DecimalPrefix(u: string): Option<real>
  {
    var n := LeadingDigits(u);
    if n < |u| && u[n] == '.' then
      var f := LeadingDigits(u[n + 1..]);
      if n == 0 && f == 0 then None else Some(Decimal(u[..n], u[n + 1..][..f]))
    else if n == 0 then None
    else Some(DigitsValue(u[..n]) as real)
  }

  /** `u` begins the way a decimal number can: with a digit, or with a
      dot followed by a digit. */
  predicate StartsDecimal(u: string) {
    |u| > 0 && (IsDigit(u[0]) || (u[0] == '.' && |u| > 1 && IsDigit(u[1])))
  }

  /** The longest decimal prefix exists exactly when the text starts like
      a number, and it is never negative. */
  lemma {:induction false} DecimalPrefixSome(u: string)
    ensures DecimalPrefix(u).Some? <==> StartsDecimal(u)
    ensures DecimalPrefix(u).Some? ==> DecimalPrefix(u).value >= 0.0
  {
    var n := LeadingDigits(u);
    if n > 0 {
      assert u[..n][0] == u[0];
    } else if |u| > 1 && u[0] == '.' {
      assert u[1..][0] == u[1];
      if IsDigit(u[1]) {
        assert u[1..][..1] == [u[1]];
      }
    }
  }

  /** The text after the whitespace `parseFloat` and `parseInt` skip. */
  function JsTail(s: string): string {
    s[LeadingSpaces(s, IsJsSpace)..]
  }

  predicate IsSign(c: char) { c == '-' || c == '+' }

  /** `u` without its sign, if it has one. */
  function Unsigned(u: string): string {
    if |u| > 0 && IsSign(u[0]) then u[1..] else u
  }

  /** An optional sign, then the longest decimal prefix. */
  function SignedPrefix(t: string): Option<real> {
    if |t| > 0 && t[0] == '-' then Negate(DecimalPrefix(t[1..]))
    else DecimalPrefix(Unsigned(t))
  }

  lemma {:induction false} SignedPrefixSome(t: string)
    ensures SignedPrefix(t).Some? <==> StartsDecimal(t) || (|t| > 0 && IsSign(t[0]) && StartsDecimal(t[1..]))
    ensures SignedPrefix(t).Some? && SignedPrefix(t).value < 0.0 ==> |t| > 0 && t[0] == '-'
  {
    DecimalPrefixSome(Unsigned(t));
    if |t| > 0 && IsSign(t[0]) {
      assert !StartsDecimal(t);
    }
  }

  /** `parseFloat(s)`: leading whitespace skipped, an optional sign, then
      the longest decimal prefix; `None` is NaN. */
  function JsParseFloat(s: string): (r: Option<real>)
    ensures var t := JsTail(s);
      r.Some? <==> StartsDecimal(t) || (|t| > 0 && IsSign(t[0]) && StartsDecimal(t[1..]))
    ensures var t := JsTail(s);
      r.Some? && r.value < 0.0 ==> |t| > 0 && t[0] == '-'
  {
    SignedPrefixSome(JsTail(s));
    SignedPrefix(JsTail(s))
  }

  /** `parseInt(s, 10)`: leading whitespace skipped, an optional sign, then
      the longest run of digits; `None` is NaN. */
  function JsParseInt(s: string): (r: Option<int>)
    ensures var t := JsTail(s);
      var u := if |t| > 0 && IsSign(t[0]) then t[1..] else t;
      r.Some? <==> |u| > 0 && IsDigit(u[0])
    ensures var t := JsTail(s);
      r.Some? && r.value < 0 ==> |t| > 0 && t[0] == '-'
  {
    var t := JsTail(s);
    var neg := |t| > 0 && t[0] == '-';
    var u := if |t| > 0 && (t[0] == '-' || t[0] == '+') then t[1..] else t;
    var n := LeadingDigits(u);
    var v: int := DigitsValue(u[..n]);
    if n == 0 then None
    else
      assert u[..n][0] == u[0];
      if neg then Some(-v)
      else Some(v)
  }

  // ---------------------------------------------------------------------
  // Python float()

  /** An unsigned number filling all of `u`: `d+`, `d+.`, `d+.d+` or
      `.d+`. */
  function WholeDecimal(u: string): Option<real>
  {
    var n := LeadingDigits(u);
    if n == |u| then (if n == 0 then None else Some(DigitsValue(u) as real))
    else if u[n] == '.' && LeadingDigits(u[n + 1..]) == |u| - n - 1 && (n > 0 || n + 1 < |u|) then
      Some(Decimal(u[..n], u[n + 1..]))
    else None
  }

  /** What `float()` accepts is made of digits and at most one dot, with
      at least one digit. */
  lemma {:induction false} WholeDecimalAlphabet(u: string)
    requires WholeDecimal(u).Some?
    ensures |u| > 0
    ensures forall i :: 0 <= i < |u| ==> IsDigit(u[i]) || u[i] == '.'
    ensures exists i :: 0 <= i < |u| && IsDigit(u[i])
  {
    var n := LeadingDigits(u);
    if n == |u| {
      assert u[..n] == u;
      assert IsDigit(u[0]);
    } else {
      var f := u[n + 1..];
      assert f[..LeadingDigits(f)] == f;
      forall i | 0 <= i < |u|
        ensures IsDigit(u[i]) || u[i] == '.'
      {
        if i < n { assert u[i] == u[..n][i]; }
        else if i > n { assert u[i] == f[i - n - 1]; }
      }
      if n > 0 { assert IsDigit(u[..n][0]); }
      else { assert IsDigit(f[0]); }
    }
  }

  /** `float(s)` on a string: surrounding whitespace stripped, an optional
      sign, then a number filling the rest; `None` is the `ValueError`. */
  function PyFloat(s: string): (r: Option<real>)
    ensures r.Some? ==> var t := Trim(s, IsPySpace);
      |t| > 0 && forall i :: 0 <= i < |t| ==> IsDigit(t[i]) || t[i] == '.' || (i == 0 && IsSign(t[i]))
    ensures var t := Trim(s, IsPySpace);
      |t| > 0 && AllDigits(t) ==> r == Some(DigitsValue(t) as real)
  {
    var t := Trim(s, IsPySpace);
    if |t| > 0 && t[0] == '-' then
      PyFloatBody(t, t[1..]);
      Negate(WholeDecimal(t[1..]))
    else if |t| > 0 && t[0] == '+' then
      PyFloatBody(t, t[1..]);
      WholeDecimal(t[1..])
    else
      PyFloatPlain(t);
      WholeDecimal(t)
  }

  /** An unsigned text: what it is made of when it reads, and its value
      when it is all digits. */
  lemma {:induction false} PyFloatPlain(t: string)
    ensures WholeDecimal(t).Some? ==> forall i :: 0 <= i < |t| ==> IsDigit(t[i]) || t[i] == '.'
    ensures |t| > 0 && AllDigits(t) ==> WholeDecimal(t) == Some(DigitsValue(t) as real)
  {
    if WholeDecimal(t).Some? { WholeDecimalAlphabet(t); }
    if |t| > 0 && AllDigits(t) { LeadingDigitsOfDigits(t); }
  }

  /** A signed text's characters after the sign. */
  lemma {:induction false} PyFloatBody(t: string, u: string)
    requires |t| > 0 && IsSign(t[0]) && u == t[1..]
    ensures WholeDecimal(u).Some? ==> forall i :: 0 <= i < |t| ==> IsDigit(t[i]) || t[i] == '.' || (i == 0 && IsSign(t[i]))
  {
    if WholeDecimal(u).Some? {
      WholeDecimalAlphabet(u);
      forall i | 1 <= i < |t|
        ensures IsDigit(t[i]) || t[i] == '.'
      {
        assert t[i] == u[i - 1];
      }
    }
  }

  /** When the whole of `u` is a number, the longest-prefix reading finds
      the same number. */
  lemma {:induction false} WholeIsPrefix(u: string)
    requires WholeDecimal(u).Some?
    ensures DecimalPrefix(u) == WholeDecimal(u)
  {
    var n := LeadingDigits(u);
    if n < |u| {
      LeadingDigitsOfDigits(u[n + 1..]);
      assert u[n + 1..][..LeadingDigits(u[n + 1..])] == u[n + 1..];
    } else {
      assert u[..n] == u;
    }
  }

  /** A signed number with no whitespace anywhere reads the same in both
      runtimes: `parseFloat` and `float()` agree on it. */
  lemma {:induction false} FloatParsersAgree(s: string)
    requires PyFloat(s).Some?
    requires forall i :: 0 <= i < |s| ==> !IsJsSpace(s[i]) && !IsPySpace(s[i])
    ensures JsParseFloat(s) == PyFloat(s)
  {
    assert LeadingSpaces(s, IsJsSpace) == 0;
    assert Trim(s, IsPySpace) == s by {
      assert LeadingSpaces(s, IsPySpace) == 0;
      assert s[0..] == s;
      assert TrailingSpaces(s, IsPySpace) == 0;
    }
    if |s| > 0 && (s[0] == '-' || s[0] == '+') {
      WholeIsPrefix(s[1..]);
    } else {
      WholeIsPrefix(s);
    }
  }

  /** The longest-prefix reading of a whole number stops at a following
      character that can continue neither the digits nor the fraction. */
  lemma {:induction false} DecimalPrefixStops(u: string, w: string)
    requires WholeDecimal(u).Some?
    requires |w| > 0 ==> !IsDigit(w[0]) && w[0] != '.'
    ensures DecimalPrefix(u + w) == WholeDecimal(u)
  {
    var n := LeadingDigits(u);
    var v := u + w;
    assert v[..n] == u[..n];
    if n == |u| {
      assert v[..n] == u;
      LeadingDigitsExact(v, n);
    } else {
      LeadingDigitsExact(v, n);
      var f := u[n + 1..];
      assert f[..|f|] == f;
      assert v[n + 1..] == f + w;
      assert (f + w)[..|f|] == f;
      LeadingDigitsExact(f + w, |f|);
      assert (f + w)[..|f|] == f;
    }
  }

  /** A value written with whitespace around it that both runtimes skip
      reads as the bare value in both: `float()` strips the whitespace,
      `parseFloat` skips what leads and stops at what trails. */
  lemma {:induction false} PaddedValue(pre: string, core: string, post: string)
    requires PyFloat(core).Some?
    requires forall i :: 0 <= i < |core| ==> !IsJsSpace(core[i]) && !IsPySpace(core[i])
    requires forall i :: 0 <= i < |pre| ==> IsJsSpace(pre[i]) && IsPySpace(pre[i])
    requires forall i :: 0 <= i < |post| ==> IsJsSpace(post[i]) && IsPySpace(post[i])
    ensures PyFloat(pre + core + post) == PyFloat(core)
    ensures JsParseFloat(pre + core + post) == PyFloat(core)
  {
    TrimUnchanged(core, IsPySpace);
    PaddedPy(pre, core, post);
    FloatParsersAgree(core);
    PyFloatWhole(core);
    PaddedJs(pre, core, post);
  }

  lemma {:induction false} PaddedPy(pre: string, core: string, post: string)
    requires |core| > 0 && !IsPySpace(core[0]) && !IsPySpace(core[|core| - 1])
    requires forall i :: 0 <= i < |pre| ==> IsPySpace(pre[i])
    requires forall i :: 0 <= i < |post| ==> IsPySpace(post[i])
    ensures PyFloat(pre + core + post) == PyFloat(core)
  {
    TrimUnchanged(core, IsPySpace);
    TrimPadded(pre, core, post, IsPySpace);
  }

  lemma {:induction false} PaddedJs(pre: string, core: string, post: string)
    requires |core| > 0 && !IsJsSpace(core[0]) && !IsJsSpace(core[|core| - 1])
    requires WholeDecimal(Unsigned(core)).Some?
    requires forall i :: 0 <= i < |pre| ==> IsJsSpace(pre[i])
    requires forall i :: 0 <= i < |post| ==> IsJsSpace(post[i])
    ensures JsParseFloat(pre + core + post) == JsParseFloat(core)
  {
    PaddedTails(pre, core, post);
    SignedPrefixStops(core, post);
  }

  lemma {:induction false} PaddedTails(pre: string, core: string, post: string)
    requires |core| > 0 && !IsJsSpace(core[0]) && !IsJsSpace(core[|core| - 1])
    requires forall i :: 0 <= i < |pre| ==> IsJsSpace(pre[i])
    requires forall i :: 0 <= i < |post| ==> IsJsSpace(post[i])
    ensures JsTail(pre + core + post) == core + post
    ensures JsTail(core) == core
  {
    TrimPadded(pre, core, post, IsJsSpace);
    LeadingSpacesExact(core, 0, IsJsSpace);
  }

  /** The signed reading of a whole number is not disturbed by
      whitespace after it. */
  lemma {:induction false} SignedPrefixStops(core: string, post: string)
    requires |core| > 0 && WholeDecimal(Unsigned(core)).Some?
    requires forall i :: 0 <= i < |post| ==> IsJsSpace(post[i])
    ensures SignedPrefix(core + post) == SignedPrefix(core)
  {
    var u := Unsigned(core);
    assert Unsigned(core + post) == u + post;
    WholeIsPrefix(u);
    DecimalPrefixStops(u, post);
  }

  /** A number `float()` reads, with no surrounding whitespace, is an
      optional sign and a whole decimal. */
  lemma {:induction false} PyFloatWhole(core: string)
    requires PyFloat(core).Some? && Trim(core, IsPySpace) == core
    ensures |core| > 0 && WholeDecimal(Unsigned(core)).Some?
  {
  }

  /** `parseFloat` stops at the first character that cannot continue the
      number, so a unit written after a value does not change it. */
  lemma {:induction false} ParseFloatIgnoresSuffix(ip: string, fp: string, rest: string)
    requires |ip| > 0 && AllDigits(ip) && |fp| > 0 && AllDigits(fp)
    requires |rest| > 0 ==> !IsDigit(rest[0])
    ensures JsParseFloat(ip + "." + fp + rest) == Some(Decimal(ip, fp))
  {
    var s := ip + "." + fp + rest;
    assert !IsJsSpace(s[0]);
    LeadingSpacesExact(s, 0, IsJsSpace);
    assert JsTail(s) == s;
    assert JsParseFloat(s) == DecimalPrefix(s);
    DecimalPrefixOf(ip, fp, rest);
  }

  /** Digits, a dot, digits and a suffix that does not go on with a digit
      read as the decimal of the two digit runs. */
  lemma {:induction false} DecimalPrefixOf(ip: string, fp: string, rest: string)
    requires |ip| > 0 && AllDigits(ip) && |fp| > 0 && AllDigits(fp)
    requires |rest| > 0 ==> !IsDigit(rest[0])
    ensures DecimalPrefix(ip + "." + fp + rest) == Some(Decimal(ip, fp))
  {
    var s := ip + "." + fp + rest;
    assert s[..|ip|] == ip;
    LeadingDigitsExact(s, |ip|);
    var tail := s[|ip| + 1..];
    assert tail == fp + rest;
    assert tail[..|fp|] == fp;
    LeadingDigitsExact(tail, |fp|);
  }

  /** A plain run of digits reads as its value in every reader. */
  lemma {:induction false} DigitsRead(d: string)
    requires |d| > 0 && AllDigits(d)
    ensures JsParseFloat(d) == Some(DigitsValue(d) as real)
    ensures PyFloat(d) == Some(DigitsValue(d) as real)
    ensures FirstNumber(d) == Some(DigitsValue(d) as real)
    ensures NumberToken(d) == Some(DigitsValue(d) as real)
  {
    LeadingDigitsOfDigits(d);
    assert d[..|d|] == d;
    assert !IsJsSpace(d[0]) && !IsPySpace(d[|d| - 1]);
    assert d[0..] == d;
    TrimUnchanged(d, IsPySpace);
  }

  /** `parseFloat` reads the integer at the front of a string and stops at
      the first character that cannot continue it. */
  lemma {:induction false} ParseFloatOfInteger(d: string, rest: string)
    requires |d| > 0 && AllDigits(d)
    requires |rest| > 0 && !IsDigit(rest[0]) && rest[0] != '.'
    ensures JsParseFloat(d + rest) == Some(DigitsValue(d) as real)
  {
    var s := d + rest;
    assert !IsJsSpace(s[0]) && s[0] != '-' && s[0] != '+';
    assert s[0..] == s;
    assert s[..|d|] == d;
    LeadingDigitsExact(s, |d|);
  }

  /** Characters that are not digits in front of a number are skipped
      when looking for the first number. */
  lemma {:induction false} FirstNumberSkips(p: string, s: string)
    requires forall i :: 0 <= i < |p| ==> !IsDigit(p[i])
    ensures FirstNumber(p + s) == FirstNumber(s)
  {
    if |p| > 0 {
      assert (p + s)[1..] == p[1..] + s;
      FirstNumberSkips(p[1..], s);
    } else {
      assert p + s == s;
    }
  }

  // ---------------------------------------------------------------------
  // Writing numbers

  /** The decimal digits of `n`, without leading zeros ("0" for zero). */
  function NatToDigits(n: nat): (s: string)
    ensures |s| > 0 && AllDigits(s)
    ensures DigitsValue(s) == n
    ensures s[0] == '0' <==> n == 0
    ensures n == 0 ==> s == "0"
  {
    var last := [('0' as int + n % 10) as char];
    if n < 10 then last
    else
      var front := NatToDigits(n / 10);
      var s := front + last;
      assert s[..|s| - 1] == front;
      s
  }

  /** `s` left-padded with '0' to at least `width` characters (the `0Nd`
      format specifier). */
  function ZeroPad(s: string, width: nat): (r: string)
    ensures |r| == if |s| >= width then |s| else width
    ensures r[|r| - |s|..] == s
    ensures forall i :: 0 <= i < |r| - |s| ==> r[i] == '0'
  {
    if |s| >= width then s else seq(width - |s|, _ => '0') + s
  }

  /** Leading zeros do not change the value of a digit string. */
  lemma {:induction false} LeadingZerosValue(z: nat, s: string)
    requires AllDigits(s)
    ensures AllDigits(seq(z, _ => '0') + s)
    ensures DigitsValue(seq(z, _ => '0') + s) == DigitsValue(s)
    decreases |s|
  {
    var zs := seq(z, _ => '0');
    if |s| == 0 {
      assert zs + s == zs;
      ZerosValue(z);
    } else {
      var w := zs + s;
      assert w[..|w| - 1] == zs + s[..|s| - 1];
      LeadingZerosValue(z, s[..|s| - 1]);
    }
  }

  lemma {:induction false} ZerosValue(z: nat)
    ensures AllDigits(seq(z, _ => '0'))
    ensures DigitsValue(seq(z, _ => '0')) == 0
  {
    if z > 0 {
      var zs := seq(z, _ => '0');
      assert zs[..z - 1] == seq(z - 1, _ => '0');
      ZerosValue(z - 1);
    }
  }
}
