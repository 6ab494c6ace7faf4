/** How the status printed on a report (computed in the browser) relates
    to the status the back end returns with the same result of the report:
    they agree on plain numeric intervals and numeric values, and part
    ways on every other kind of range. The browser ignores the returned
    status, so only the back end's 500 reaches the page. */
module StatusAgreement {
  import opened Common
  import opened Numbers
  import opened Ranges
  import R = Reports
  import B = ReportStatus

  /** An interval written without spaces reaches the back end's matcher
      unchanged. */
  lemma {:induction false} BackKeepsInterval(range: string)
    requires MatchInterval(range).Some?
    ensures B.BackRef(Some(range)) == range
    ensures B.PyMatchInterval(range) == MatchInterval(range)
  {
    IntervalAlphabet(range);
    AbsentInitialNotContained(range, B.Mojibake);
    ReplaceAllAbsent(range, B.Mojibake, "-");
    RemoveAbsent(range, ' ');
  }

  /** On an interval, however many ASCII spaces are written into it
      (`70 - 110`), and a value both runtimes read as the same number,
      whatever whitespace both of them skip is written around it, the two
      sides give the same Low, High or Normal, and the back end does not
      fail. */
  lemma {:induction false} AgreeOnIntervals(a: string, b: string, range: string, pre: string, core: string, post: string)
    requires NumberToken(a).Some? && NumberToken(b).Some?
    requires RemoveChar(range, ' ') == a + "-" + b
    requires PyFloat(core).Some?
    requires forall i :: 0 <= i < |core| ==> !IsJsSpace(core[i]) && !IsPySpace(core[i])
    requires forall i :: 0 <= i < |pre| ==> IsJsSpace(pre[i]) && IsPySpace(pre[i])
    requires forall i :: 0 <= i < |post| ==> IsJsSpace(post[i]) && IsPySpace(post[i])
    ensures B.StatusOf(pre + core + post, Some(range)).Ok?
    ensures B.StatusOf(pre + core + post, Some(range)) == Ok(B.Low)
      <==> R.GetStatus(pre + core + post, Some(range)) == R.Low
    ensures B.StatusOf(pre + core + post, Some(range)) == Ok(B.High)
      <==> R.GetStatus(pre + core + post, Some(range)) == R.High
    ensures B.StatusOf(pre + core + post, Some(range)) == Ok(B.Normal)
      <==> R.GetStatus(pre + core + post, Some(range)) == R.Normal
  {
    var value := pre + core + post;
    var h := a + "-" + b;
    PaddedValue(pre, core, post);
    SpacedFront(a, b, range, value);
    SpacedBack(a, b, range);
    MatchIntervalOf(a, b);
    BackKeepsInterval(h);
    R.TokenIntervalStatus(a, b, value, PyFloat(core).value);
    B.IntervalStatus(value, Some(range), NumberToken(a).value, NumberToken(b).value);
  }

  /** Apart from its spaces, such a range holds only digits, dots and the
      hyphen. */
  lemma {:induction false} SpacedAlphabet(a: string, b: string, range: string)
    requires NumberToken(a).Some? && NumberToken(b).Some?
    requires RemoveChar(range, ' ') == a + "-" + b
    ensures forall i :: 0 <= i < |range| ==> IsDigit(range[i]) || range[i] == '.' || range[i] == '-' || range[i] == ' '
  {
    var h := a + "-" + b;
    MatchIntervalOf(a, b);
    IntervalAlphabet(h);
    RemoveCharKeeps(range, ' ');
    forall i | 0 <= i < |range|
      ensures IsDigit(range[i]) || range[i] == '.' || range[i] == '-' || range[i] == ' '
    {
      if range[i] != ' ' {
        assert range[i] in h;
      }
    }
  }

  /** In the browser the spaced range reads as the bare interval. */
  lemma {:induction false} SpacedFront(a: string, b: string, range: string, value: string)
    requires NumberToken(a).Some? && NumberToken(b).Some?
    requires RemoveChar(range, ' ') == a + "-" + b
    ensures R.GetStatus(value, Some(range)) == R.GetStatus(value, Some(a + "-" + b))
  {
    var h := a + "-" + b;
    SpacedAlphabet(a, b, range);
    var t := R.RefText(Some(range));
    RemoveCharTrim(range, IsJsSpace, ' ');
    forall i | 0 <= i < |t|
      ensures IsDigit(t[i]) || t[i] == '.' || t[i] == '-' || t[i] == ' '
    {
      assert t[i] in range;
    }
    assert '–' !in t;
    assert Cleaned(t) == h;
    SpacedNotCategorical(t);
    MatchIntervalOf(a, b);
    R.IntervalIsPlain(h);
    R.SameCleanedSameStatus(value, Some(range), Some(h));
  }

  lemma {:induction false} SpacedNotCategorical(t: string)
    requires forall i :: 0 <= i < |t| ==> IsDigit(t[i]) || t[i] == '.' || t[i] == '-' || t[i] == ' '
    ensures !R.Categorical(t)
  {
    LowerUnchanged(t);
    AbsentInitialNotContained(t, "negative");
    AbsentInitialNotContained(t, "positive");
  }

  /** On the back end the spaced range becomes the bare interval. */
  lemma {:induction false} SpacedBack(a: string, b: string, range: string)
    requires NumberToken(a).Some? && NumberToken(b).Some?
    requires RemoveChar(range, ' ') == a + "-" + b
    ensures B.BackRef(Some(range)) == a + "-" + b
  {
    SpacedAlphabet(a, b, range);
    assert B.Mojibake[0] !in range;
    AbsentInitialNotContained(range, B.Mojibake);
    ReplaceAllAbsent(range, B.Mojibake, "-");
  }

  /** On an interval, a value that neither runtime reads as a number is
      shown Normal on the printed report but fails the back end's report
      request. */
  lemma {:induction false} NonNumericValueDiverges(a: string, b: string, value: string)
    requires NumberToken(a).Some? && NumberToken(b).Some?
    requires JsParseFloat(value).None? && PyFloat(value).None?
    ensures R.GetStatus(value, Some(a + "-" + b)) == R.Normal
    ensures B.StatusOf(value, Some(a + "-" + b)) == Fail(B.NotANumber)
  {
    var range := a + "-" + b;
    MatchIntervalOf(a, b);
    BackKeepsInterval(range);
    R.IntervalIsPlain(range);
  }

  // ---------------------------------------------------------------------
  // Ranges the two sides read differently

  /** Writing an interval with an en-dash: the browser reads it exactly as
      the same interval written with a hyphen, the back end does not
      recognise it and calls every value Normal. */
  lemma {:induction false} EnDashDiverges(a: string, b: string, value: string)
    requires NumberToken(a).Some? && NumberToken(b).Some?
    ensures R.GetStatus(value, Some(a + "–" + b)) == R.GetStatus(value, Some(a + "-" + b))
    ensures B.StatusOf(value, Some(a + "–" + b)) == Ok(B.Normal)
  {
    FrontEnDashStatus(a, b, value);
    BackEnDashStatus(a, b, value);
  }

  lemma {:induction false} FrontEnDashStatus(a: string, b: string, value: string)
    requires NumberToken(a).Some? && NumberToken(b).Some?
    ensures R.GetStatus(value, Some(a + "–" + b)) == R.GetStatus(value, Some(a + "-" + b))
  {
    var t, h := a + "–" + b, a + "-" + b;
    FrontEnDash(a, b);
    MatchIntervalOf(a, b);
    R.IntervalIsPlain(h);
    R.SameCleanedSameStatus(value, Some(t), Some(h));
  }

  lemma {:induction false} BackEnDashStatus(a: string, b: string, value: string)
    requires NumberToken(a).Some? && NumberToken(b).Some?
    ensures B.StatusOf(value, Some(a + "–" + b)) == Ok(B.Normal)
  {
    var t := a + "–" + b;
    EnDashAlphabet(a, b);
    AbsentInitialNotContained(t, B.Mojibake);
    ReplaceAllAbsent(t, B.Mojibake, "-");
    RemoveAbsent(t, ' ');
    B.NumberLedNonIntervalIsNormal(value, Some(t));
  }

  /** The en-dash form of an interval: digits and dots around one en-dash,
      beginning with a digit. */
  lemma {:induction false} EnDashAlphabet(a: string, b: string)
    requires NumberToken(a).Some? && NumberToken(b).Some?
    ensures var t := a + "–" + b;
      |t| > 0 && IsDigit(t[0]) &&
      forall i :: 0 <= i < |t| ==> IsDigit(t[i]) || t[i] == '.' || t[i] == '–'
  {
    var t := a + "–" + b;
    NumberTokenAccepts(a);
    NumberTokenAccepts(b);
    TokenAlphabet(a);
    TokenAlphabet(b);
    TokenStartsWithDigit(a);
    assert t[0] == a[0];
    forall i | 0 <= i < |t|
      ensures IsDigit(t[i]) || t[i] == '.' || t[i] == '–'
    {
      if i < |a| { assert t[i] == a[i]; }
      else if i > |a| { assert t[i] == b[i - |a| - 1]; }
    }
  }

  /** In the browser the en-dash form trims to itself, names neither word
      and cleans to the hyphen form. */
  lemma {:induction false} FrontEnDash(a: string, b: string)
    requires NumberToken(a).Some? && NumberToken(b).Some?
    ensures R.RefText(Some(a + "–" + b)) == a + "–" + b
    ensures !R.Categorical(a + "–" + b)
    ensures Cleaned(a + "–" + b) == a + "-" + b
  {
    var t := a + "–" + b;
    EnDashAlphabet(a, b);
    TrimUnchanged(t, IsJsSpace);
    EnDashNotCategorical(t);
    EnDashCleaned(a, b);
  }

  lemma {:induction false} EnDashNotCategorical(t: string)
    requires forall i :: 0 <= i < |t| ==> IsDigit(t[i]) || t[i] == '.' || t[i] == '–'
    ensures !R.Categorical(t)
  {
    LowerUnchanged(t);
    AbsentInitialNotContained(t, "negative");
    AbsentInitialNotContained(t, "positive");
  }

  lemma {:induction false} EnDashCleaned(a: string, b: string)
    requires NumberToken(a).Some? && NumberToken(b).Some?
    ensures Cleaned(a + "–" + b) == a + "-" + b
  {
    var h := a + "-" + b;
    EnDashReplaced(a, b);
    IntervalHasNoSpace(a, b);
    RemoveAbsent(h, ' ');
    assert Cleaned(a + "–" + b) == RemoveChar(ReplaceFirst(a + "–" + b, '–', '-'), ' ');
  }

  lemma {:induction false} EnDashReplaced(a: string, b: string)
    requires NumberToken(a).Some?
    ensures ReplaceFirst(a + "–" + b, '–', '-') == a + "-" + b
  {
    NumberTokenAccepts(a);
    TokenAlphabet(a);
    assert '–' !in a;
    ReplaceFirstAt(a, b, '–', '-');
    assert a + "–" + b == a + ['–'] + b;
    assert a + "-" + b == a + ['-'] + b;
  }

  lemma {:induction false} IntervalHasNoSpace(a: string, b: string)
    requires NumberToken(a).Some? && NumberToken(b).Some?
    ensures ' ' !in a + "-" + b
  {
    MatchIntervalOf(a, b);
    IntervalAlphabet(a + "-" + b);
  }

  /** `upto h` (written without a space): the back end compares the value
      with h, the browser does not recognise the range and calls every
      value Normal. */
  lemma {:induction false} UptoDiverges(d: string, value: string)
    requires |d| > 0 && AllDigits(d)
    ensures R.GetStatus(value, Some("upto" + d)) == R.Normal
    ensures B.StatusOf(value, Some("upto" + d)) == Ok(B.High) <==>
      (PyFloat(value).Some? && PyFloat(value).value > DigitsValue(d) as real)
    ensures B.StatusOf(value, Some("upto" + d)) != Ok(B.High) ==> B.StatusOf(value, Some("upto" + d)) == Ok(B.Normal)
  {
    FrontUpto(d, value);
    BackUpto(d, value);
  }

  lemma {:induction false} FrontUpto(d: string, value: string)
    requires |d| > 0 && AllDigits(d)
    ensures R.GetStatus(value, Some("upto" + d)) == R.Normal
  {
    var t := "upto" + d;
    UptoTrimmed(d);
    UptoNotCategorical(d);
    UptoCleaned(d);
    R.UnknownRangeIsNormal(value, Some(t));
  }

  lemma {:induction false} UptoTrimmed(d: string)
    requires |d| > 0 && AllDigits(d)
    ensures R.RefText(Some("upto" + d)) == "upto" + d
  {
    var t := "upto" + d;
    UptoAlphabet(d);
    TrimUnchanged(t, IsJsSpace);
  }

  lemma {:induction false} UptoNotCategorical(d: string)
    requires AllDigits(d)
    ensures !R.Categorical("upto" + d)
  {
    var t := "upto" + d;
    UptoAlphabet(d);
    LowerUnchanged(t);
    AbsentInitialNotContained(t, "negative");
    NoPositiveInUpto(d);
  }

  lemma {:induction false} UptoCleaned(d: string)
    requires AllDigits(d)
    ensures Cleaned("upto" + d) == "upto" + d
  {
    var t := "upto" + d;
    UptoAlphabet(d);
    assert ReplaceFirst(t, '–', '-') == t;
    RemoveAbsent(t, ' ');
  }

  lemma {:induction false} BackUpto(d: string, value: string)
    requires |d| > 0 && AllDigits(d)
    ensures B.StatusOf(value, Some("upto" + d)) == Ok(B.High) <==>
      (PyFloat(value).Some? && PyFloat(value).value > DigitsValue(d) as real)
    ensures B.StatusOf(value, Some("upto" + d)) != Ok(B.High) ==> B.StatusOf(value, Some("upto" + d)) == Ok(B.Normal)
  {
    var t := "upto" + d;
    UptoAlphabet(d);
    LowerUnchanged(t);
    AbsentInitialNotContained(t, B.Mojibake);
    ReplaceAllAbsent(t, B.Mojibake, "-");
    RemoveAbsent(t, ' ');
    assert t[..4] == "upto";
    FirstNumberSkips("upto", d);
    DigitsRead(d);
    B.UptoStatus(value, Some(t));
  }

  /** `>l`: a lower bound in the browser, where a value at or below l is
      Low; the back end does not recognise it and calls every value
      Normal. */
  lemma {:induction false} AboveDiverges(d: string, value: string)
    requires |d| > 0 && AllDigits(d)
    requires JsParseFloat(value).Some?
    ensures R.GetStatus(value, Some(">" + d)) == R.Low <==> JsParseFloat(value).value <= DigitsValue(d) as real
    ensures R.GetStatus(value, Some(">" + d)) != R.Low ==> R.GetStatus(value, Some(">" + d)) == R.Normal
    ensures B.StatusOf(value, Some(">" + d)) == Ok(B.Normal)
  {
    FrontAbove(d, value);
    BackAbove(d, value);
  }

  /** `>l` is made of '>' and digits. */
  lemma {:induction false} AboveAlphabet(d: string)
    requires AllDigits(d)
    ensures var t := ">" + d;
      forall i :: 0 <= i < |t| ==> (t[i] == '>' || IsDigit(t[i]))
  {
    var t := ">" + d;
    forall i | 0 <= i < |t| ensures t[i] == '>' || IsDigit(t[i]) {
      if i > 0 { assert t[i] == d[i - 1]; }
    }
  }

  lemma {:induction false} FrontAbove(d: string, value: string)
    requires |d| > 0 && AllDigits(d)
    requires JsParseFloat(value).Some?
    ensures R.GetStatus(value, Some(">" + d)) == R.Low <==> JsParseFloat(value).value <= DigitsValue(d) as real
    ensures R.GetStatus(value, Some(">" + d)) != R.Low ==> R.GetStatus(value, Some(">" + d)) == R.Normal
  {
    var t := ">" + d;
    AboveAlphabet(d);
    TrimUnchanged(t, IsJsSpace);
    LowerUnchanged(t);
    AbsentInitialNotContained(t, "negative");
    AbsentInitialNotContained(t, "positive");
    assert ReplaceFirst(t, '–', '-') == t;
    RemoveAbsent(t, ' ');
    assert t[1..] == d;
    DigitsRead(d);
    R.AboveStatus(value, Some(t), DigitsValue(d) as real, JsParseFloat(value).value);
  }

  lemma {:induction false} BackAbove(d: string, value: string)
    requires |d| > 0 && AllDigits(d)
    ensures B.StatusOf(value, Some(">" + d)) == Ok(B.Normal)
  {
    var t := ">" + d;
    AboveAlphabet(d);
    AbsentInitialNotContained(t, B.Mojibake);
    ReplaceAllAbsent(t, B.Mojibake, "-");
    RemoveAbsent(t, ' ');
    B.AboveIsNormal(value, Some(t));
  }

  lemma {:induction false} UptoAlphabet(d: string)
    requires AllDigits(d)
    ensures var t := "upto" + d;
      forall i :: 0 <= i < |t| ==> (IsDigit(t[i]) || t[i] in "upto") && !IsUpper(t[i]) && t[i] != ' ' && t[i] != '–'
  {
    var t := "upto" + d;
    forall i | 0 <= i < |t|
      ensures (IsDigit(t[i]) || t[i] in "upto") && !IsUpper(t[i]) && t[i] != ' ' && t[i] != '–'
    {
      if i >= 4 { assert t[i] == d[i - 4]; }
    }
  }

  /** The only 'p' of `upto h` is followed by 't', so "positive" is not
      in it. */
  lemma {:induction false} NoPositiveInUpto(d: string)
    requires AllDigits(d)
    ensures !Contains("upto" + d, "positive")
  {
    var t := "upto" + d;
    UptoAlphabet(d);
    forall i | 0 <= i <= |t| - 8
      ensures !OccursAt(t, "positive", i)
    {
      if i != 1 { assert t[i] != 'p'; }
      else { assert t[2] == 't'; }
    }
  }

  /** A value with a unit written after it: the browser reads the number
      in front and ignores the unit, the back end's `float()` refuses it
      and the report fails. */
  lemma {:induction false} UnitSuffixDiverges(a: string, b: string, d: string, unit: string)
    requires NumberToken(a).Some? && NumberToken(b).Some?
    requires |d| > 0 && AllDigits(d)
    requires |unit| > 0 && !IsPySpace(unit[|unit| - 1])
    ensures R.GetStatus(d + " " + unit, Some(a + "-" + b)) == R.GetStatus(d, Some(a + "-" + b))
    ensures B.StatusOf(d + " " + unit, Some(a + "-" + b)) == Fail(B.NotANumber)
  {
    FrontUnitIgnored(a, b, d, unit);
    UnitRefused(d, unit);
    MatchIntervalOf(a, b);
    BackKeepsInterval(a + "-" + b);
  }

  lemma {:induction false} FrontUnitIgnored(a: string, b: string, d: string, unit: string)
    requires NumberToken(a).Some? && NumberToken(b).Some?
    requires |d| > 0 && AllDigits(d)
    ensures R.GetStatus(d + " " + unit, Some(a + "-" + b)) == R.GetStatus(d, Some(a + "-" + b))
  {
    var range := a + "-" + b;
    MatchIntervalOf(a, b);
    R.IntervalIsPlain(range);
    UnitNumber(d, unit);
    R.SameNumberSameStatus(d + " " + unit, d, Some(range));
  }

  /** `parseFloat` stops at the space before the unit. */
  lemma {:induction false} UnitNumber(d: string, unit: string)
    requires |d| > 0 && AllDigits(d)
    ensures JsParseFloat(d + " " + unit) == JsParseFloat(d)
  {
    DigitsRead(d);
    assert d + " " + unit == d + (" " + unit);
    ParseFloatOfInteger(d, " " + unit);
  }

  lemma {:induction false} UnitRefused(d: string, unit: string)
    requires |d| > 0 && AllDigits(d)
    requires |unit| > 0 && !IsPySpace(unit[|unit| - 1])
    ensures PyFloat(d + " " + unit).None?
  {
    var v := d + " " + unit;
    assert v[0] == d[0] && v[|v| - 1] == unit[|unit| - 1];
    TrimUnchanged(v, IsPySpace);
    assert v[..|d|] == d;
    LeadingDigitsExact(v, |d|);
  }

  /** A string that lower-cases to lower-case ASCII letters is made of
      ASCII letters. */
  lemma {:induction false} LettersOfWord(t: string, w: string)
    requires Lower(t) == w
    requires forall i :: 0 <= i < |w| ==> 'a' <= w[i] <= 'z'
    ensures forall i :: 0 <= i < |t| ==> 'a' <= t[i] <= 'z' || IsUpper(t[i])
  {
    forall i | 0 <= i < |t|
      ensures 'a' <= t[i] <= 'z' || IsUpper(t[i])
    {
      assert Lower(t)[i] == LowerChar(t[i]);
    }
  }

  /** A range that is one of the two words in any capitalisation, against
      a value that is neither word: the browser shows the value itself,
      the back end calls it Abnormal. */
  lemma {:induction false} WordDiverges(t: string, word: string, value: string)
    requires word == "negative" || word == "positive"
    requires Lower(t) == word
    requires Lower(value) != "negative" && Lower(value) != "positive"
    ensures R.GetStatus(value, Some(t)) == R.Verbatim(value)
    ensures B.StatusOf(value, Some(t)) == Ok(B.Abnormal)
  {
    FrontWord(t, word, value);
    BackWord(t, word, value);
  }

  lemma {:induction false} FrontWord(t: string, word: string, value: string)
    requires word == "negative" || word == "positive"
    requires Lower(t) == word
    requires Lower(value) != "negative" && Lower(value) != "positive"
    ensures R.GetStatus(value, Some(t)) == R.Verbatim(value)
  {
    WordIsCategorical(t, word);
    R.CategoricalStatus(value, Some(t));
  }

  lemma {:induction false} WordIsCategorical(t: string, word: string)
    requires word == "negative" || word == "positive"
    requires Lower(t) == word
    ensures R.Categorical(R.RefText(Some(t)))
  {
    WordTrimmed(t, word);
    WordContained(t, word);
  }

  lemma {:induction false} WordTrimmed(t: string, word: string)
    requires word == "negative" || word == "positive"
    requires Lower(t) == word
    ensures R.RefText(Some(t)) == t
  {
    WordIsLower(word);
    LettersOfWord(t, word);
    assert |t| == 8;
    LetterNotSpace(t[0]);
    LetterNotSpace(t[7]);
    TrimUnchanged(t, IsJsSpace);
  }

  lemma {:induction false} WordIsLower(word: string)
    requires word == "negative" || word == "positive"
    ensures forall i :: 0 <= i < |word| ==> 'a' <= word[i] <= 'z'
  {
  }

  lemma {:induction false} LetterNotSpace(c: char)
    requires 'a' <= c <= 'z' || IsUpper(c)
    ensures !IsJsSpace(c)
  {
  }

  lemma {:induction false} WordContained(t: string, word: string)
    requires word == "negative" || word == "positive"
    requires Lower(t) == word
    ensures R.Categorical(t)
  {
    assert OccursAt(Lower(t), word, 0);
  }

  /** The back end keeps a word range as it is. */
  lemma {:induction false} WordKept(t: string, word: string)
    requires word == "negative" || word == "positive"
    requires Lower(t) == word
    ensures B.BackRef(Some(t)) == t
  {
    LettersOfWord(t, word);
    assert B.Mojibake[0] !in t;
    AbsentInitialNotContained(t, B.Mojibake);
    ReplaceAllAbsent(t, B.Mojibake, "-");
    RemoveAbsent(t, ' ');
  }

  lemma {:induction false} BackWord(t: string, word: string, value: string)
    requires word == "negative" || word == "positive"
    requires Lower(t) == word
    requires Lower(value) != word
    ensures B.StatusOf(value, Some(t)) == Ok(B.Abnormal)
  {
    WordKept(t, word);
    B.WordStatus(value, Some(t), word);
  }
}
