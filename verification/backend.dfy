/** The small pieces of request handling in backend/run.py that do not
    touch the database: reading the bearer token, the required-field
    check of the create and update endpoints, and the next patient code. */
module Backend {
  import opened Common
  import opened Numbers

  // ---------------------------------------------------------------------
  // token_required

  const TokenMissing := Error(401, "Token is missing")

  /** `split(' ')` of a string that has a first space: the text before it,
      then the split of the rest. */
  lemma {:induction false} SplitAt(p: string, q: string, sep: char)
    requires sep !in p
    ensures Split(p + [sep] + q, sep) == [p] + Split(q, sep)
  {
    if |p| > 0 {
      assert (p + [sep] + q)[1..] == p[1..] + [sep] + q;
      SplitAt(p[1..], q, sep);
      assert [p[0]] + p[1..] == p;
    } else {
      assert p + [sep] + q == [sep] + q;
      assert (p + [sep] + q)[1..] == q;
    }
  }

  /** A string without the separator splits into itself. */
  lemma {:induction false} SplitNone(p: string, sep: char)
    requires sep !in p
    ensures Split(p, sep) == [p]
  {
    if |p| > 0 {
      SplitNone(p[1..], sep);
      assert [p[0]] + p[1..] == p;
    }
  }

  /** The token of an `Authorization` header: present only when the header
      begins "Bearer ", and then the second field of `split(' ')`. An
      empty field (two spaces after "Bearer") counts as missing. The token
      is not yet decoded; that is left to the JWT library. */
  function BearerToken(header: Option<string>): (r: Result<string>)
    ensures r.Ok? ==> header.Some? && StartsWith(header.value, "Bearer ")
    ensures r.Ok? ==> |r.value| > 0 && ' ' !in r.value
    ensures r.Fail? ==> r.error == TokenMissing
  {
    if header.Some? && StartsWith(header.value, "Bearer ") then
      var h := header.value;
      assert h == "Bearer" + [' '] + h[7..];
      SplitAt("Bearer", h[7..], ' ');
      var token := Split(h, ' ')[1];
      if token == "" then Fail(TokenMissing) else Ok(token)
    else Fail(TokenMissing)
  }

  /** Writing a token after "Bearer " and reading the header gives it back,
      whatever follows it after a further space. */
  lemma {:induction false} BearerRoundTrip(token: string, rest: string)
    requires |token| > 0 && ' ' !in token
    ensures BearerToken(Some("Bearer " + token)) == Ok(token)
    ensures BearerToken(Some("Bearer " + token + " " + rest)) == Ok(token)
  {
    var h1 := "Bearer " + token;
    assert h1[..7] == "Bearer ";
    assert h1 == "Bearer" + [' '] + token;
    SplitAt("Bearer", token, ' ');
    SplitNone(token, ' ');
    var h2 := "Bearer " + token + " " + rest;
    assert h2[..7] == "Bearer ";
    assert h2 == "Bearer" + [' '] + (token + [' '] + rest);
    SplitAt("Bearer", token + [' '] + rest, ' ');
    SplitAt(token, rest, ' ');
  }

  /** A second space straight after "Bearer " leaves the token field
      empty, so the header counts as carrying no token, whatever follows. */
  lemma {:induction false} BearerDoubleSpace(rest: string)
    ensures BearerToken(Some("Bearer " + " " + rest)) == Fail(TokenMissing)
  {
    var h := "Bearer " + " " + rest;
    assert h[..7] == "Bearer ";
    assert h == "Bearer" + [' '] + ("" + [' '] + rest);
    SplitAt("Bearer", "" + [' '] + rest, ' ');
    SplitAt("", rest, ' ');
  }

  /** A header that does not begin "Bearer " (any other scheme, or "bearer"
      in lower case) has no token. */
  lemma {:induction false} BearerNeedsScheme(header: string)
    requires !StartsWith(header, "Bearer ")
    ensures BearerToken(Some(header)) == Fail(TokenMissing)
  {
  }

  // ---------------------------------------------------------------------
  // Required fields

  const PatientFields: seq<string> := ["fullName", "age", "gender", "contactNumber", "email", "patientCode", "address"]
  const CatalogFields: seq<string> := ["name", "category", "subcategory"]
  const ResultFields: seq<string> := ["patientId", "category", "subcategory", "tests"]
  const LabFields: seq<string> := ["name", "address", "phone", "email"]

  function MissingField(field: string): Error {
    Error(400, "Missing required field: " + field)
  }

  /** The loop `for field in required_fields: if field not in data`: the
      error for the first field, in list order, that the request body has
      no key for; `None` lets the request through to the database. */
  function CheckRequired(fields: seq<string>, present: set<string>): (r: Option<Error>)
    ensures r.None? <==> forall i :: 0 <= i < |fields| ==> fields[i] in present
    ensures r.Some? ==> exists i :: (0 <= i < |fields| && fields[i] !in present
      && r.value == MissingField(fields[i])
      && forall k :: 0 <= k < i ==> fields[k] in present)
  {
    if |fields| == 0 then None
    else if fields[0] !in present then Some(MissingField(fields[0]))
    else
      var r := CheckRequired(fields[1..], present);
      if r.Some? then
        var i :| 0 <= i < |fields[1..]| && fields[1..][i] !in present
          && r.value == MissingField(fields[1..][i])
          && forall k :: 0 <= k < i ==> fields[1..][k] in present;
        assert fields[i + 1] !in present && forall k :: 0 <= k < i + 1 ==> fields[k] in present;
        r
      else
        assert forall i :: 1 <= i < |fields| ==> fields[i] == fields[1..][i - 1];
        r
  }

  /** Which field is reported does not depend on fields further down the
      list: the report names the first missing one. */
  lemma {:induction false} FirstMissingReported(fields: seq<string>, present: set<string>, i: nat)
    requires i < |fields| && fields[i] !in present
    requires forall k :: 0 <= k < i ==> fields[k] in present
    ensures CheckRequired(fields, present) == Some(MissingField(fields[i]))
  {
    var r := CheckRequired(fields, present);
    var j :| 0 <= j < |fields| && fields[j] !in present
      && r.value == MissingField(fields[j])
      && forall k :: 0 <= k < j ==> fields[k] in present;
    assert j == i;
  }

  // ---------------------------------------------------------------------
  // get_latest_patient_code

  const FirstCode := "PAT000001"

  /** `re.match(r'PAT(\d+)', code)`: "PAT" at the very start, then the
      longest run of digits, read as a number; what follows the digits is
      ignored. */
  function CodeNumber(code: string): (r: Option<nat>)
    ensures r.Some? ==> |code| > 3 && code[..3] == "PAT" && IsDigit(code[3])
  {
    if StartsWith(code, "PAT") then
      var n := LeadingDigits(code[3..]);
      if n == 0 then None else Some(DigitsValue(code[3..][..n]))
    else None
  }

  /** A well-formed code: "PAT", then the decimal digits of its number,
      at least six of them, zero-padded only up to six (the `06d`
      format). */
  predicate CodeOf(code: string, n: nat) {
    && |code| >= 9 && code[..3] == "PAT"
    && AllDigits(code[3..]) && DigitsValue(code[3..]) == n
    && (|code| > 9 ==> code[3] != '0')
  }

  /** `f'PAT{n:06d}'`. */
  function FormatCode(n: nat): (code: string)
    ensures CodeOf(code, n)
  {
    var d := NatToDigits(n);
    ZeroPadValue(d, 6);
    var code := "PAT" + ZeroPad(d, 6);
    assert code[..3] == "PAT" && code[3..] == ZeroPad(d, 6);
    code
  }

  /** The code for the next patient, from the code of the most recent one:
      its number plus one, or the first code when there is no patient yet,
      the code is empty, or it does not start with "PAT" and a digit. */
  function NextPatientCode(latest: Option<string>): (code: string)
    ensures CodeOf(code, if latest.Some? && CodeNumber(latest.value).Some? then CodeNumber(latest.value).value + 1 else 1)
  {
    FirstCodeOf();
    if latest.None? || latest.value == "" then FirstCode
    else
      match CodeNumber(latest.value)
      case Some(n) => FormatCode(n + 1)
      case None => FirstCode
  }

  lemma {:induction false} FirstCodeOf()
    ensures CodeOf(FirstCode, 1)
  {
    assert FirstCode[3..] == "000001";
    assert "000001"[..5] == "00000";
    assert "00000"[..4] == "0000";
    assert "0000"[..3] == "000";
    assert "000"[..2] == "00";
    assert "00"[..1] == "0";
  }

  /** The padded digits are all digits and keep their value. */
  lemma {:induction false} ZeroPadValue(s: string, width: nat)
    requires AllDigits(s)
    ensures AllDigits(ZeroPad(s, width))
    ensures DigitsValue(ZeroPad(s, width)) == DigitsValue(s)
  {
    var r := ZeroPad(s, width);
    var z := |r| - |s|;
    assert r == seq(z, _ => '0') + s;
    LeadingZerosValue(z, s);
  }

  /** Reading a formatted code gives its number back. */
  lemma {:induction false} CodeRoundTrip(n: nat)
    ensures CodeNumber(FormatCode(n)) == Some(n)
  {
    CodeOfRead(FormatCode(n), n);
  }

  /** A well-formed code reads back as its number. */
  lemma {:induction false} CodeOfRead(code: string, n: nat)
    requires CodeOf(code, n)
    ensures CodeNumber(code) == Some(n)
  {
    var d := code[3..];
    assert StartsWith(code, "PAT");
    LeadingDigitsOfDigits(d);
    assert d[..|d|] == d;
  }

  /** Each new code carries the number of the latest one plus one. */
  lemma {:induction false} NextCodeIncrements(latest: string, n: nat)
    requires CodeNumber(latest) == Some(n)
    ensures CodeNumber(NextPatientCode(Some(latest))) == Some(n + 1)
  {
    NextIsFormatted(latest, n);
    CodeRoundTrip(n + 1);
  }

  lemma {:induction false} NextIsFormatted(latest: string, n: nat)
    requires CodeNumber(latest) == Some(n)
    ensures NextPatientCode(Some(latest)) == FormatCode(n + 1)
  {
  }

  /** Without a usable latest code the sequence starts again at number 1. */
  lemma {:induction false} NextCodeFallback(latest: Option<string>)
    requires latest.None? || CodeNumber(latest.value).None?
    ensures NextPatientCode(latest) == FirstCode
    ensures CodeNumber(NextPatientCode(latest)) == Some(1)
  {
    assert FormatCode(1) == FirstCode by {
      assert NatToDigits(1) == "1";
      assert ZeroPad("1", 6) == "000001";
    }
    CodeRoundTrip(1);
  }
}
