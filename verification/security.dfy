/** The account security page (frontend/src/pages/Security.jsx): the
    checks run before a password or email change is sent, and the clearing
    of a field's error as the user types into it. Errors live in one
    object keyed by field name, shared by both forms. */
module Security {
  import opened Common

  type Errors = map<string, string>

  // ---------------------------------------------------------------------
  // Password form

  datatype PasswordForm = PasswordForm(currentPassword: string, newPassword: string, confirmPassword: string)

  const MinPasswordLength := 8

  const CurrentRequired := "Current password is required"
  const NewRequired := "New password is required"
  const TooShort := "Password must be at least 8 characters long"
  const ConfirmRequired := "Please confirm your new password"
  const Mismatch := "Passwords do not match"

  /** `validatePasswordForm`: at most one error per field, the first
      failing check of that field. */
  function PasswordErrors(f: PasswordForm): (e: Errors)
    ensures e.Keys <= {"currentPassword", "newPassword", "confirmPassword"}
    ensures "currentPassword" in e <==> f.currentPassword == ""
    ensures "currentPassword" in e ==> e["currentPassword"] == CurrentRequired
    ensures "newPassword" in e <==> |f.newPassword| < MinPasswordLength
    ensures "newPassword" in e ==>
      e["newPassword"] == if f.newPassword == "" then NewRequired else TooShort
    ensures "confirmPassword" in e <==> f.confirmPassword == "" || f.confirmPassword != f.newPassword
    ensures "confirmPassword" in e ==>
      e["confirmPassword"] == if f.confirmPassword == "" then ConfirmRequired else Mismatch
  {
    var e1: Errors := if f.currentPassword == "" then map["currentPassword" := CurrentRequired] else map[];
    var e2 := if f.newPassword == "" then e1["newPassword" := NewRequired]
              else if |f.newPassword| < MinPasswordLength then e1["newPassword" := TooShort]
              else e1;
    if f.confirmPassword == "" then e2["confirmPassword" := ConfirmRequired]
    else if f.newPassword != f.confirmPassword then e2["confirmPassword" := Mismatch]
    else e2
  }

  /** The form may be sent exactly when the current password is given, the
      new one has at least eight characters and the confirmation repeats
      it. */
  lemma {:induction false} PasswordValid(f: PasswordForm)
    ensures |PasswordErrors(f)| == 0 <==>
      f.currentPassword != "" && |f.newPassword| >= MinPasswordLength && f.confirmPassword == f.newPassword
  {
    var e := PasswordErrors(f);
    if |e| == 0 {
      assert e.Keys == {};
    } else {
      var k :| k in e.Keys;
    }
  }

  /** A mismatch is reported only against a non-empty confirmation. */
  lemma {:induction false} MismatchNeedsConfirmation(f: PasswordForm)
    ensures "confirmPassword" in PasswordErrors(f) && PasswordErrors(f)["confirmPassword"] == Mismatch
      <==> f.confirmPassword != "" && f.confirmPassword != f.newPassword
  {
  }

  // ---------------------------------------------------------------------
  // Email form

  datatype EmailForm = EmailForm(currentPassword: string, newEmail: string)

  const EmailRequired := "New email is required"
  const EmailInvalid := "Please enter a valid email address"

  /** `\S+@\S+\.\S+` matches with its `@` at `at` and its `.` at `dot`:
      a non-space character before the `@`, at least one character between
      them and none of them a space, and a non-space character after the
      dot. The runs may be longer, but one character on each side is all a
      match needs. */
  predicate MatchAt(s: string, at: int, dot: int) {
    && 1 <= at && at + 1 < dot && dot + 1 < |s|
    && !IsJsSpace(s[at - 1]) && s[at] == '@'
    && (forall m :: at < m < dot ==> !IsJsSpace(s[m]))
    && s[dot] == '.' && !IsJsSpace(s[dot + 1])
  }

  /** `/\S+@\S+\.\S+/.test(s)`: the pattern is not anchored, so a match
      anywhere in the string will do. */
  predicate EmailLike(s: string) {
    exists at, dot :: 0 <= at < dot < |s| && MatchAt(s, at, dot)
  }

  /** A scan for a match: every `@` preceded by a non-space character, then
      forward through the non-space characters after it for a dot followed
      by a non-space character. */
  method ScanEmail(s: string) returns (found: bool)
    ensures found <==> EmailLike(s)
  {
    var at := 1;
    while at < |s|
      invariant 1 <= at <= |s| || |s| == 0
      invariant forall a, d :: 0 <= a < at && a < d < |s| ==> !MatchAt(s, a, d)
    {
      if s[at] == '@' && !IsJsSpace(s[at - 1]) {
        var dot := at + 1;
        while dot + 1 < |s|
          invariant at + 1 <= dot <= |s|
          invariant forall m :: at < m < dot ==> !IsJsSpace(s[m])
          invariant forall d :: at < d < dot ==> !MatchAt(s, at, d)
        {
          if dot > at + 1 && s[dot] == '.' && !IsJsSpace(s[dot + 1]) {
            assert MatchAt(s, at, dot);
            return true;
          }
          if IsJsSpace(s[dot]) {
            break;
          }
          dot := dot + 1;
        }
        assert forall d :: at < d < |s| ==> !MatchAt(s, at, d);
      }
      at := at + 1;
    }
    return false;
  }

  /** `validateEmailForm`. */
  function EmailErrors(f: EmailForm): (e: Errors)
    ensures e.Keys <= {"currentPassword", "newEmail"}
    ensures "currentPassword" in e <==> f.currentPassword == ""
    ensures "currentPassword" in e ==> e["currentPassword"] == CurrentRequired
    ensures "newEmail" in e <==> !EmailLike(f.newEmail)
    ensures "newEmail" in e ==> e["newEmail"] == if f.newEmail == "" then EmailRequired else EmailInvalid
  {
    var e1: Errors := if f.currentPassword == "" then map["currentPassword" := CurrentRequired] else map[];
    if f.newEmail == "" then e1["newEmail" := EmailRequired]
    else if !EmailLike(f.newEmail) then e1["newEmail" := EmailInvalid]
    else e1
  }

  /** The email form may be sent exactly when the current password is
      given and the new address contains a match. */
  lemma {:induction false} EmailValid(f: EmailForm)
    ensures |EmailErrors(f)| == 0 <==> f.currentPassword != "" && EmailLike(f.newEmail)
  {
    var e := EmailErrors(f);
    if |e| == 0 {
      assert e.Keys == {};
    } else {
      var k :| k in e.Keys;
    }
  }

  /** The check is unanchored: anything around a well-formed address is
      accepted, spaces included. */
  lemma {:induction false} EmailUnanchored(pre: string, local: char, domain: char, tld: char, post: string)
    requires !IsJsSpace(local) && !IsJsSpace(domain) && !IsJsSpace(tld)
    ensures EmailLike(pre + [local, '@', domain, '.', tld] + post)
  {
    var s := pre + [local, '@', domain, '.', tld] + post;
    var at := |pre| + 1;
    assert s[at - 1] == local && s[at] == '@' && s[at + 1] == domain;
    assert s[at + 2] == '.' && s[at + 3] == tld;
    assert MatchAt(s, at, at + 2);
  }

  // ---------------------------------------------------------------------
  // Typing clears that field's error

  /** `if (errors[name]) errors = { ...errors, [name]: '' }`: the entry is
      emptied, not removed, and no other entry changes. */
  function ClearError(errors: Errors, name: string): (r: Errors)
    ensures r.Keys == errors.Keys
    ensures name in r ==> r[name] == ""
    ensures forall k :: k in errors && k != name ==> r[k] == errors[k]
  {
    if name in errors && errors[name] != "" then errors[name := ""] else errors
  }

  datatype PasswordField = Current | New | Confirm

  function PasswordFieldName(f: PasswordField): string {
    match f
    case Current => "currentPassword"
    case New => "newPassword"
    case Confirm => "confirmPassword"
  }

  /** `handlePasswordChange`: the field takes the value and its error, if
      any, is emptied; the other fields and errors stay. */
  function ChangePassword(form: PasswordForm, errors: Errors, f: PasswordField, v: string): (r: (PasswordForm, Errors))
    ensures r.1 == ClearError(errors, PasswordFieldName(f))
    ensures f == Current ==> r.0 == form.(currentPassword := v)
    ensures f == New ==> r.0 == form.(newPassword := v)
    ensures f == Confirm ==> r.0 == form.(confirmPassword := v)
  {
    var form' := match f
      case Current => form.(currentPassword := v)
      case New => form.(newPassword := v)
      case Confirm => form.(confirmPassword := v);
    (form', ClearError(errors, PasswordFieldName(f)))
  }

  /** The email form shares the error object, so typing its current
      password also empties the password form's current-password error. */
  function ChangeEmail(form: EmailForm, errors: Errors, toEmail: bool, v: string): (r: (EmailForm, Errors))
    ensures r.1 == ClearError(errors, if toEmail then "newEmail" else "currentPassword")
    ensures toEmail ==> r.0 == form.(newEmail := v)
    ensures !toEmail ==> r.0 == form.(currentPassword := v)
  {
    if toEmail then (form.(newEmail := v), ClearError(errors, "newEmail"))
    else (form.(currentPassword := v), ClearError(errors, "currentPassword"))
  }
}
