/**
 * The checks the login page runs in the browser before it calls the
 * authentication service: the e-mail shape, the password-strength meter,
 * the field rules of the login, register and reset forms, and the table that
 * turns the service's error codes into messages.
 */
module AuthRules {
  import opened Optional
  import opened Strings

  // ---------------------------------------------------------------- email

  /** A character of `[^\s@]`. */
  predicate EmailChar(c: char) {
    c != '@' && !IsJsSpace(c)
  }

  predicate AllEmailChars(s: string) {
    forall k :: 0 <= k < |s| ==> EmailChar(s[k])
  }

  /**
   * The strings `/^[^\s@]+@[^\s@]+\.[^\s@]+$/` accepts: one '@' with text
   * before it, a '.' after it with text on both sides, and no white space.
   */
  predicate EmailShape(e: string) {
    exists at, dot ::
      0 < at && at + 1 < dot && dot + 1 < |e| && e[at] == '@' && e[dot] == '.'
      && forall k :: 0 <= k < |e| && k != at ==> EmailChar(e[k])
  }

  /** `validateEmail`: the part after the last '@' is the domain, which needs an inner '.'. */
  function ValidEmail(e: string): bool {
    var at := LastIndexOf(e, '@');
    at > 0 && AllEmailChars(e[..at]) && DomainOk(e[at + 1..])
  }

  predicate DomainOk(d: string) {
    |d| >= 3 && AllEmailChars(d) && '.' in d[1..|d| - 1]
  }

  /** The check accepts exactly the strings of the pattern's shape. */
  lemma ValidEmailShape(e: string)
    ensures ValidEmail(e) <==> EmailShape(e)
  {
    if ValidEmail(e) {
      ValidEmailHasShape(e);
    }
    if EmailShape(e) {
      ShapeIsValidEmail(e);
    }
  }

  lemma ValidEmailHasShape(e: string)
    requires ValidEmail(e)
    ensures EmailShape(e)
  {
    var at := LastIndexOf(e, '@');
    var d := e[at + 1..];
    var inner := d[1..|d| - 1];
    var j :| 0 <= j < |inner| && inner[j] == '.';
    var dot := at + 2 + j;
    assert e[dot] == '.';
    forall k | 0 <= k < |e| && k != at ensures EmailChar(e[k]) {
      if k < at {
        assert e[k] == e[..at][k];
      } else {
        assert e[k] == d[k - at - 1];
      }
    }
    assert 0 < at && at + 1 < dot && dot + 1 < |e| && e[at] == '@' && e[dot] == '.';
  }

  lemma ShapeIsValidEmail(e: string)
    requires EmailShape(e)
    ensures ValidEmail(e)
  {
    var at, dot :| 0 < at && at + 1 < dot && dot + 1 < |e| && e[at] == '@' && e[dot] == '.'
      && forall k :: 0 <= k < |e| && k != at ==> EmailChar(e[k]);
    var d := e[at + 1..];
    forall k | 0 <= k < |d| ensures d[k] != '@' {
      assert d[k] == e[at + 1 + k];
    }
    LastIndexIsLast(e, '@', at);
    assert d[1..|d| - 1][dot - at - 2] == '.';
  }

  // ------------------------------------------------------------- strength

  predicate HasLower(p: string) {
    exists i :: 0 <= i < |p| && 'a' <= p[i] <= 'z'
  }

  predicate HasUpper(p: string) {
    exists i :: 0 <= i < |p| && 'A' <= p[i] <= 'Z'
  }

  predicate HasDigit(p: string) {
    exists i :: 0 <= i < |p| && '0' <= p[i] <= '9'
  }

  /** A character of `[^a-zA-Z0-9]`. */
  predicate IsSymbol(c: char) {
    !('a' <= c <= 'z') && !('A' <= c <= 'Z') && !('0' <= c <= '9')
  }

  predicate HasSymbol(p: string) {
    exists i :: 0 <= i < |p| && IsSymbol(p[i])
  }

  function Point(b: bool): nat {
    if b then 1 else 0
  }

  /** The meter's score: one point per criterion met (JavaScript length of at least 8, lower, upper, digit, other). */
  function Score(p: string): (n: nat)
    ensures n <= 5
  {
    Point(Utf16Length(p) >= 8) + Point(HasLower(p)) + Point(HasUpper(p)) + Point(HasDigit(p)) + Point(HasSymbol(p))
  }

  datatype Strength = Weak | Medium | Strong   // 'Lemah', 'Sedang', 'Kuat'

  function Rank(s: Strength): nat {
    match s
    case Weak => 0
    case Medium => 1
    case Strong => 2
  }

  /** `updatePasswordStrength`: no label for an empty password, else weak up to 2 points, medium at 3, strong from 4. */
  function StrengthOf(p: string): (r: Option<Strength>)
    ensures r.None? <==> p == ""
    ensures r == Some(Weak) <==> p != "" && Score(p) <= 2
    ensures r == Some(Medium) <==> p != "" && Score(p) == 3
    ensures r == Some(Strong) <==> p != "" && Score(p) >= 4
  {
    if p == "" then None
    else
      var score := Score(p);
      if score <= 2 then Some(Weak) else if score <= 3 then Some(Medium) else Some(Strong)
  }

  lemma {:induction false} Utf16Append(p: string, q: string)
    ensures Utf16Length(p + q) == Utf16Length(p) + Utf16Length(q)
    decreases |p|
  {
    if |p| > 0 {
      assert (p + q)[1..] == p[1..] + q;
      Utf16Append(p[1..], q);
    } else {
      assert p + q == q;
    }
  }

  /** The full score is reached exactly when every criterion is met. */
  lemma FullScore(p: string)
    ensures Score(p) == 5 <==> Utf16Length(p) >= 8 && HasLower(p) && HasUpper(p) && HasDigit(p) && HasSymbol(p)
  {
  }

  /** Typing one more character never lowers the score or the label. */
  lemma ScoreGrows(p: string, c: char)
    ensures Score(p) <= Score(p + [c])
    ensures p != "" ==> Rank(StrengthOf(p).value) <= Rank(StrengthOf(p + [c]).value)
  {
    var q := p + [c];
    Utf16Append(p, [c]);
    if HasLower(p) { var i :| 0 <= i < |p| && 'a' <= p[i] <= 'z'; assert q[i] == p[i]; }
    if HasUpper(p) { var i :| 0 <= i < |p| && 'A' <= p[i] <= 'Z'; assert q[i] == p[i]; }
    if HasDigit(p) { var i :| 0 <= i < |p| && '0' <= p[i] <= '9'; assert q[i] == p[i]; }
    if HasSymbol(p) { var i :| 0 <= i < |p| && IsSymbol(p[i]); assert q[i] == p[i]; }
  }

  /** A strong password mixes at least three of the four character classes. */
  lemma StrongIsMixed(p: string)
    requires StrengthOf(p) == Some(Strong)
    ensures Point(HasLower(p)) + Point(HasUpper(p)) + Point(HasDigit(p)) + Point(HasSymbol(p)) >= 3
  {
  }

  // ---------------------------------------------------------------- forms

  /** The inputs a message can be shown under (the ids `name`, `email`, `password`, `confirmPassword`, `terms`, `resetEmail`). */
  datatype Input = Name | Email | Password | ConfirmPassword | Terms | ResetEmail

  /** A message shown under one input. */
  datatype FieldError = FieldError(field: Input, message: string)

  predicate OnePerField(errs: seq<FieldError>) {
    forall i, j :: 0 <= i < j < |errs| ==> errs[i].field != errs[j].field
  }

  /** The e-mail rule shared by the three forms; the input is trimmed first. */
  function EmailErrors(field: Input, input: string): (errs: seq<FieldError>)
    ensures |errs| <= 1
    ensures errs == [] <==> EmailShape(Trim(input))
    ensures forall i :: 0 <= i < |errs| ==> errs[i].field == field
  {
    var email := Trim(input);
    ValidEmailShape(email);
    if email == "" then [FieldError(field, "Email wajib diisi")]
    else if !ValidEmail(email) then [FieldError(field, "Format email tidak valid")]
    else []
  }

  /** `handleLogin`'s checks: a well-formed e-mail and a non-empty password. */
  function LoginErrors(email: string, password: string): (errs: seq<FieldError>)
    ensures OnePerField(errs)
  {
    EmailErrors(Email, email) + (if password == "" then [FieldError(Password, "Password wajib diisi")] else [])
  }

  /** The login request is sent exactly when the e-mail has the pattern's shape and a password was typed. */
  lemma LoginProceeds(email: string, password: string)
    ensures LoginErrors(email, password) == [] <==> EmailShape(Trim(email)) && password != ""
  {
  }

  function NameErrors(input: string): (errs: seq<FieldError>)
    ensures |errs| <= 1 && forall i :: 0 <= i < |errs| ==> errs[i].field == Name
    ensures errs == [] <==> Utf16Length(Trim(input)) >= 2
  {
    var name := Trim(input);
    if name == "" then [FieldError(Name, "Nama wajib diisi")]
    else if Utf16Length(name) < 2 then [FieldError(Name, "Nama minimal 2 karakter")]
    else []
  }

  function PasswordErrors(password: string): (errs: seq<FieldError>)
    ensures |errs| <= 1 && forall i :: 0 <= i < |errs| ==> errs[i].field == Password
    ensures errs == [] <==> Utf16Length(password) >= 6
  {
    if password == "" then [FieldError(Password, "Password wajib diisi")]
    else if Utf16Length(password) < 6 then [FieldError(Password, "Password minimal 6 karakter")]
    else []
  }

  function ConfirmErrors(password: string, confirm: string): (errs: seq<FieldError>)
    ensures |errs| <= 1 && forall i :: 0 <= i < |errs| ==> errs[i].field == ConfirmPassword
    ensures errs == [] <==> confirm != "" && confirm == password
  {
    if confirm == "" then [FieldError(ConfirmPassword, "Konfirmasi password wajib diisi")]
    else if password != confirm then [FieldError(ConfirmPassword, "Password tidak cocok")]
    else []
  }

  /** `handleRegister`'s checks, in form order; `terms` is the checkbox state, None when the page has none. */
  function RegisterErrors(name: string, email: string, password: string, confirm: string, terms: Option<bool>)
    : (errs: seq<FieldError>)
  {
    NameErrors(name) + EmailErrors(Email, email) + PasswordErrors(password) + ConfirmErrors(password, confirm)
    + TermsErrors(terms)
  }

  function TermsErrors(terms: Option<bool>): (errs: seq<FieldError>)
    ensures |errs| <= 1 && forall i :: 0 <= i < |errs| ==> errs[i].field == Terms
    ensures errs == [] <==> terms != Some(false)
  {
    if terms == Some(false) then [FieldError(Terms, "Anda harus menyetujui syarat & ketentuan")] else []
  }

  /** Every message of `errs` is about one of `fields`. */
  predicate About(errs: seq<FieldError>, fields: set<Input>) {
    forall i :: 0 <= i < |errs| ==> errs[i].field in fields
  }

  /** Two error lists about different inputs can be shown together. */
  lemma DisjointFields(a: seq<FieldError>, fa: set<Input>, b: seq<FieldError>, fb: set<Input>)
    requires OnePerField(a) && OnePerField(b) && About(a, fa) && About(b, fb) && fa !! fb
    ensures OnePerField(a + b) && About(a + b, fa + fb)
  {
    forall i, j | 0 <= i < j < |a + b| ensures (a + b)[i].field != (a + b)[j].field {
      if j >= |a| && i < |a| {
        assert (a + b)[i].field in fa && (a + b)[j].field in fb;
      }
    }
  }

  /** Each input shows at most one register message. */
  lemma RegisterOnePerField(name: string, email: string, password: string, confirm: string, terms: Option<bool>)
    ensures OnePerField(RegisterErrors(name, email, password, confirm, terms))
  {
    var a := NameErrors(name);
    var b := EmailErrors(Email, email);
    var c := PasswordErrors(password);
    var d := ConfirmErrors(password, confirm);
    var e := TermsErrors(terms);
    DisjointFields(a, {Name}, b, {Email});
    DisjointFields(a + b, {Name, Email}, c, {Password});
    DisjointFields(a + b + c, {Name, Email, Password}, d, {ConfirmPassword});
    DisjointFields(a + b + c + d, {Name, Email, Password, ConfirmPassword}, e, {Terms});
  }

  /**
   * The account is created exactly when the trimmed name has two or more
   * characters, the trimmed e-mail has the pattern's shape, the password has
   * six or more, the confirmation repeats it, and the terms box (if shown) is
   * ticked.
   */
  lemma RegisterProceeds(name: string, email: string, password: string, confirm: string, terms: Option<bool>)
    ensures RegisterErrors(name, email, password, confirm, terms) == []
        <==> Utf16Length(Trim(name)) >= 2 && EmailShape(Trim(email))
             && Utf16Length(password) >= 6 && confirm == password && terms != Some(false)
  {
    var a := NameErrors(name);
    var b := EmailErrors(Email, email);
    var c := PasswordErrors(password);
    var d := ConfirmErrors(password, confirm);
    var e := TermsErrors(terms);
    NoErrorsInAny(a, b, c, d, e);
    if password == "" {
      assert Utf16Length(password) == 0;
    }
  }

  /** Joined error lists are empty exactly when every one of them is. */
  lemma NoErrorsInAny(a: seq<FieldError>, b: seq<FieldError>, c: seq<FieldError>, d: seq<FieldError>, e: seq<FieldError>)
    ensures a + b + c + d + e == [] <==> a == [] && b == [] && c == [] && d == [] && e == []
  {
    assert |a + b + c + d + e| == |a| + |b| + |c| + |d| + |e|;
  }

  /** `handleForgotPassword`: the reset mail is requested exactly for a well-formed address. */
  function ResetErrors(email: string): (errs: seq<FieldError>)
    ensures errs == [] <==> EmailShape(Trim(email))
  {
    EmailErrors(ResetEmail, email)
  }

  // --------------------------------------------------------------- errors

  const Messages: map<string, string> := map[
    "auth/user-not-found" := "Akun tidak ditemukan",
    "auth/wrong-password" := "Password salah",
    "auth/invalid-email" := "Format email tidak valid",
    "auth/email-already-in-use" := "Email sudah digunakan",
    "auth/weak-password" := "Password minimal 6 karakter",
    "auth/network-request-failed" := "Koneksi internet bermasalah",
    "auth/too-many-requests" := "Terlalu banyak percobaan, coba lagi nanti",
    "auth/invalid-credential" := "Email atau password salah",
    "auth/invalid-login-credentials" := "Email atau password salah",
    "auth/user-disabled" := "Akun dinonaktifkan",
    "auth/popup-blocked" := "Popup diblokir browser, izinkan popup",
    "auth/popup-closed-by-user" := "Login dibatalkan",
    "auth/cancelled-popup-request" := "Login dibatalkan",
    "auth/account-exists-with-different-credential" := "Akun sudah ada dengan metode login lain"
  ]

  const Fallback: string := "Terjadi kesalahan: "

  /** `getErrorMessage`: the table's message, or the generic one naming the code. */
  function ErrorMessage(code: string): (m: string)
    ensures code in Messages ==> m == Messages[code]
    ensures code !in Messages ==> m == Fallback + code
  {
    if code in Messages && Messages[code] != "" then Messages[code] else Fallback + code
  }

  /** Every code gets a non-empty message. */
  lemma MessageNeverEmpty(code: string)
    ensures ErrorMessage(code) != ""
  {
    if code !in Messages {
      assert |Fallback + code| >= |Fallback|;
    }
  }
}
