/** The registration rules `registrationValidationRules`: one chain per body
    field, each check adding its message when it fails. Chains do not stop at
    their first failure, so one field can contribute several messages. */
module Validation {
  import opened Builtins
  import opened Accounts

  const MIN_PASSWORD_LENGTH := 8

  /** A character of the regular-expression class `\w`, i.e. `[A-Za-z0-9_]`. */
  predicate IsWordChar(ch: char) {
    ('A' <= ch <= 'Z') || ('a' <= ch <= 'z') || IsDigit(ch) || ch == '_'
  }

  /** A character of the class `[\d\W]`: a digit, or anything outside `\w`. */
  predicate IsDigitOrSymbol(ch: char) {
    IsDigit(ch) || !IsWordChar(ch)
  }

  /** The search `/[\d\W]/.test(p)`, scanning left to right. */
  function MatchesDigitOrSymbol(p: string): (r: bool)
    ensures r <==> exists i :: 0 <= i < |p| && IsDigitOrSymbol(p[i])
  {
    if |p| == 0 then false
    else if IsDigitOrSymbol(p[0]) then true
    else
      var r := MatchesDigitOrSymbol(p[1..]);
      assert forall i :: 1 <= i < |p| ==> p[i] == p[1..][i - 1];
      r
  }

  /** The variation selectors U+FE0E and U+FE0F, which validator's `isLength`
      leaves out of the length. */
  predicate IsVariationSelector(ch: char) {
    ch == '\U{FE0E}' || ch == '\U{FE0F}'
  }

  /** The length `isLength` measures: code points (a surrogate pair counts
      once), not counting the variation selectors. */
  function CountedLength(p: string): (n: nat)
    ensures n == |p| - multiset(p)['\U{FE0E}'] - multiset(p)['\U{FE0F}']
  {
    if |p| == 0 then 0
    else
      assert p == [p[0]] + p[1..];
      (if IsVariationSelector(p[0]) then 0 else 1) + CountedLength(p[1..])
  }

  /** The declarative password policy. */
  predicate PasswordOk(p: string) {
    && |p| > 0
    && |p| - multiset(p)['\U{FE0E}'] - multiset(p)['\U{FE0F}'] >= MIN_PASSWORD_LENGTH
    && exists i :: 0 <= i < |p| && IsDigitOrSymbol(p[i])
  }

  /** A message when `failed`, nothing otherwise. */
  function Check(failed: bool, field: string, message: string): (r: seq<FieldError>)
    ensures |r| <= 1
    ensures r == [] <==> !failed
  {
    if failed then [FieldError(field, message)] else []
  }

  function FullNameErrors(fullName: Option<string>): (r: seq<FieldError>)
    ensures OnlyAbout(r, "fullName")
    ensures r == [] <==> Text(fullName) != ""
  {
    Check(Text(fullName) == "", "fullName", "Full name must not be empty")
  }

  /** `notEmpty`, `isEmail` and the uniqueness check. The first two see the
      field as text; the custom check sees the raw value, and a missing value
      equals no stored email. */
  function EmailErrors(users: seq<User>, email: Option<string>, lib: Library): (r: seq<FieldError>)
    ensures OnlyAbout(r, "email")
    ensures r == [] <==> Text(email) != "" && lib.isEmail(Text(email)) && !EmailTaken(users, Text(email))
    ensures FieldError("email", "Email is already registered") in r <==> email.Some? && EmailTaken(users, email.value)
  {
    Check(Text(email) == "", "email", "Email must not be empty")
    + Check(!lib.isEmail(Text(email)), "email", "Invalid email format")
    + Check(email.Some? && EmailTaken(users, email.value), "email", "Email is already registered")
  }

  function PasswordErrors(password: Option<string>): (r: seq<FieldError>)
    ensures OnlyAbout(r, "password")
    ensures r == [] <==> PasswordOk(Text(password))
  {
    var p := Text(password);
    Check(|p| == 0, "password", "Password must not be empty")
    + Check(CountedLength(p) < MIN_PASSWORD_LENGTH, "password", "Password must be at least 8 characters long")
    + Check(!MatchesDigitOrSymbol(p), "password", "Password must contain at least 1 symbol")
  }

  /** `bio` is optional and unchecked; `dob`, when present, must be a date. */
  function DobErrors(dob: Option<string>, lib: Library): (r: seq<FieldError>)
    ensures OnlyAbout(r, "dob")
    ensures r == [] <==> (dob.Some? ==> lib.isDate(dob.value))
  {
    Check(dob.Some? && !lib.isDate(dob.value), "dob", "Date of birth must be a valid date (YYYY-MM-DD)")
  }

  /** The declarative acceptance condition for a registration. */
  predicate Acceptable(users: seq<User>, c: Candidate, lib: Library) {
    && Text(c.fullName) != ""
    && Text(c.email) != ""
    && lib.isEmail(Text(c.email))
    && !EmailTaken(users, Text(c.email))
    && PasswordOk(Text(c.password))
    && (c.dob.Some? ==> lib.isDate(c.dob.value))
  }

  /** Some entry of `r` is about `field`. */
  ghost predicate Mentions(r: seq<FieldError>, field: string) {
    exists k :: 0 <= k < |r| && r[k].field == field
  }

  /** Every entry of `r` is about `field`. */
  ghost predicate OnlyAbout(r: seq<FieldError>, field: string) {
    forall k :: 0 <= k < |r| ==> r[k].field == field
  }

  lemma MentionsConcat(a: seq<FieldError>, b: seq<FieldError>, field: string)
    ensures Mentions(a + b, field) <==> Mentions(a, field) || Mentions(b, field)
  {
    if Mentions(a, field) {
      var k :| 0 <= k < |a| && a[k].field == field;
      assert (a + b)[k] == a[k];
    }
    if Mentions(b, field) {
      var k :| 0 <= k < |b| && b[k].field == field;
      assert (a + b)[|a| + k] == b[k];
    }
  }

  lemma MentionsOnly(r: seq<FieldError>, about: string, field: string)
    requires OnlyAbout(r, about)
    ensures Mentions(r, field) <==> r != [] && field == about
  {
    if r != [] && field == about {
      assert r[0].field == field;
    }
  }

  lemma NotInOthers(r: seq<FieldError>, about: string, e: FieldError)
    requires OnlyAbout(r, about) && e.field != about
    ensures e !in r
  {
  }

  /** `validationResult(req)` after all chains ran against the current accounts. */
  function Validate(users: seq<User>, c: Candidate, lib: Library): (r: seq<FieldError>)
    ensures r == [] <==> Acceptable(users, c, lib)
    ensures FieldError("email", "Email is already registered") in r
            <==> c.email.Some? && exists i :: 0 <= i < |users| && users[i].email == c.email.value
    ensures !Mentions(r, "password") <==> PasswordOk(Text(c.password))
    ensures !Mentions(r, "fullName") <==> Text(c.fullName) != ""
    ensures !Mentions(r, "email") <==>
      Text(c.email) != "" && lib.isEmail(Text(c.email)) && !EmailTaken(users, Text(c.email))
    ensures !Mentions(r, "dob") <==> (c.dob.Some? ==> lib.isDate(c.dob.value))
  {
    var name := FullNameErrors(c.fullName);
    var email := EmailErrors(users, c.email, lib);
    var password := PasswordErrors(c.password);
    var dob := DobErrors(c.dob, lib);
    var taken := FieldError("email", "Email is already registered");
    NotInOthers(name, "fullName", taken);
    NotInOthers(password, "password", taken);
    NotInOthers(dob, "dob", taken);
    MentionsConcat(name, email, "password");
    MentionsConcat(name + email, password, "password");
    MentionsConcat(name + email + password, dob, "password");
    MentionsConcat(name, email, "fullName");
    MentionsConcat(name + email, password, "fullName");
    MentionsConcat(name + email + password, dob, "fullName");
    MentionsConcat(name, email, "email");
    MentionsConcat(name + email, password, "email");
    MentionsConcat(name + email + password, dob, "email");
    MentionsConcat(name, email, "dob");
    MentionsConcat(name + email, password, "dob");
    MentionsConcat(name + email + password, dob, "dob");
    MentionsOnly(name, "fullName", "email");
    MentionsOnly(email, "email", "email");
    MentionsOnly(password, "password", "email");
    MentionsOnly(dob, "dob", "email");
    MentionsOnly(name, "fullName", "dob");
    MentionsOnly(email, "email", "dob");
    MentionsOnly(password, "password", "dob");
    MentionsOnly(dob, "dob", "dob");
    MentionsOnly(name, "fullName", "password");
    MentionsOnly(email, "email", "password");
    MentionsOnly(password, "password", "password");
    MentionsOnly(dob, "dob", "password");
    MentionsOnly(name, "fullName", "fullName");
    MentionsOnly(email, "email", "fullName");
    MentionsOnly(password, "password", "fullName");
    MentionsOnly(dob, "dob", "fullName");
    name + email + password + dob
  }

  /** The password rule in its plain form: at least eight counted characters,
      one of which is a digit or a symbol. Non-emptiness is implied by the length check. */
  lemma PasswordRule(p: string)
    ensures PasswordErrors(Some(p)) == [] <==> PasswordOk(p)
    ensures PasswordOk(p) <==> CountedLength(p) >= 8 && exists i :: 0 <= i < |p| && IsDigitOrSymbol(p[i])
  {
  }

  lemma PasswordExamples()
    ensures PasswordOk("abcdefg1")
    ensures !PasswordOk("abcdefgh")
    ensures !PasswordOk("short1")
    ensures !PasswordOk("abcdef1\U{FE0F}")
  {
    assert IsDigitOrSymbol("abcdefg1"[7]);
    assert forall i :: 0 <= i < 8 ==> !IsDigitOrSymbol("abcdefgh"[i]);
  }
}
