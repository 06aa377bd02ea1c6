/** The request-body rules of `auth.validation.js`. Every field is trimmed
    first, then each check of its chain adds its message when it fails; all
    chains run, so the result lists every failing check in order. A missing
    field is the empty string. `isEmail` is a parameter. */
module Validation {

  /** The code points of JavaScript's `\s`, which the trim sanitizer strips. */
  const JsWhitespace: set<int> :=
    {0x09, 0x0A, 0x0B, 0x0C, 0x0D, 0x20, 0xA0, 0x1680,
     0x2000, 0x2001, 0x2002, 0x2003, 0x2004, 0x2005, 0x2006, 0x2007, 0x2008, 0x2009, 0x200A,
     0x2028, 0x2029, 0x202F, 0x205F, 0x3000, 0xFEFF}

  predicate IsJsWhitespace(c: char) {
    c as int in JsWhitespace
  }

  predicate AllWhitespace(s: string) {
    forall i :: 0 <= i < |s| ==> IsJsWhitespace(s[i])
  }

  /** The number of whitespace characters `s` starts with. */
  function LeadingWhitespace(s: string): (k: nat)
    ensures k <= |s|
    ensures forall i :: 0 <= i < k ==> IsJsWhitespace(s[i])
    ensures k < |s| ==> !IsJsWhitespace(s[k])
  {
    if |s| > 0 && IsJsWhitespace(s[0]) then
      var k := 1 + LeadingWhitespace(s[1..]);
      assert forall i :: 1 <= i < k ==> s[i] == s[1..][i - 1];
      k
    else 0
  }

  /** The length of `s` without the whitespace it ends with. */
  function TrailingStart(s: string): (k: nat)
    ensures k <= |s|
    ensures forall i :: k <= i < |s| ==> IsJsWhitespace(s[i])
    ensures 0 < k ==> !IsJsWhitespace(s[k - 1])
  {
    if |s| > 0 && IsJsWhitespace(s[|s| - 1]) then
      var k := TrailingStart(s[..|s| - 1]);
      assert forall i :: k <= i < |s| - 1 ==> s[i] == s[..|s| - 1][i];
      k
    else |s|
  }

  /** The `trim()` sanitizer: the slice of `s` left when the whitespace at both
      ends is cut off. */
  function Trim(s: string): (r: string)
    ensures exists i, j :: 0 <= i <= j <= |s| && r == s[i..j] && AllWhitespace(s[..i]) && AllWhitespace(s[j..])
    ensures r == "" || (!IsJsWhitespace(r[0]) && !IsJsWhitespace(r[|r| - 1]))
    ensures AllWhitespace(s) <==> r == ""
  {
    var i := LeadingWhitespace(s);
    var j := i + TrailingStart(s[i..]);
    TrimFacts(s, i, j);
    s[i..j]
  }

  lemma TrimFacts(s: string, i: nat, j: nat)
    requires i == LeadingWhitespace(s) && j == i + TrailingStart(s[i..])
    ensures 0 <= i <= j <= |s| && AllWhitespace(s[..i]) && AllWhitespace(s[j..])
    ensures s[i..j] == "" || (!IsJsWhitespace(s[i]) && !IsJsWhitespace(s[j - 1]))
    ensures AllWhitespace(s) <==> i == j
  {
    TrimCutsWhitespace(s, i, j);
    TrimKeepsEnds(s, i, j);
  }

  lemma TrimCutsWhitespace(s: string, i: nat, j: nat)
    requires i == LeadingWhitespace(s) && j == i + TrailingStart(s[i..])
    ensures j <= |s| && AllWhitespace(s[..i]) && AllWhitespace(s[j..])
  {
    var t := s[i..];
    var m := TrailingStart(t);
    assert m <= |t| && j == i + m && |t| == |s| - i;
    assert forall q :: m <= q < |t| ==> IsJsWhitespace(t[q]);
    forall k | 0 <= k < |s| - j ensures IsJsWhitespace(s[j..][k]) {
      assert m <= m + k < |t|;
      assert s[j..][k] == t[m + k];
    }
  }

  lemma TrimKeepsEnds(s: string, i: nat, j: nat)
    requires i == LeadingWhitespace(s) && j == i + TrailingStart(s[i..])
    ensures i < j ==> !IsJsWhitespace(s[i]) && !IsJsWhitespace(s[j - 1])
  {
    var t := s[i..];
    if i < j {
      assert s[j - 1] == t[j - i - 1];
    }
  }

  /** Trimming twice is trimming once. */
  lemma TrimIdempotent(s: string)
    ensures Trim(Trim(s)) == Trim(s)
  {
    TrimUnchanged(Trim(s));
  }

  /** A string with no whitespace at either end is its own trim. */
  lemma TrimUnchanged(r: string)
    requires r == "" || (!IsJsWhitespace(r[0]) && !IsJsWhitespace(r[|r| - 1]))
    ensures Trim(r) == r
  {
    assert LeadingWhitespace(r) == 0;
    assert r[0..] == r;
  }

  /** One entry of the error list express-validator reports. */
  datatype FieldError = FieldError(field: string, message: string)

  /** A check of a chain: its message when it fails, nothing when it passes. */
  function Check(ok: bool, field: string, message: string): (errs: seq<FieldError>)
    ensures errs == [] <==> ok
  {
    if ok then [] else [FieldError(field, message)]
  }

  predicate IsLower(c: char) { 'a' <= c <= 'z' }
  predicate IsUpper(c: char) { 'A' <= c <= 'Z' }
  predicate IsDigit(c: char) { '0' <= c <= '9' }
  predicate IsSpecial(c: char) { c in "@$!%*?&" }

  /** Characters `.` does not match in a JavaScript regular expression. */
  predicate IsLineTerminator(c: char) {
    c == '\n' || c == '\r' || c as int == 0x2028 || c as int == 0x2029
  }

  /** `(?=.*[class])`: a character of the class occurs, preceded only by
      characters `.` matches. */
  predicate Lookahead(p: string, inClass: char -> bool) {
    exists i :: 0 <= i < |p| && inClass(p[i]) && forall j :: 0 <= j < i ==> !IsLineTerminator(p[j])
  }

  /** `/^(?=.*[a-z])(?=.*[A-Z])(?=.*\d)(?=.*[@$!%*?&])[A-Za-z\d@$!%*?&]{8,}$/`
      read literally: the four lookaheads at the start, then eight or more
      characters of the allowed class up to the end. */
  predicate MatchesPasswordPattern(p: string) {
    && Lookahead(p, IsLower) && Lookahead(p, IsUpper) && Lookahead(p, IsDigit) && Lookahead(p, IsSpecial)
    && |p| >= 8
    && forall i :: 0 <= i < |p| ==> IsLower(p[i]) || IsUpper(p[i]) || IsDigit(p[i]) || IsSpecial(p[i])
  }

  /** The password policy in plain terms: eight or more characters, each a
      letter, digit or one of @$!%*?&, with at least one lowercase letter, one
      uppercase letter, one digit and one special character. */
  predicate IsStrongPassword(p: string) {
    && |p| >= 8
    && (forall i :: 0 <= i < |p| ==> IsLower(p[i]) || IsUpper(p[i]) || IsDigit(p[i]) || IsSpecial(p[i]))
    && (exists i :: 0 <= i < |p| && IsLower(p[i]))
    && (exists i :: 0 <= i < |p| && IsUpper(p[i]))
    && (exists i :: 0 <= i < |p| && IsDigit(p[i]))
    && (exists i :: 0 <= i < |p| && IsSpecial(p[i]))
  }

  /** The regular expression accepts exactly the passwords of the policy: since
      no allowed character is a line terminator, the lookaheads only ask that
      each class occurs somewhere. */
  lemma PatternIsPolicy(p: string)
    ensures MatchesPasswordPattern(p) <==> IsStrongPassword(p)
  {
    if IsStrongPassword(p) {
      assert forall j :: 0 <= j < |p| ==> !IsLineTerminator(p[j]);
    }
  }

  /** The username chain: required, then 3 to 20 characters, both after trimming. */
  function UsernameErrors(username: string): (errs: seq<FieldError>)
    ensures errs == [] <==> 3 <= |Trim(username)| <= 20
    ensures Trim(username) == "" ==> errs == [FieldError("username", "Username is required"),
                                              FieldError("username", "Username must be between 3-20 characters")]
  {
    var v := Trim(username);
    Check(v != "", "username", "Username is required")
    + Check(3 <= |v| <= 20, "username", "Username must be between 3-20 characters")
  }

  /** The email chain: required, then of email form, both after trimming. */
  function EmailErrors(email: string, isEmail: string -> bool): (errs: seq<FieldError>)
    ensures errs == [] <==> Trim(email) != "" && isEmail(Trim(email))
  {
    var v := Trim(email);
    Check(v != "", "email", "Email is required") + Check(isEmail(v), "email", "Invalid email format")
  }

  /** The password chain shared by registration and reset; only the field name
      and the required-message differ. */
  function StrongPasswordErrors(field: string, requiredMessage: string, password: string): (errs: seq<FieldError>)
    ensures errs == [] <==> IsStrongPassword(Trim(password))
    ensures forall e :: e in errs ==> e.field == field
  {
    var v := Trim(password);
    PatternIsPolicy(v);
    Check(v != "", field, requiredMessage)
    + Check(|v| >= 8, field, "Password must be at least 8 characters")
    + Check(MatchesPasswordPattern(v), field,
            "Password must contain at least one uppercase letter, one lowercase letter, one number and one special character")
  }

  /** `validateRegister`: no errors exactly when the trimmed username has 3 to
      20 characters, the trimmed email is of email form and the trimmed
      password meets the policy. */
  function ValidateRegister(username: string, email: string, password: string, isEmail: string -> bool)
    : (errs: seq<FieldError>)
    ensures errs == [] <==>
      && 3 <= |Trim(username)| <= 20
      && Trim(email) != "" && isEmail(Trim(email))
      && IsStrongPassword(Trim(password))
  {
    UsernameErrors(username) + EmailErrors(email, isEmail)
    + StrongPasswordErrors("password", "Password is required", password)
  }

  /** `validateLogin`: the email as for registration; the password only has to
      be non-empty after trimming. */
  function ValidateLogin(email: string, password: string, isEmail: string -> bool): (errs: seq<FieldError>)
    ensures errs == [] <==> Trim(email) != "" && isEmail(Trim(email)) && Trim(password) != ""
  {
    EmailErrors(email, isEmail) + Check(Trim(password) != "", "password", "Password is required")
  }

  /** `validatePasswordReset`: a non-empty trimmed token, and a new password
      under the registration policy. */
  function ValidatePasswordReset(token: string, newPassword: string): (errs: seq<FieldError>)
    ensures errs == [] <==> Trim(token) != "" && IsStrongPassword(Trim(newPassword))
  {
    Check(Trim(token) != "", "token", "Token is required")
    + StrongPasswordErrors("newPassword", "New password is required", newPassword)
  }

  /** A password registration accepts is one login and reset accept. */
  lemma RegisterPasswordPassesLoginAndReset(username: string, email: string, password: string,
                                            token: string, isEmail: string -> bool)
    requires ValidateRegister(username, email, password, isEmail) == []
    requires Trim(token) != ""
    ensures ValidateLogin(email, password, isEmail) == []
    ensures ValidatePasswordReset(token, password) == []
  {
  }

  /** A character outside letters, digits and @$!%*?& anywhere inside the
      trimmed password makes registration fail. */
  lemma ForeignCharacterRejected(password: string, k: nat)
    requires k < |Trim(password)|
    requires var c := Trim(password)[k]; !(IsLower(c) || IsUpper(c) || IsDigit(c) || IsSpecial(c))
    ensures StrongPasswordErrors("password", "Password is required", password) != []
  {
  }
}
