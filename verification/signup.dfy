/**
 * frontend/realtime-note-frontend/src/app/signup/page.jsx: the two validators,
 * the ordered checks of `handleSubmit`, the mapping of a failed signup to a
 * message, and `handleChange`.
 *
 * Each regular expression is given twice: as the executable predicate the page
 * evaluates, and as a ghost predicate that reads the pattern literally (which
 * spans of the input its parts consume); a lemma shows the two agree.
 */
module Signup {
  import opened Wrappers
  import JsString

  /** `\S`. */
  predicate IsNonSpace(c: char) {
    !JsString.IsWhiteSpace(c)
  }

  /**
   * `validateEmail`: `/\S+@\S+\.\S+/.test(email)`, unanchored. It holds when some
   * `@` at position p and `.` at position d have a character before p, one
   * between them and one after d, with no whitespace from p - 1 to d + 1.
   */
  predicate ValidateEmail(email: string) {
    exists p, d | 1 <= p < |email| && p + 1 < d < |email| - 1 ::
      && email[p] == '@' && email[d] == '.'
      && forall k | p - 1 <= k <= d + 1 :: IsNonSpace(email[k])
  }

  /** The pattern matches `s[a..e]` as `s[a..p]`, `@`, `s[p+1..d]`, `.`, `s[d+1..e]`. */
  ghost predicate EmailMatchSpan(s: string, a: int, p: int, d: int, e: int) {
    && 0 <= a < p && p + 1 < d && d + 1 < e <= |s|
    && s[p] == '@' && s[d] == '.'
    && (forall k :: a <= k < p ==> IsNonSpace(s[k]))
    && (forall k :: p + 1 <= k < d ==> IsNonSpace(s[k]))
    && (forall k :: d + 1 <= k < e ==> IsNonSpace(s[k]))
  }

  ghost predicate EmailPatternMatches(s: string) {
    exists a, p, d, e :: EmailMatchSpan(s, a, p, d, e)
  }

  /** The executable check accepts exactly the strings the pattern matches somewhere. */
  lemma ValidateEmailMatchesPattern(s: string)
    ensures ValidateEmail(s) <==> EmailPatternMatches(s)
  {
    if ValidateEmail(s) {
      var p, d :| 1 <= p < |s| && p + 1 < d < |s| - 1 && s[p] == '@' && s[d] == '.'
        && forall k | p - 1 <= k <= d + 1 :: IsNonSpace(s[k]);
      assert EmailMatchSpan(s, p - 1, p, d, d + 2);
    }
    if EmailPatternMatches(s) {
      var a, p, d, e :| EmailMatchSpan(s, a, p, d, e);
      forall k | p - 1 <= k <= d + 1 ensures IsNonSpace(s[k]) {
        if k == p || k == d {
          assert s[k] == '@' || s[k] == '.';
        }
      }
    }
  }

  /** The pattern is unanchored: text around an accepted address keeps it accepted. */
  lemma ValidateEmailUnanchored(s: string, before: string, after: string)
    requires ValidateEmail(s)
    ensures ValidateEmail(before + s + after)
  {
    var t := before + s + after;
    var p, d :| 1 <= p < |s| && p + 1 < d < |s| - 1 && s[p] == '@' && s[d] == '.'
      && forall k | p - 1 <= k <= d + 1 :: IsNonSpace(s[k]);
    var shift := |before|;
    assert t[p + shift] == '@' && t[d + shift] == '.';
    forall k | p + shift - 1 <= k <= d + shift + 1 ensures IsNonSpace(t[k]) {
      assert t[k] == s[k - shift];
    }
  }

  /** An accepted address holds an `@`, a later `.`, and at least five characters. */
  lemma ValidEmailShape(s: string)
    requires ValidateEmail(s)
    ensures '@' in s && '.' in s && |s| >= 5
  {
  }

  /**
   * Sample inputs: a plain address is accepted and, since the pattern is
   * unanchored, so is text with a space before the address part.
   */
  lemma EmailAcceptedExamples()
    ensures ValidateEmail("a@b.c")
    ensures ValidateEmail("my name@x.io")
  {
    assert "a@b.c"[1] == '@' && "a@b.c"[3] == '.';
    var s := "my name@x.io";
    assert s[7] == '@' && s[9] == '.';
    assert forall k | 6 <= k <= 10 :: IsNonSpace(s[k]);
  }

  /** Sample inputs: no dot after the `@`, or nothing before it, is refused. */
  lemma EmailRefusedExamples()
    ensures !ValidateEmail("a@b")
    ensures !ValidateEmail("@b.c")
  {
    var s := "@b.c";
    assert forall p | 1 <= p < |s| :: s[p] != '@';
  }

  predicate IsAsciiDigit(c: char) {
    '0' <= c <= '9'
  }

  /** `\w`: `[A-Za-z0-9_]`. */
  predicate IsWordChar(c: char) {
    ('A' <= c <= 'Z') || ('a' <= c <= 'z') || IsAsciiDigit(c) || c == '_'
  }

  /** `[\W_]`: not a word character, or `_`; that is, anything outside `[A-Za-z0-9]`. */
  predicate IsSpecial(c: char) {
    !IsWordChar(c) || c == '_'
  }

  /**
   * `validatePassword`: `/^(?=.*[0-9])(?=.*[\W_]).{6,}$/.test(password)`: at least
   * six UTF-16 code units, no line terminator, a digit, and a special character.
   * Without the `u` flag the pattern works on code units: a character outside the
   * Basic Multilingual Plane is two of them for `.{6,}`, and its leading
   * surrogate already matches `[\W_]`, as the character does here.
   */
  predicate ValidatePassword(password: string) {
    && JsString.Utf16Length(password) >= 6
    && (forall k | 0 <= k < |password| :: !JsString.IsLineTerminator(password[k]))
    && (exists i | 0 <= i < |password| :: IsAsciiDigit(password[i]))
    && (exists i | 0 <= i < |password| :: IsSpecial(password[i]))
  }

  /** `.` repeated over `s[..i]`: no line terminator before position i. */
  ghost predicate DotsUpTo(s: string, i: int) {
    forall k :: 0 <= k < i && k < |s| ==> !JsString.IsLineTerminator(s[k])
  }

  /**
   * The pattern read literally from position 0: each lookahead `.*X` finds an X
   * reachable over `.`, and `.{6,}$` consumes the whole input over `.`, six code
   * units or more (a surrogate half is never a line terminator, so `.` passes
   * both halves of a pair).
   */
  ghost predicate PasswordPatternMatches(s: string) {
    && (exists i :: 0 <= i < |s| && IsAsciiDigit(s[i]) && DotsUpTo(s, i))
    && (exists i :: 0 <= i < |s| && IsSpecial(s[i]) && DotsUpTo(s, i))
    && JsString.Utf16Length(s) >= 6 && DotsUpTo(s, |s|)
  }

  /** The executable check accepts exactly the strings the pattern accepts. */
  lemma ValidatePasswordMatchesPattern(s: string)
    ensures ValidatePassword(s) <==> PasswordPatternMatches(s)
  {
    if ValidatePassword(s) {
      var i :| 0 <= i < |s| && IsAsciiDigit(s[i]);
      var j :| 0 <= j < |s| && IsSpecial(s[j]);
      assert DotsUpTo(s, i) && DotsUpTo(s, j);
    }
  }

  /** Sample input: six characters with a digit and a symbol pass. */
  lemma PasswordAcceptedExample()
    ensures ValidatePassword("abc12!")
  {
    var six := "abc12!";
    assert JsString.Utf16Length(six) >= |six|;
    assert IsAsciiDigit(six[3]) && IsSpecial(six[5]);
  }

  /** Sample inputs: no digit, or five characters, fail. */
  lemma PasswordRefusedExamples()
    ensures !ValidatePassword("abcdef")
    ensures !ValidatePassword("ab1!x")
  {
    var noDigit := "abcdef";
    assert forall i | 0 <= i < |noDigit| :: !IsAsciiDigit(noDigit[i]);
    var short := "ab1!x";
    assert forall i | 0 <= i < |short| :: short[i] <= '\U{FFFF}';
  }

  /**
   * Characters outside the Basic Multilingual Plane count twice: two emoji, a
   * digit and a symbol are six code units and pass, though only four characters.
   */
  lemma PasswordCountsCodeUnits()
    ensures ValidatePassword("1!\U{1F600}\U{1F600}")
    ensures !ValidatePassword("1!ab")
  {
    assert IsAsciiDigit("1!\U{1F600}\U{1F600}"[0]) && IsSpecial("1!\U{1F600}\U{1F600}"[1]);
  }

  /** A special character is exactly one outside `[A-Za-z0-9]`. */
  lemma SpecialIsNotAlphanumeric(c: char)
    ensures IsSpecial(c) <==> !(('A' <= c <= 'Z') || ('a' <= c <= 'z') || ('0' <= c <= '9'))
  {
  }

  /** The form's four fields, as the inputs name them. */
  datatype Field = Name | Email | Password | ConfirmPassword

  datatype Form = Form(name: string, email: string, password: string, confirmPassword: string)

  function Get(form: Form, f: Field): string {
    match f
    case Name => form.name
    case Email => form.email
    case Password => form.password
    case ConfirmPassword => form.confirmPassword
  }

  /** `handleChange`: `{...formData, [name]: value}`; the named field changes and no other. */
  function HandleChange(form: Form, f: Field, value: string): (r: Form)
    ensures Get(r, f) == value
    ensures forall g :: g != f ==> Get(r, g) == Get(form, g)
  {
    match f
    case Name => form.(name := value)
    case Email => form.(email := value)
    case Password => form.(password := value)
    case ConfirmPassword => form.(confirmPassword := value)
  }

  const InvalidEmailMessage := "Invalid email format"
  const WeakPasswordMessage := "Password must be at least 6 characters long and contain 1 number & 1 special character"
  const MismatchMessage := "Passwords do not match"
  const UserExistsMessage := "User already exists. Try logging in."
  const SignupFailedMessage := "Signup failed"
  const NetworkErrorMessage := "Network error. Please try again."

  /**
   * The checks of `handleSubmit`, in order: email, password, confirmation.
   * The message names the first that fails; None means the request is sent.
   */
  function FirstFailure(form: Form): (m: Option<string>)
    ensures m.None? <==>
      ValidateEmail(form.email) && ValidatePassword(form.password) && form.password == form.confirmPassword
    ensures m == Some(InvalidEmailMessage) <==> !ValidateEmail(form.email)
    ensures m == Some(WeakPasswordMessage) <==> ValidateEmail(form.email) && !ValidatePassword(form.password)
    ensures m == Some(MismatchMessage) <==>
      ValidateEmail(form.email) && ValidatePassword(form.password) && form.password != form.confirmPassword
  {
    if !ValidateEmail(form.email) then Some(InvalidEmailMessage)
    else if !ValidatePassword(form.password) then Some(WeakPasswordMessage)
    else if form.password != form.confirmPassword then Some(MismatchMessage)
    else None
  }

  /** How the signup request ended. */
  datatype SignupReply =
    | Created(accessToken: string)
    | ErrorStatus(status: int, message: Option<string>)  // `err.response` with `data.message`
    | NoResponse                                         // `err.response` undefined

  /** The message for a failed request: 409, then the server's message if truthy, then the fallback. */
  function FailureMessage(reply: SignupReply): (m: string)
    requires !reply.Created?
    ensures reply.NoResponse? ==> m == NetworkErrorMessage
    ensures reply.ErrorStatus? && reply.status == 409 ==> m == UserExistsMessage
    ensures reply.ErrorStatus? && reply.status != 409 ==>
      m == if reply.message.Some? && reply.message.value != [] then reply.message.value else SignupFailedMessage
  {
    match reply
    case NoResponse => NetworkErrorMessage
    case ErrorStatus(status, message) =>
      if status == 409 then UserExistsMessage
      else if message.Some? && message.value != [] then message.value
      else SignupFailedMessage
  }

  /** The effect of one submit: the message shown (null when none), the request sent, and the login. */
  datatype SubmitOutcome = SubmitOutcome(error: Option<string>, sent: Option<Form>, login: Option<string>)

  /** `handleSubmit`: the checks, then the request and, on success, `login` with the returned token. */
  function HandleSubmit(form: Form, reply: SignupReply): (r: SubmitOutcome)
    ensures r.sent.None? <==> FirstFailure(form).Some?
    ensures r.sent.None? ==> r.error == FirstFailure(form) && r.login.None?
    ensures r.sent.Some? ==> r.sent.value == form
    ensures r.login.Some? <==> r.sent.Some? && reply.Created?
    ensures r.login.Some? ==> r.login.value == reply.accessToken && r.error.None?
    ensures r.sent.Some? && !reply.Created? ==> r.error == Some(FailureMessage(reply))
  {
    var failure := FirstFailure(form);
    if failure.Some? then SubmitOutcome(failure, None, None)
    else if reply.Created? then SubmitOutcome(None, Some(form), Some(reply.accessToken))
    else SubmitOutcome(Some(FailureMessage(reply)), Some(form), None)
  }
}
