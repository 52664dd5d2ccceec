/**
 * The sign-in and registration card: the password-strength rule, the
 * wording of sign-in errors, and the guards of the login, forgotten-password
 * and sign-up handlers.
 */
module LoginPage {
  import opened JsText

  // ---------------------------------------------------------------- password rule

  /** The class `[A-Z]`. */
  predicate IsUpperLetter(c: char) {
    'A' <= c <= 'Z'
  }

  /** The class `[!@#$%^&*()_+\-=[\]{};':"\\|,.<>/?]`: thirty ASCII punctuation marks. */
  predicate IsSpecial(c: char) {
    || c == '!' || c == '@' || c == '#' || c == '$' || c == '%' || c == '^'
    || c == '&' || c == '*' || c == '(' || c == ')' || c == '_' || c == '+'
    || c == '-' || c == '=' || c == '[' || c == ']' || c == '{' || c == '}'
    || c == ';' || c == '\'' || c == ':' || c == '\"' || c == '\\' || c == '|'
    || c == ',' || c == '.' || c == '<' || c == '>' || c == '/' || c == '?'
  }

  /**
   * `(?=.*X)` tried at the start of the text: some character of class `X`
   * can be reached over a run of characters `.` accepts.
   */
  predicate Lookahead(s: string, x: char -> bool) {
    exists k :: 0 <= k < |s| && NoLineTerminator(s[..k]) && x(s[k])
  }

  /**
   * `validatePassword`: the three lookaheads at the start, then
   * `.{8,}$`, eight or more characters `.` accepts up to the very end.
   */
  predicate ValidatePassword(pw: string) {
    && Lookahead(pw, IsUpperLetter)
    && Lookahead(pw, IsDigit)
    && Lookahead(pw, IsSpecial)
    && |pw| >= 8 && NoLineTerminator(pw)
  }

  /** Some character of `s` belongs to class `x`. */
  predicate Has(s: string, x: char -> bool) {
    exists k :: 0 <= k < |s| && x(s[k])
  }

  /**
   * The rule in plain words: at least eight characters, no line break,
   * and an upper-case letter, a digit and a special character somewhere.
   */
  lemma ValidatePasswordMeans(pw: string)
    ensures ValidatePassword(pw) <==>
      && |pw| >= 8 && NoLineTerminator(pw)
      && Has(pw, IsUpperLetter) && Has(pw, IsDigit) && Has(pw, IsSpecial)
  {
    if |pw| >= 8 && NoLineTerminator(pw) {
      forall k | 0 <= k < |pw| ensures NoLineTerminator(pw[..k]) {
        assert forall j :: 0 <= j < k ==> pw[..k][j] == pw[j];
      }
    }
  }

  /** Lower-case letters are not required. */
  lemma NoLowerCaseNeeded()
    ensures ValidatePassword("CHEF2024!")
  {
    var pw := "CHEF2024!";
    assert NoLineTerminator(pw[..0]) && IsUpperLetter(pw[0]);
    assert NoLineTerminator(pw[..4]) && IsDigit(pw[4]);
    assert NoLineTerminator(pw[..8]) && IsSpecial(pw[8]);
  }

  /** A line break spoils any password. */
  lemma LineBreakRefused(pw: string, k: nat)
    requires k < |pw| && IsLineTerminator(pw[k])
    ensures !ValidatePassword(pw)
  {
  }

  // ---------------------------------------------------------------- messages

  const InvalidCredentials := "Invalid login credentials"
  const WrongCredentials := "Wrong email or password"
  const WeakPassword := "Password needs 8+ chars, one uppercase, one number & one special character."
  const Mismatch := "Passwords don't match"

  /** The error shown for a failed sign-in. */
  function LoginMessage(message: string): (shown: string)
    ensures Contains(message, InvalidCredentials) ==> shown == WrongCredentials
    ensures !Contains(message, InvalidCredentials) ==> shown == message
  {
    if Contains(message, InvalidCredentials) then WrongCredentials else message
  }

  /** A text shorter than `sub` does not contain it. */
  lemma {:induction false} ShorterNotContains(s: string, sub: string)
    requires |s| < |sub|
    ensures !Contains(s, sub)
    decreases |s|
  {
    if |s| > 0 {
      ShorterNotContains(s[1..], sub);
    }
  }

  /** The replacement wording is itself left alone, so mapping twice is mapping once. */
  lemma LoginMessageIdempotent(message: string)
    ensures LoginMessage(LoginMessage(message)) == LoginMessage(message)
  {
    ShorterNotContains(WrongCredentials, InvalidCredentials);
  }

  /** What the authentication service answers to a sign-up. */
  datatype SignupReply = SignupFailed(message: string) | SignedUp(hasUser: bool)

  /** The card's state. */
  class Login {
    var email: string
    var password: string
    var confirmPassword: string
    var error: Option<string>
    var success: Option<string>
    var isRegister: bool
    var loading: bool

    constructor ()
      ensures email == "" && password == "" && confirmPassword == ""
      ensures error.None? && success.None? && !isRegister && !loading
    {
      email := "";
      password := "";
      confirmPassword := "";
      error := None;
      success := None;
      isRegister := false;
      loading := false;
    }

    /** `handleLogin`; `failure` is the service's error message, if any. */
    method HandleLogin(failure: Option<string>)
      modifies this
      ensures failure.Some? ==> error == Some(LoginMessage(failure.value)) && success.None?
      ensures failure.None? ==> error.None? && success == Some("Welcome back! Redirecting\U{2026}")
      ensures !loading
      ensures email == old(email) && password == old(password) && confirmPassword == old(confirmPassword)
      ensures isRegister == old(isRegister)
    {
      error := None;
      success := None;
      loading := true;
      loading := false;
      if failure.Some? {
        error := Some(LoginMessage(failure.value));
      } else {
        success := Some("Welcome back! Redirecting\U{2026}");
      }
    }

    /**
     * `handleForgotPassword`; `failure` is the reset service's error, if
     * any. Without an email nothing is sent. Neither message is cleared first.
     */
    method ForgotPassword(failure: Option<string>) returns (sent: bool)
      modifies this
      ensures sent <==> email != ""
      ensures !sent ==> error == Some("Enter your email first") && success == old(success)
      ensures sent && failure.Some? ==> error == failure && success == old(success)
      ensures sent && failure.None? ==> error == old(error) && success == Some("Password reset email sent! Check your inbox.")
      ensures email == old(email) && password == old(password) && confirmPassword == old(confirmPassword)
      ensures isRegister == old(isRegister) && loading == old(loading)
    {
      if email == "" {
        error := Some("Enter your email first");
        return false;
      }
      sent := true;
      if failure.Some? {
        error := failure;
      } else {
        success := Some("Password reset email sent! Check your inbox.");
      }
    }

    /**
     * `handleSignup`. The strength check comes first, so a weak password
     * is reported even when the confirmation differs; neither failure
     * sends a request. After a sign-up that returns a user, the three
     * fields are cleared and the card leaves registration mode.
     */
    method HandleSignup(reply: SignupReply) returns (sent: bool)
      modifies this
      ensures sent <==> ValidatePassword(old(password)) && old(password) == old(confirmPassword)
      ensures !ValidatePassword(old(password)) ==> error == Some(WeakPassword) && success.None?
      ensures ValidatePassword(old(password)) && old(password) != old(confirmPassword) ==>
        error == Some(Mismatch) && success.None?
      ensures sent && reply.SignupFailed? ==> error == Some(reply.message) && success.None?
      ensures sent && reply.SignedUp? && reply.hasUser ==>
        && error.None? && success == Some("Account created! Check your email to confirm.")
        && email == "" && password == "" && confirmPassword == "" && !isRegister
      ensures !(sent && reply.SignedUp? && reply.hasUser) ==>
        email == old(email) && password == old(password) && confirmPassword == old(confirmPassword)
        && isRegister == old(isRegister)
      ensures sent && reply.SignedUp? && !reply.hasUser ==> error.None? && success.None?
      ensures sent ==> !loading
      ensures !sent ==> loading == old(loading)
    {
      error := None;
      success := None;
      if !ValidatePassword(password) {
        error := Some(WeakPassword);
        return false;
      }
      if password != confirmPassword {
        error := Some(Mismatch);
        return false;
      }
      sent := true;
      loading := true;
      loading := false;
      if reply.SignupFailed? {
        error := Some(reply.message);
        return;
      }
      if reply.hasUser {
        success := Some("Account created! Check your email to confirm.");
        email := "";
        password := "";
        confirmPassword := "";
        isRegister := false;
      }
    }
  }
}
