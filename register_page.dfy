/**
 * The registration page's client-side logic: five password rules, the
 * `allOk`, `matchOk` and `canSubmit` combinators that enable the submit
 * button, and the submit handler that posts the normalised email and the raw
 * password and then updates the form state.
 */
module RegisterPage {

  import opened Wrappers
  import opened JsStrings

  const MinPasswordLength: nat := 8

  const MsgCreated: string := "Account created successfully. Redirecting to login..."
  const MsgRegistrationFailed: string := "Registration failed"
  /** The message for a request that threw: the failure message with a hint appended. */
  const MsgNetworkFailure: string := MsgRegistrationFailed + ". Check your internet / server."

  /** The character classes of the rules' regular expressions. */
  datatype CharClass = UpperCase | LowerCase | Digit | NotAlphanumeric

  /** `[A-Z]`, `[a-z]`, `[0-9]` and `[^A-Za-z0-9]`. */
  predicate InClass(c: char, k: CharClass) {
    match k
    case UpperCase => 'A' <= c <= 'Z'
    case LowerCase => 'a' <= c <= 'z'
    case Digit => '0' <= c <= '9'
    case NotAlphanumeric => !('A' <= c <= 'Z' || 'a' <= c <= 'z' || '0' <= c <= '9')
  }

  /** `/[class]/.test(pw)`: scan `pw` for a character of the class. */
  function Test(pw: string, k: CharClass): bool {
    if pw == [] then false
    else InClass(pw[0], k) || Test(pw[1..], k)
  }

  /** The test finds the class exactly when some character of `pw` is in it. */
  lemma {:induction false} TestFinds(pw: string, k: CharClass)
    ensures Test(pw, k) <==> exists i | 0 <= i < |pw| :: InClass(pw[i], k)
  {
    if pw != [] {
      TestFinds(pw[1..], k);
      assert forall i | 1 <= i < |pw| :: pw[i] == pw[1..][i - 1];
      if InClass(pw[0], k) {
        assert InClass(pw[0], k);
      }
    }
  }

  /** The object `validatePassword` returns. */
  datatype PasswordRules = PasswordRules(length: bool, upper: bool, lower: bool, number: bool, special: bool)

  /** `validatePassword(pw)`. */
  function ValidatePassword(pw: string): PasswordRules {
    PasswordRules(
      |pw| >= MinPasswordLength,
      Test(pw, UpperCase),
      Test(pw, LowerCase),
      Test(pw, Digit),
      Test(pw, NotAlphanumeric))
  }

  /** Each rule holds exactly when its condition does. */
  lemma {:induction false} ValidatePasswordRules(pw: string)
    ensures var rules := ValidatePassword(pw);
            && (rules.length <==> |pw| >= 8)
            && (rules.upper <==> exists i | 0 <= i < |pw| :: 'A' <= pw[i] <= 'Z')
            && (rules.lower <==> exists i | 0 <= i < |pw| :: 'a' <= pw[i] <= 'z')
            && (rules.number <==> exists i | 0 <= i < |pw| :: '0' <= pw[i] <= '9')
            && (rules.special <==> exists i | 0 <= i < |pw| :: !('A' <= pw[i] <= 'Z' || 'a' <= pw[i] <= 'z' || '0' <= pw[i] <= '9'))
  {
    TestFinds(pw, UpperCase);
    TestFinds(pw, LowerCase);
    TestFinds(pw, Digit);
    TestFinds(pw, NotAlphanumeric);
  }

  /** `Object.values(rules).every(Boolean)`. */
  predicate AllOk(rules: PasswordRules) {
    rules.length && rules.upper && rules.lower && rules.number && rules.special
  }

  /** `pw.length > 0 && pw === confirmPw`. */
  predicate MatchOk(pw: string, confirmPw: string) {
    |pw| > 0 && pw == confirmPw
  }

  /** `email.trim() && allOk && matchOk && !loading`: the submit button is enabled. */
  predicate CanSubmit(email: string, pw: string, confirmPw: string, loading: bool) {
    Trim(email) != "" && AllOk(ValidatePassword(pw)) && MatchOk(pw, confirmPw) && !loading
  }

  /**
   * A password passes every rule exactly when it has at least 8 characters,
   * an upper-case letter, a lower-case letter, a digit and a character that
   * is none of those; such a password has at least four distinct kinds of
   * character, so at least four characters, and the length rule is the binding one.
   */
  lemma {:induction false} AllOkMeansEveryRule(pw: string)
    ensures AllOk(ValidatePassword(pw)) <==>
            && |pw| >= MinPasswordLength
            && (exists i | 0 <= i < |pw| :: 'A' <= pw[i] <= 'Z')
            && (exists i | 0 <= i < |pw| :: 'a' <= pw[i] <= 'z')
            && (exists i | 0 <= i < |pw| :: '0' <= pw[i] <= '9')
            && (exists i | 0 <= i < |pw| :: InClass(pw[i], NotAlphanumeric))
  {
    ValidatePasswordRules(pw);
  }

  /** A password with all four kinds of character and eight of them passes. */
  lemma {:induction false} MixedPasswordPasses()
    ensures AllOk(ValidatePassword("Passw0rd!"))
  {
    var pw := "Passw0rd!";
    ValidatePasswordRules(pw);
    assert 'A' <= pw[0] <= 'Z' && 'a' <= pw[1] <= 'z' && '0' <= pw[5] <= '9' && InClass(pw[8], NotAlphanumeric);
  }

  /** A space counts as a special character. */
  lemma {:induction false} SpaceIsSpecial()
    ensures ValidatePassword("ab cd").special
  {
    TestFinds("ab cd", NotAlphanumeric);
    assert InClass("ab cd"[2], NotAlphanumeric);
  }

  /** The button being enabled implies the submit handler's own guard passes. */
  lemma CanSubmitPassesGuard(email: string, pw: string, confirmPw: string, loading: bool)
    requires CanSubmit(email, pw, confirmPw, loading)
    ensures SubmitAllowed(email, pw, confirmPw)
  {
  }

  /** The submit handler's guard: `cleanEmail && allOk && matchOk`. */
  predicate SubmitAllowed(email: string, pw: string, confirmPw: string) {
    NormalizeEmail(email) != "" && AllOk(ValidatePassword(pw)) && MatchOk(pw, confirmPw)
  }

  /** The JSON the page posts to `/api/auth/register`. */
  datatype RegisterRequest = RegisterRequest(email: string, password: string)

  /** What `fetch` gave back: a thrown error (network or JSON parse), or the status and the `error` field. */
  datatype SubmitReply = NetworkFailure | Reply(ok: bool, error: Option<string>)

  /** The form's component state. */
  class RegisterForm {

    var email: string
    var pw: string
    var confirmPw: string
    var loading: bool
    var err: string
    var success: string

    constructor ()
      ensures email == "" && pw == "" && confirmPw == "" && !loading && err == "" && success == ""
    {
      email, pw, confirmPw := "", "", "";
      loading := false;
      err, success := "", "";
    }

    /**
     * `onSubmit`: clear the messages; post only when the normalised email is
     * non-empty and the rules and the match hold; on an ok reply clear the
     * three fields, otherwise keep them and set `err`; `loading` ends false.
     */
    method OnSubmit(reply: SubmitReply) returns (sent: Option<RegisterRequest>)
      modifies this
      ensures sent.Some? <==> SubmitAllowed(old(email), old(pw), old(confirmPw))
      ensures sent.Some? ==> sent.value == RegisterRequest(NormalizeEmail(old(email)), old(pw))
      ensures sent.None? ==> && err == "" && success == ""
                             && email == old(email) && pw == old(pw) && confirmPw == old(confirmPw)
                             && loading == old(loading)
      ensures sent.Some? ==> Settled(reply, old(email), old(pw), old(confirmPw))
    {
      var email0, pw0, confirmPw0 := email, pw, confirmPw;
      err := "";
      success := "";
      var allowed := SubmitAllowed(email0, pw0, confirmPw0);
      if !allowed {
        return None;
      }
      sent := Some(RegisterRequest(NormalizeEmail(email0), pw0));
      loading := true;
      Settle(reply, email0, pw0, confirmPw0);
    }

    /**
     * The form once the request is answered: an ok reply clears the three
     * fields and shows the success message; a failed reply or a thrown error
     * keeps them and sets `err`; `loading` is false either way.
     */
    ghost predicate Settled(reply: SubmitReply, email0: string, pw0: string, confirmPw0: string)
      reads this
    {
      && !loading
      && (reply.Reply? && reply.ok ==>
            email == "" && pw == "" && confirmPw == "" && success == MsgCreated && err == "")
      && (reply.Reply? && !reply.ok ==>
            && email == email0 && pw == pw0 && confirmPw == confirmPw0
            && success == "" && err == ErrorText(reply.error, MsgRegistrationFailed))
      && (reply.NetworkFailure? ==>
            && email == email0 && pw == pw0 && confirmPw == confirmPw0
            && success == "" && err == MsgNetworkFailure)
    }

    /** The `try`/`catch`/`finally` after the request is sent. */
    method Settle(reply: SubmitReply, email0: string, pw0: string, confirmPw0: string)
      requires err == "" && success == ""
      requires email == email0 && pw == pw0 && confirmPw == confirmPw0
      modifies this
      ensures Settled(reply, email0, pw0, confirmPw0)
    {
      match reply {
        case NetworkFailure =>
          err := MsgNetworkFailure;
        case Reply(ok, error) =>
          if !ok {
            err := ErrorText(error, MsgRegistrationFailed);
          } else {
            success := MsgCreated;
            email := "";
            pw := "";
            confirmPw := "";
          }
      }
      loading := false;
    }
  }
}
