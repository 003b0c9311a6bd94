/**
 * `POST /api/auth/login`: normalise the email, validate both fields and the
 * email format, look the user up, compare the password with bcrypt, sign a
 * session token over the stored `{userId, email}` and set it as the
 * `session` cookie.
 */
module LoginRoute {

  import opened Wrappers
  import opened JsStrings
  import opened Http
  import opened Auth

  const SessionCookieName: string := "session"

  /** `60 * 60 * 24 * 7`: the cookie's Max-Age in seconds. */
  const SessionMaxAge: int := 60 * 60 * 24 * 7

  const MsgRequired: string := "Email and password required"
  const MsgInvalidEmail: string := "Invalid email"
  const MsgInvalidCredentials: string := "Invalid credentials"
  const MsgLoginFailed: string := "Login failed"

  /** The two fields the route reads from the JSON body; a field that is absent or null is None. */
  datatype LoginBody = LoginBody(email: Option<string>, password: Option<string>)

  /**
   * What the route depends on besides the request: the user table (None when
   * `findUnique` throws), bcrypt's compare, token signing, and whether
   * `NODE_ENV` is "production".
   */
  datatype LoginEnv = LoginEnv(users: Option<UserMap>, compare: PasswordCompare, sign: Signer, isProduction: bool)

  /**
   * `^\S+@\S+\.\S+$` matched with `@` at index `at` and `.` at index `dot`:
   * three non-empty runs of non-space characters around them.
   */
  ghost predicate SplitsAsEmail(s: string, at: int, dot: int) {
    && 0 < at && at + 1 < dot && dot + 1 < |s|
    && s[at] == '@' && s[dot] == '.'
    && NoSpace(s[..at]) && NoSpace(s[at + 1..dot]) && NoSpace(s[dot + 1..])
  }

  /** The regular expression `^\S+@\S+\.\S+$` accepts `s`. */
  ghost predicate MatchesEmailRegex(s: string) {
    exists at, dot :: SplitsAsEmail(s, at, dot)
  }

  /**
   * The executable test: no space anywhere, and after the first `@` past
   * index 0 there is a `.` with at least one character on each side.
   */
  function IsEmailFormat(s: string): bool {
    && NoSpace(s)
    && |s| >= 1
    && match IndexOfFrom(s, "@", 1)
       case None => false
       case Some(at) =>
         at + 2 <= |s| &&
         match IndexOfFrom(s, ".", at + 2)
         case None => false
         case Some(dot) => dot + 1 < |s|
  }

  /** A one-character pattern occurs exactly where that character stands. */
  lemma OccursAtChar(s: string, c: char, k: int)
    requires 0 <= k < |s|
    ensures OccursAt(s, [c], k) <==> s[k] == c
  {
    if s[k] == c {
      assert s[k..k + 1] == [c];
    }
  }

  /** The executable format test agrees with the regular expression, in both directions. */
  lemma {:induction false} EmailFormatIsRegex(s: string)
    ensures IsEmailFormat(s) <==> MatchesEmailRegex(s)
  {
    if IsEmailFormat(s) {
      var at := IndexOfFrom(s, "@", 1).value;
      var dot := IndexOfFrom(s, ".", at + 2).value;
      OccursAtChar(s, '@', at);
      OccursAtChar(s, '.', dot);
      assert SplitsAsEmail(s, at, dot);
    }
    if MatchesEmailRegex(s) {
      var at, dot :| SplitsAsEmail(s, at, dot);
      assert NoSpace(s) by {
        forall k | 0 <= k < |s| ensures !IsSpace(s[k]) {
          if k < at {
            assert s[k] == s[..at][k];
          } else if at < k < dot {
            assert s[k] == s[at + 1..dot][k - at - 1];
          } else if dot < k {
            assert s[k] == s[dot + 1..][k - dot - 1];
          }
        }
      }
      OccursAtChar(s, '@', at);
      var first := IndexOfFrom(s, "@", 1);
      assert first.Some? && first.value <= at;
      OccursAtChar(s, '.', dot);
      var firstDot := IndexOfFrom(s, ".", first.value + 2);
      assert firstDot.Some? && firstDot.value <= dot;
    }
  }

  /** The cookie a successful login sets. */
  function SessionCookieFor(token: string, isProduction: bool): (c: Cookie)
    ensures c.name == "session" && c.value == token
    ensures c.httpOnly && c.sameSite == "lax" && c.path == "/"
    ensures c.secure == isProduction
    ensures c.maxAge == TokenLifetimeSeconds()
  {
    Cookie(SessionCookieName, token, true, isProduction, "lax", "/", SessionMaxAge)
  }

  /** The normalised email and the verbatim password the route works with. */
  function Credentials(body: Option<LoginBody>): (string, string) {
    match body
    case None => ("", "")
    case Some(b) => (NormalizeEmail(FieldText(b.email)), FieldText(b.password))
  }

  /** Both validations pass: the store is consulted only then. */
  predicate PassesValidation(body: Option<LoginBody>) {
    var (email, password) := Credentials(body);
    email != "" && password != "" && IsEmailFormat(email)
  }

  /** The route after validation: look up, compare, sign, and answer. */
  function Authenticate(email: string, password: string, env: LoginEnv): (r: Response)
    ensures r.status in {StatusOk, StatusUnauthorized, StatusServerError}
    ensures r.cookie.Some? <==> r.status == StatusOk
    ensures r.status == StatusOk ==> r.body == OkJson && env.users.Some? && email in env.users.value
    ensures r.status == StatusUnauthorized ==> r == Response(StatusUnauthorized, ErrorJson(MsgInvalidCredentials), None)
    ensures r.status == StatusServerError ==> r == Response(StatusServerError, ErrorJson(MsgLoginFailed), None)
  {
    match env.users
    case None => Error(StatusServerError, MsgLoginFailed)
    case Some(users) =>
      if email !in users then Error(StatusUnauthorized, MsgInvalidCredentials)
      else
        var user := users[email];
        match env.compare(password, user.passwordHash)
        case None => Error(StatusServerError, MsgLoginFailed)
        case Some(false) => Error(StatusUnauthorized, MsgInvalidCredentials)
        case Some(true) =>
          match env.sign(Claims(user.id, user.email))
          case None => Error(StatusServerError, MsgLoginFailed)
          case Some(token) => Response(StatusOk, OkJson, Some(SessionCookieFor(token, env.isProduction)))
  }

  /** The route once the body is read: the two validations in order, then authentication. */
  function Respond(email: string, password: string, env: LoginEnv): (r: Response)
    ensures r.status == StatusBadRequest <==> email == "" || password == "" || !IsEmailFormat(email)
    ensures r.cookie.Some? <==> r.status == StatusOk
    ensures email == "" || password == "" ==> r == Error(StatusBadRequest, MsgRequired)
    ensures email != "" && password != "" && !IsEmailFormat(email) ==> r == Error(StatusBadRequest, MsgInvalidEmail)
    ensures email != "" && password != "" && IsEmailFormat(email) ==> r == Authenticate(email, password, env)
  {
    if email == "" || password == "" then Error(StatusBadRequest, MsgRequired)
    else if !IsEmailFormat(email) then Error(StatusBadRequest, MsgInvalidEmail)
    else Authenticate(email, password, env)
  }

  /** `POST(req)` of the login route. */
  function Login(body: Option<LoginBody>, env: LoginEnv): (r: Response)
    ensures r.status in {StatusOk, StatusBadRequest, StatusUnauthorized, StatusServerError}
    ensures r.cookie.Some? <==> r.status == StatusOk
    ensures r.status == StatusBadRequest <==> !PassesValidation(body)
    ensures PassesValidation(body) ==> r == Authenticate(Credentials(body).0, Credentials(body).1, env)
  {
    Respond(Credentials(body).0, Credentials(body).1, env)
  }

  /** A missing or unparseable body reads as two empty fields and is refused with 400. */
  lemma MissingBodyIsRequiredError(env: LoginEnv)
    ensures Login(None, env) == Login(Some(LoginBody(None, None)), env)
    ensures Login(None, env) == Error(StatusBadRequest, MsgRequired)
  {
  }

  /** Only the normal form of the email matters: spacing and A-Z case around it change nothing. */
  lemma {:induction false} LoginSeesNormalizedEmail(email: string, email': string, password: Option<string>, env: LoginEnv)
    requires NormalizeEmail(email) == NormalizeEmail(email')
    ensures Login(Some(LoginBody(Some(email), password)), env) == Login(Some(LoginBody(Some(email'), password)), env)
  {
    assert Credentials(Some(LoginBody(Some(email), password))) == Credentials(Some(LoginBody(Some(email'), password)));
  }

  /** An empty field is reported before the format is looked at. */
  lemma EmptyFieldBeforeFormat(body: Option<LoginBody>, env: LoginEnv)
    requires Credentials(body).0 == "" || Credentials(body).1 == ""
    ensures Login(body, env) == Error(StatusBadRequest, MsgRequired)
  {
  }

  /** A non-empty email that does not match the pattern gets "Invalid email". */
  lemma BadFormatIsInvalidEmail(body: Option<LoginBody>, env: LoginEnv)
    requires Credentials(body).0 != "" && Credentials(body).1 != ""
    requires !MatchesEmailRegex(Credentials(body).0)
    ensures Login(body, env) == Error(StatusBadRequest, MsgInvalidEmail)
  {
    EmailFormatIsRegex(Credentials(body).0);
  }

  /** Before validation passes the response does not depend on the store, bcrypt or the signer at all. */
  lemma {:induction false} NoStoreAccessBeforeValidation(body: Option<LoginBody>, env: LoginEnv, env': LoginEnv)
    requires !PassesValidation(body)
    ensures Login(body, env) == Login(body, env')
    ensures Login(body, env).status == StatusBadRequest
  {
  }

  /**
   * No account enumeration: an unknown email and a known email with the wrong
   * password get the same 401 response, with no cookie.
   */
  lemma {:induction false} UnknownUserLooksLikeWrongPassword(body: Option<LoginBody>, env: LoginEnv, env': LoginEnv)
    requires PassesValidation(body)
    requires env.users.Some? && Credentials(body).0 !in env.users.value
    requires env'.users.Some? && Credentials(body).0 in env'.users.value
    requires env'.compare(Credentials(body).1, env'.users.value[Credentials(body).0].passwordHash) == Some(false)
    ensures Login(body, env) == Login(body, env')
    ensures Login(body, env) == Response(StatusUnauthorized, ErrorJson(MsgInvalidCredentials), None)
  {
  }

  /**
   * A successful login answers `{ok: true}` and nothing else, and sets the
   * session cookie to the token signed over the stored record's id and email.
   */
  lemma {:induction false} SuccessfulLogin(body: Option<LoginBody>, env: LoginEnv)
    requires Login(body, env).status == StatusOk
    ensures var user := env.users.value[Credentials(body).0];
            && env.compare(Credentials(body).1, user.passwordHash) == Some(true)
            && env.sign(Claims(user.id, user.email)).Some?
            && Login(body, env) == Response(StatusOk, OkJson,
                 Some(Cookie("session", env.sign(Claims(user.id, user.email)).value, true, env.isProduction, "lax", "/", 604800)))
  {
    AuthenticatedOnlyWithRecord(Credentials(body).0, Credentials(body).1, env);
  }

  /** Authentication answers 200 only for a stored record whose hash matches and whose claims could be signed. */
  lemma AuthenticatedOnlyWithRecord(email: string, password: string, env: LoginEnv)
    requires Authenticate(email, password, env).status == StatusOk
    ensures var user := env.users.value[email];
            && env.compare(password, user.passwordHash) == Some(true)
            && env.sign(Claims(user.id, user.email)).Some?
            && Authenticate(email, password, env) == Response(StatusOk, OkJson,
                 Some(Cookie("session", env.sign(Claims(user.id, user.email)).value, true, env.isProduction, "lax", "/", 604800)))
  {
  }

  /** With every record under its own email, the token of a successful login names the email that was looked up. */
  lemma TokenNamesLoginEmail(email: string, password: string, env: LoginEnv)
    requires env.users.Some? && KeyedByEmail(env.users.value)
    requires Authenticate(email, password, env).status == StatusOk
    ensures Authenticate(email, password, env).cookie.value.value == env.sign(Claims(env.users.value[email].id, email)).value
  {
    AuthenticatedOnlyWithRecord(email, password, env);
  }

  /** The cookie lives exactly as long as the token it carries. */
  lemma CookieLifetimeMatchesToken(token: string, isProduction: bool)
    ensures SessionCookieFor(token, isProduction).maxAge == TokenLifetimeSeconds()
  {
  }

  /** A throwing lookup, compare or sign gives 500 "Login failed" and no cookie. */
  lemma {:induction false} InternalFailuresAre500(email: string, password: string, env: LoginEnv)
    requires || env.users.None?
             || (&& env.users.Some? && email in env.users.value
                 && env.compare(password, env.users.value[email].passwordHash).None?)
             || (&& env.users.Some? && email in env.users.value
                 && env.compare(password, env.users.value[email].passwordHash) == Some(true)
                 && env.sign(Claims(env.users.value[email].id, env.users.value[email].email)).None?)
    ensures Authenticate(email, password, env) == Response(StatusServerError, ErrorJson(MsgLoginFailed), None)
  {
  }

  /** Authentication reads the store at one key only: stores that agree there give the same answer. */
  lemma {:induction false} AuthenticateReadsOneKey(email: string, password: string, env: LoginEnv, users: UserMap, users': UserMap)
    requires (email in users) == (email in users')
    requires email in users ==> users[email] == users'[email]
    ensures Authenticate(email, password, env.(users := Some(users)))
            == Authenticate(email, password, env.(users := Some(users')))
  {
  }

  /** Two user tables that hold the same records under every email except `stored`. */
  ghost predicate AgreeExcept(users: UserMap, users': UserMap, stored: string) {
    forall e | e != stored :: (e in users <==> e in users') && (e in users ==> users[e] == users'[e])
  }

  /** Past validation, a record under an email that is not in normal form is never the one looked up. */
  lemma {:induction false} ValidatedLoginIgnoresUnnormalized(body: Option<LoginBody>, env: LoginEnv,
                                                             users: UserMap, users': UserMap, stored: string)
    requires PassesValidation(body)
    requires AgreeExcept(users, users', stored) && NormalizeEmail(stored) != stored
    ensures Login(body, env.(users := Some(users))) == Login(body, env.(users := Some(users')))
  {
    var (email, password) := Credentials(body);
    assert NormalizeEmail(email) == email by {
      NormalizeEmailIdempotent(FieldText(body.value.email));
    }
    NormalizedLookupIgnoresUnnormalized(email, password, env, users, users', stored);
  }

  /** Authentication of a normalised email never reads the record stored under an unnormalised one. */
  lemma {:induction false} NormalizedLookupIgnoresUnnormalized(email: string, password: string, env: LoginEnv,
                                                               users: UserMap, users': UserMap, stored: string)
    requires AgreeExcept(users, users', stored)
    requires NormalizeEmail(email) == email && NormalizeEmail(stored) != stored
    ensures Authenticate(email, password, env.(users := Some(users)))
            == Authenticate(email, password, env.(users := Some(users')))
  {
    assert email != stored;
    AuthenticateReadsOneKey(email, password, env, users, users');
  }

  /**
   * Login looks up only normalised emails, so a record stored under an email
   * that is not trimmed and lower-case can never be reached: two user tables
   * that differ only in such a record give every login the same response.
   */
  lemma {:induction false} UnnormalizedRecordUnreachable(body: Option<LoginBody>, env: LoginEnv,
                                                         users: UserMap, users': UserMap, stored: string)
    requires AgreeExcept(users, users', stored) && NormalizeEmail(stored) != stored
    ensures Login(body, env.(users := Some(users))) == Login(body, env.(users := Some(users')))
  {
    if PassesValidation(body) {
      ValidatedLoginIgnoresUnnormalized(body, env, users, users', stored);
    } else {
      NoStoreAccessBeforeValidation(body, env.(users := Some(users)), env.(users := Some(users')));
    }
  }

  /**
   * Registration followed by login: a normalised, well-formed email whose
   * record holds a hash bcrypt accepts for the password logs in, and the
   * session cookie carries the token signed over that record.
   */
  lemma {:induction false} StoredCredentialsLogIn(email: string, password: string, env: LoginEnv)
    requires NormalizeEmail(email) == email && MatchesEmailRegex(email) && password != ""
    requires env.users.Some? && email in env.users.value
    requires env.compare(password, env.users.value[email].passwordHash) == Some(true)
    requires env.sign(Claims(env.users.value[email].id, env.users.value[email].email)).Some?
    ensures Login(Some(LoginBody(Some(email), Some(password))), env).status == StatusOk
    ensures Login(Some(LoginBody(Some(email), Some(password))), env).cookie.value.value
            == env.sign(Claims(env.users.value[email].id, env.users.value[email].email)).value
  {
    ValidBodyAuthenticates(email, password, env);
    AuthenticateSucceeds(email, password, env);
  }

  /** A normalised, well-formed email and a non-empty password pass both validations and reach authentication. */
  lemma {:induction false} ValidBodyAuthenticates(email: string, password: string, env: LoginEnv)
    requires NormalizeEmail(email) == email && MatchesEmailRegex(email) && password != ""
    ensures Login(Some(LoginBody(Some(email), Some(password))), env) == Authenticate(email, password, env)
  {
    var body := Some(LoginBody(Some(email), Some(password)));
    EmailFormatIsRegex(email);
    assert Credentials(body) == (email, password);
    assert PassesValidation(body);
  }

  /** A stored record, an accepted password and a signed token give 200 with that token in the cookie. */
  lemma AuthenticateSucceeds(email: string, password: string, env: LoginEnv)
    requires env.users.Some? && email in env.users.value
    requires env.compare(password, env.users.value[email].passwordHash) == Some(true)
    requires env.sign(Claims(env.users.value[email].id, env.users.value[email].email)).Some?
    ensures Authenticate(email, password, env)
            == Response(StatusOk, OkJson,
                        Some(SessionCookieFor(env.sign(Claims(env.users.value[email].id, env.users.value[email].email)).value,
                                              env.isProduction)))
  {
  }
}
