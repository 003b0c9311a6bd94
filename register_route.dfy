/**
 * `POST /api/auth/register`: both fields must be non-empty, the email must
 * not be in the user table yet, then the password is hashed with bcrypt
 * (cost 10) and one record is created. The email is stored exactly as sent:
 * the route neither trims nor lower-cases it, and it has no password policy.
 */
module RegisterRoute {

  import opened Wrappers
  import opened JsStrings
  import opened Http
  import opened Auth
  import LoginRoute

  const MsgRequired: string := "Email and password required"
  const MsgDuplicate: string := "Email already registered"
  const MsgRegisterFailed: string := "Register failed"

  /** `const { email, password } = await req.json()`; a field that is absent or null is None. */
  datatype RegisterBody = RegisterBody(email: Option<string>, password: Option<string>)

  /** The outcome of the read phase: an early answer, or the fields to hash and insert. */
  datatype Admission = Answer(response: Response) | Proceed(email: string, password: string)

  /** Both fields are present and non-empty (`!email || !password` is false). */
  predicate Filled(body: RegisterBody) {
    FieldText(body.email) != "" && FieldText(body.password) != ""
  }

  /** What `findUnique` gave: it threw (the store is down), or the record under the key, if any. */
  datatype Lookup = LookupThrew | LookupDone(record: Option<UserRecord>)

  /**
   * The read phase as a value: parsing, the empty-field check and the
   * duplicate pre-check; a pre-check that throws lands in the `catch`.
   */
  function ReadPhase(body: Option<RegisterBody>, users: UserMap, lookupFailure: bool): (a: Admission)
    ensures a.Proceed? <==> body.Some? && Filled(body.value) && !lookupFailure && body.value.email.value !in users
    ensures a.Proceed? ==> a.email == body.value.email.value && a.password == body.value.password.value
    ensures a.Answer? ==> a.response.cookie.None? && a.response.body.ErrorJson?
    ensures a.Answer? && a.response.status == StatusConflict
            ==> body.Some? && Filled(body.value) && !lookupFailure && body.value.email.value in users
    ensures body.Some? && Filled(body.value) && lookupFailure ==> a == Answer(Error(StatusServerError, MsgRegisterFailed))
  {
    match body
    case None => Answer(Error(StatusServerError, MsgRegisterFailed))
    case Some(b) =>
      if FieldText(b.email) == "" || FieldText(b.password) == "" then Answer(Error(StatusBadRequest, MsgRequired))
      else if lookupFailure then Answer(Error(StatusServerError, MsgRegisterFailed))
      else if b.email.value in users then Answer(Error(StatusConflict, MsgDuplicate))
      else Proceed(b.email.value, b.password.value)
  }

  /** The user table the route reads and writes through Prisma. */
  class UserTable {

    var users: UserMap

    /** The unique email column: each record sits under its own email. */
    ghost predicate Valid()
      reads this
    {
      KeyedByEmail(users)
    }

    constructor ()
      ensures Valid() && users == map[]
    {
      users := map[];
    }

    /** `prisma.user.findUnique({where: {email}})`: the exact, case-sensitive key, unless the store is down. */
    method FindUnique(email: string, lookupFailure: bool) returns (found: Lookup)
      ensures found.LookupThrew? <==> lookupFailure
      ensures found.LookupDone? ==> (found.record.Some? <==> email in users)
      ensures found.LookupDone? && found.record.Some? ==> found.record.value == users[email]
    {
      if lookupFailure {
        return LookupThrew;
      }
      found := LookupDone(if email in users then Some(users[email]) else None);
    }

    /**
     * `prisma.user.create({data: {email, passwordHash}})`. It fails (throws)
     * when the store is down or when the email is already taken: the unique
     * constraint, which a concurrent registration can trip after the pre-check.
     */
    method Create(email: string, passwordHash: string, id: string, storeFailure: bool) returns (created: Option<UserRecord>)
      requires Valid()
      modifies this
      ensures Valid()
      ensures created.Some? <==> !storeFailure && email !in old(users)
      ensures created.Some? ==> created.value == UserRecord(id, email, passwordHash)
                                && users == old(users)[email := created.value]
      ensures created.None? ==> users == old(users)
    {
      if storeFailure || email in users {
        created := None;
      } else {
        created := Some(UserRecord(id, email, passwordHash));
        users := users[email := created.value];
      }
    }

    /** The read phase of `POST`: validation and the duplicate pre-check, without writing. */
    method Admit(body: Option<RegisterBody>, lookupFailure: bool) returns (a: Admission)
      ensures a == ReadPhase(body, users, lookupFailure)
    {
      match body {
        case None =>
          a := Answer(Error(StatusServerError, MsgRegisterFailed));
        case Some(b) =>
          if FieldText(b.email) == "" || FieldText(b.password) == "" {
            a := Answer(Error(StatusBadRequest, MsgRequired));
          } else {
            var existing := FindUnique(b.email.value, lookupFailure);
            if existing.LookupThrew? {
              a := Answer(Error(StatusServerError, MsgRegisterFailed));
            } else if existing.record.Some? {
              a := Answer(Error(StatusConflict, MsgDuplicate));
            } else {
              a := Proceed(b.email.value, b.password.value);
            }
          }
      }
    }

    /** The write phase of `POST`: hash the password and create the record; a failed create is a 500. */
    method Commit(email: string, password: string, hash: PasswordHasher, id: string, storeFailure: bool)
      returns (r: Response)
      requires Valid()
      modifies this
      ensures Valid()
      ensures r.cookie.None?
      ensures r.status == StatusOk <==> !storeFailure && email !in old(users)
      ensures r.status == StatusOk ==> r.body == OkJson && users == old(users)[email := UserRecord(id, email, hash(password))]
      ensures r.status != StatusOk ==> r == Error(StatusServerError, MsgRegisterFailed) && users == old(users)
    {
      var passwordHash := hash(password);
      var created := Create(email, passwordHash, id, storeFailure);
      if created.Some? {
        r := Response(StatusOk, OkJson, None);
      } else {
        r := Error(StatusServerError, MsgRegisterFailed);
      }
    }

    /**
     * `POST(req)`: 500 for an unparseable body, 400 for an empty field, 500
     * when the pre-check throws, 409 for an email already present, otherwise
     * one new record under the raw email with `hash(password)` and
     * `{ok: true}`, or 500 when the create fails. No response sets a cookie.
     */
    method Register(body: Option<RegisterBody>, hash: PasswordHasher, id: string, lookupFailure: bool,
                    storeFailure: bool)
      returns (r: Response)
      requires Valid()
      modifies this
      ensures Valid()
      ensures r.cookie.None?
      ensures body.None? ==> r == Error(StatusServerError, MsgRegisterFailed) && users == old(users)
      ensures body.Some? && !Filled(body.value) ==> r == Error(StatusBadRequest, MsgRequired) && users == old(users)
      ensures body.Some? && Filled(body.value) && lookupFailure
              ==> r == Error(StatusServerError, MsgRegisterFailed) && users == old(users)
      ensures body.Some? && Filled(body.value) && !lookupFailure && body.value.email.value in old(users)
              ==> r == Error(StatusConflict, MsgDuplicate) && users == old(users)
      ensures body.Some? && Filled(body.value) && !lookupFailure && body.value.email.value !in old(users) && storeFailure
              ==> r == Error(StatusServerError, MsgRegisterFailed) && users == old(users)
      ensures body.Some? && Filled(body.value) && !lookupFailure && body.value.email.value !in old(users) && !storeFailure
              ==> var email := body.value.email.value;
                  && r == Response(StatusOk, OkJson, None)
                  && users == old(users)[email := UserRecord(id, email, hash(body.value.password.value))]
    {
      var a := Admit(body, lookupFailure);
      match a {
        case Answer(response) =>
          r := response;
        case Proceed(email, password) =>
          r := Commit(email, password, hash, id, storeFailure);
      }
    }
  }

  /** Any non-empty password is accepted: a short, all-lower-case one still creates the record. */
  lemma NoServerPasswordPolicy(users: UserMap, email: string)
    requires email != "" && email !in users
    ensures ReadPhase(Some(RegisterBody(Some(email), Some("a"))), users, false) == Proceed(email, "a")
  {
  }

  /**
   * Two registrations of the same new email that both pass the pre-check
   * before either writes: the first create wins, the second trips the unique
   * constraint and answers 500, not 409. Exactly one record results.
   */
  method InterleavedRegistrations(table: UserTable, email: string, passwordA: string, passwordB: string,
                                  hash: PasswordHasher, idA: string, idB: string)
    returns (first: Response, second: Response)
    requires table.Valid()
    requires email != "" && passwordA != "" && passwordB != "" && email !in table.users
    modifies table
    ensures table.Valid()
    ensures first == Response(StatusOk, OkJson, None)
    ensures second == Error(StatusServerError, MsgRegisterFailed)
    ensures table.users == old(table.users)[email := UserRecord(idA, email, hash(passwordA))]
  {
    var a := table.Admit(Some(RegisterBody(Some(email), Some(passwordA))), false);
    var b := table.Admit(Some(RegisterBody(Some(email), Some(passwordB))), false);
    assert a == Proceed(email, passwordA) && b == Proceed(email, passwordB);
    first := table.Commit(a.email, a.password, hash, idA, false);
    second := table.Commit(b.email, b.password, hash, idB, false);
  }

  /**
   * Registering a normalised, well-formed email and then logging in with the
   * same password succeeds, given a bcrypt compare that accepts the hash it
   * produced and a signer that does not fail.
   */
  method RegisterThenLogin(table: UserTable, email: string, password: string, hash: PasswordHasher, id: string,
                           compare: PasswordCompare, sign: Signer, isProduction: bool)
    returns (registered: Response, loggedIn: Response)
    requires table.Valid()
    requires NormalizeEmail(email) == email && LoginRoute.MatchesEmailRegex(email) && password != ""
    requires email !in table.users
    requires compare(password, hash(password)) == Some(true)
    requires sign(Claims(id, email)).Some?
    modifies table
    ensures registered == Response(StatusOk, OkJson, None)
    ensures loggedIn.status == StatusOk && loggedIn.cookie.Some?
    ensures loggedIn.cookie.value.value == sign(Claims(id, email)).value
  {
    registered := table.Register(Some(RegisterBody(Some(email), Some(password))), hash, id, false, false);
    var env := LoginRoute.LoginEnv(Some(table.users), compare, sign, isProduction);
    LoginRoute.StoredCredentialsLogIn(email, password, env);
    loggedIn := LoginRoute.Login(Some(LoginRoute.LoginBody(Some(email), Some(password))), env);
  }

  /**
   * Registering an email that is not trimmed and lower-case stores a record
   * that no login request can ever reach: every login answers as before.
   */
  method RegisterUnnormalizedThenLogin(table: UserTable, email: string, password: string, hash: PasswordHasher,
                                       id: string, body: Option<LoginRoute.LoginBody>, env: LoginRoute.LoginEnv)
    returns (registered: Response)
    requires table.Valid()
    requires email != "" && password != "" && email !in table.users
    requires NormalizeEmail(email) != email
    modifies table
    ensures registered.status == StatusOk
    ensures LoginRoute.Login(body, env.(users := Some(table.users)))
            == LoginRoute.Login(body, env.(users := Some(old(table.users))))
  {
    ghost var before := table.users;
    registered := table.Register(Some(RegisterBody(Some(email), Some(password))), hash, id, false, false);
    InsertedUnnormalizedUnreachable(before, email, UserRecord(id, email, hash(password)), body, env);
  }

  /** Adding a record under an email that is not in normal form leaves every login response as it was. */
  lemma {:induction false} InsertedUnnormalizedUnreachable(before: UserMap, email: string, record: UserRecord,
                                                           body: Option<LoginRoute.LoginBody>, env: LoginRoute.LoginEnv)
    requires email !in before && NormalizeEmail(email) != email
    ensures LoginRoute.Login(body, env.(users := Some(before[email := record])))
            == LoginRoute.Login(body, env.(users := Some(before)))
  {
    LoginRoute.UnnormalizedRecordUnreachable(body, env, before[email := record], before, email);
  }
}
