/**
 * What the routes share about users and session tokens: the stored user
 * record, the claims a session token is signed over, the token lifetime,
 * and the shapes of the abstract signing, verification and bcrypt oracles.
 *
 * Signing (HS256 over the claims) and verification (`jwtVerify` against the
 * process secret and the current time) are not modelled: a signer is any
 * function from claims to a token (None when `sign` throws) and a verifier is
 * any predicate on tokens (the secret and the clock are fixed inside it).
 */
module Auth {

  import opened Wrappers

  /** A row of the user table: `{id, email, passwordHash}`. */
  datatype UserRecord = UserRecord(id: string, email: string, passwordHash: string)

  /** The payload `signToken` is given: `{userId, email}`. */
  datatype Claims = Claims(userId: string, email: string)

  /** The user table as the routes see it: email to record. */
  type UserMap = map<string, UserRecord>

  /** `signToken`; None when it throws. */
  type Signer = Claims -> Option<string>

  /** `verifyToken` at the current time under the process secret: true when it resolves. */
  type Verifier = string -> bool

  /** `bcrypt.compare(password, hash)`; None when it throws. */
  type PasswordCompare = (string, string) -> Option<bool>

  /** `bcrypt.hash(password, 10)` with its salt already drawn; the work factor is the hasher's own business. */
  type PasswordHasher = string -> string

  /** `setExpirationTime("7d")`: a token expires seven days after it is issued. */
  const TokenLifetimeDays: nat := 7
  const SecondsPerDay: nat := 24 * 60 * 60

  /** The token lifetime in seconds, the span between the `iat` and `exp` claims. */
  function TokenLifetimeSeconds(): (s: nat)
    ensures s == 604800
  {
    TokenLifetimeDays * SecondsPerDay
  }

  /** Every record is stored under its own email, as the unique email column makes it. */
  ghost predicate KeyedByEmail(users: UserMap) {
    forall e | e in users :: users[e].email == e
  }
}
