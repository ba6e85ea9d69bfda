/** The two foreign primitives the handlers rely on, reduced to what the
    handlers observe of them: bcrypt's hash/compare pair and the claim set of
    a signed session token. */
module Credentials {

  /** A stored password hash. bcrypt draws a fresh salt for every hash; the
      salt is an input here. The model keeps the password the hash was made
      from, which is exactly what `bcrypt.compare` is able to check against;
      one-wayness is not modelled. */
  datatype Hash = Digest(salt: nat, source: string)

  /** `bcrypt.compare(password, hash)`. */
  predicate Matches(password: string, h: Hash) {
    h.source == password
  }

  /** `bcrypt.hash(password, 10)` with the salt it drew. */
  function HashPassword(password: string, salt: nat): (h: Hash)
    ensures Matches(password, h)
  {
    Digest(salt, password)
  }

  /** A hash accepts the password it was made from and no other, whatever
      the salt. This unfolds the definitions: it records the abstraction's
      assumption that bcrypt has no collisions (and no 72-byte truncation),
      rather than proving anything about bcrypt. */
  lemma MatchesOnlyItsPassword(password: string, other: string, salt: nat)
    ensures Matches(other, HashPassword(password, salt)) <==> other == password
  {
  }

  /** Seconds in the `expiresIn: '1h'` option of the session token. */
  const SessionLifetime: nat := 3600

  /** The claims of a signed session token: the user id, and the issue and
      expiry times in whole seconds since the epoch, as JWT writes them. */
  datatype SessionToken = SessionToken(userId: nat, iat: nat, exp: nat)

  /** `jwt.sign({ userId }, secret, { expiresIn: '1h' })` at the time `nowMs`
      (milliseconds): `iat` is the current second, rounded down. */
  function IssueSession(userId: nat, nowMs: nat): (t: SessionToken)
    ensures t.userId == userId
    ensures t.iat * 1000 <= nowMs < t.iat * 1000 + 1000
    ensures t.exp == t.iat + SessionLifetime
  {
    SessionToken(userId, nowMs / 1000, nowMs / 1000 + SessionLifetime)
  }
}
