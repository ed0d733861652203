/**
 * The password-reset token: `serializer.dumps(email, salt='reset-password')`
 * when a reset is requested and `serializer.loads(token,
 * salt='reset-password', max_age=3600)` when it is used. Signing is
 * modelled as an ideal message authentication code; timestamps are whole
 * seconds taken from a clock passed in.
 */
module Tokens {
  import opened Wrappers

  /** The namespace the reset tokens are signed under. */
  const ResetSalt := "reset-password"

  /** How long, in seconds, a reset token stays valid. */
  const MaxAge := 3600

  /** A signature over salt, payload and timestamp that only the holder of
      `key` can produce. */
  datatype Signature = Signature(key: string, salt: string, payload: string, timestamp: int)

  /** A signed, timestamped token carrying an email address. */
  datatype ResetToken = ResetToken(email: string, issuedAt: int, signature: Signature)

  /** `serializer.dumps(email, salt='reset-password')` at time `now`. */
  function Dumps(key: string, email: string, now: int): (t: ResetToken)
    ensures t.email == email && t.issuedAt == now
  {
    ResetToken(email, now, Signature(key, ResetSalt, email, now))
  }

  /** `serializer.loads(token, salt='reset-password', max_age=3600)` at time
      `now`: the email, when the token is one this key issued under the reset
      salt and its age is between 0 and `MaxAge` seconds; otherwise a failure
      (a forged or altered token, one from the future, or an expired one). */
  function Loads(key: string, token: ResetToken, now: int): (r: Option<string>)
    ensures r.Some? <==>
      token == Dumps(key, token.email, token.issuedAt) && 0 <= now - token.issuedAt <= MaxAge
    ensures r.Some? ==> r.value == token.email
  {
    if token.signature == Signature(key, ResetSalt, token.email, token.issuedAt) && 0 <= now - token.issuedAt <= MaxAge
    then Some(token.email)
    else None
  }

  /** A token issued at `issuedAt` yields its email from that moment until
      `MaxAge` seconds have passed, and fails before and after. */
  lemma TokenLifetime(key: string, email: string, issuedAt: int, now: int)
    ensures Loads(key, Dumps(key, email, issuedAt), now) == if 0 <= now - issuedAt <= MaxAge then Some(email) else None
  {
  }

  /** A token is accepted only as it was issued: changing its email or its
      timestamp, or checking it under another key, makes it fail. */
  lemma TamperedTokenRejected(key: string, email: string, issuedAt: int, forged: ResetToken, now: int)
    requires forged.signature == Dumps(key, email, issuedAt).signature
    requires forged.email != email || forged.issuedAt != issuedAt
    ensures Loads(key, forged, now).None?
  {
  }

  /** A token signed with one key fails under any other. */
  lemma OtherKeyRejected(key: string, otherKey: string, email: string, issuedAt: int, now: int)
    requires key != otherKey
    ensures Loads(otherKey, Dumps(key, email, issuedAt), now).None?
  {
  }
}
