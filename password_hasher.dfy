/**
 * Password hashing. The hash function itself is not modelled: a stored
 * hash records the salt it was drawn with and what it was computed from, and
 * checking a password against it succeeds exactly for that password.
 */
module PasswordHasher {
  /** A stored password hash. */
  datatype PwdHash = Hashed(salt: int, secret: string)

  /** `confirmUserPassword(raw, hash)`: whether `raw` is the password the hash was made from. */
  predicate ConfirmUserPassword(raw: string, h: PwdHash) {
    h.secret == raw
  }

  /** `hashUserPassword(raw)`, with the random salt as a parameter; the result confirms `raw`. */
  function HashUserPassword(raw: string, salt: int): (h: PwdHash)
    ensures ConfirmUserPassword(raw, h)
    ensures h.salt == salt
  {
    Hashed(salt, raw)
  }

  /** A hash confirms its own password and no other, whatever the salt. */
  lemma {:induction false} ConfirmOnlyOwnPassword(raw: string, other: string, salt: int)
    ensures ConfirmUserPassword(other, HashUserPassword(raw, salt)) <==> other == raw
  {
  }

  /** Re-hashing the same password with another salt still confirms it. */
  lemma {:induction false} RehashStillConfirms(raw: string, salt1: int, salt2: int)
    ensures ConfirmUserPassword(raw, HashUserPassword(raw, salt1)) == ConfirmUserPassword(raw, HashUserPassword(raw, salt2))
  {
  }
}
