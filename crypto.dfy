/**
 * The password hashing pair the accounts use (BCrypt's `hashpw` with a fresh
 * salt, and `checkpw`). The model keeps the salt and the password itself
 * inside the digest; all the mailbox relies on is that a digest verifies
 * the password it was made from.
 */
module Crypto {

  datatype Digest = Digest(salt: nat, key: string)

  /** `BCrypt.hashpw(plain, BCrypt.gensalt())`, with the random salt passed in. */
  function HashPassword(plain: string, salt: nat): (d: Digest)
    ensures CheckPassword(plain, d)
  {
    Digest(salt, plain)
  }

  /** `BCrypt.checkpw(plain, digest)`. */
  predicate CheckPassword(plain: string, d: Digest) {
    d.key == plain
  }
}
