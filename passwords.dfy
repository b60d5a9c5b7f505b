/**
 * The bcrypt calls of the routes, `generate_password_hash` and
 * `check_password_hash`, as an idealised one-way hash. A digest records which
 * password it was made from; salt and cost factor are not modelled, so two
 * hashes of one password are equal here where bcrypt's differ. Unlike bcrypt,
 * which reads only a password's first 72 bytes, the digest tells every two
 * passwords apart.
 */
module Passwords {
  import opened Wrappers

  datatype PasswordHash = Digest(preimage: string)

  /**
   * `bcrypt.generate_password_hash(p)`. The Flask-Bcrypt wrapper raises
   * `ValueError` on an empty password instead of hashing it: `None` here.
   */
  function Hash(password: string): Option<PasswordHash> {
    if password == "" then None else Some(Digest(password))
  }

  /** `bcrypt.check_password_hash(h, p)`: `p` hashes to `h`. */
  predicate Verify(password: string, h: PasswordHash) {
    Hash(password) == Some(h)
  }

  /** A hash made from `p` verifies `p` and no other password. */
  lemma HashVerifiesOnlyItsPassword(p: string, q: string)
    requires p != ""
    ensures Hash(p).Some?
    ensures Verify(q, Hash(p).value) <==> q == p
  {
  }
}
