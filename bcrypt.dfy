/** Password hashing as the backend uses it: `bcrypt.hash(password, 10)` on
    registration and `bcrypt.compare(password, hash)` on login. The digest
    keeps the salt and the password it was made from, so that comparison is
    exact; one-wayness, timing and the cost of hashing are not modelled. */
module Bcrypt {
  /** The cost factor both registration paths pass to `bcrypt.hash`. */
  const Rounds: nat := 10

  datatype Digest = Digest(salt: nat, rounds: nat, secret: string)

  /** `bcrypt.compare(password, digest)` */
  predicate Compare(password: string, digest: Digest) {
    digest.secret == password
  }

  /** `bcrypt.hash(password, 10)` with the random salt given as `salt`: the
      digest accepts the password it was made from and no other. */
  function Hash(password: string, salt: nat): (digest: Digest)
    ensures Compare(password, digest)
    ensures forall other :: Compare(other, digest) ==> other == password
    ensures digest.rounds == Rounds
  {
    Digest(salt, Rounds, password)
  }
}
