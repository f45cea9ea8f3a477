/** bcrypt as the auth layer uses it, kept abstract: a hash of a password under a random
    salt of a fixed cost, and a comparison of a plaintext with a stored hash. */
module Crypto {

  /** The cost passed to `bcrypt.genSalt`. */
  const SaltRounds: nat := 10

  /** A bcrypt salt: its cost and its random part. */
  datatype Salt = Salt(rounds: nat, random: string)

  /** The bcrypt functions themselves, whose internals are not modelled. */
  datatype Hasher = Hasher(
    hash: (string, Salt) -> string,
    compare: (string, string) -> bool)

  /** What the auth layer relies on: a hash is a non-empty string, and the password it was
      made from compares equal to it whatever the salt. */
  ghost predicate Sound(h: Hasher) {
    forall p, s :: h.hash(p, s) != "" && h.compare(p, h.hash(p, s))
  }

  /** `hashPassword`: a fresh salt of cost `SaltRounds` (its random part is a parameter), then the hash. */
  function HashPassword(h: Hasher, password: string, saltRandom: string): (hashed: string)
    ensures Sound(h) ==> hashed != "" && h.compare(password, hashed)
  {
    h.hash(password, Salt(SaltRounds, saltRandom))
  }

  /** `comparePasswords`: bcrypt's `compare`, passed through unchanged. */
  function ComparePasswords(h: Hasher, plain: string, hashed: string): (ok: bool)
    ensures Sound(h) && (exists s :: hashed == h.hash(plain, s)) ==> ok
  {
    h.compare(plain, hashed)
  }

  /** A stored hash of a password is never empty and accepts that password. */
  lemma HashThenCompare(h: Hasher, password: string, saltRandom: string)
    requires Sound(h)
    ensures HashPassword(h, password, saltRandom) != ""
    ensures ComparePasswords(h, password, HashPassword(h, password, saltRandom))
  {
  }
}
