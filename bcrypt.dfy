/**
 * The password-hashing library as the session manager uses it: `hash(password, cost, salt)`
 * and `compare(password, hash)`. The salt, which the library draws at random, is a parameter.
 * No property of the hash function is assumed beyond `Sound`.
 */
module Bcrypt {
  datatype Hasher = Hasher(hash: (string, nat, nat) -> string, compare: (string, string) -> bool)

  /** A password always matches a hash made from it, whatever the cost factor and salt. */
  ghost predicate Sound(h: Hasher) {
    forall password, cost, salt :: h.compare(password, h.hash(password, cost, salt))
  }
}
