/**
 * The password hasher, kept abstract. `hash` stands for `bcrypt.hash(p, 10)` and `verifies`
 * for `bcrypt.compare(p, h)`. The only thing the model assumes of them, and only where a
 * property needs it, is `Sound`: a hash verifies against the password it was made from, and
 * is never the empty string.
 */
module Bcrypt {

  datatype Hasher = Hasher(hash: string -> string, verifies: (string, string) -> bool)

  ghost predicate Sound(h: Hasher) {
    forall p :: h.verifies(p, h.hash(p)) && h.hash(p) != ""
  }
}
