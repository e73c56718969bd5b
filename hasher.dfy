/**
 * The password encoder (BCrypt in the application) as an abstract primitive.
 *
 * A hash records the salt it was made with and the password it was computed from; only
 * `Matches` looks inside it. Which passwords the primitive treats as "the same secret" is a
 * parameter of the encoder, `sameSecret`, of which the model assumes only reflexivity, so that
 * `Matches(p, Encode(p))` holds. Injectivity (a different password never matches) is NOT built
 * in: it is the predicate `Exact()`, and every fact that needs it takes it as a hypothesis.
 */
module Hasher {

  datatype PasswordHash = PasswordHash(salt: nat, secret: string)

  class PasswordEncoder {
    /** The primitive's notion of two passwords being the same secret. */
    const sameSecret: (string, string) -> bool
    /** The salt the next call to Encode uses; it never repeats. */
    var nextSalt: nat

    ghost predicate Valid()
    {
      forall p :: sameSecret(p, p)
    }

    constructor (sameSecret: (string, string) -> bool)
      requires forall p :: sameSecret(p, p)
      ensures Valid() && this.sameSecret == sameSecret && nextSalt == 0
    {
      this.sameSecret := sameSecret;
      nextSalt := 0;
    }

    /**
     * `passwordEncoder.matches(raw, hash)`: never fails, whatever the hash. A hash made from
     * `raw` always matches it, and under the injectivity assumption only such a hash does.
     */
    function Matches(raw: string, h: PasswordHash): (r: bool)
      ensures Valid() && h.secret == raw ==> r
      ensures Exact() && r ==> h.secret == raw
    {
      sameSecret(raw, h.secret)
    }

    /** The explicit injectivity assumption: only the password itself matches its hash. */
    ghost predicate Exact()
    {
      forall p, q :: sameSecret(p, q) ==> p == q
    }

    /** `passwordEncoder.encode(raw)`: a hash under a fresh salt that matches `raw`. */
    method Encode(raw: string) returns (h: PasswordHash)
      requires Valid()
      modifies this
      ensures Matches(raw, h)
      ensures h == PasswordHash(old(nextSalt), raw)
      ensures nextSalt == old(nextSalt) + 1
    {
      h := PasswordHash(nextSalt, raw);
      nextSalt := nextSalt + 1;
    }

    /** Under the injectivity assumption, a hash of `p` matches `q` exactly when `q` is `p`. */
    lemma ExactMatchesOnlyOwnPassword(p: string, q: string, salt: nat)
      requires Exact() && Valid()
      ensures Matches(q, PasswordHash(salt, p)) <==> q == p
    {
    }
  }
}
