/** The two libraries the authentication core leans on, left abstract.
    `jsonwebtoken` is a signer/verifier pair keyed by the process-wide
    secret; `bcryptjs` is a salted hash with a comparison. Every handler
    receives them as a `Primitives` value, so nothing in the model depends
    on how they work inside. */
module Crypto {
  import opened Base

  /** What a session token carries: the user's id and username. */
  datatype Claims = Claims(id: nat, username: string)

  datatype Primitives = Primitives(
    /** `jwt.sign(claims, secret)`; the second argument is the issue time
        (the `iat` claim), which is what makes two tokens for the same user
        differ. */
    sign: (Claims, nat) -> string,
    /** `jwt.verify(token, secret)`: the decoded claims, or `None` on error. */
    verify: string -> Option<Claims>,
    /** `bcrypt.hashSync(plain, 10)` with the given salt. */
    hash: (string, nat) -> string,
    /** `bcrypt.compareSync(plain, hash)`. */
    matches: (string, string) -> bool
  )

  /** A signed token verifies to the claims it was signed for. */
  ghost predicate TokensVerify(c: Primitives) {
    forall cl, iat :: c.verify(c.sign(cl, iat)) == Some(cl)
  }

  /** A signed token is a non-empty string without spaces (a compact JWT is
      three base64url parts joined by dots). */
  ghost predicate TokensArePlain(c: Primitives) {
    forall cl, iat :: c.sign(cl, iat) != "" && ' ' !in c.sign(cl, iat)
  }

  /** A password matches its own hash and no other password does. */
  ghost predicate HashesDiscriminate(c: Primitives) {
    forall p, q, salt :: c.matches(q, c.hash(p, salt)) <==> q == p
  }
}
