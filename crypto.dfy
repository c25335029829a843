/** The two foreign crypto libraries, reduced to what the core relies on.
    bcrypt is an ideal one-way hash: only Compare looks at what was hashed.
    jsonwebtoken signs a payload that holds a user id; which encoded tokens
    currently verify (right secret, not expired) is the Verifier map. */
module Crypto {

  /** `bcrypt.hash(password, 10)` and `bcrypt.genSalt(10)`. */
  const SaltRounds: nat := 10

  /** A stored bcrypt hash. The salt is the random part of hashing. */
  datatype PasswordHash = Bcrypt(salt: nat, rounds: nat, hashedFrom: string)

  function Hash(password: string, salt: nat): PasswordHash {
    Bcrypt(salt, SaltRounds, password)
  }

  /** `bcrypt.compare(password, hash)`. */
  predicate Compare(password: string, h: PasswordHash) {
    h.hashedFrom == password
  }

  /** `expiresIn: "1h"`, in seconds. */
  const TokenLifetime: nat := 3600

  /** A signed token: its payload carries the user id only. */
  datatype Token = Token(id: string, expiresIn: nat)

  /** `jwt.sign({ id }, secret, { expiresIn: "1h" })`. */
  function Sign(id: string): Token {
    Token(id, TokenLifetime)
  }

  /** The encoded tokens that `jwt.verify` accepts now, each with the id of
      its payload. A token that is not a key fails verification. */
  type Verifier = map<string, string>
}
