/**
 * The password hasher and the token signer the authentication service is given.
 * Both are opaque collaborators: each is a pair of function values, and the one fact the
 * service relies on about each pair is its `Sound()` predicate.
 */
module Credentials {
  import opened Wrappers
  import opened Common

  /** Random salt drawn by the hasher; an explicit input, so hashing the same password twice may differ. */
  type Salt = nat
  type Digest = string

  datatype PasswordHasher = PasswordHasher(hash: (Salt, string) -> Digest, verify: (Digest, string) -> bool) {
    /** A digest of a password, under any salt, verifies against that password. */
    ghost predicate Sound() {
      forall salt, password :: verify(hash(salt, password), password)
    }
  }

  /** The claims a session token carries. */
  datatype Payload = Payload(sub: Id, email: string)
  datatype SignOptions = SignOptions(expiresIn: string, secret: string)
  /** What verifying a token under a secret yields: its payload and its lifetime. */
  datatype Claims = Claims(payload: Payload, expiresIn: string)

  datatype TokenSigner = TokenSigner(sign: (Payload, SignOptions) -> string, verify: (string, string) -> Option<Claims>) {
    /** A token verifies under the secret it was signed with and gives back exactly what was signed. */
    ghost predicate Sound() {
      forall payload, options :: verify(sign(payload, options), options.secret) == Some(Claims(payload, options.expiresIn))
    }
  }
}
