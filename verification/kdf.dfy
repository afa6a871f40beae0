/** The key-derivation step both source files run once, at load time:
    `crypto.scryptSync(password, salt, keylen)`. scrypt itself (section 6 of
    RFC 7914) is left abstract; only that it is a deterministic function of
    its arguments whose output is `keylen` bytes long is kept. */
module Kdf {
  import opened Wrappers
  import opened Octets

  type Scrypt = (string, string, nat) -> Bytes

  /** The derived key has the requested length. */
  ghost predicate Sized(scrypt: Scrypt) {
    forall password, salt, keylen :: |scrypt(password, salt, keylen)| == keylen
  }

  /** The process environment as read after `.env` is loaded: `SECRET_KEY`
      and `SALT`, each possibly undefined. */
  datatype Env = Env(secretKey: Option<string>, salt: Option<string>)

  /** `scryptSync` throws a type error for an undefined password or salt. */
  datatype ConfigError = MissingSecretKey | MissingSalt
}
