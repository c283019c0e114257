/** The two foreign libraries the vault relies on, reduced to their interfaces.

    Neither Werkzeug's salted password hash nor Fernet (AES-128-CBC with an HMAC-SHA256 tag)
    is modelled. Each is a record of functions that the caller supplies, and each guarantee
    the application relies on is a predicate over that record. The predicates are ASSUMPTIONS
    about the libraries: no lemma here proves them, and every lemma that needs one lists it
    as a `requires`, so a reader can see exactly where the model trusts foreign code. */
module Crypto {
  import opened Common

  /** The random salt `generate_password_hash` draws for each call. */
  type Salt = string

  /** A stored hash string, `method$salt$digest`. */
  type Digest = string

  /** Werkzeug's `generate_password_hash` (with its salt made an explicit argument)
      and `check_password_hash`. */
  datatype Hasher = Hasher(hash: (Salt, string) -> Digest, verify: (Digest, string) -> bool)

  /** ASSUMED of Werkzeug: a hash made from a password verifies against that password,
      whatever salt was drawn. */
  ghost predicate HasherSound(h: Hasher) {
    forall salt, password :: h.verify(h.hash(salt, password), password)
  }

  /** The fresh randomness of one Fernet token: its IV and its timestamp. */
  type Nonce = Bytes

  /** Fernet: which keys the constructor `Fernet(key)` accepts (it raises `ValueError`
      on any other), token creation and token checking (`None` is `InvalidToken`). */
  datatype Cipher = Cipher(
    validKey: Bytes -> bool,
    encrypt: (Bytes, Nonce, Bytes) -> Bytes,
    decrypt: (Bytes, Bytes) -> Option<Bytes>)

  /** ASSUMED of Fernet: under a key the constructor accepts, a token decrypts to the
      plaintext it was made from, whatever nonce was used. */
  ghost predicate CipherSound(c: Cipher) {
    forall key, nonce, plaintext ::
      c.validKey(key) ==> c.decrypt(key, c.encrypt(key, nonce, plaintext)) == Some(plaintext)
  }
}
