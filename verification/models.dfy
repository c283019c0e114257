/** The records of app/models.py and the methods defined on them.

    A field that Python leaves as `None` until something sets it is an `Option`:
    `id` until the database assigns it on commit, `password_hash` until `set_password`,
    and every column of a `SecureNote()` built with no arguments. */
module Models {
  import opened Common
  import opened Crypto
  import Utf8

  datatype User = User(id: Option<nat>, username: string, email: string, passwordHash: Option<Digest>)

  /** `User(username=..., email=...)`: no id and no password hash yet. */
  function NewUser(username: string, email: string): (u: User)
    ensures u.id.None? && u.passwordHash.None?
    ensures u.username == username && u.email == email
  {
    User(None, username, email, None)
  }

  /** `set_password`: stores a salted hash of the password and nothing else. */
  function SetPassword(u: User, h: Hasher, salt: Salt, password: string): (r: User)
    ensures r.id == u.id && r.username == u.username && r.email == u.email
    ensures r.passwordHash.Some?
    ensures HasherSound(h) ==> CheckPassword(r, h, password)
  {
    u.(passwordHash := Some(h.hash(salt, password)))
  }

  /** `check_password`; Werkzeug raises on a missing hash, which the `users` table's
      NOT NULL `password_hash` column rules out for every stored user. */
  function CheckPassword(u: User, h: Hasher, password: string): (ok: bool)
    requires u.passwordHash.Some?
    ensures HasherSound(h) && (exists salt :: u.passwordHash.value == h.hash(salt, password)) ==> ok
  {
    h.verify(u.passwordHash.value, password)
  }

  datatype SecureNote = SecureNote(id: Option<nat>, userId: Option<nat>, encryptedData: Option<Bytes>)

  /** `SecureNote()`: every column unset. */
  function NewSecureNote(): (n: SecureNote)
    ensures n.id.None? && n.userId.None? && n.encryptedData.None?
  {
    SecureNote(None, None, None)
  }

  /** `Fernet(key)` succeeds: the key is present (`Fernet(None)` raises `TypeError`) and
      well formed (otherwise `ValueError`). */
  predicate FernetAccepts(c: Cipher, key: Option<Bytes>) {
    key.Some? && c.validKey(key.value)
  }

  /** `encrypt_data`: a Fernet token of the UTF-8 bytes of the plaintext replaces
      `encrypted_data`; `None` is the exception `Fernet(key)` raises. */
  function EncryptData(n: SecureNote, c: Cipher, nonce: Nonce, plaintext: string, key: Option<Bytes>)
    : (r: Option<SecureNote>)
    ensures r.Some? <==> FernetAccepts(c, key)
    ensures r.Some? ==> r.value.id == n.id && r.value.userId == n.userId
    ensures r.Some? ==> r.value.encryptedData.Some?
  {
    if FernetAccepts(c, key) then
      Some(n.(encryptedData := Some(c.encrypt(key.value, nonce, Utf8.Encode(plaintext)))))
    else
      None
  }

  /** `decrypt_data`: `None` stands for any of the exceptions on the way (a missing or
      malformed key, a missing column value, `InvalidToken`, `UnicodeDecodeError`). What it
      returns is exactly the text whose UTF-8 bytes the token held. */
  function DecryptData(n: SecureNote, c: Cipher, key: Option<Bytes>): (r: Option<string>)
    ensures r.Some? ==> FernetAccepts(c, key) && n.encryptedData.Some?
    ensures r.Some? ==> c.decrypt(key.value, n.encryptedData.value) == Some(Utf8.Encode(r.value))
  {
    if !FernetAccepts(c, key) || n.encryptedData.None? then None
    else
      match c.decrypt(key.value, n.encryptedData.value)
      case None => None
      case Some(b) =>
        match Utf8.Decode(b)
        case None => None
        case Some(s) => Utf8.EncodeDecode(b, s); Some(s)
  }

  /** `decrypt_data` returns `s` exactly when the key is accepted, the column holds a token
      and the cipher releases the UTF-8 bytes of `s` from it: it fails only where one of
      the steps raises. */
  lemma DecryptDataIff(n: SecureNote, c: Cipher, key: Option<Bytes>, s: string)
    ensures DecryptData(n, c, key) == Some(s) <==>
              && FernetAccepts(c, key) && n.encryptedData.Some?
              && c.decrypt(key.value, n.encryptedData.value) == Some(Utf8.Encode(s))
  {
    Utf8.DecodeEncode(s);
  }

  /** `encrypt_data(m, key)` then `decrypt_data(key)` gives back `m`: the cipher's assumed
      round trip composed with the proved UTF-8 round trip. */
  lemma EncryptDecryptRoundTrip(n: SecureNote, c: Cipher, nonce: Nonce, m: string, key: Option<Bytes>)
    requires CipherSound(c)
    requires FernetAccepts(c, key)
    ensures EncryptData(n, c, nonce, m, key).Some?
    ensures DecryptData(EncryptData(n, c, nonce, m, key).value, c, key) == Some(m)
  {
    Utf8.DecodeEncode(m);
  }

  datatype EncryptedFile = EncryptedFile(id: Option<nat>, userId: nat, filename: string, encryptedData: Bytes)

  /** `EncryptedFile(user_id, filename, encrypted_data)`: the arguments are stored as given
      (the ciphertext is not re-encrypted or inspected) and the id is left to the database. */
  function NewEncryptedFile(userId: nat, filename: string, encryptedData: Bytes): (f: EncryptedFile)
    ensures f.id.None?
    ensures f.userId == userId && f.filename == filename && f.encryptedData == encryptedData
  {
    EncryptedFile(None, userId, filename, encryptedData)
  }

  datatype AuditLog = AuditLog(id: Option<nat>, userId: nat, action: string)

  /** `AuditLog(user_id, action)`: both arguments stored as given, id left to the database. */
  function NewAuditLog(userId: nat, action: string): (a: AuditLog)
    ensures a.id.None?
    ensures a.userId == userId && a.action == action
  {
    AuditLog(None, userId, action)
  }
}
