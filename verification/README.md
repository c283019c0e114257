# SQL Secure Cloud vault, modelled in Dafny

This project models the request-handling core of SQL Secure Cloud. It is a small Flask
application in which users register, log in, and store notes encrypted with Fernet. Each
handler of `app/routes.py` is a pure function. It takes the database and the session before
the request, and returns them after the request together with an outcome tag. The tag stands
for the flash message and redirect, or for the rendered page.

- `common.dfy`: bytes and `Option`.
- `utf8.dfy`: `str.encode()` and strict `bytes.decode()`, written out concretely. The round
  trip is proved in both directions. Dafny's `char` is a Unicode scalar value, which is
  exactly what a UTF-8 encoder accepts.
- `crypto.dfy`: Werkzeug's password hashing and Fernet, reduced to records of functions
  (`Hasher`, `Cipher`). The only guarantees used are two predicates, `HasherSound` (a hash
  verifies against its own password) and `CipherSound` (under an accepted key, a token
  decrypts to its plaintext). These are assumptions about the libraries, not results. Every
  lemma that relies on one states it as a `requires`.
- `models.dfy`: the `User`, `SecureNote`, `EncryptedFile` and `AuditLog` records, plus
  `set_password`/`check_password` and `encrypt_data`/`decrypt_data`.
- `database.dfy`: the four tables and what SQLite does on commit. It enforces NOT NULL and
  UNIQUE, and assigns each new row the largest id so far plus one. It also models the
  `.first()`, `.get()` and `filter_by(...).all()` lookups.
- `routes.dfy`: `AES_KEY` loading, `register`, `login`, `logout`, `add_note` and `dashboard`.
- `vault.dfy`: properties that span several requests. A serve loop over any sequence of
  requests keeps the invariant. There is also the register, login, note, dashboard scenario.

Randomness (the password salt, and the Fernet IV and timestamp) is an explicit argument. The
process-wide `AES_KEY` is an explicit `Option<Bytes>` argument to the handlers. The
properties about saving and listing notes assume a key that Fernet accepts. That is exactly
what `Routes.LoadKey` produces, the corrected key loading (see Findings).

Some behaviours of the code that the model keeps as they are:

- The code never checks that usernames or emails are non-empty. `nullable=False` only forbids
  NULL.
- No handler writes an `AuditLog` row. Login and logout record nothing.
- A missing key is not fatal at startup. `add_note` reports it per request.
- One note that fails to decrypt fails the whole dashboard page.
- No handler checks ownership of a single resource. Owner filtering in the dashboard is the
  only access control.

The invariant `Routes.Inv` has three parts: the table schema, referential integrity, and a
session that names an existing user. It is stated over the pair of store and session because
`add_note` trusts the session's `user_id` without looking the user up. The dashboard, by
contrast, does look the user up. SQLite does not enforce foreign keys unless
`PRAGMA foreign_keys` is on, and the application never turns it on. So a session that names a
vanished user stores an orphan note. `Vault.StaleSessionLeavesOrphanNote` shows this.

## Model

| member | source | states |
|---|---|---|
| `Utf8.DecodeEncode` | app/models.py:46-51 | `plaintext.encode()` followed by `.decode()` gives back the original string, for every string |
| `Utf8.DecodeIffEncode` | app/models.py:51 | strict UTF-8 decoding succeeds with `s` exactly when the bytes are the encoding of `s`, so overlong forms, surrogates and truncations are rejected |
| `Models.NewUser` | app/models.py:23-25 | `User(username, email)` stores the name and email as given, and leaves the id and the password hash unset |
| `Models.CheckPassword` | app/models.py:31-33 | `check_password` accepts the password whose salted hash is stored, under the assumed hasher guarantee |
| `Models.SetPassword` | app/models.py:27-33 | `set_password` changes only the password hash: id, username and email are kept and the hash is set. Under the assumed hasher guarantee, `check_password` with the same password then holds |
| `Models.EncryptData` | app/models.py:43-46 | `encrypt_data` succeeds exactly when `Fernet(key)` accepts the key. It then sets `encrypted_data` and leaves `id` and `user_id` untouched |
| `Models.DecryptData` | app/models.py:48-51 | `decrypt_data` returns text only under an accepted key and stored data. The text returned is the one whose UTF-8 bytes the cipher released from the token |
| `Models.DecryptDataIff` | app/models.py:48-51 | `decrypt_data` returns `s` exactly when the key is accepted, a token is stored, and the cipher releases the UTF-8 bytes of `s` from it |
| `Models.NewSecureNote` | app/routes.py:98 | `SecureNote()` leaves every column unset |
| `Models.EncryptDecryptRoundTrip` | app/models.py:43-51 | `encrypt_data(m, key)` followed by `decrypt_data(key)` yields `m`, given the assumed Fernet round trip |
| `Models.NewEncryptedFile` | app/models.py:63-67 | the constructor stores owner, filename and ciphertext as given, and leaves the id to the database |
| `Models.NewAuditLog` | app/models.py:78-80 | the constructor stores actor and action as given, and leaves the id to the database |
| `Database.MaxId` | app/models.py:18 | the id SQLite assigns (largest plus one) is above every id in the table, so it is fresh |
| `Database.InsertUser` | app/models.py:18-21 | committing a user fails exactly on a NULL hash, a clashing id, or a taken username or email. Success appends one row with a fresh id and keeps the schema and referential integrity |
| `Database.InsertNote` | app/models.py:39-41 | committing a note fails exactly on a NULL `user_id` or `encrypted_data`, or a clashing id. Success appends one row. Referential integrity survives exactly when the owner exists |
| `Database.FirstWhere` | app/routes.py:43 | `.first()` finds a row exactly when one matches, and returns the earliest match |
| `Database.FindByUsername` | app/routes.py:43 | the username lookup finds a row exactly when the name is taken, and the row found has that name |
| `Database.FindByEmail` | app/routes.py:47 | the email lookup finds a row exactly when the email is taken, and the row found has that email |
| `Database.GetUser` | app/routes.py:114 | `User.query.get(id)` finds a row exactly when a user has that id, and the row found has that id |
| `Database.OwnedNotes` | app/routes.py:119 | `filter_by(user_id=...)` keeps exactly the notes owned by that user |
| `Database.OwnedNotesAppend` | app/routes.py:119 | a new note extends only its owner's listing, at the end |
| `Database.NoOwnedNotes` | app/routes.py:119 | a user who owns no note gets an empty listing |
| `Routes.LoadKeyAsWritten` | app/routes.py:16-23 | as written, `AES_KEY` is set whenever the variable is non-empty, whether or not Fernet accepts it. It holds the variable's UTF-8 bytes |
| `Routes.LoadKey` | app/routes.py:16-23 | as intended, `AES_KEY` is set exactly when the variable is non-empty and Fernet accepts it, so it is either absent or usable |
| `Routes.Register` | app/routes.py:43-55 | a taken username fails, whatever the email. An unused username with a taken email fails second. Both failures leave the state unchanged. Otherwise exactly one user is appended, with the given name and email, a hash of the password and a fresh id. The commit never fails, and the invariant is kept |
| `Routes.Login` | app/routes.py:68-75 | the session becomes the user's id exactly when a user with that name exists and the password checks. Otherwise the one generic failure is reported and the state is untouched, for a missing user and a wrong password alike |
| `Routes.Logout` | app/routes.py:82 | whatever the session held, it becomes anonymous, and the database is untouched |
| `Routes.AddNote` | app/routes.py:89-102 | with no session, the outcome is "login required", and this check comes before the key check. With no key, the outcome is "key missing". Neither changes the state. A note is saved exactly when logged in with an accepted key. It is then appended with the session user as owner, and it decrypts to the submitted text. Nothing else changes |
| `Routes.DecryptAll` | app/routes.py:120 | the list comprehension succeeds exactly when every note decrypts. It then holds one plaintext per note, in order |
| `Routes.DecryptAllAppend` | app/routes.py:120 | decrypting one more note appends its plaintext |
| `Routes.Dashboard` | app/routes.py:110-121 | anonymous sessions are sent to log in, and a vanished user is reported. Otherwise the page shows the session's own user. It holds one decrypted entry per owned note and none from other users, and `note_count` is the number of entries. It fails exactly when some owned note does not decrypt |
| `Vault.RegisterThenLogin` | app/routes.py:52-75 | after a successful registration, logging in with the same password succeeds from any session, with the new row's id |
| `Vault.AddNoteThenDashboard` | app/routes.py:97-121 | saving a note appends its plaintext to the user's dashboard and raises the count by one |
| `Vault.AddNoteLeavesOtherDashboards` | app/routes.py:99-119 | saving a note leaves every other user's dashboard unchanged |
| `Vault.LogoutRevokesAccess` | app/routes.py:79-112 | after logout, adding a note asks for login and changes nothing, and the dashboard sends the user to log in |
| `Vault.AsWrittenKeyCrashesAddNote` | app/routes.py:18-23 | with the key loaded as written, a malformed key passes the "key missing" check, and `add_note` raises instead |
| `Vault.CheckedKeyNeverCrashesAddNote` | app/routes.py:93-100 | with the key loaded as intended, `add_note` never raises, and a malformed key is reported as missing |
| `Vault.StaleSessionLeavesOrphanNote` | app/routes.py:99 | a session naming a user the database lacks stores a note whose owner does not exist |
| `Vault.EmptyState` | init_db.py:10-11 | freshly created, empty tables with an anonymous session satisfy the invariant |
| `Vault.Serve` | app/routes.py:34-124 | each handler keeps the invariant (unique usernames and emails, owned notes, a valid session) |
| `Vault.ServeAllKeepsInvariant` | app/models.py:18-41 | the invariant holds after any sequence of requests |
| `Vault.NewUserHasEmptyDashboard` | app/routes.py:52-121 | a user who has just registered sees their own record and no notes |
| `Vault.RegisterLoginNoteDashboard` | app/routes.py:34-124 | register "alice", log in, save "hello": the dashboard lists exactly `["hello"]` |

## Left out

- Flask plumbing is left out: routing, templates, `flash` text and `redirect`/`url_for`. Each handler's response is an outcome tag.
- The GET branches of `/register` and `/login` are left out. They only render a form.
- The `/` route is left out. It only redirects, depending on whether the session holds `user_id`.
- A missing form field is left out. Flask answers it with a 400 when the handler reads it. `register` and `login` read their fields before any check. `add_note` reads `note` only after the session check and the key check, so an anonymous request without `note` still gets "login required". The model always has the field.
- SQLAlchemy and the SQLite engine are not modelled. The bootstrapping scripts (`run.py`, `app/__init__.py`, `config.py`, `seed_user.py`, `verify_db.py`) are I/O. `init_db.py` appears only as the empty starting state.
- Query results are assumed to come back in insertion order. Without ORDER BY, SQL does not promise this, though SQLite behaves so on these tables.
- Column lengths (`String(80)`, `String(120)`) are not modelled. SQLite does not enforce them.
- The kinds of `IntegrityError` are merged into one failure.
- Werkzeug's hashing and Fernet's encryption are not modelled. `HasherSound` and `CipherSound` are assumed, never proved. Nonce freshness, ciphertexts that differ between calls, and tamper detection are properties of Fernet's internals. They cannot be stated about the abstract cipher and are not claimed.
- Timestamps (the `datetime.now` column defaults) are left out. They are clock reads.
- The race between the duplicate check and the insert in registration is left out. It is concurrent, and the model is sequential. The UNIQUE constraints that back it up are modelled in `Database.InsertUser`.
- File upload, file download, ownership checks and audit recording are left out. The code has no such handlers; `EncryptedFile` and `AuditLog` appear only as constructors and tables.
- Session forgery is left out. The session is a cookie signed with a hard-coded secret key, and the model trusts it as given.
- Routes.LoadKeyAsWritten: the variable is a Dafny string, so it cannot hold the lone surrogates `os.getenv` produces for an environment value that is not valid UTF-8. For such a value `raw_key.encode()` raises `UnicodeEncodeError`, a `ValueError` that line 22 catches before the assignment, so `AES_KEY` stays `None`. Key values that are not valid UTF-8 are not modelled.
- Routes.Login: requires the `users` table to satisfy its schema (unique usernames, NOT NULL hash). The database guarantees this for every committed row. Werkzeug would raise on a missing hash.

## Findings

| source | as written | input that shows it | evidently intended | confidence | as-written member | corrected member |
|---|---|---|---|---|---|---|
| app/routes.py:18-23 | `AES_KEY = raw_key.encode()` runs before `Fernet(AES_KEY)` checks the key. The `except ValueError` branch only prints, so a malformed key stays in `AES_KEY` | environment `AES_KEY=abc`, then a logged-in POST /add_note. `AES_KEY is None` is false, and `Fernet(AES_KEY)` inside `encrypt_data` raises `ValueError`, a server error | a malformed key leaves `AES_KEY` as `None`. `add_note` then flashes "Encryption key missing or invalid." | high; not executed | `Routes.LoadKeyAsWritten`, shown by `Vault.AsWrittenKeyCrashesAddNote` | `Routes.LoadKey`, proved by `Vault.CheckedKeyNeverCrashesAddNote` |
