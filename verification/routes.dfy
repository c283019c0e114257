/** The request handlers of app/routes.py as transitions over the database and the session.

    Each handler takes the state before the request and returns the state after it with an
    outcome tag standing for the page it renders or the flash message and redirect it issues.
    The process-wide `AES_KEY` is an explicit `Option<Bytes>` argument, and the randomness of
    hashing and encryption (salt, IV and timestamp) are explicit arguments too. */
module Routes {
  import opened Common
  import opened Crypto
  import opened Models
  import opened Database
  import Utf8

  /** Flask's signed-cookie session: whether it holds a `user_id`, and which. */
  datatype Session = Anonymous | Authenticated(userId: nat)

  datatype State = State(store: Store, session: Session)

  /** The state after a request and what the request rendered or flashed. */
  datatype Step<O> = Step(state: State, outcome: O)

  /** The session names a user the database holds. */
  predicate SessionValid(st: State) {
    st.session.Authenticated? ==> st.session.userId in UserIds(st.store)
  }

  /** The invariant the handlers keep: the schema, referential integrity, and a session that
      names an existing user. */
  predicate Inv(st: State) {
    Valid(st.store) && SessionValid(st)
  }

  // ---------------------------------------------------------------------------------------
  // AES_KEY (routes.py, module level)

  /** The key loading as written: `AES_KEY` is assigned the encoded variable BEFORE
      `Fernet(AES_KEY)` checks it, so the `ValueError` branch only prints and a malformed key
      stays in `AES_KEY`. An unset or empty variable gives `None`. */
  function LoadKeyAsWritten(raw: Option<string>): (k: Option<Bytes>)
    ensures k.Some? <==> raw.Some? && raw.value != ""
    ensures k.Some? ==> Utf8.Decode(k.value) == raw
  {
    if raw.None? || raw.value == "" then None
    else Utf8.DecodeEncode(raw.value); Some(Utf8.Encode(raw.value))
  }

  /** The key loading as evidently intended: `AES_KEY` is the encoded variable only when
      Fernet accepts it, and `None` otherwise. */
  function LoadKey(c: Cipher, raw: Option<string>): (k: Option<Bytes>)
    ensures k.Some? <==> raw.Some? && raw.value != "" && c.validKey(Utf8.Encode(raw.value))
    ensures k.Some? ==> Utf8.Decode(k.value) == raw
    ensures k.None? || FernetAccepts(c, k)
  {
    var candidate := LoadKeyAsWritten(raw);
    if candidate.Some? && c.validKey(candidate.value) then candidate else None
  }

  // ---------------------------------------------------------------------------------------
  // register

  datatype RegisterOutcome =
    | UsernameExists   // "Username already taken."
    | EmailExists      // "Email already registered."
    | Registered       // "Registration successful!"
    | RegisterCrashed  // the commit raised IntegrityError

  /** POST /register. The username is checked first, then the email, then the user is built,
      given a password hash and committed. */
  function Register(st: State, h: Hasher, salt: Salt, username: string, email: string, password: string)
    : (r: Step<RegisterOutcome>)
    ensures r.outcome == UsernameExists <==> UsernameTaken(st.store, username)
    ensures r.outcome == EmailExists <==> !UsernameTaken(st.store, username) && EmailTaken(st.store, email)
    ensures r.outcome != RegisterCrashed
    ensures r.outcome != Registered ==> r.state == st
    ensures r.outcome == Registered ==>
              && r.state.session == st.session
              && r.state.store == st.store.(users := st.store.users
                   + [User(Some(NextUserId(st.store)), username, email, Some(h.hash(salt, password)))])
    ensures Inv(st) ==> Inv(r.state)
  {
    if FindByUsername(st.store, username).Some? then
      Step(st, UsernameExists)
    else if FindByEmail(st.store, email).Some? then
      Step(st, EmailExists)
    else
      var u := SetPassword(NewUser(username, email), h, salt, password);
      match InsertUser(st.store, u)
      case None => Step(st, RegisterCrashed)
      case Some(s') =>
        assert SessionValid(st) ==> SessionValid(State(s', st.session)) by {
          UserIdsAppend(st.store, u.(id := Some(NextUserId(st.store))));
        }
        Step(State(s', st.session), Registered)
  }

  // ---------------------------------------------------------------------------------------
  // login and logout

  datatype LoginOutcome =
    | LoggedIn            // "Login successful!"
    | InvalidCredentials  // "Invalid username or password."

  /** POST /login. The user is looked up by username and the password checked against the
      stored hash; only then is `user_id` put in the session. Werkzeug is handed only stored
      users, whose hash the NOT NULL column guarantees, hence the schema requirement. */
  function Login(st: State, h: Hasher, username: string, password: string): (r: Step<LoginOutcome>)
    requires UsersSchema(st.store.users)
    ensures r.outcome == LoggedIn <==>
              exists i :: 0 <= i < |st.store.users| && st.store.users[i].username == username
                          && CheckPassword(st.store.users[i], h, password)
    ensures r.outcome == LoggedIn ==>
              exists i :: 0 <= i < |st.store.users| && st.store.users[i].username == username
                          && r.state == st.(session := Authenticated(st.store.users[i].id.value))
    ensures r.outcome == InvalidCredentials ==> r.state == st
    ensures Inv(st) ==> Inv(r.state)
  {
    match FindByUsername(st.store, username)
    case Some(u) =>
      if CheckPassword(u, h, password) then
        Step(st.(session := Authenticated(u.id.value)), LoggedIn)
      else
        Step(st, InvalidCredentials)
    case None =>
      Step(st, InvalidCredentials)
  }

  /** GET /logout: `session.clear()`. */
  function Logout(st: State): (r: State)
    ensures r.session.Anonymous? && r.store == st.store
    ensures Inv(st) ==> Inv(r)
  {
    st.(session := Anonymous)
  }

  // ---------------------------------------------------------------------------------------
  // add_note

  datatype AddNoteOutcome =
    | LoginRequired   // "Login required to add notes."
    | KeyMissing      // "Encryption key missing or invalid."
    | NoteSaved       // "Secure note saved successfully!"
    | AddNoteCrashed  // `Fernet(AES_KEY)` or the commit raised

  /** POST /add_note. The session is checked first, then whether `AES_KEY` is set; the note is
      then owned by the session user, encrypted and committed. */
  function AddNote(st: State, c: Cipher, key: Option<Bytes>, nonce: Nonce, note: string)
    : (r: Step<AddNoteOutcome>)
    ensures st.session.Anonymous? ==> r == Step(st, LoginRequired)
    ensures st.session.Authenticated? && key.None? ==> r == Step(st, KeyMissing)
    ensures r.outcome == NoteSaved <==> st.session.Authenticated? && FernetAccepts(c, key)
    ensures r.outcome != NoteSaved ==> r.state == st
    ensures r.outcome == NoteSaved ==>
              && r.state.session == st.session
              && r.state.store.users == st.store.users
              && r.state.store.files == st.store.files
              && r.state.store.logs == st.store.logs
              && |r.state.store.notes| == |st.store.notes| + 1
              && r.state.store.notes[..|st.store.notes|] == st.store.notes
              && r.state.store.notes[|st.store.notes|].id == Some(NextNoteId(st.store))
              && r.state.store.notes[|st.store.notes|].userId == Some(st.session.userId)
              && (CipherSound(c) ==> DecryptData(r.state.store.notes[|st.store.notes|], c, key) == Some(note))
    ensures Inv(st) ==> Inv(r.state)
  {
    if st.session.Anonymous? then
      Step(st, LoginRequired)
    else if key.None? then
      Step(st, KeyMissing)
    else
      var n := NewSecureNote().(userId := Some(st.session.userId));
      match EncryptData(n, c, nonce, note, key)
      case None => Step(st, AddNoteCrashed)
      case Some(sealed) =>
        match InsertNote(st.store, sealed)
        case None => Step(st, AddNoteCrashed)
        case Some(s') =>
          assert CipherSound(c) ==> DecryptData(sealed, c, key) == Some(note) by {
            if CipherSound(c) {
              EncryptDecryptRoundTrip(n, c, nonce, note, key);
            }
          }
          assert s'.notes[..|st.store.notes|] == st.store.notes;
          Step(State(s', st.session), NoteSaved)
  }

  // ---------------------------------------------------------------------------------------
  // dashboard

  datatype DashboardOutcome =
    | LoginToView      // "Please log in to view your dashboard."
    | UserNotFound     // "User not found. Please log in again."
    | Page(user: User, notes: seq<string>, noteCount: nat)
    | DashboardCrashed // a `decrypt_data` raised

  /** `[note.decrypt_data(AES_KEY) for note in notes]`: the first note that fails to decrypt
      fails the whole list. */
  function DecryptAll(notes: seq<SecureNote>, c: Cipher, key: Option<Bytes>): (r: Option<seq<string>>)
    ensures r.Some? <==> forall i :: 0 <= i < |notes| ==> DecryptData(notes[i], c, key).Some?
    ensures r.Some? ==> |r.value| == |notes|
    ensures r.Some? ==> forall i :: 0 <= i < |notes| ==> DecryptData(notes[i], c, key) == Some(r.value[i])
  {
    if |notes| == 0 then Some([])
    else
      match DecryptData(notes[0], c, key)
      case None => None
      case Some(p) =>
        match DecryptAll(notes[1..], c, key)
        case None =>
          assert forall i :: 1 <= i < |notes| ==> notes[i] == notes[1..][i - 1];
          None
        case Some(ps) =>
          assert forall i :: 1 <= i < |notes| ==> notes[i] == notes[1..][i - 1];
          Some([p] + ps)
  }

  /** Decrypting one more note appends its plaintext to the list, or fails the whole list. */
  lemma DecryptAllAppend(notes: seq<SecureNote>, n: SecureNote, c: Cipher, key: Option<Bytes>,
                         ps: seq<string>, p: string)
    requires DecryptAll(notes, c, key) == Some(ps)
    requires DecryptData(n, c, key) == Some(p)
    ensures DecryptAll(notes + [n], c, key) == Some(ps + [p])
  {
    var all := notes + [n];
    assert forall i :: 0 <= i < |notes| ==> all[i] == notes[i];
    assert all[|notes|] == n;
    var r := DecryptAll(all, c, key);
    assert r.Some?;
    forall i | 0 <= i < |all| ensures r.value[i] == (ps + [p])[i] {
      assert DecryptData(all[i], c, key) == Some(r.value[i]);
      if i < |notes| {
        assert DecryptData(notes[i], c, key) == Some(ps[i]);
      }
    }
    assert r.value == ps + [p];
  }

  /** GET /dashboard. The session is checked, then that its user still exists; the page shows
      that user's notes, decrypted, and their count. Rendering changes no state. */
  function Dashboard(st: State, c: Cipher, key: Option<Bytes>): (r: DashboardOutcome)
    ensures r == LoginToView <==> st.session.Anonymous?
    ensures r == UserNotFound <==> st.session.Authenticated? && st.session.userId !in UserIds(st.store)
    ensures st.session.Authenticated? && st.session.userId in UserIds(st.store) ==>
              (r.Page? <==> forall n :: n in OwnedNotes(st.store.notes, st.session.userId) ==>
                                          DecryptData(n, c, key).Some?)
    ensures r.Page? ==>
              && r.user in st.store.users
              && r.user.id == Some(st.session.userId)
              && r.noteCount == |r.notes| == |OwnedNotes(st.store.notes, st.session.userId)|
              && (forall i :: 0 <= i < |r.notes| ==>
                    DecryptData(OwnedNotes(st.store.notes, st.session.userId)[i], c, key) == Some(r.notes[i]))
    ensures r.Page? ==>
              forall i :: 0 <= i < |r.notes| ==>
                exists n :: n in st.store.notes && n.userId == Some(st.session.userId)
                            && DecryptData(n, c, key) == Some(r.notes[i])
  {
    if st.session.Anonymous? then
      LoginToView
    else
      var uid := st.session.userId;
      match GetUser(st.store, uid)
      case None => UserNotFound
      case Some(user) =>
        var owned := OwnedNotes(st.store.notes, uid);
        match DecryptAll(owned, c, key)
        case None => DashboardCrashed
        case Some(plaintexts) =>
          assert forall i :: 0 <= i < |owned| ==> owned[i] in owned;
          Page(user, plaintexts, |plaintexts|)
  }

  /** The dashboard in terms of its three steps: the session, the user lookup and the
      decryption of the owned notes. */
  lemma DashboardSteps(st: State, c: Cipher, key: Option<Bytes>)
    ensures Dashboard(st, c, key).Page? <==>
              && st.session.Authenticated?
              && GetUser(st.store, st.session.userId).Some?
              && DecryptAll(OwnedNotes(st.store.notes, st.session.userId), c, key).Some?
    ensures Dashboard(st, c, key).Page? ==>
              var ps := DecryptAll(OwnedNotes(st.store.notes, st.session.userId), c, key).value;
              Dashboard(st, c, key) == Page(GetUser(st.store, st.session.userId).value, ps, |ps|)
  {
  }
}
