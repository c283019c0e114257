/** Properties that relate several requests: what one handler leaves behind for the next. */
module Vault {
  import opened Common
  import opened Crypto
  import opened Models
  import opened Database
  import opened Routes

  /** A user who has just registered can log in with the same password, from any session,
      and the session then holds the id the database gave the new row. */
  lemma RegisterThenLogin(st: State, h: Hasher, salt: Salt, username: string, email: string,
                          password: string, later: Session)
    requires HasherSound(h)
    requires Inv(st)
    requires Register(st, h, salt, username, email, password).outcome == Registered
    ensures
      var after := Register(st, h, salt, username, email, password).state.(session := later);
      Login(after, h, username, password)
        == Step(after.(session := Authenticated(NextUserId(st.store))), LoggedIn)
  {
    var after := Register(st, h, salt, username, email, password).state.(session := later);
    var users := after.store.users;
    var k := |st.store.users|;
    assert users[k].username == username;
    assert Inv(after.(session := Anonymous));
    var u := FindByUsername(after.store, username);
    assert u.Some?;
    var i :| 0 <= i < |users| && users[i] == u.value && users[i].username == username;
    assert i == k;
  }

  /** Saving a note and then opening the dashboard shows the earlier entries followed by the
      new note's plaintext, and the count goes up by one. */
  lemma AddNoteThenDashboard(st: State, c: Cipher, key: Option<Bytes>, nonce: Nonce, note: string)
    requires CipherSound(c)
    requires FernetAccepts(c, key)
    requires Dashboard(st, c, key).Page?
    ensures AddNote(st, c, key, nonce, note).outcome == NoteSaved
    ensures
      var before := Dashboard(st, c, key);
      Dashboard(AddNote(st, c, key, nonce, note).state, c, key)
        == Page(before.user, before.notes + [note], before.noteCount + 1)
  {
    var uid := st.session.userId;
    var earlier := Dashboard(st, c, key).notes;
    DashboardSteps(st, c, key);
    var r := AddNote(st, c, key, nonce, note);
    var after := r.state;
    var n := after.store.notes[|st.store.notes|];
    assert after.store.notes == st.store.notes + [n];
    assert GetUser(after.store, uid) == GetUser(st.store, uid);
    OwnedNotesAppend(st.store.notes, n, uid);
    DecryptAllAppend(OwnedNotes(st.store.notes, uid), n, c, key, earlier, note);
    DashboardSteps(after, c, key);
  }

  /** One user's note never reaches another user's dashboard. */
  lemma AddNoteLeavesOtherDashboards(st: State, c: Cipher, key: Option<Bytes>, nonce: Nonce,
                                     note: string, other: nat)
    requires st.session.Authenticated? && other != st.session.userId
    ensures
      var after := AddNote(st, c, key, nonce, note).state;
      Dashboard(after.(session := Authenticated(other)), c, key)
        == Dashboard(st.(session := Authenticated(other)), c, key)
  {
    var r := AddNote(st, c, key, nonce, note);
    if r.outcome == NoteSaved {
      var n := r.state.store.notes[|st.store.notes|];
      assert r.state.store.notes == st.store.notes + [n];
      OwnedNotesAppend(st.store.notes, n, other);
      var before := st.(session := Authenticated(other));
      var after := r.state.(session := Authenticated(other));
      assert after.store == before.store.(notes := before.store.notes + [n]);
      assert GetUser(after.store, other) == GetUser(before.store, other);
      assert OwnedNotes(after.store.notes, other) == OwnedNotes(before.store.notes, other);
      DashboardSteps(before, c, key);
      DashboardSteps(after, c, key);
      assert UserIds(after.store) == UserIds(before.store);
    }
  }

  /** After logout nothing that needs a login gets through. */
  lemma LogoutRevokesAccess(st: State, c: Cipher, key: Option<Bytes>, nonce: Nonce, note: string)
    ensures AddNote(Logout(st), c, key, nonce, note) == Step(Logout(st), LoginRequired)
    ensures Dashboard(Logout(st), c, key) == LoginToView
  {
  }

  /** With the key loaded as written, a malformed `AES_KEY` is not caught by the "key missing
      or invalid" check: a logged-in user's note makes `Fernet(AES_KEY)` raise instead. */
  lemma AsWrittenKeyCrashesAddNote(st: State, c: Cipher, raw: string, nonce: Nonce, note: string)
    requires raw != "" && !c.validKey(Utf8.Encode(raw))
    requires st.session.Authenticated?
    ensures LoadKeyAsWritten(Some(raw)).Some?
    ensures AddNote(st, c, LoadKeyAsWritten(Some(raw)), nonce, note) == Step(st, AddNoteCrashed)
  {
  }

  /** With the key loaded as intended, `add_note` never crashes: a malformed key is reported
      as a missing one and the state is unchanged. */
  lemma CheckedKeyNeverCrashesAddNote(st: State, c: Cipher, raw: Option<string>, nonce: Nonce, note: string)
    ensures AddNote(st, c, LoadKey(c, raw), nonce, note).outcome != AddNoteCrashed
    ensures raw.Some? && raw.value != "" && !c.validKey(Utf8.Encode(raw.value)) && st.session.Authenticated? ==>
              AddNote(st, c, LoadKey(c, raw), nonce, note) == Step(st, KeyMissing)
  {
  }

  /** `add_note` trusts the session without looking the user up (the dashboard does look it
      up): a session naming a user the database no longer holds stores a note whose owner
      does not exist, which SQLite accepts since it does not enforce the foreign key. */
  lemma StaleSessionLeavesOrphanNote(st: State, c: Cipher, key: Option<Bytes>, nonce: Nonce, note: string)
    requires Valid(st.store)
    requires st.session.Authenticated? && st.session.userId !in UserIds(st.store)
    requires FernetAccepts(c, key)
    ensures AddNote(st, c, key, nonce, note).outcome == NoteSaved
    ensures !Referential(AddNote(st, c, key, nonce, note).state.store)
  {
  }

  /** One request from the browser, with the randomness the libraries would draw. */
  datatype Request =
    | RegisterRequest(salt: Salt, username: string, email: string, password: string)
    | LoginRequest(username: string, password: string)
    | LogoutRequest
    | AddNoteRequest(nonce: Nonce, note: string)
    | DashboardRequest

  /** The state after serving one request; the dashboard only reads. */
  function Serve(st: State, h: Hasher, c: Cipher, key: Option<Bytes>, req: Request): (r: State)
    requires UsersSchema(st.store.users)
    ensures Inv(st) ==> Inv(r)
  {
    match req
    case RegisterRequest(salt, u, e, p) => Register(st, h, salt, u, e, p).state
    case LoginRequest(u, p) => Login(st, h, u, p).state
    case LogoutRequest => Logout(st)
    case AddNoteRequest(nonce, note) => AddNote(st, c, key, nonce, note).state
    case DashboardRequest => st
  }

  /** The state after serving the requests in order. */
  function ServeAll(st: State, h: Hasher, c: Cipher, key: Option<Bytes>, reqs: seq<Request>): State
    requires Inv(st)
    decreases |reqs|
  {
    if |reqs| == 0 then st
    else ServeAll(Serve(st, h, c, key, reqs[0]), h, c, key, reqs[1..])
  }

  /** The database a fresh deployment starts from, before anyone has registered. */
  function EmptyState(): (st: State)
    ensures Inv(st)
  {
    State(Store([], [], [], []), Anonymous)
  }

  /** Whatever requests arrive, in whatever order, usernames and emails stay unique, every
      note has an existing owner and the session names an existing user. */
  lemma {:induction false} ServeAllKeepsInvariant(st: State, h: Hasher, c: Cipher, key: Option<Bytes>,
                                                  reqs: seq<Request>)
    requires Inv(st)
    ensures Inv(ServeAll(st, h, c, key, reqs))
    decreases |reqs|
  {
    if |reqs| > 0 {
      ServeAllKeepsInvariant(Serve(st, h, c, key, reqs[0]), h, c, key, reqs[1..]);
    }
  }

  /** A user who has just registered has an empty dashboard. */
  lemma NewUserHasEmptyDashboard(st: State, h: Hasher, salt: Salt, username: string, email: string,
                                 password: string, c: Cipher, key: Option<Bytes>)
    requires Inv(st)
    requires Register(st, h, salt, username, email, password).outcome == Registered
    ensures
      var after := Register(st, h, salt, username, email, password).state;
      var id := NextUserId(st.store);
      Dashboard(after.(session := Authenticated(id)), c, key)
        == Page(User(Some(id), username, email, Some(h.hash(salt, password))), [], 0)
  {
    var after := Register(st, h, salt, username, email, password).state;
    var id := NextUserId(st.store);
    var k := |st.store.users|;
    assert after.store.users[k].id == Some(id);
    var found := GetUser(after.store, id);
    var i :| 0 <= i < |after.store.users| && after.store.users[i] == found.value && found.value.id == Some(id);
    assert UsersSchema(after.store.users);
    assert i == k;
    assert id !in UserIds(st.store);
    NoOwnedNotes(after.store.notes, id);
    DashboardSteps(after.(session := Authenticated(id)), c, key);
  }

  /** Register, log in, save "hello", open the dashboard: the page lists exactly "hello". */
  lemma RegisterLoginNoteDashboard(h: Hasher, c: Cipher, key: Option<Bytes>, salt: Salt, nonce: Nonce)
    requires HasherSound(h) && CipherSound(c) && FernetAccepts(c, key)
    ensures
      var s1 := Register(EmptyState(), h, salt, "alice", "alice@x.com", "pw1");
      var s2 := Login(s1.state, h, "alice", "pw1");
      var s3 := AddNote(s2.state, c, key, nonce, "hello");
      && s1.outcome == Registered
      && s2.outcome == LoggedIn
      && s3.outcome == NoteSaved
      && Dashboard(s3.state, c, key).Page?
      && Dashboard(s3.state, c, key).notes == ["hello"]
  {
    var st := EmptyState();
    var s1 := Register(st, h, salt, "alice", "alice@x.com", "pw1");
    assert !UsernameTaken(st.store, "alice") && !EmailTaken(st.store, "alice@x.com");
    RegisterThenLogin(st, h, salt, "alice", "alice@x.com", "pw1", Anonymous);
    var s2 := Login(s1.state, h, "alice", "pw1");
    assert s2.state == s1.state.(session := Authenticated(NextUserId(st.store)));
    NewUserHasEmptyDashboard(st, h, salt, "alice", "alice@x.com", "pw1", c, key);
    AddNoteThenDashboard(s2.state, c, key, nonce, "hello");
  }
}
