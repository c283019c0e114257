/** The four tables and what the database itself does with them: the column constraints it
    enforces on commit (NOT NULL and UNIQUE), the row ids it assigns, and the lookups the
    routes issue. Rows are kept in insertion order, the order SQLite returns them in when a
    query has no ORDER BY. */
module Database {
  import opened Common
  import opened Models

  datatype Store = Store(users: seq<User>, notes: seq<SecureNote>, files: seq<EncryptedFile>, logs: seq<AuditLog>)

  /** The largest id among `rows` (0 for none). */
  function MaxId<T>(rows: seq<T>, id: T -> Option<nat>): (m: nat)
    ensures forall i :: 0 <= i < |rows| && id(rows[i]).Some? ==> id(rows[i]).value <= m
    ensures m == 0 || exists i :: 0 <= i < |rows| && id(rows[i]) == Some(m)
  {
    if |rows| == 0 then 0
    else
      var m := MaxId(rows[..|rows| - 1], id);
      var last := id(rows[|rows| - 1]);
      if last.Some? && last.value > m then last.value else m
  }

  /** The rowid SQLite gives an inserted row that names none: one past the largest in use. */
  function NextUserId(s: Store): nat {
    MaxId(s.users, (u: User) => u.id) + 1
  }

  function NextNoteId(s: Store): nat {
    MaxId(s.notes, (n: SecureNote) => n.id) + 1
  }

  function UserIds(s: Store): set<nat> {
    set i | 0 <= i < |s.users| && s.users[i].id.Some? :: s.users[i].id.value
  }

  function NoteIds(s: Store): set<nat> {
    set i | 0 <= i < |s.notes| && s.notes[i].id.Some? :: s.notes[i].id.value
  }

  predicate UsernameTaken(s: Store, username: string) {
    exists i :: 0 <= i < |s.users| && s.users[i].username == username
  }

  predicate EmailTaken(s: Store, email: string) {
    exists i :: 0 <= i < |s.users| && s.users[i].email == email
  }

  /** `users`: `id` primary key, `username` and `email` UNIQUE, `password_hash` NOT NULL. */
  predicate UsersSchema(users: seq<User>) {
    && (forall i :: 0 <= i < |users| ==> users[i].id.Some? && users[i].passwordHash.Some?)
    && (forall i, j :: 0 <= i < j < |users| ==> users[i].id != users[j].id)
    && (forall i, j :: 0 <= i < j < |users| ==> users[i].username != users[j].username)
    && (forall i, j :: 0 <= i < j < |users| ==> users[i].email != users[j].email)
  }

  /** `secure_notes`: `id` primary key, `user_id` and `encrypted_data` NOT NULL. */
  predicate NotesSchema(notes: seq<SecureNote>) {
    && (forall i :: 0 <= i < |notes| ==>
          notes[i].id.Some? && notes[i].userId.Some? && notes[i].encryptedData.Some?)
    && (forall i, j :: 0 <= i < j < |notes| ==> notes[i].id != notes[j].id)
  }

  predicate FilesSchema(files: seq<EncryptedFile>) {
    && (forall i :: 0 <= i < |files| ==> files[i].id.Some?)
    && (forall i, j :: 0 <= i < j < |files| ==> files[i].id != files[j].id)
  }

  predicate LogsSchema(logs: seq<AuditLog>) {
    && (forall i :: 0 <= i < |logs| ==> logs[i].id.Some?)
    && (forall i, j :: 0 <= i < j < |logs| ==> logs[i].id != logs[j].id)
  }

  /** Everything the database enforces on every committed row. */
  predicate Schema(s: Store) {
    UsersSchema(s.users) && NotesSchema(s.notes) && FilesSchema(s.files) && LogsSchema(s.logs)
  }

  /** The `users.id` foreign keys of the other three tables. SQLite checks foreign keys only
      when `PRAGMA foreign_keys` is on, which this application never does, so this is an
      invariant the routes must keep, not one the database enforces. */
  predicate Referential(s: Store) {
    && (forall i :: 0 <= i < |s.notes| && s.notes[i].userId.Some? ==> s.notes[i].userId.value in UserIds(s))
    && (forall i :: 0 <= i < |s.files| ==> s.files[i].userId in UserIds(s))
    && (forall i :: 0 <= i < |s.logs| ==> s.logs[i].userId in UserIds(s))
  }

  predicate Valid(s: Store) {
    Schema(s) && Referential(s)
  }

  /** The first row satisfying `p`, as `.first()` returns it. */
  function FirstWhere(users: seq<User>, p: User -> bool): (r: Option<User>)
    ensures r.Some? <==> exists i :: 0 <= i < |users| && p(users[i])
    ensures r.Some? ==> exists i :: 0 <= i < |users| && users[i] == r.value && p(r.value)
                                    && forall j :: 0 <= j < i ==> !p(users[j])
  {
    if |users| == 0 then None
    else if p(users[0]) then Some(users[0])
    else
      var r := FirstWhere(users[1..], p);
      assert forall i :: 1 <= i < |users| ==> users[i] == users[1..][i - 1];
      r
  }

  /** `User.query.filter_by(username=...).first()` */
  function FindByUsername(s: Store, username: string): (r: Option<User>)
    ensures r.Some? <==> UsernameTaken(s, username)
    ensures r.Some? ==> r.value in s.users && r.value.username == username
  {
    FirstWhere(s.users, (u: User) => u.username == username)
  }

  /** `User.query.filter_by(email=...).first()` */
  function FindByEmail(s: Store, email: string): (r: Option<User>)
    ensures r.Some? <==> EmailTaken(s, email)
    ensures r.Some? ==> r.value in s.users && r.value.email == email
  {
    FirstWhere(s.users, (u: User) => u.email == email)
  }

  /** `User.query.get(id)`: lookup by primary key. */
  function GetUser(s: Store, id: nat): (r: Option<User>)
    ensures r.Some? <==> id in UserIds(s)
    ensures r.Some? ==> r.value in s.users && r.value.id == Some(id)
  {
    FirstWhere(s.users, (u: User) => u.id == Some(id))
  }

  lemma UserIdsAppend(s: Store, u: User)
    requires u.id.Some?
    ensures UserIds(s.(users := s.users + [u])) == UserIds(s) + {u.id.value}
  {
    var s' := s.(users := s.users + [u]);
    forall x | x in UserIds(s') ensures x in UserIds(s) + {u.id.value} {
      var i :| 0 <= i < |s'.users| && s'.users[i].id.Some? && s'.users[i].id.value == x;
      if i < |s.users| {
        assert s.users[i] == s'.users[i];
      }
    }
    forall x | x in UserIds(s) ensures x in UserIds(s') {
      var i :| 0 <= i < |s.users| && s.users[i].id.Some? && s.users[i].id.value == x;
      assert s'.users[i] == s.users[i];
    }
    assert s'.users[|s.users|] == u;
  }

  lemma AppendUserKeepsSchema(s: Store, row: User)
    requires UsersSchema(s.users)
    requires row.id.Some? && row.id.value !in UserIds(s) && row.passwordHash.Some?
    requires !UsernameTaken(s, row.username) && !EmailTaken(s, row.email)
    ensures UsersSchema(s.users + [row])
  {
    var users := s.users + [row];
    forall i | 0 <= i < |s.users| ensures users[i] == s.users[i] && users[i].id != row.id {
      assert s.users[i].id.value in UserIds(s);
    }
  }

  /** A commit of a new `users` row: SQLite raises `IntegrityError` (here `None`) on a NULL
      `password_hash`, a clashing id, or an existing username or email. */
  function InsertUser(s: Store, u: User): (r: Option<Store>)
    ensures r.Some? <==>
              && u.passwordHash.Some?
              && (u.id.None? || u.id.value !in UserIds(s))
              && !UsernameTaken(s, u.username) && !EmailTaken(s, u.email)
    ensures r.Some? ==> r.value == s.(users := s.users + [u.(id := Some(if u.id.Some? then u.id.value else NextUserId(s)))])
    ensures r.Some? && Schema(s) ==> Schema(r.value)
    ensures r.Some? && Referential(s) ==> Referential(r.value)
  {
    var id := if u.id.Some? then u.id.value else NextUserId(s);
    if u.passwordHash.None? || id in UserIds(s) then None
    else if FindByUsername(s, u.username).Some? || FindByEmail(s, u.email).Some? then None
    else
      var row := u.(id := Some(id));
      var s' := s.(users := s.users + [row]);
      UserIdsAppend(s, row);
      assert UsersSchema(s.users) ==> UsersSchema(s'.users) by {
        if UsersSchema(s.users) {
          AppendUserKeepsSchema(s, row);
        }
      }
      Some(s')
  }

  /** A commit of a new `secure_notes` row: `IntegrityError` on a NULL `user_id` or
      `encrypted_data` or a clashing id. The owner is not checked (see `Referential`). */
  function InsertNote(s: Store, n: SecureNote): (r: Option<Store>)
    ensures r.Some? <==>
              && n.userId.Some? && n.encryptedData.Some?
              && (n.id.None? || n.id.value !in NoteIds(s))
    ensures r.Some? ==> r.value == s.(notes := s.notes + [n.(id := Some(if n.id.Some? then n.id.value else NextNoteId(s)))])
    ensures r.Some? && Schema(s) ==> Schema(r.value)
    ensures r.Some? && Referential(s) ==> (Referential(r.value) <==> n.userId.value in UserIds(s))
  {
    var id := if n.id.Some? then n.id.value else NextNoteId(s);
    if n.userId.None? || n.encryptedData.None? || id in NoteIds(s) then None
    else
      var s' := s.(notes := s.notes + [n.(id := Some(id))]);
      assert s'.notes[|s.notes|].userId == n.userId;
      assert forall i :: 0 <= i < |s.notes| ==> s'.notes[i] == s.notes[i];
      Some(s')
  }

  /** `SecureNote.query.filter_by(user_id=...).all()`, in insertion order. */
  function OwnedNotes(notes: seq<SecureNote>, userId: nat): (r: seq<SecureNote>)
    ensures forall n :: n in r <==> n in notes && n.userId == Some(userId)
    ensures |r| <= |notes|
  {
    if |notes| == 0 then []
    else
      var rest := OwnedNotes(notes[1..], userId);
      assert forall n :: n in notes <==> n == notes[0] || n in notes[1..];
      if notes[0].userId == Some(userId) then [notes[0]] + rest else rest
  }

  /** A user who owns none of the notes gets an empty listing. */
  lemma {:induction false} NoOwnedNotes(notes: seq<SecureNote>, userId: nat)
    requires forall i :: 0 <= i < |notes| ==> notes[i].userId != Some(userId)
    ensures OwnedNotes(notes, userId) == []
    decreases |notes|
  {
    if |notes| > 0 {
      assert notes[0].userId != Some(userId);
      NoOwnedNotes(notes[1..], userId);
    }
  }

  /** Appending a note extends exactly its owner's listing, at the end, and no other. */
  lemma {:induction false} OwnedNotesAppend(notes: seq<SecureNote>, n: SecureNote, userId: nat)
    ensures OwnedNotes(notes + [n], userId)
         == OwnedNotes(notes, userId) + (if n.userId == Some(userId) then [n] else [])
  {
    if |notes| > 0 {
      assert (notes + [n])[1..] == notes[1..] + [n];
      OwnedNotesAppend(notes[1..], n, userId);
    } else {
      assert notes + [n] == [n];
    }
  }
}
