/** The account operations of the user service: sign-up, profile edits,
    hard and soft deletion, restoration, and the read queries. Fresh ids,
    the clock and BCrypt hashes arrive as parameters. */
module UserAccounts {
  import opened Wrappers
  import opened Contracts
  import opened Seqs
  import opened Text
  import opened UsersModel
  import opened Tokens

  /** Some account that is not soft-deleted holds the username. */
  predicate UsernameInUse(users: seq<User>, username: string) {
    exists i :: 0 <= i < |users| && !users[i].isDeleted && users[i].username == username
  }

  predicate EmailInUse(users: seq<User>, email: string) {
    exists i :: 0 <= i < |users| && !users[i].isDeleted && users[i].email == email
  }

  /** The sign-up duplicate query: a live account with either value. */
  function BlocksSignUp(username: string, email: string): User -> bool {
    (u: User) => (u.username == username || u.email == email) && !u.isDeleted
  }

  /** Account `i` is the first live account holding the username or the
      email, the one the sign-up duplicate query returns. */
  predicate FirstBlocker(users: seq<User>, username: string, email: string, i: int) {
    && 0 <= i < |users|
    && !users[i].isDeleted && (users[i].username == username || users[i].email == email)
    && forall j :: 0 <= j < i ==> users[j].isDeleted || (users[j].username != username && users[j].email != email)
  }

  /** The row `CreateUserAsync` stores. */
  function NewUser(userId: Guid, username: string, passwordHash: string, firstName: string, lastName: string,
                   email: string, contactNo: string, now: Time): User
  {
    User(userId, username, passwordHash, firstName, lastName, email, contactNo, RegularUser, Active,
         now, now, None, false, None, None, None)
  }

  /** `CreateUserAsync`. The first live account sharing the username or the
      email refuses the request, reported as a username clash when that
      account holds the username; soft-deleted accounts do not block. A new
      account is a regular, Active user that has never signed in. */
  function CreateUser(db: UserDb, username: string, passwordHash: string, firstName: string, lastName: string,
                      email: string, contactNo: string, userId: Guid, now: Time): (r: Result<UserSaved, UserError>)
    ensures r.Failure? <==> UsernameInUse(db.users, username) || EmailInUse(db.users, email)
    ensures r.Failure? ==> r.error in {InvalidOperation(UsernameTaken), InvalidOperation(EmailTaken)}
    ensures r == Failure(InvalidOperation(UsernameTaken)) ==> UsernameInUse(db.users, username)
    ensures r == Failure(InvalidOperation(EmailTaken)) ==> EmailInUse(db.users, email)
    ensures UsernameInUse(db.users, username) && !EmailInUse(db.users, email) ==>
      r == Failure(InvalidOperation(UsernameTaken))
    ensures !UsernameInUse(db.users, username) && EmailInUse(db.users, email) ==>
      r == Failure(InvalidOperation(EmailTaken))
    ensures forall i :: FirstBlocker(db.users, username, email, i) ==>
      r == Failure(InvalidOperation(if db.users[i].username == username then UsernameTaken else EmailTaken))
    ensures (UsernameInUse(db.users, username) &&
             forall i :: 0 <= i < |db.users| && !db.users[i].isDeleted && db.users[i].email == email ==>
               db.users[i].username == username)
      ==> r == Failure(InvalidOperation(UsernameTaken))
    ensures r.Success? ==> |r.value.db.users| == |db.users| + 1
    ensures r.Success? ==>
      var u := r.value.db.users[|db.users|];
      && r.value.db.tokens == db.tokens
      && r.value.db.users == db.users + [u]
      && u.userId == userId && u.username == username && u.passwordHash == passwordHash
      && u.firstName == firstName && u.lastName == lastName && u.email == email && u.contactNo == contactNo
      && u.role == RegularUser && u.accountStatus == Active
      && u.createdAt == now && u.updatedAt == now && u.lastSignIn.None?
      && !u.isDeleted && DeletionFieldsConsistent(u)
      && r.value.user == ViewOf(u)
      && r.value.events == [UserCreated(userId, username, email, contactNo, now)]
  {
    match FirstIndex(db.users, BlocksSignUp(username, email))
    case Some(i) =>
      if db.users[i].username == username then Failure(InvalidOperation(UsernameTaken))
      else Failure(InvalidOperation(EmailTaken))
    case None =>
      var u := NewUser(userId, username, passwordHash, firstName, lastName, email, contactNo, now);
      Success(UserSaved(db.(users := db.users + [u]), ViewOf(u), [UserCreated(userId, username, email, contactNo, now)]))
  }

  /** Sign-up keeps the database invariant when the drawn id is new. */
  lemma CreateUserKeepsValid(db: UserDb, username: string, passwordHash: string, firstName: string,
                             lastName: string, email: string, contactNo: string, userId: Guid, now: Time)
    requires Valid(db)
    requires FindUser(db.users, userId).None?
    requires CreateUser(db, username, passwordHash, firstName, lastName, email, contactNo, userId, now).Success?
    ensures Valid(CreateUser(db, username, passwordHash, firstName, lastName, email, contactNo, userId, now).value.db)
  {
    var db' := CreateUser(db, username, passwordHash, firstName, lastName, email, contactNo, userId, now).value.db;
    var n := |db.users|;
    var u := db'.users[n];
    assert forall i :: 0 <= i < n ==> db'.users[i] == db.users[i];
    assert forall i :: 0 <= i < n ==> !HasId(userId)(db.users[i]);
    forall i, j | 0 <= i < j < |db'.users| && !db'.users[i].isDeleted && !db'.users[j].isDeleted
      ensures !Clash(db'.users[i], db'.users[j])
    {
      if j == n {
        assert db'.users[i] == db.users[i];
      }
    }
    forall k | 0 <= k < |db'.tokens|
      ensures FindUser(db'.users, db'.tokens[k].userId).Some?
    {
      var i := FindUser(db.users, db.tokens[k].userId).value;
      assert HasId(db.tokens[k].userId)(db'.users[i]);
    }
  }

  /** A request field overwrites a stored one when it is present, not blank,
      and different. */
  predicate Fills(current: string, given: Option<string>) {
    given.Some? && !IsBlank(given.value) && given.value != current
  }

  function Patch(current: string, given: Option<string>): string {
    if Fills(current, given) then given.value else current
  }

  /** Another account, soft-deleted or not, already holds the requested value. */
  predicate UsernameHeldByOther(users: seq<User>, id: Guid, username: Option<string>) {
    username.Some? && exists i :: 0 <= i < |users| && users[i].userId != id && users[i].username == username.value
  }

  predicate EmailHeldByOther(users: seq<User>, id: Guid, email: Option<string>) {
    email.Some? && exists i :: 0 <= i < |users| && users[i].userId != id && users[i].email == email.value
  }

  /** The profile edit a request describes, as `EditUserInfoAsync` applies
      it field by field; `passwordHash` is the hash of `password`. */
  datatype ProfileEdit = ProfileEdit(
    username: Option<string>,
    password: Option<string>,
    firstName: Option<string>,
    lastName: Option<string>,
    email: Option<string>,
    contactNo: Option<string>,
    passwordHash: string)

  /** Some field of the account changes; a supplied password always counts. */
  predicate Changes(u: User, e: ProfileEdit) {
    || Fills(u.username, e.username) || Fills(u.email, e.email) || !IsNullOrWhiteSpace(e.password)
    || Fills(u.firstName, e.firstName) || Fills(u.lastName, e.lastName) || Fills(u.contactNo, e.contactNo)
  }

  function Edited(u: User, e: ProfileEdit): User {
    u.(username := Patch(u.username, e.username),
       email := Patch(u.email, e.email),
       passwordHash := if IsNullOrWhiteSpace(e.password) then u.passwordHash else e.passwordHash,
       firstName := Patch(u.firstName, e.firstName),
       lastName := Patch(u.lastName, e.lastName),
       contactNo := Patch(u.contactNo, e.contactNo))
  }

  /** A stored field after the edit: the supplied value when it is not
      blank, the old value otherwise. */
  predicate Applied(before: string, given: Option<string>, after: string) {
    after == if given.Some? && !IsBlank(given.value) then given.value else before
  }

  /** `EditUserInfoAsync`. An unknown id is KeyNotFound; a username, then an
      email, held by any other account (soft-deleted ones included) is
      refused. Otherwise non-blank fields are written, a supplied password is
      re-hashed, and only an actual change stamps UpdatedAt and publishes
      UserUpdated. Nothing else in the database moves. */
  function EditUser(db: UserDb, id: Guid, e: ProfileEdit, now: Time): (r: Result<UserSaved, UserError>)
    ensures FindUser(db.users, id).None? <==> r == Failure(KeyNotFound(NoSuchUser(id)))
    ensures FindUser(db.users, id).Some? && UsernameHeldByOther(db.users, id, e.username) <==>
      r == Failure(InvalidOperation(UsernameTaken))
    ensures FindUser(db.users, id).Some? && !UsernameHeldByOther(db.users, id, e.username)
            && EmailHeldByOther(db.users, id, e.email) <==>
      r == Failure(InvalidOperation(EmailTaken))
    ensures r.Success? ==> |r.value.db.users| == |db.users|
    ensures r.Success? ==>
      var k := FindUser(db.users, id).value;
      var before := db.users[k];
      var after := r.value.db.users[k];
      && r.value.db.tokens == db.tokens
      && (forall j :: 0 <= j < |db.users| && j != k ==> r.value.db.users[j] == db.users[j])
      && Applied(before.username, e.username, after.username)
      && Applied(before.email, e.email, after.email)
      && Applied(before.firstName, e.firstName, after.firstName)
      && Applied(before.lastName, e.lastName, after.lastName)
      && Applied(before.contactNo, e.contactNo, after.contactNo)
      && after.passwordHash == (if IsNullOrWhiteSpace(e.password) then before.passwordHash else e.passwordHash)
      && after.(username := before.username, email := before.email, firstName := before.firstName,
                lastName := before.lastName, contactNo := before.contactNo, passwordHash := before.passwordHash,
                updatedAt := before.updatedAt) == before
      && (Changes(before, e) ==>
            after.updatedAt == now
            && r.value.events == [UserUpdated(id, after.username, after.email, after.contactNo, now)])
      && (!Changes(before, e) ==> r.value.db == db && r.value.events == [])
      && r.value.user == ViewOf(after)
  {
    match FindUser(db.users, id)
    case None => Failure(KeyNotFound(NoSuchUser(id)))
    case Some(k) =>
      if UsernameHeldByOther(db.users, id, e.username) then Failure(InvalidOperation(UsernameTaken))
      else if EmailHeldByOther(db.users, id, e.email) then Failure(InvalidOperation(EmailTaken))
      else
        var u := db.users[k];
        if Changes(u, e) then
          var u' := Edited(u, e).(updatedAt := now);
          Success(UserSaved(db.(users := db.users[k := u']), ViewOf(u'),
                            [UserUpdated(u.userId, u'.username, u'.email, u'.contactNo, now)]))
        else Success(UserSaved(db, ViewOf(u), []))
  }

  /** Repeating an edit that carries no password changes nothing the second
      time: every field it names already holds the requested value. */
  lemma EditUserTwiceChangesNothing(db: UserDb, id: Guid, e: ProfileEdit, now: Time, later: Time)
    requires e.password.None?
    requires EditUser(db, id, e, now).Success?
    ensures var db' := EditUser(db, id, e, now).value.db;
      EditUser(db', id, e, later) == Success(UserSaved(db', EditUser(db, id, e, now).value.user, []))
  {
    var db' := EditUser(db, id, e, now).value.db;
    var k := FindUser(db.users, id).value;
    assert forall i :: 0 <= i < |db.users| ==> (HasId(id)(db'.users[i]) <==> HasId(id)(db.users[i]));
    assert FindUser(db'.users, id) == Some(k) by {
      assert HasId(id)(db'.users[k]);
      assert forall i :: 0 <= i < k ==> !HasId(id)(db'.users[i]);
    }
    assert !UsernameHeldByOther(db'.users, id, e.username);
    assert !EmailHeldByOther(db'.users, id, e.email);
    assert !Changes(db'.users[k], e);
  }

  /** An edit keeps the database invariant: a new username or email is one
      no other account holds. */
  lemma EditUserKeepsValid(db: UserDb, id: Guid, e: ProfileEdit, now: Time)
    requires Valid(db)
    requires EditUser(db, id, e, now).Success?
    ensures Valid(EditUser(db, id, e, now).value.db)
  {
    var db' := EditUser(db, id, e, now).value.db;
    var k := FindUser(db.users, id).value;
    assert forall i :: 0 <= i < |db.users| ==> db'.users[i].userId == db.users[i].userId;
    assert forall i :: 0 <= i < |db.users| ==> db'.users[i].isDeleted == db.users[i].isDeleted;
    forall i, j | 0 <= i < j < |db'.users| && !db'.users[i].isDeleted && !db'.users[j].isDeleted
      ensures !Clash(db'.users[i], db'.users[j])
    {
      EditedRowClashes(db, id, e, now, k, i, j);
    }
    forall t | 0 <= t < |db'.tokens|
      ensures FindUser(db'.users, db'.tokens[t].userId).Some?
    {
      var i := FindUser(db.users, db.tokens[t].userId).value;
      assert HasId(db.tokens[t].userId)(db'.users[i]);
    }
  }

  /** One pair of live accounts after an edit: only the edited row can have
      moved, and its new values are held by no other account. */
  lemma EditedRowClashes(db: UserDb, id: Guid, e: ProfileEdit, now: Time, k: nat, i: nat, j: nat)
    requires Valid(db)
    requires EditUser(db, id, e, now).Success?
    requires k == FindUser(db.users, id).value
    requires i < j < |db.users|
    requires !db.users[i].isDeleted && !db.users[j].isDeleted
    ensures !Clash(EditUser(db, id, e, now).value.db.users[i], EditUser(db, id, e, now).value.db.users[j])
  {
    var db' := EditUser(db, id, e, now).value.db;
    if i == k || j == k {
      var o := if i == k then j else i;
      assert db'.users[o] == db.users[o];
      assert db.users[o].userId != id by {
        assert db.users[o].userId != db.users[k].userId;
      }
      assert !Clash(db.users[o], db.users[k]);
      var before := db.users[k];
      var after := db'.users[k];
      assert after.username != db.users[o].username by {
        if e.username.Some? && !IsBlank(e.username.value) {
          assert !UsernameHeldByOther(db.users, id, e.username);
        }
      }
      assert after.email != db.users[o].email by {
        if e.email.Some? && !IsBlank(e.email.value) {
          assert !EmailHeldByOther(db.users, id, e.email);
        }
      }
    }
  }

  /** `DeleteUserAsync`: the account row is removed outright, its refresh
      tokens go with it (the foreign key cascades), and UserDeleted is
      published. */
  function DeleteUser(db: UserDb, id: Guid, now: Time): (r: Result<(UserDb, seq<Event>), UserError>)
    ensures FindUser(db.users, id).None? <==> r == Failure(KeyNotFound(NoSuchUser(id)))
    ensures r.Success? ==>
      var k := FindUser(db.users, id).value;
      var u := db.users[k];
      && r.value.0.users == RemoveAt(db.users, k)
      && (forall t :: t in r.value.0.tokens <==> t in db.tokens && t.userId != id)
      && r.value.1 == [UserDeleted(id, u.username, u.email, u.contactNo, now)]
  {
    match FindUser(db.users, id)
    case None => Failure(KeyNotFound(NoSuchUser(id)))
    case Some(k) =>
      var u := db.users[k];
      var tokens := Filter(db.tokens, (t: RefreshToken) => t.userId != id);
      Success((UserDb(RemoveAt(db.users, k), tokens), [UserDeleted(u.userId, u.username, u.email, u.contactNo, now)]))
  }

  /** After a hard delete no account with that id remains. */
  lemma DeleteUserRemovesAccount(db: UserDb, id: Guid, now: Time)
    requires IdsUnique(db.users)
    requires DeleteUser(db, id, now).Success?
    ensures FindUser(DeleteUser(db, id, now).value.0.users, id).None?
  {
    var k := FindUser(db.users, id).value;
    var rest := DeleteUser(db, id, now).value.0.users;
    forall i | 0 <= i < |rest|
      ensures !HasId(id)(rest[i])
    {
      if i < k {
        assert rest[i] == db.users[i];
      } else {
        assert rest[i] == db.users[i + 1];
        assert db.users[k].userId != db.users[i + 1].userId;
      }
    }
  }

  /** A hard delete keeps the database invariant. */
  lemma DeleteUserKeepsValid(db: UserDb, id: Guid, now: Time)
    requires Valid(db)
    requires DeleteUser(db, id, now).Success?
    ensures Valid(DeleteUser(db, id, now).value.0)
  {
    var k := FindUser(db.users, id).value;
    var db' := DeleteUser(db, id, now).value.0;
    RemoveAtKeepsUnique(db.users, k);
    assert forall i :: 0 <= i < |db'.users| ==> DeletionFieldsConsistent(db'.users[i]) by {
      forall i | 0 <= i < |db'.users|
        ensures DeletionFieldsConsistent(db'.users[i])
      {
        if i >= k { assert db'.users[i] == db.users[i + 1]; }
      }
    }
    forall t | 0 <= t < |db'.tokens|
      ensures FindUser(db'.users, db'.tokens[t].userId).Some?
    {
      DeleteUserKeepsOwner(db, id, now, db'.tokens[t]);
    }
  }

  lemma RemoveAtKeepsUnique(users: seq<User>, k: nat)
    requires k < |users|
    requires IdsUnique(users) && LiveUnique(users)
    ensures IdsUnique(RemoveAt(users, k)) && LiveUnique(RemoveAt(users, k))
  {
    var rest := RemoveAt(users, k);
    forall i, j | 0 <= i < j < |rest|
      ensures rest[i].userId != rest[j].userId
      ensures !rest[i].isDeleted && !rest[j].isDeleted ==> !Clash(rest[i], rest[j])
    {
      var i' := if i < k then i else i + 1;
      var j' := if j < k then j else j + 1;
      assert rest[i] == users[i'] && rest[j] == users[j'];
    }
  }

  /** A token that survives a hard delete still has its owner. */
  lemma DeleteUserKeepsOwner(db: UserDb, id: Guid, now: Time, tok: RefreshToken)
    requires Valid(db)
    requires DeleteUser(db, id, now).Success?
    requires tok in DeleteUser(db, id, now).value.0.tokens
    ensures FindUser(DeleteUser(db, id, now).value.0.users, tok.userId).Some?
  {
    var k := FindUser(db.users, id).value;
    var rest := DeleteUser(db, id, now).value.0.users;
    var n :| 0 <= n < |db.tokens| && db.tokens[n] == tok;
    var i := FindUser(db.users, tok.userId).value;
    var i' := if i < k then i else i - 1;
    assert rest[i'] == db.users[i];
    assert HasId(tok.userId)(rest[i']);
  }

  /** The account as `SoftDeleteUserAsync` leaves it. */
  function SoftDeleted(u: User, reason: Option<string>, now: Time): User {
    u.(isDeleted := true,
       deletedAt := Some(now),
       permanentDeletionAt := Some(now + GracePeriod),
       deletionReason := Some(reason.GetOr("User requested deletion")),
       accountStatus := PendingDeletion,
       updatedAt := now)
  }

  /** `SoftDeleteUserAsync`: an unknown id is KeyNotFound and an account
      already deleted is refused. Otherwise the account is marked deleted,
      scheduled for purge seven days later, PendingDeletion, with the given
      reason or "User requested deletion", and all its active refresh tokens
      are revoked. */
  function SoftDelete(db: UserDb, id: Guid, reason: Option<string>, now: Time): (r: Result<UserSaved, UserError>)
    ensures FindUser(db.users, id).None? <==> r == Failure(KeyNotFound(NoSuchUser(id)))
    ensures FindUser(db.users, id).Some? && db.users[FindUser(db.users, id).value].isDeleted <==>
      r == Failure(InvalidOperation(AlreadyDeleted))
    ensures r.Success? ==> |r.value.db.users| == |db.users|
    ensures r.Success? ==>
      var k := FindUser(db.users, id).value;
      var u := r.value.db.users[k];
      && (forall j :: 0 <= j < |db.users| && j != k ==> r.value.db.users[j] == db.users[j])
      && u.isDeleted && u.accountStatus == PendingDeletion
      && u.deletedAt == Some(now) && u.permanentDeletionAt == Some(now + 7 * Day) && u.updatedAt == now
      && u.deletionReason == Some(if reason.Some? then reason.value else "User requested deletion")
      && u.(isDeleted := false, deletedAt := None, permanentDeletionAt := None, deletionReason := None,
            accountStatus := db.users[k].accountStatus, updatedAt := db.users[k].updatedAt)
         == db.users[k].(deletedAt := None, permanentDeletionAt := None, deletionReason := None)
      && r.value.db.tokens == RevokeAll(db.tokens, id, "User account deleted", now)
      && (forall t :: 0 <= t < |r.value.db.tokens| && r.value.db.tokens[t].userId == id ==>
            !IsActive(r.value.db.tokens[t], now))
      && r.value.user == ViewOf(u)
      && r.value.events == []
  {
    match FindUser(db.users, id)
    case None => Failure(KeyNotFound(NoSuchUser(id)))
    case Some(k) =>
      var u := db.users[k];
      if u.isDeleted then Failure(InvalidOperation(AlreadyDeleted))
      else
        var u' := SoftDeleted(u, reason, now);
        Success(UserSaved(UserDb(db.users[k := u'], RevokeAll(db.tokens, id, "User account deleted", now)),
                          ViewOf(u'), []))
  }

  /** Soft deletion keeps the database invariant. */
  lemma SoftDeleteKeepsValid(db: UserDb, id: Guid, reason: Option<string>, now: Time)
    requires Valid(db)
    requires SoftDelete(db, id, reason, now).Success?
    ensures Valid(SoftDelete(db, id, reason, now).value.db)
  {
    var db' := SoftDelete(db, id, reason, now).value.db;
    assert forall i :: 0 <= i < |db.users| ==> db'.users[i].userId == db.users[i].userId;
    assert forall i :: 0 <= i < |db.users| && !db'.users[i].isDeleted ==> db'.users[i] == db.users[i];
    forall t | 0 <= t < |db'.tokens|
      ensures FindUser(db'.users, db'.tokens[t].userId).Some?
    {
      var i := FindUser(db.users, db.tokens[t].userId).value;
      assert HasId(db.tokens[t].userId)(db'.users[i]);
    }
  }

  /** Another live account competes with row `k` for its username or email. */
  predicate ConflictsWithLive(users: seq<User>, k: nat)
    requires k < |users|
  {
    exists j :: 0 <= j < |users| && j != k && !users[j].isDeleted && Clash(users[j], users[k])
  }

  /** The account as `RestoreUserAsync` leaves it. */
  function Restored(u: User, now: Time): User {
    u.(isDeleted := false, deletedAt := None, permanentDeletionAt := None, deletionReason := None,
       accountStatus := Active, updatedAt := now)
  }

  /** `RestoreUserAsync` as written: an unknown id is KeyNotFound; an account
      that is not deleted, or whose permanent deletion date has come, is
      refused; otherwise the deletion bookkeeping is cleared and the account
      is Active again. No uniqueness check is made. */
  function RestoreAsWritten(db: UserDb, id: Guid, now: Time): (r: Result<UserSaved, UserError>)
    ensures FindUser(db.users, id).None? <==> r == Failure(KeyNotFound(NoSuchUser(id)))
    ensures FindUser(db.users, id).Some? && !db.users[FindUser(db.users, id).value].isDeleted <==>
      r == Failure(InvalidOperation(NotDeleted))
    ensures r == Failure(InvalidOperation(GracePeriodOver)) <==>
      && FindUser(db.users, id).Some?
      && db.users[FindUser(db.users, id).value].isDeleted
      && db.users[FindUser(db.users, id).value].permanentDeletionAt.Some?
      && db.users[FindUser(db.users, id).value].permanentDeletionAt.value <= now
    ensures r.Success? ==> |r.value.db.users| == |db.users|
    ensures r.Success? ==>
      var k := FindUser(db.users, id).value;
      var u := r.value.db.users[k];
      && r.value.db.tokens == db.tokens
      && (forall j :: 0 <= j < |db.users| && j != k ==> r.value.db.users[j] == db.users[j])
      && !u.isDeleted && u.accountStatus == Active && u.updatedAt == now && DeletionFieldsConsistent(u)
      && u.(accountStatus := db.users[k].accountStatus, updatedAt := db.users[k].updatedAt, isDeleted := true,
            deletedAt := db.users[k].deletedAt, permanentDeletionAt := db.users[k].permanentDeletionAt,
            deletionReason := db.users[k].deletionReason) == db.users[k]
      && r.value.user == ViewOf(u)
      && r.value.events == []
  {
    match FindUser(db.users, id)
    case None => Failure(KeyNotFound(NoSuchUser(id)))
    case Some(k) =>
      var u := db.users[k];
      if !u.isDeleted then Failure(InvalidOperation(NotDeleted))
      else if u.permanentDeletionAt.Some? && u.permanentDeletionAt.value <= now then
        Failure(InvalidOperation(GracePeriodOver))
      else
        var u' := Restored(u, now);
        Success(UserSaved(db.(users := db.users[k := u']), ViewOf(u'), []))
  }

  /** Restoration as evidently intended: the same checks, and in addition an
      account whose username or email has meanwhile been taken by a live
      account is refused, since sign-up lets a new account reuse the values
      of a soft-deleted one. */
  function Restore(db: UserDb, id: Guid, now: Time): (r: Result<UserSaved, UserError>)
    ensures RestoreAsWritten(db, id, now).Failure? ==> r == RestoreAsWritten(db, id, now)
    ensures RestoreAsWritten(db, id, now).Success? ==>
      (r == Failure(InvalidOperation(RestoreConflict)) <==> ConflictsWithLive(db.users, FindUser(db.users, id).value))
    ensures r.Success? ==> r == RestoreAsWritten(db, id, now) && !ConflictsWithLive(db.users, FindUser(db.users, id).value)
  {
    match RestoreAsWritten(db, id, now)
    case Failure(e) => Failure(e)
    case Success(s) =>
      if ConflictsWithLive(db.users, FindUser(db.users, id).value) then Failure(InvalidOperation(RestoreConflict))
      else Success(s)
  }

  /** The corrected restoration keeps the database invariant. */
  lemma RestoreKeepsValid(db: UserDb, id: Guid, now: Time)
    requires Valid(db)
    requires Restore(db, id, now).Success?
    ensures Valid(Restore(db, id, now).value.db)
  {
    var db' := Restore(db, id, now).value.db;
    var k := FindUser(db.users, id).value;
    assert forall i :: 0 <= i < |db.users| ==> db'.users[i].userId == db.users[i].userId;
    forall i, j | 0 <= i < j < |db'.users| && !db'.users[i].isDeleted && !db'.users[j].isDeleted
      ensures !Clash(db'.users[i], db'.users[j])
    {
      if i == k {
        assert db'.users[j] == db.users[j];
        assert !Clash(db.users[j], db.users[k]);
      } else if j == k {
        assert db'.users[i] == db.users[i];
        assert !Clash(db.users[i], db.users[k]);
      }
    }
    forall t | 0 <= t < |db'.tokens|
      ensures FindUser(db'.users, db'.tokens[t].userId).Some?
    {
      var i := FindUser(db.users, db.tokens[t].userId).value;
      assert HasId(db.tokens[t].userId)(db'.users[i]);
    }
  }

  /** Within the grace period, restoring a soft-deleted account gives it back
      exactly as it was, Active, with only UpdatedAt moved. */
  lemma RestoreUndoesSoftDelete(db: UserDb, id: Guid, reason: Option<string>, now: Time, later: Time)
    requires Valid(db)
    requires SoftDelete(db, id, reason, now).Success?
    requires later < now + GracePeriod
    ensures var deleted := SoftDelete(db, id, reason, now).value.db;
      && Restore(deleted, id, later).Success?
      && Restore(deleted, id, later).value.db.users ==
           db.users[FindUser(db.users, id).value := db.users[FindUser(db.users, id).value].(accountStatus := Active, updatedAt := later)]
  {
    var deleted := SoftDelete(db, id, reason, now).value.db;
    var k := FindUser(db.users, id).value;
    assert forall i :: 0 <= i < |db.users| ==> deleted.users[i].userId == db.users[i].userId;
    FindUserUnique(deleted.users, id, k) by {
      SoftDeleteKeepsValid(db, id, reason, now);
    }
    assert !ConflictsWithLive(deleted.users, k) by {
      forall j | 0 <= j < |deleted.users| && j != k && !deleted.users[j].isDeleted
        ensures !Clash(deleted.users[j], deleted.users[k])
      {
        assert deleted.users[j] == db.users[j];
        assert !Clash(db.users[j], db.users[k]) by {
          if j < k {} else {}
        }
      }
    }
    assert DeletionFieldsConsistent(db.users[k]);
  }

  /** As written, restoration breaks username uniqueness: account 1 signs up
      as "customer1" and is soft-deleted, account 2 signs up with the same
      username (soft-deleted accounts do not block sign-up), and restoring
      account 1 leaves two live accounts named "customer1". The corrected
      restoration refuses. */
  lemma RestoreAsWrittenDuplicatesUsername()
    ensures var db0 := UserDb([], []);
      var s1 := CreateUser(db0, "customer1", "h1", "Ann", "Reyes", "a@example.com", "09170000001", 1, 0);
      && s1.Success?
      && var s2 := SoftDelete(s1.value.db, 1, None, 10);
      && s2.Success?
      && var s3 := CreateUser(s2.value.db, "customer1", "h2", "Ben", "Cruz", "b@example.com", "09170000002", 2, 20);
      && s3.Success?
      && RestoreAsWritten(s3.value.db, 1, 30).Success?
      && !LiveUnique(RestoreAsWritten(s3.value.db, 1, 30).value.db.users)
      && Restore(s3.value.db, 1, 30) == Failure(InvalidOperation(RestoreConflict))
  {
    var db0 := UserDb([], []);
    var s1 := CreateUser(db0, "customer1", "h1", "Ann", "Reyes", "a@example.com", "09170000001", 1, 0);
    assert s1.Success?;
    var d1 := s1.value.db;
    assert |d1.users| == 1 && d1.users[0].userId == 1;
    assert HasId(1)(d1.users[0]);
    var s2 := SoftDelete(d1, 1, None, 10);
    assert s2.Success?;
    var d2 := s2.value.db;
    assert d2.users[0].isDeleted;
    assert !UsernameInUse(d2.users, "customer1");
    assert !EmailInUse(d2.users, "b@example.com");
    var s3 := CreateUser(d2, "customer1", "h2", "Ben", "Cruz", "b@example.com", "09170000002", 2, 20);
    assert s3.Success?;
    var d3 := s3.value.db;
    assert |d3.users| == 2 && d3.users[0] == d2.users[0];
    assert HasId(1)(d3.users[0]);
    var s4 := RestoreAsWritten(d3, 1, 30);
    assert s4.Success?;
    var d4 := s4.value.db;
    assert !d4.users[0].isDeleted && !d4.users[1].isDeleted;
    assert Clash(d4.users[0], d4.users[1]);
    assert ConflictsWithLive(d3.users, 0) by {
      assert Clash(d3.users[1], d3.users[0]);
    }
  }

  /** `GetAllAsync`: the projections of exactly the accounts that are not
      soft-deleted; none is KeyNotFound. */
  function GetAll(db: UserDb): (r: Result<seq<UserView>, UserError>)
    ensures r.Failure? <==> forall i :: 0 <= i < |db.users| ==> db.users[i].isDeleted
    ensures r.Failure? ==> r.error == KeyNotFound(NoUsers)
    ensures r.Success? ==> forall i :: 0 <= i < |db.users| && !db.users[i].isDeleted ==> ViewOf(db.users[i]) in r.value
    ensures r.Success? ==> forall v :: v in r.value ==> exists u :: u in db.users && !u.isDeleted && v == ViewOf(u)
  {
    var live := Filter(db.users, IsLive());
    if |live| == 0 then
      assert forall i :: 0 <= i < |db.users| ==> db.users[i].isDeleted by {
        forall i | 0 <= i < |db.users|
          ensures db.users[i].isDeleted
        {
          assert db.users[i] in db.users && db.users[i] !in live;
          assert !IsLive()(db.users[i]);
        }
      }
      Failure(KeyNotFound(NoUsers))
    else
      var views := seq(|live|, i requires 0 <= i < |live| => ViewOf(live[i]));
      assert live[0] in db.users && !live[0].isDeleted;
      var w :| 0 <= w < |db.users| && db.users[w] == live[0];
      assert forall i :: 0 <= i < |db.users| && !db.users[i].isDeleted ==> ViewOf(db.users[i]) in views by {
        forall i | 0 <= i < |db.users| && !db.users[i].isDeleted
          ensures ViewOf(db.users[i]) in views
        {
          assert IsLive()(db.users[i]);
          assert db.users[i] in live;
          var j :| 0 <= j < |live| && live[j] == db.users[i];
          assert views[j] == ViewOf(db.users[i]);
        }
      }
      assert forall v :: v in views ==> exists u :: u in db.users && !u.isDeleted && v == ViewOf(u) by {
        forall v | v in views
          ensures exists u :: u in db.users && !u.isDeleted && v == ViewOf(u)
        {
          var j :| 0 <= j < |views| && views[j] == v;
          assert live[j] in live;
          assert IsLive()(live[j]);
        }
      }
      Success(views)
  }

  function LiveWithId(id: Guid): User -> bool {
    (u: User) => u.userId == id && !u.isDeleted
  }

  /** `GetUserByIdAsync`: the projection of the live account with that id;
      a soft-deleted account is reported missing like an unknown one. */
  function GetById(db: UserDb, id: Guid): (r: Result<UserView, UserError>)
    ensures r.Failure? <==> forall i :: 0 <= i < |db.users| ==> db.users[i].userId != id || db.users[i].isDeleted
    ensures r.Failure? ==> r.error == KeyNotFound(NoSuchUser(id))
    ensures r.Success? ==> exists u :: u in db.users && !u.isDeleted && u.userId == id && r.value == ViewOf(u)
  {
    match FirstIndex(db.users, LiveWithId(id))
    case None => Failure(KeyNotFound(NoSuchUser(id)))
    case Some(k) =>
      assert db.users[k] in db.users;
      Success(ViewOf(db.users[k]))
  }

  /** `GetSoftDeletedUsersAsync`: the projections of exactly the soft-deleted
      accounts, possibly none. */
  function GetSoftDeleted(db: UserDb): (r: seq<UserView>)
    ensures forall i :: 0 <= i < |db.users| && db.users[i].isDeleted ==> ViewOf(db.users[i]) in r
    ensures forall v :: v in r ==> exists u :: u in db.users && u.isDeleted && v == ViewOf(u)
  {
    var gone := Filter(db.users, IsSoftDeleted());
    var views := seq(|gone|, i requires 0 <= i < |gone| => ViewOf(gone[i]));
    assert forall i :: 0 <= i < |db.users| && db.users[i].isDeleted ==> ViewOf(db.users[i]) in views by {
      forall i | 0 <= i < |db.users| && db.users[i].isDeleted
        ensures ViewOf(db.users[i]) in views
      {
        assert IsSoftDeleted()(db.users[i]);
        assert db.users[i] in gone;
        var j :| 0 <= j < |gone| && gone[j] == db.users[i];
        assert views[j] == ViewOf(db.users[i]);
      }
    }
    assert forall v :: v in views ==> exists u :: u in db.users && u.isDeleted && v == ViewOf(u) by {
      forall v | v in views
        ensures exists u :: u in db.users && u.isDeleted && v == ViewOf(u)
      {
        var j :| 0 <= j < |views| && views[j] == v;
        assert gone[j] in gone;
        assert IsSoftDeleted()(gone[j]);
      }
    }
    views
  }
}
