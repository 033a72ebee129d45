/** Sign-in: the credential check and the last-sign-in stamp. BCrypt
    verification is a parameter. */
module Auth {
  import opened Wrappers
  import opened Contracts
  import opened Seqs
  import opened UsersModel

  function LoginCandidate(username: string): User -> bool {
    (u: User) => u.username == username && !u.isDeleted
  }

  /** `ValidateUserCredentialAsync`: the first live account with the
      username is checked; an unknown username or a wrong password is
      "invalid credentials", and only a correct password reveals that the
      account is not Active. Success returns that account's projection. */
  function Login(users: seq<User>, username: string, password: string, verify: (string, string) -> bool)
    : (r: Result<UserView, UserError>)
    ensures r.Failure? ==> r.error in {Unauthorized(InvalidCredentials), Unauthorized(AccountNotActive)}
    ensures (forall i :: 0 <= i < |users| ==> users[i].username != username || users[i].isDeleted) ==>
      r == Failure(Unauthorized(InvalidCredentials))
    ensures r == Failure(Unauthorized(AccountNotActive)) ==>
      exists i :: 0 <= i < |users| && users[i].username == username && !users[i].isDeleted
        && verify(password, users[i].passwordHash) && users[i].accountStatus != Active
    ensures r.Success? ==>
      exists i :: 0 <= i < |users| && users[i].username == username && !users[i].isDeleted
        && verify(password, users[i].passwordHash) && users[i].accountStatus == Active && r.value == ViewOf(users[i])
  {
    match FirstIndex(users, LoginCandidate(username))
    case None => Failure(Unauthorized(InvalidCredentials))
    case Some(k) =>
      var u := users[k];
      if !verify(password, u.passwordHash) then Failure(Unauthorized(InvalidCredentials))
      else if u.accountStatus != Active then Failure(Unauthorized(AccountNotActive))
      else Success(ViewOf(u))
  }

  /** With live usernames unique, sign-in succeeds exactly for the live
      account of that name when the password verifies and it is Active. */
  lemma LoginSucceedsIff(users: seq<User>, username: string, password: string, verify: (string, string) -> bool, i: nat)
    requires LiveUnique(users)
    requires i < |users| && users[i].username == username && !users[i].isDeleted
    ensures Login(users, username, password, verify).Success? <==>
      verify(password, users[i].passwordHash) && users[i].accountStatus == Active
    ensures Login(users, username, password, verify).Success? ==>
      Login(users, username, password, verify).value == ViewOf(users[i])
  {
    assert LoginCandidate(username)(users[i]);
    var k := FirstIndex(users, LoginCandidate(username)).value;
    assert k < i ==> !Clash(users[k], users[i]);
  }

  /** `UpdateLastSignInAsync`: stamps the sign-in time on the account with
      that id; an unknown id changes nothing. */
  function UpdateLastSignIn(users: seq<User>, userId: Guid, now: Time): (r: seq<User>)
    ensures |r| == |users|
    ensures FindUser(users, userId).None? ==> r == users
    ensures FindUser(users, userId).Some? ==>
      var k := FindUser(users, userId).value;
      && r[k].lastSignIn == Some(now)
      && r[k].(lastSignIn := users[k].lastSignIn) == users[k]
      && forall j :: 0 <= j < |users| && j != k ==> r[j] == users[j]
  {
    match FindUser(users, userId)
    case None => users
    case Some(k) => users[k := users[k].(lastSignIn := Some(now))]
  }

  /** Stamping the sign-in time keeps the database invariant. */
  lemma UpdateLastSignInKeepsValid(db: UserDb, userId: Guid, now: Time)
    requires Valid(db)
    ensures Valid(db.(users := UpdateLastSignIn(db.users, userId, now)))
  {
    var users := UpdateLastSignIn(db.users, userId, now);
    assert forall i :: 0 <= i < |users| ==> users[i].(lastSignIn := db.users[i].lastSignIn) == db.users[i];
    forall t | 0 <= t < |db.tokens|
      ensures FindUser(users, db.tokens[t].userId).Some?
    {
      var i := FindUser(db.users, db.tokens[t].userId).value;
      assert HasId(db.tokens[t].userId)(users[i]);
    }
  }
}
