/** The user service's database: the user accounts and their refresh
    tokens, kept in table order so that `FirstOrDefault` and `FindAsync`
    pick the first matching row. */
module UsersModel {
  import opened Wrappers
  import opened Contracts
  import opened Seqs

  /** `Roles`: `Roles.User` is the role every account is created with. */
  datatype Role = RegularUser | Admin

  datatype AccountStatus = Active | Banned | PendingDeletion

  datatype User = User(
    userId: Guid,
    username: string,
    passwordHash: string,
    firstName: string,
    lastName: string,
    email: string,
    contactNo: string,
    role: Role,
    accountStatus: AccountStatus,
    createdAt: Time,
    updatedAt: Time,
    lastSignIn: Option<Time>,
    isDeleted: bool,
    deletedAt: Option<Time>,
    permanentDeletionAt: Option<Time>,
    deletionReason: Option<string>)

  /** A refresh token row; `value` is the opaque random string handed to
      the client. */
  datatype RefreshToken = RefreshToken(
    refreshTokenId: Guid,
    userId: Guid,
    value: string,
    expiresAt: Time,
    createdAt: Time,
    revokedAt: Option<Time>,
    revokedReason: Option<string>)

  datatype UserDb = UserDb(users: seq<User>, tokens: seq<RefreshToken>)

  /** `GetUserDto`, the projection every user query returns. */
  datatype UserView = UserView(
    userId: Guid,
    username: string,
    firstName: string,
    lastName: string,
    email: string,
    contactNo: string,
    role: Role,
    accountStatus: AccountStatus,
    createdAt: Time,
    updatedAt: Time,
    lastSignIn: Option<Time>)

  /** Why a user-service operation refused the request. */
  datatype UserReason =
    | NoSuchUser(userId: Guid)
    | NoUsers
    | UsernameTaken
    | EmailTaken
    | AlreadyDeleted
    | NotDeleted
    | GracePeriodOver
    | RestoreConflict
    | InvalidCredentials
    | AccountNotActive
    | InvalidRefreshToken
    | InvalidTokenFormat
    | InvalidUserIdClaim
    | TokenMismatch
    | InvalidTimeline
    | RefreshFailed

  /** The exception class thrown, with its reason. */
  datatype UserError =
    | KeyNotFound(reason: UserReason)
    | InvalidOperation(reason: UserReason)
    | Unauthorized(reason: UserReason)

  /** What a successful write leaves behind: the saved database, the
      projection of the affected user, and the events published. */
  datatype UserSaved = UserSaved(db: UserDb, user: UserView, events: seq<Event>)

  /** The soft-deletion grace period. */
  const GracePeriod: int := 7 * Day

  function ViewOf(u: User): (v: UserView) {
    UserView(u.userId, u.username, u.firstName, u.lastName, u.email, u.contactNo, u.role,
             u.accountStatus, u.createdAt, u.updatedAt, u.lastSignIn)
  }

  /** Row filters, named so that every lookup of the same row is the same term. */
  function HasId(id: Guid): User -> bool {
    (u: User) => u.userId == id
  }

  function TokenHasValue(value: string): RefreshToken -> bool {
    (t: RefreshToken) => t.value == value
  }

  function IsLive(): User -> bool {
    (u: User) => !u.isDeleted
  }

  function IsSoftDeleted(): User -> bool {
    (u: User) => u.isDeleted
  }

  /** `Users.FindAsync(id)`: the row with that primary key. */
  function FindUser(users: seq<User>, id: Guid): Option<nat> {
    FirstIndex(users, HasId(id))
  }

  /** Two accounts compete for the same username or email. */
  predicate Clash(a: User, b: User) {
    a.username == b.username || a.email == b.email
  }

  /** User ids are primary keys. */
  predicate IdsUnique(users: seq<User>) {
    forall i, j :: 0 <= i < j < |users| ==> users[i].userId != users[j].userId
  }

  /** No two accounts that are not soft-deleted share a username or an email. */
  predicate LiveUnique(users: seq<User>) {
    forall i, j :: 0 <= i < j < |users| && !users[i].isDeleted && !users[j].isDeleted ==>
      !Clash(users[i], users[j])
  }

  /** A live account carries no deletion bookkeeping, and a soft-deleted one
      always has its permanent deletion date. */
  predicate DeletionFieldsConsistent(u: User) {
    if u.isDeleted then u.permanentDeletionAt.Some?
    else u.deletedAt.None? && u.permanentDeletionAt.None? && u.deletionReason.None?
  }

  /** Every refresh token belongs to an existing account (the foreign key). */
  predicate TokensOwned(db: UserDb) {
    forall k :: 0 <= k < |db.tokens| ==> FindUser(db.users, db.tokens[k].userId).Some?
  }

  /** The invariant every operation of the user service keeps. */
  predicate Valid(db: UserDb) {
    && IdsUnique(db.users)
    && LiveUnique(db.users)
    && (forall i :: 0 <= i < |db.users| ==> DeletionFieldsConsistent(db.users[i]))
    && TokensOwned(db)
  }

  /** With unique ids, the row `FindAsync` returns is the only one with that id. */
  lemma FindUserUnique(users: seq<User>, id: Guid, i: nat)
    requires IdsUnique(users)
    requires i < |users| && users[i].userId == id
    ensures FindUser(users, id) == Some(i)
  {
    assert HasId(id)(users[i]);
  }
}
