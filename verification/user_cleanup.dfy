/** The daily purge of the user cleanup service: soft-deleted accounts
    whose grace period has run out are removed for good, together with
    their refresh tokens. The timer loop around it is not modelled. */
module UserCleanup {
  import opened Wrappers
  import opened Contracts
  import opened Seqs
  import opened UsersModel

  /** The account is soft-deleted and its permanent deletion date has come. */
  predicate Due(u: User, now: Time) {
    u.isDeleted && u.permanentDeletionAt.Some? && u.permanentDeletionAt.value <= now
  }

  function IsDue(now: Time): User -> bool {
    (u: User) => Due(u, now)
  }

  function IsKept(now: Time): User -> bool {
    (u: User) => !Due(u, now)
  }

  /** The ids of the accounts the purge removes. */
  function PurgedIds(users: seq<User>, now: Time): set<Guid> {
    set u | u in users && Due(u, now) :: u.userId
  }

  function OwnerKept(purged: set<Guid>): RefreshToken -> bool {
    (t: RefreshToken) => t.userId !in purged
  }

  /** `PerformCleanup`: removes exactly the due accounts and every refresh
      token whose owner is among them; all other rows stay, in order. */
  function Purge(db: UserDb, now: Time): (r: UserDb)
    ensures forall u :: u in r.users <==> u in db.users && !Due(u, now)
    ensures forall t :: t in r.tokens <==> t in db.tokens && t.userId !in PurgedIds(db.users, now)
    ensures forall u :: u in db.users && u.isDeleted && u.permanentDeletionAt.Some? && now < u.permanentDeletionAt.value ==>
      u in r.users
    ensures |r.users| <= |db.users| && |r.tokens| <= |db.tokens|
  {
    var purged := PurgedIds(db.users, now);
    UserDb(Filter(db.users, IsKept(now)), Filter(db.tokens, OwnerKept(purged)))
  }

  /** When no account is due, the purge changes nothing. */
  lemma PurgeNothingDue(db: UserDb, now: Time)
    requires forall i :: 0 <= i < |db.users| ==> !Due(db.users[i], now)
    ensures Purge(db, now) == db
  {
    FilterAllKept(db.users, IsKept(now));
    assert forall u :: u in db.users ==> !Due(u, now);
    assert PurgedIds(db.users, now) == {};
    FilterAllKept(db.tokens, OwnerKept({}));
  }

  /** Purging twice at the same instant is purging once. */
  lemma PurgeIdempotent(db: UserDb, now: Time)
    ensures Purge(Purge(db, now), now) == Purge(db, now)
  {
    var once := Purge(db, now);
    assert forall i :: 0 <= i < |once.users| ==> !Due(once.users[i], now) by {
      forall i | 0 <= i < |once.users|
        ensures !Due(once.users[i], now)
      {
        assert once.users[i] in once.users;
      }
    }
    PurgeNothingDue(once, now);
  }

  /** The purge keeps the database invariant; in particular no refresh token
      is left pointing at a removed account. */
  lemma PurgeKeepsValid(db: UserDb, now: Time)
    requires Valid(db)
    ensures Valid(Purge(db, now))
  {
    var r := Purge(db, now);
    PurgeKeepsUnique(db.users, now);
    PurgeKeepsOwners(db, now);
    forall i | 0 <= i < |r.users|
      ensures DeletionFieldsConsistent(r.users[i])
    {
      assert r.users[i] in db.users;
    }
  }

  lemma PurgeKeepsUnique(users: seq<User>, now: Time)
    requires IdsUnique(users) && LiveUnique(users)
    ensures IdsUnique(Filter(users, IsKept(now))) && LiveUnique(Filter(users, IsKept(now)))
  {
    FilterPairwise(users, IsKept(now), (a: User, b: User) => a.userId != b.userId);
    FilterPairwise(users, IsKept(now), (a: User, b: User) => !a.isDeleted && !b.isDeleted ==> !Clash(a, b));
  }

  /** A kept token's owner is not due, so it survives the purge. */
  lemma PurgeKeepsOwners(db: UserDb, now: Time)
    requires TokensOwned(db)
    ensures TokensOwned(Purge(db, now))
  {
    var r := Purge(db, now);
    forall t | 0 <= t < |r.tokens|
      ensures FindUser(r.users, r.tokens[t].userId).Some?
    {
      KeptTokenOwnerKept(db, now, r.tokens[t]);
    }
  }

  lemma KeptTokenOwnerKept(db: UserDb, now: Time, tok: RefreshToken)
    requires TokensOwned(db)
    requires tok in Purge(db, now).tokens
    ensures FindUser(Purge(db, now).users, tok.userId).Some?
  {
    var r := Purge(db, now);
    var n :| 0 <= n < |db.tokens| && db.tokens[n] == tok;
    var i := FindUser(db.users, tok.userId).value;
    var owner := db.users[i];
    assert owner in db.users;
    assert Due(owner, now) ==> owner.userId in PurgedIds(db.users, now);
    assert owner in r.users;
    var j :| 0 <= j < |r.users| && r.users[j] == owner;
    assert HasId(tok.userId)(r.users[j]);
  }
}
