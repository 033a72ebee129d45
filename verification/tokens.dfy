/** Refresh tokens: when a token is active, how the service revokes tokens,
    how it validates a presented token, and the refresh exchange. JWT
    signing and parsing are outside the model: the claims of the expired
    access token arrive already read. */
module Tokens {
  import opened Wrappers
  import opened Contracts
  import opened Seqs
  import opened UsersModel

  /** `Jwt:RefreshTokenExpiryDays` at its default of 7 days. */
  const RefreshTokenLifetime: int := 7 * Day

  /** `RefreshToken.IsActive`: not revoked and strictly before expiry. */
  predicate IsActive(t: RefreshToken, now: Time) {
    t.revokedAt.None? && now < t.expiresAt
  }

  /** Activity is decided by the revocation stamp, the expiry and the clock
      alone: a revoked token is never active, a token is already inactive at
      the instant of its expiry, and an unrevoked unexpired token is active. */
  lemma ActivityRules(t: RefreshToken, u: RefreshToken, now: Time)
    ensures t.revokedAt.Some? ==> !IsActive(t, now)
    ensures now >= t.expiresAt ==> !IsActive(t, now)
    ensures t.revokedAt.None? && now < t.expiresAt ==> IsActive(t, now)
    ensures t.revokedAt == u.revokedAt && t.expiresAt == u.expiresAt ==> (IsActive(t, now) <==> IsActive(u, now))
  {
  }

  function Revoked(t: RefreshToken, reason: string, now: Time): RefreshToken {
    t.(revokedAt := Some(now), revokedReason := Some(reason))
  }

  /** `RevokeAllRefreshTokenAsync`: stamps every active token of the user
      with the time and the reason. Afterwards the user holds no active
      token; other users' tokens and tokens that were already revoked or
      expired are untouched. */
  function RevokeAll(tokens: seq<RefreshToken>, userId: Guid, reason: string, now: Time): (r: seq<RefreshToken>)
    ensures |r| == |tokens|
    ensures forall k :: 0 <= k < |r| && r[k].userId == userId ==> !IsActive(r[k], now)
    ensures forall k :: 0 <= k < |r| && (tokens[k].userId != userId || !IsActive(tokens[k], now)) ==>
      r[k] == tokens[k]
    ensures forall k :: 0 <= k < |r| && tokens[k].userId == userId && IsActive(tokens[k], now) ==>
      r[k].revokedAt == Some(now) && r[k].revokedReason == Some(reason) &&
      r[k].(revokedAt := None, revokedReason := tokens[k].revokedReason) == tokens[k]
  {
    seq(|tokens|, k requires 0 <= k < |tokens| =>
      if tokens[k].userId == userId && IsActive(tokens[k], now) then Revoked(tokens[k], reason, now)
      else tokens[k])
  }

  /** Revoking everything twice is revoking it once. */
  lemma RevokeAllIdempotent(tokens: seq<RefreshToken>, userId: Guid, reason: string, now: Time)
    ensures RevokeAll(RevokeAll(tokens, userId, reason, now), userId, reason, now) == RevokeAll(tokens, userId, reason, now)
  {
    var once := RevokeAll(tokens, userId, reason, now);
    var twice := RevokeAll(once, userId, reason, now);
    assert forall k :: 0 <= k < |once| ==> twice[k] == once[k];
  }

  /** The token row a presented value names: the first one with that value. */
  function Presented(tokens: seq<RefreshToken>, value: string): Option<nat> {
    FirstIndex(tokens, TokenHasValue(value))
  }

  /** Appending rows does not move the first match of a value already present. */
  lemma PresentedAfterAppend(tokens: seq<RefreshToken>, extra: seq<RefreshToken>, value: string)
    requires Presented(tokens, value).Some?
    ensures Presented(tokens + extra, value) == Presented(tokens, value)
  {
    var k := Presented(tokens, value).value;
    var s := tokens + extra;
    assert s[k] == tokens[k];
    assert TokenHasValue(value)(s[k]);
    assert forall i :: 0 <= i < k ==> s[i] == tokens[i];
  }

  /** `RevokeRefreshTokenAsync`: revokes the presented token when it is
      active; an unknown or inactive token leaves the table as it was. */
  function Revoke(tokens: seq<RefreshToken>, value: string, reason: string, now: Time): (r: seq<RefreshToken>)
    ensures |r| == |tokens|
    ensures r == tokens <==> Presented(tokens, value).None? || !IsActive(tokens[Presented(tokens, value).value], now)
    ensures Presented(tokens, value).Some? ==> !IsActive(r[Presented(tokens, value).value], now)
    ensures forall k :: 0 <= k < |tokens| && Presented(tokens, value) != Some(k) ==> r[k] == tokens[k]
    ensures forall k :: 0 <= k < |tokens| ==>
      r[k].value == tokens[k].value && r[k].userId == tokens[k].userId && r[k].createdAt == tokens[k].createdAt
    ensures Presented(tokens, value).Some? && IsActive(tokens[Presented(tokens, value).value], now) ==>
      r[Presented(tokens, value).value] == Revoked(tokens[Presented(tokens, value).value], reason, now)
  {
    match Presented(tokens, value)
    case None => tokens
    case Some(k) =>
      if IsActive(tokens[k], now) then tokens[k := Revoked(tokens[k], reason, now)] else tokens
  }

  /** Revoking keeps every token where it was, so a value names the same row
      before and after. */
  lemma PresentedAfterRevoke(tokens: seq<RefreshToken>, value: string, other: string, reason: string, now: Time)
    ensures Presented(Revoke(tokens, value, reason, now), other) == Presented(tokens, other)
  {
    var r := Revoke(tokens, value, reason, now);
    assert forall k :: 0 <= k < |r| ==> (TokenHasValue(other)(r[k]) <==> TokenHasValue(other)(tokens[k]));
  }

  /** The owner of the presented token, through the `User` navigation; a
      dangling owner makes the service throw, which the refresh exchange
      reports as a failed refresh. */
  function Owner(db: UserDb, k: nat): (r: Result<User, UserError>)
    requires k < |db.tokens|
    ensures r.Success? ==> r.value.userId == db.tokens[k].userId && r.value in db.users
    ensures r.Failure? ==> r.error == Unauthorized(RefreshFailed) && FindUser(db.users, db.tokens[k].userId).None?
  {
    match FindUser(db.users, db.tokens[k].userId)
    case None => Failure(Unauthorized(RefreshFailed))
    case Some(i) => Success(db.users[i])
  }

  /** `ValidateRefreshTokenAsync` as written: the token must exist and its
      owner must be Active, but revocation and expiry are never looked at:
      a present token with an Active owner validates whatever its state. */
  function ValidateAsWritten(db: UserDb, value: string): (r: Result<UserView, UserError>)
    ensures r.Failure? ==> r.error.Unauthorized?
    ensures Presented(db.tokens, value).None? <==> r == Failure(Unauthorized(InvalidRefreshToken))
    ensures r.Success? ==>
      var k := Presented(db.tokens, value).value;
      r.value.userId == db.tokens[k].userId && r.value.accountStatus == Active
    ensures Presented(db.tokens, value).Some? && FindUser(db.users, db.tokens[Presented(db.tokens, value).value].userId).Some? ==>
      var u := db.users[FindUser(db.users, db.tokens[Presented(db.tokens, value).value].userId).value];
      && (u.accountStatus == Active ==> r == Success(ViewOf(u)))
      && (u.accountStatus != Active ==> r == Failure(Unauthorized(AccountNotActive)))
  {
    match Presented(db.tokens, value)
    case None => Failure(Unauthorized(InvalidRefreshToken))
    case Some(k) =>
      match Owner(db, k)
      case Failure(e) => Failure(e)
      case Success(u) =>
        if u.accountStatus != Active then Failure(Unauthorized(AccountNotActive)) else Success(ViewOf(u))
  }

  /** Validation as evidently intended: the presented token must also still
      be active, so a revoked (logged out, already used) or expired token is
      refused like an unknown one. */
  function Validate(db: UserDb, value: string, now: Time): (r: Result<UserView, UserError>)
    ensures r.Failure? ==> r.error.Unauthorized?
    ensures r.Success? ==>
      && Presented(db.tokens, value).Some?
      && IsActive(db.tokens[Presented(db.tokens, value).value], now)
      && r == ValidateAsWritten(db, value)
    ensures Presented(db.tokens, value).Some? && IsActive(db.tokens[Presented(db.tokens, value).value], now) ==>
      r == ValidateAsWritten(db, value)
    ensures Presented(db.tokens, value).Some? && !IsActive(db.tokens[Presented(db.tokens, value).value], now) ==>
      r == Failure(Unauthorized(InvalidRefreshToken))
  {
    match Presented(db.tokens, value)
    case None => Failure(Unauthorized(InvalidRefreshToken))
    case Some(k) =>
      if !IsActive(db.tokens[k], now) then Failure(Unauthorized(InvalidRefreshToken))
      else ValidateAsWritten(db, value)
  }

  /** The claims read from the expired access token: the subject parsed as a
      user id and the issued-at instant, each absent when missing or
      unparseable. */
  datatype AccessClaims = AccessClaims(userId: Option<Guid>, issuedAt: Option<Time>)

  datatype Refreshed = Refreshed(db: UserDb, user: UserView, refreshToken: string)

  /** The replay guard: the access token carries an issued-at instant more
      than a minute before the presented refresh token was created. A
      missing issued-at claim or an unknown token passes. */
  predicate TooEarly(tokens: seq<RefreshToken>, c: AccessClaims, value: string) {
    && c.issuedAt.Some? && Presented(tokens, value).Some?
    && c.issuedAt.value < tokens[Presented(tokens, value).value].createdAt - Minute
  }

  /** The checks and writes of `RefreshTokenAsync` after the presented token
      has been validated into `validated`: the owner must be the access
      token's subject, the access token must not predate the refresh token
      by more than a minute, and on success a new token for the same user is
      stored and the presented one is revoked. */
  function Exchange(db: UserDb, claims: Option<AccessClaims>, value: string, validated: Result<UserView, UserError>,
                    newTokenId: Guid, newValue: string, now: Time): (r: Result<Refreshed, UserError>)
    ensures claims.None? ==> r == Failure(Unauthorized(InvalidTokenFormat))
    ensures claims.Some? && claims.value.userId.None? ==> r == Failure(Unauthorized(InvalidUserIdClaim))
    ensures claims.Some? && claims.value.userId.Some? && validated.Failure? ==> r == Failure(validated.error)
    ensures claims.Some? && claims.value.userId.Some? && validated.Success?
            && validated.value.userId != claims.value.userId.value ==>
      r == Failure(Unauthorized(TokenMismatch))
    ensures claims.Some? && validated.Success? && claims.value.userId == Some(validated.value.userId)
            && TooEarly(db.tokens, claims.value, value) ==>
      r == Failure(Unauthorized(InvalidTimeline))
    ensures r.Success? <==>
      && claims.Some? && validated.Success? && claims.value.userId == Some(validated.value.userId)
      && !TooEarly(db.tokens, claims.value, value)
    ensures r.Success? ==>
      && r.value.user == validated.value
      && r.value.db.users == db.users
      && r.value.refreshToken == newValue
      && |r.value.db.tokens| == |db.tokens| + 1
  {
    if claims.None? then Failure(Unauthorized(InvalidTokenFormat))
    else if claims.value.userId.None? then Failure(Unauthorized(InvalidUserIdClaim))
    else if validated.Failure? then validated.PropagateFailure()
    else
      var user := validated.value;
      if user.userId != claims.value.userId.value then Failure(Unauthorized(TokenMismatch))
      else if TooEarly(db.tokens, claims.value, value) then Failure(Unauthorized(InvalidTimeline))
      else
        var issued := RefreshToken(newTokenId, user.userId, newValue, now + RefreshTokenLifetime, now, None, None);
        var tokens := Revoke(db.tokens + [issued], value, "Used for refresh", now);
        Success(Refreshed(db.(tokens := tokens), user, newValue))
  }

  /** `RefreshTokenAsync` as written, on top of `ValidateAsWritten`. */
  function RefreshAsWritten(db: UserDb, claims: Option<AccessClaims>, value: string,
                            newTokenId: Guid, newValue: string, now: Time): (r: Result<Refreshed, UserError>)
    ensures r.Failure? ==> r.error.Unauthorized?
    ensures claims.None? ==> r == Failure(Unauthorized(InvalidTokenFormat))
    ensures claims.Some? && claims.value.userId.None? ==> r == Failure(Unauthorized(InvalidUserIdClaim))
    ensures r.Success? ==>
      && claims.Some? && claims.value.userId == Some(r.value.user.userId)
      && Presented(db.tokens, value).Some?
      && (claims.value.issuedAt.None? ||
          claims.value.issuedAt.value >= db.tokens[Presented(db.tokens, value).value].createdAt - Minute)
  {
    Exchange(db, claims, value, ValidateAsWritten(db, value), newTokenId, newValue, now)
  }

  /** The refresh exchange on top of the corrected `Validate`. Every failure
      is Unauthorized; a success hands out a new token owned by the access
      token's subject, keeps the users, and leaves the presented token
      revoked. */
  function Refresh(db: UserDb, claims: Option<AccessClaims>, value: string,
                   newTokenId: Guid, newValue: string, now: Time): (r: Result<Refreshed, UserError>)
    ensures r.Failure? ==> r.error.Unauthorized?
    ensures claims.None? ==> r == Failure(Unauthorized(InvalidTokenFormat))
    ensures claims.Some? && claims.value.userId.None? ==> r == Failure(Unauthorized(InvalidUserIdClaim))
    ensures claims.Some? && claims.value.userId.Some? && Validate(db, value, now).Failure? ==>
      r == Failure(Validate(db, value, now).error)
    ensures claims.Some? && claims.value.userId.Some? && Validate(db, value, now).Success?
            && Validate(db, value, now).value.userId != claims.value.userId.value ==>
      r == Failure(Unauthorized(TokenMismatch))
    ensures claims.Some? && Validate(db, value, now).Success?
            && claims.value.userId == Some(Validate(db, value, now).value.userId)
            && claims.value.issuedAt.Some?
            && claims.value.issuedAt.value < db.tokens[Presented(db.tokens, value).value].createdAt - Minute ==>
      r == Failure(Unauthorized(InvalidTimeline))
    ensures r.Success? ==>
      && Presented(db.tokens, value).Some?
      && claims.Some?
      && (claims.value.issuedAt.None? ||
          claims.value.issuedAt.value >= db.tokens[Presented(db.tokens, value).value].createdAt - Minute)
    ensures r.Success? ==>
      && Presented(db.tokens, value).Some?
      && |r.value.db.tokens| == |db.tokens| + 1
      && forall j :: 0 <= j < |db.tokens| && j != Presented(db.tokens, value).value ==>
           r.value.db.tokens[j] == db.tokens[j]
    ensures r.Success? ==>
      && claims.Some? && claims.value.userId == Some(r.value.user.userId)
      && r.value.db.users == db.users
      && r.value.refreshToken == newValue
      && |r.value.db.tokens| == |db.tokens| + 1
      && r.value.db.tokens[|db.tokens|] ==
           RefreshToken(newTokenId, r.value.user.userId, newValue, now + RefreshTokenLifetime, now, None, None)
      && Presented(db.tokens, value).Some?
      && IsActive(db.tokens[Presented(db.tokens, value).value], now)
      && r.value.db.tokens[Presented(db.tokens, value).value] ==
           Revoked(db.tokens[Presented(db.tokens, value).value], "Used for refresh", now)
  {
    var r := Exchange(db, claims, value, Validate(db, value, now), newTokenId, newValue, now);
    if r.Success? then
      var k := Presented(db.tokens, value).value;
      var issued := RefreshToken(newTokenId, r.value.user.userId, newValue, now + RefreshTokenLifetime, now, None, None);
      PresentedAfterAppend(db.tokens, [issued], value);
      assert (db.tokens + [issued])[k] == db.tokens[k];
      r
    else r
  }

  /** A refresh token is single-use: once it has been exchanged, presenting
      it again is refused, whatever the access token and the clock. */
  lemma RefreshIsSingleUse(db: UserDb, claims: Option<AccessClaims>, value: string, newTokenId: Guid,
                           newValue: string, now: Time, claims2: Option<AccessClaims>, newTokenId2: Guid,
                           newValue2: string, now2: Time)
    requires Refresh(db, claims, value, newTokenId, newValue, now).Success?
    ensures Refresh(Refresh(db, claims, value, newTokenId, newValue, now).value.db, claims2, value,
                    newTokenId2, newValue2, now2).Failure?
  {
    var r := Refresh(db, claims, value, newTokenId, newValue, now).value;
    var k := Presented(db.tokens, value).value;
    var issued := RefreshToken(newTokenId, r.user.userId, newValue, now + RefreshTokenLifetime, now, None, None);
    PresentedAfterAppend(db.tokens, [issued], value);
    PresentedAfterRevoke(db.tokens + [issued], value, value, "Used for refresh", now);
    assert Presented(r.db.tokens, value) == Some(k);
    assert !IsActive(r.db.tokens[k], now2);
  }

  /** As written, a logged-out token still validates: an Active user whose
      only token was revoked at instant 5 is handed a session at instant 10,
      which the corrected validation refuses. */
  lemma ValidateAsWrittenAcceptsRevoked()
    ensures var user := User(1, "customer1", "hash", "Ada", "Lovelace", "ada@example.com", "09123456789",
                             RegularUser, Active, 0, 0, None, false, None, None, None);
            var token := RefreshToken(10, 1, "abc", 1000, 0, Some(5), Some("User logout"));
            var db := UserDb([user], [token]);
            && ValidateAsWritten(db, "abc") == Success(ViewOf(user))
            && Validate(db, "abc", 10) == Failure(Unauthorized(InvalidRefreshToken))
  {
    var user := User(1, "customer1", "hash", "Ada", "Lovelace", "ada@example.com", "09123456789",
                     RegularUser, Active, 0, 0, None, false, None, None, None);
    var token := RefreshToken(10, 1, "abc", 1000, 0, Some(5), Some("User logout"));
    var db := UserDb([user], [token]);
    assert TokenHasValue("abc")(db.tokens[0]);
    assert HasId(1)(db.users[0]);
  }

  /** As written, a refresh token can be replayed: after a successful
      exchange the same token is accepted again by the same access token,
      for as long as its owner stays Active. */
  lemma {:induction false} RefreshAsWrittenReplays(db: UserDb, claims: Option<AccessClaims>, value: string,
                                                   newTokenId: Guid, newValue: string, now: Time,
                                                   newTokenId2: Guid, newValue2: string, now2: Time)
    requires RefreshAsWritten(db, claims, value, newTokenId, newValue, now).Success?
    ensures RefreshAsWritten(RefreshAsWritten(db, claims, value, newTokenId, newValue, now).value.db, claims, value,
                             newTokenId2, newValue2, now2).Success?
  {
    var r := RefreshAsWritten(db, claims, value, newTokenId, newValue, now).value;
    var k := Presented(db.tokens, value).value;
    var issued := RefreshToken(newTokenId, r.user.userId, newValue, now + RefreshTokenLifetime, now, None, None);
    PresentedAfterAppend(db.tokens, [issued], value);
    PresentedAfterRevoke(db.tokens + [issued], value, value, "Used for refresh", now);
    assert (db.tokens + [issued])[k] == db.tokens[k];
    assert Presented(r.db.tokens, value) == Some(k);
    assert r.db.tokens[k].userId == db.tokens[k].userId;
    assert r.db.tokens[k].createdAt == db.tokens[k].createdAt;
    assert ValidateAsWritten(r.db, value) == ValidateAsWritten(db, value);
  }

  /** A refresh exchange keeps the database invariant: the new token
      belongs to the presented token's owner. */
  lemma RefreshKeepsValid(db: UserDb, claims: Option<AccessClaims>, value: string, newTokenId: Guid,
                          newValue: string, now: Time)
    requires Valid(db)
    requires Refresh(db, claims, value, newTokenId, newValue, now).Success?
    ensures Valid(Refresh(db, claims, value, newTokenId, newValue, now).value.db)
  {
    var r := Refresh(db, claims, value, newTokenId, newValue, now).value;
    var k := Presented(db.tokens, value).value;
    var n := |db.tokens|;
    assert r.user.userId == db.tokens[k].userId;
    var extended := db.tokens + [r.db.tokens[n]];
    assert Revoke(extended, value, "Used for refresh", now) == r.db.tokens;
    forall t | 0 <= t < |r.db.tokens|
      ensures FindUser(r.db.users, r.db.tokens[t].userId).Some?
    {
      assert r.db.tokens[t].userId == extended[t].userId;
      if t < n {
        assert extended[t] == db.tokens[t];
      } else {
        assert extended[t].userId == db.tokens[k].userId;
      }
    }
  }
}
