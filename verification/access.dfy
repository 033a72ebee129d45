/** Request-level authorization in the user service: the account-status
    filter and the "may this caller modify that account" rule. The claims
    come from the caller's access token; `Guid.TryParse` is a parameter. */
module Access {
  import opened Wrappers
  import opened Contracts
  import opened UsersModel

  /** `AccountStatus.ToString()`, the value written into the token's
      AccountStatus claim. */
  function StatusName(s: AccountStatus): string {
    match s
    case Active => "Active"
    case Banned => "Banned"
    case PendingDeletion => "PendingDeletion"
  }

  /** `Roles.ToString()`, the value written into the token's role claim. */
  function RoleName(r: Role): string {
    match r
    case RegularUser => "User"
    case Admin => "Admin"
  }

  /** `Enum.TryParse<AccountStatus>` on the status names. */
  function ParseStatus(claim: string): (r: Option<AccountStatus>)
    ensures r.Some? ==> StatusName(r.value) == claim
  {
    if claim == "Active" then Some(Active)
    else if claim == "Banned" then Some(Banned)
    else if claim == "PendingDeletion" then Some(PendingDeletion)
    else None
  }

  /** Parsing reads back every status the service writes into a token. */
  lemma ParseStatusName(s: AccountStatus)
    ensures ParseStatus(StatusName(s)) == Some(s)
  {
  }

  datatype FilterResult = Proceed | Forbidden(statusCode: int, errorMessage: string)

  /** `AccountStatusFilter.OnActionExecuting`: an authenticated caller whose
      status claim reads Banned or PendingDeletion is answered 403 with the
      matching message; everything else, including unauthenticated callers
      and a missing or unreadable claim, proceeds to the action. */
  function AccountStatusFilter(authenticated: bool, statusClaim: Option<string>): (r: FilterResult)
    ensures r.Forbidden? <==>
      authenticated && statusClaim.Some? && ParseStatus(statusClaim.value) in {Some(Banned), Some(PendingDeletion)}
    ensures r.Forbidden? ==> r.statusCode == 403
    ensures r.Forbidden? && ParseStatus(statusClaim.value) == Some(Banned) ==> r.errorMessage == "Account is banned."
    ensures r.Forbidden? && ParseStatus(statusClaim.value) == Some(PendingDeletion) ==>
      r.errorMessage == "Account is scheduled for deletion."
  {
    if authenticated && statusClaim.Some? then
      match ParseStatus(statusClaim.value)
      case Some(Banned) => Forbidden(403, "Account is banned.")
      case Some(PendingDeletion) => Forbidden(403, "Account is scheduled for deletion.")
      case _ => Proceed
    else Proceed
  }

  /** For a token issued to an account, the filter lets the request through
      exactly when the account was Active when the token was issued. */
  lemma FilterOnIssuedToken(s: AccountStatus)
    ensures AccountStatusFilter(true, Some(StatusName(s))) == Proceed <==> s == Active
  {
    ParseStatusName(s);
  }

  /** `CanModifyUserHelper.CanModifyUser`: an Admin role claim may modify any
      account; otherwise the caller's id claim must parse to the target id,
      and a missing or unparseable id claim is refused. */
  function CanModifyUser(roleClaim: Option<string>, idClaim: Option<string>, target: Guid,
                         parseGuid: string -> Option<Guid>): (r: bool)
    ensures roleClaim == Some("Admin") ==> r
    ensures roleClaim != Some("Admin") ==> (r <==> idClaim.Some? && parseGuid(idClaim.value) == Some(target))
  {
    if roleClaim == Some("Admin") then true
    else match idClaim
      case None => false
      case Some(text) =>
        match parseGuid(text)
        case Some(id) => id == target
        case None => false
  }

  /** For the claims of a token issued to account `u`, whose subject parses
      back to its id: an Admin may modify any account, anyone else only
      their own. */
  lemma CanModifyWithIssuedToken(u: User, idText: string, target: Guid, parseGuid: string -> Option<Guid>)
    requires parseGuid(idText) == Some(u.userId)
    ensures CanModifyUser(Some(RoleName(u.role)), Some(idText), target, parseGuid) <==>
      u.role == Admin || target == u.userId
  {
    assert RoleName(RegularUser) != "Admin";
  }
}
