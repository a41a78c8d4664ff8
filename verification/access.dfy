/**
 * Who may reach the protected routes: the three middlewares and the base
 * controller's standard error response. Each is a fixed sequence of checks
 * on the request's user; the first failing check decides the answer.
 *
 * The user's `isAdmin()` and `isVerified()` are taken to be the truthiness
 * of the `is_admin` and `is_verified` attributes; the user's own
 * `canPerformAdminActions()` and `getVerificationStatus()` are given with
 * the user.
 */
module Access {
  import opened Wrappers
  import opened Values

  /** The request's authenticated user, as the checks read it. */
  datatype User = User(
    email: Value, isAdmin: Value, isVerified: Value,
    canPerformAdminActions: bool, verificationStatus: map<string, Value>)

  /** The outcome of a check: the request goes on, or a JSON refusal with its status. */
  datatype Decision = Pass | Refuse(status: nat, message: string, error: string)

  const Unauthenticated := Refuse(401, "Unauthenticated.", "Authentication required")
  const AdminRequired := Refuse(403, "Forbidden.", "Administrator access required")
  const VerificationRequired :=
    Refuse(403, "Your account is not verified by an administrator.", "Account verification required")

  const SpecialAdminEmail := "admin@eduadmin.com"

  /** `EnsureAdminAndVerified::handle`: signed in, then admin, then verified. */
  function AdminAndVerified(user: Option<User>): (d: Decision)
    ensures d.Pass? <==> user.Some? && Truthy(user.value.isAdmin) && Truthy(user.value.isVerified)
    ensures user.None? ==> d == Unauthenticated
    ensures user.Some? && !Truthy(user.value.isAdmin) ==> d == AdminRequired
    ensures user.Some? && Truthy(user.value.isAdmin) && !Truthy(user.value.isVerified) ==> d == VerificationRequired
  {
    if user.None? then Unauthenticated
    else if !Truthy(user.value.isAdmin) then AdminRequired
    else if !Truthy(user.value.isVerified) then VerificationRequired
    else Pass
  }

  /**
   * `EnsureUserIsAdmin::handle`: signed in, then admin or the special
   * address; verification plays no part.
   */
  function UserIsAdmin(user: Option<User>): (d: Decision)
    ensures d.Pass? <==> user.Some? && (Truthy(user.value.isAdmin) || user.value.email == Str(SpecialAdminEmail))
    ensures user.None? ==> d == Unauthenticated
    ensures d.Refuse? && user.Some? ==> d == AdminRequired
  {
    if user.None? then Unauthenticated
    else if !Truthy(user.value.isAdmin) && user.value.email != Str(SpecialAdminEmail) then AdminRequired
    else Pass
  }

  /**
   * `EnsureUserIsVerified::handle`: a missing user and an unverified one get
   * the same 403; the admin flag plays no part.
   */
  function UserIsVerified(user: Option<User>): (d: Decision)
    ensures d.Pass? <==> user.Some? && Truthy(user.value.isVerified)
    ensures d.Refuse? ==> d == VerificationRequired
  {
    if user.None? || !Truthy(user.value.isVerified) then VerificationRequired else Pass
  }

  /** `canPerformAdminActions`: false without a user, otherwise the user's own answer. */
  function CanPerformAdminActions(user: Option<User>): (r: bool)
    ensures r <==> user.Some? && user.value.canPerformAdminActions
  {
    user.Some? && user.value.canPerformAdminActions
  }

  /** `getUserVerificationStatus`: empty without a user, otherwise the user's own status. */
  function UserVerificationStatus(user: Option<User>): (r: map<string, Value>)
    ensures user.None? ==> r == map[]
    ensures user.Some? ==> r == user.value.verificationStatus
  {
    if user.None? then map[] else user.value.verificationStatus
  }

  /**
   * `adminVerificationErrorResponse`: the refusal for a missing user, a
   * non-admin or an unverified admin, in that order; for a user who passes
   * every check it answers 500 "Verification check failed".
   */
  function AdminVerificationError(user: Option<User>): (d: Decision)
    ensures d.Refuse?
    ensures d.status == 500 <==> user.Some? && Truthy(user.value.isAdmin) && Truthy(user.value.isVerified)
  {
    if user.None? then Unauthenticated
    else if !Truthy(user.value.isAdmin) then AdminRequired
    else if !Truthy(user.value.isVerified) then VerificationRequired
    else Refuse(500, "Unknown verification error", "Verification check failed")
  }

  /**
   * The base controller's error response is the refusal of the combined
   * middleware whenever that middleware refuses; it is a 500 exactly when
   * the middleware would have let the request through.
   */
  lemma ErrorResponseMatchesMiddleware(user: Option<User>)
    ensures AdminAndVerified(user).Refuse? ==> AdminVerificationError(user) == AdminAndVerified(user)
    ensures AdminAndVerified(user).Pass? <==> AdminVerificationError(user).status == 500
  {
  }

  /** A user who is neither admin nor verified always gets the admin refusal, never the verification one. */
  lemma AdminCheckComesFirst(user: User)
    requires !Truthy(user.isAdmin) && !Truthy(user.isVerified)
    ensures AdminAndVerified(Some(user)) == AdminRequired
    ensures AdminVerificationError(Some(user)) == AdminRequired
    ensures UserIsVerified(Some(user)) == VerificationRequired
  {
  }

  /**
   * The combined middleware is at least as strict as each single one: what
   * it lets through, both `EnsureUserIsAdmin` and `EnsureUserIsVerified` let
   * through.
   */
  lemma CombinedIsStricter(user: Option<User>)
    ensures AdminAndVerified(user).Pass? ==> UserIsAdmin(user).Pass? && UserIsVerified(user).Pass?
  {
  }

  /**
   * The special address opens `EnsureUserIsAdmin` without the admin flag,
   * but not the combined middleware.
   */
  lemma SpecialAddressOnlyOpensAdminCheck(user: User)
    requires user.email == Str(SpecialAdminEmail) && !Truthy(user.isAdmin)
    ensures UserIsAdmin(Some(user)) == Pass
    ensures AdminAndVerified(Some(user)) == AdminRequired
  {
  }
}
