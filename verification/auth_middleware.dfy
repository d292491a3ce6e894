/** Request authentication and role gates. Token verification is a
    parameter: it yields the signed claims, or nothing when the token is
    malformed, forged or expired. */
module AuthMiddleware {
  import opened Wrappers
  import Js
  import Store

  const NoToken := AppError(401, "No token provided")
  const BadToken := AppError(401, "Invalid or expired token")
  const AuthRequired := AppError(401, "Authentication required")
  const Forbidden := AppError(403, "Insufficient permissions to access this resource")

  const BearerPrefix := "Bearer "
  const AdminRole := "admin"
  const LearnerRole := "learner"

  /** `authenticate`: the Authorization header must be present and start
      with "Bearer " (case-sensitive, single space); the rest of it is the
      token, whose verified claims become the request's user. Every failure
      is a 401. */
  function Authenticate(header: Option<string>, verify: string -> Option<Store.Claims>): (r: Result<Store.Claims>)
    ensures (header.None? || !Js.StartsWith(header.value, BearerPrefix)) ==> r == Err(NoToken)
    ensures r.Ok? <==> header.Some? && Js.StartsWith(header.value, BearerPrefix)
                       && verify(header.value[|BearerPrefix|..]).Some?
    ensures r.Ok? ==> r.value == verify(header.value[|BearerPrefix|..]).value
                      && header.value == BearerPrefix + header.value[|BearerPrefix|..]
    ensures r.Err? ==> r.error.statusCode == 401
    ensures r.Err? && header.Some? && Js.StartsWith(header.value, BearerPrefix) ==> r.error == BadToken
  {
    if header.None? || header.value == "" || !Js.StartsWith(header.value, BearerPrefix) then Err(NoToken)
    else
      match verify(header.value[|BearerPrefix|..])
      case None => Err(BadToken)
      case Some(claims) => Ok(claims)
  }

  /** A header built as "Bearer " followed by a token hands exactly that
      token to verification. */
  lemma BearerRoundTrip(token: string, verify: string -> Option<Store.Claims>)
    ensures var r := Authenticate(Some(BearerPrefix + token), verify);
            && (verify(token).Some? ==> r == Ok(verify(token).value))
            && (verify(token).None? ==> r == Err(BadToken))
  {
    assert (BearerPrefix + token)[..|BearerPrefix|] == BearerPrefix;
    assert (BearerPrefix + token)[|BearerPrefix|..] == token;
  }

  /** The scheme is matched case-sensitively: "bearer" is not "Bearer". */
  lemma LowerCaseSchemeRejected(token: string, verify: string -> Option<Store.Claims>)
    ensures Authenticate(Some("bearer " + token), verify) == Err(NoToken)
  {
    assert ("bearer " + token)[0] == 'b';
  }

  /** `requireRole(...roles)`: no authenticated user is a 401, a role outside
      the list a 403; otherwise the request passes on. */
  function RequireRole(user: Option<Store.Claims>, roles: seq<string>): (r: Outcome)
    ensures user.None? ==> r == Reject(AuthRequired)
    ensures user.Some? && user.value.role !in roles ==> r == Reject(Forbidden)
    ensures r == Next <==> user.Some? && user.value.role in roles
  {
    if user.None? then Reject(AuthRequired)
    else if user.value.role !in roles then Reject(Forbidden)
    else Next
  }

  /** `requireAdmin`: admins only. */
  function RequireAdmin(user: Option<Store.Claims>): (r: Outcome)
    ensures r == Next <==> user.Some? && user.value.role == AdminRole
    ensures user.Some? && user.value.role != AdminRole ==> r == Reject(Forbidden)
  {
    RequireRole(user, [AdminRole])
  }

  /** `requireLearner`: learners and admins. */
  function RequireLearner(user: Option<Store.Claims>): (r: Outcome)
    ensures r == Next <==> user.Some? && (user.value.role == LearnerRole || user.value.role == AdminRole)
    ensures user.Some? && user.value.role != LearnerRole && user.value.role != AdminRole ==> r == Reject(Forbidden)
  {
    RequireRole(user, [LearnerRole, AdminRole])
  }

  /** Whoever passes the admin gate passes the learner gate. */
  lemma AdminPassesLearnerGate(user: Option<Store.Claims>)
    requires RequireAdmin(user) == Next
    ensures RequireLearner(user) == Next
  {
  }

  /** The gate in front of every learner endpoint: authenticate, then
      require the learner or admin role. */
  function LearnerGate(header: Option<string>, verify: string -> Option<Store.Claims>): Result<Store.Claims> {
    match Authenticate(header, verify)
    case Err(e) => Err(e)
    case Ok(claims) =>
      match RequireLearner(Some(claims))
      case Reject(e) => Err(e)
      case Next => Ok(claims)
  }

  /** A learner endpoint admits exactly a "Bearer" header whose token
      verifies to a learner or an admin; a verified user of any other role
      is refused with 403, everything else with 401. */
  lemma LearnerGateAdmits(header: Option<string>, verify: string -> Option<Store.Claims>)
    ensures var r := LearnerGate(header, verify);
            var a := Authenticate(header, verify);
            && (r.Ok? <==> a.Ok? && (a.value.role == LearnerRole || a.value.role == AdminRole))
            && (r.Ok? ==> r.value == a.value)
            && (r.Err? ==> r.error.statusCode == 401 || r.error == Forbidden)
            && (a.Ok? && r.Err? ==> r.error == Forbidden)
  {
  }
}
