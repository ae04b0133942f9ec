/**
  The three route guards: each reads the `auth_token` cookie, resolves it with the
  same token verification, and either rejects the request or runs the handler with
  the resolved identity attached.
*/
module Guards {
  import opened Wrappers
  import opened Http
  import opened Users
  import opened Tokens

  datatype Policy = AuthRequired | AdminRequired | OptionalAuth

  /** A guard's verdict: reject with a status and message, or run the handler with this identity. */
  datatype Decision = Reject(status: int, message: string) | Proceed(identity: Option<User>)

  /** What token verification sees: the codec, the user store and the clock. */
  datatype AuthContext = AuthContext(codec: TokenCodec, users: UserStore, now: int)

  const TokenRequired := "Authentication token required"
  const InvalidToken := "Invalid or expired token"
  const AdminAccessRequired := "Admin access required"

  /** The identity a cookie resolves to: its verified user, or none when the cookie is absent or empty. */
  function Resolve(cookie: Field, ctx: AuthContext): Option<User> {
    if Filled(cookie) then VerifyToken(ctx.codec, ctx.users, cookie.value, ctx.now) else None
  }

  /** `auth_required`, `admin_required` and `optional_auth` as one decision per policy. */
  function Guard(policy: Policy, cookie: Field, ctx: AuthContext): (d: Decision)
    ensures d.Proceed? && d.identity.Some? ==> d.identity == Resolve(cookie, ctx)
    ensures policy == OptionalAuth ==> d == Proceed(Resolve(cookie, ctx))
    ensures policy == AuthRequired ==> (d.Proceed? <==> Resolve(cookie, ctx).Some?)
    ensures policy == AdminRequired ==>
      (d.Proceed? <==> Resolve(cookie, ctx).Some? && Resolve(cookie, ctx).value.role == AdminRole)
    ensures policy != OptionalAuth && d.Proceed? ==> d.identity.Some?
    ensures d.Reject? ==>
      || (d.status == 401 && Resolve(cookie, ctx).None?)
      || (d.status == 403 && policy == AdminRequired && Resolve(cookie, ctx).Some?)
  {
    if !Filled(cookie) then
      if policy == OptionalAuth then Proceed(None) else Reject(401, TokenRequired)
    else
      match VerifyToken(ctx.codec, ctx.users, cookie.value, ctx.now)
      case None =>
        if policy == OptionalAuth then Proceed(None) else Reject(401, InvalidToken)
      case Some(u) =>
        if policy == AdminRequired && u.role != AdminRole then Reject(403, AdminAccessRequired)
        else Proceed(Some(u))
  }

  /** A guarded route: the guard's rejection, or the handler run with the attached identity. */
  function Handle<T>(policy: Policy, cookie: Field, ctx: AuthContext, handler: Option<User> -> Outcome<T>): (r: Outcome<T>)
    ensures Guard(policy, cookie, ctx).Proceed? ==> r == handler(Guard(policy, cookie, ctx).identity)
    ensures Guard(policy, cookie, ctx).Reject? ==>
      r == Fail(Guard(policy, cookie, ctx).status, Guard(policy, cookie, ctx).message)
  {
    match Guard(policy, cookie, ctx)
    case Reject(status, message) => Fail(status, message)
    case Proceed(identity) => handler(identity)
  }

  /** Without a token, the two protected policies reject with 401 and the optional one runs anonymously. */
  lemma NoTokenOutcomes(cookie: Field, ctx: AuthContext)
    requires !Filled(cookie)
    ensures Guard(AuthRequired, cookie, ctx) == Reject(401, TokenRequired)
    ensures Guard(AdminRequired, cookie, ctx) == Reject(401, TokenRequired)
    ensures Guard(OptionalAuth, cookie, ctx) == Proceed(None)
  {
  }

  /** A token that does not verify: 401 from the protected policies, anonymous from the optional one. */
  lemma InvalidTokenOutcomes(cookie: Field, ctx: AuthContext)
    requires Filled(cookie) && Resolve(cookie, ctx).None?
    ensures Guard(AuthRequired, cookie, ctx) == Reject(401, InvalidToken)
    ensures Guard(AdminRequired, cookie, ctx) == Reject(401, InvalidToken)
    ensures Guard(OptionalAuth, cookie, ctx) == Proceed(None)
  {
  }

  /**
    A verified token: the plain and optional policies attach exactly the verified
    user; the admin policy does too when that user is an admin, else it answers 403
    and attaches nothing.
  */
  lemma ValidTokenOutcomes(cookie: Field, ctx: AuthContext, u: User)
    requires Resolve(cookie, ctx) == Some(u)
    ensures Guard(AuthRequired, cookie, ctx) == Proceed(Some(u))
    ensures Guard(OptionalAuth, cookie, ctx) == Proceed(Some(u))
    ensures u.role == AdminRole ==> Guard(AdminRequired, cookie, ctx) == Proceed(Some(u))
    ensures u.role != AdminRole ==> Guard(AdminRequired, cookie, ctx) == Reject(403, AdminAccessRequired)
  {
  }

  /** Whenever the admin policy runs its handler, the identity is a stored, active admin. */
  lemma AdminProceedMeansActiveAdmin(cookie: Field, ctx: AuthContext)
    requires Guard(AdminRequired, cookie, ctx).Proceed?
    ensures
      var id := Guard(AdminRequired, cookie, ctx).identity;
      id.Some? && id.value in ctx.users && id.value.active && id.value.role == AdminRole
  {
  }

  /**
    The policies share one verification: the admin policy proceeds exactly when the
    plain policy proceeds with an admin, and attaches the same identity.
  */
  lemma PoliciesDifferOnlyInRoleCheck(cookie: Field, ctx: AuthContext)
    ensures Guard(AdminRequired, cookie, ctx).Proceed? <==>
      Guard(AuthRequired, cookie, ctx).Proceed? && Guard(AuthRequired, cookie, ctx).identity.value.role == AdminRole
    ensures Guard(AdminRequired, cookie, ctx).Proceed? ==>
      Guard(AdminRequired, cookie, ctx) == Guard(AuthRequired, cookie, ctx)
    ensures Guard(AuthRequired, cookie, ctx).Proceed? ==>
      Guard(AuthRequired, cookie, ctx) == Guard(OptionalAuth, cookie, ctx)
    ensures Guard(AuthRequired, cookie, ctx).Reject? ==>
      Guard(AdminRequired, cookie, ctx) == Guard(AuthRequired, cookie, ctx)
  {
  }

  /**
    Authorisation reads the user's CURRENT role from the store, not the role claim in
    the token: a token whose claim says "admin" is refused once the stored role is
    something else.
  */
  lemma AdminCheckUsesStoredRole(cookie: Field, ctx: AuthContext)
    requires Filled(cookie) && ctx.codec.decode(cookie.value).Some?
    requires ctx.codec.decode(cookie.value).value.role == AdminRole
    requires Resolve(cookie, ctx).Some? && Resolve(cookie, ctx).value.role != AdminRole
    ensures Guard(AdminRequired, cookie, ctx) == Reject(403, AdminAccessRequired)
  {
  }
}
