/**
  The token service: the claims `generate_token` signs and the checks `verify_token`
  makes before it resolves a token to a live user.
*/
module Tokens {
  import opened Wrappers
  import opened Users

  /** The JWT payload. Times are whole seconds. */
  datatype Claims = Claims(userId: UserId, username: string, email: string, role: string, exp: int, iat: int)

  /**
    HS256 signing as an opaque pair: `encode` signs claims with the server secret;
    `decode` yields the claims of a token exactly when its signature is valid. The
    expiry check is not part of `decode`; `Unexpired` states it.
  */
  datatype TokenCodec = TokenCodec(encode: Claims -> string, decode: string -> Option<Claims>)

  /**
    A token the server signed is never empty (a JWT has three dot-separated parts)
    and decodes to the claims it was signed from.
  */
  ghost predicate SoundCodec(c: TokenCodec) {
    forall cl :: c.encode(cl) != "" && c.decode(c.encode(cl)) == Some(cl)
  }

  /** `JWT_ACCESS_TOKEN_EXPIRES` when the environment does not set it. */
  const DefaultTtl := 3600

  /** The payload issued to `u` when the clock reads `now`. */
  function IssueClaims(u: User, now: int, ttl: int): (c: Claims)
    ensures c.userId == u.id && c.username == u.username && c.email == u.email && c.role == u.role
    ensures c.iat == now && c.exp - c.iat == ttl
  {
    Claims(u.id, u.username, u.email, u.role, now + ttl, now)
  }

  function GenerateToken(codec: TokenCodec, u: User, now: int, ttl: int): string {
    codec.encode(IssueClaims(u, now, ttl))
  }

  /** The library's expiry rule: a token is expired once `exp <= now`. */
  predicate Unexpired(c: Claims, now: int) {
    now < c.exp
  }

  /**
    `verify_token`: the live user a token names, or `None` when the signature is bad,
    the token is expired, the subject no longer exists or the subject is inactive.
  */
  function VerifyToken(codec: TokenCodec, users: UserStore, token: string, now: int): (r: Option<User>)
    ensures r.Some? <==>
      && codec.decode(token).Some?
      && Unexpired(codec.decode(token).value, now)
      && FindUser(users, ById(codec.decode(token).value.userId)).Some?
      && FindUser(users, ById(codec.decode(token).value.userId)).value.active
    ensures r.Some? ==> r.value in users && r.value.active && r.value.id == codec.decode(token).value.userId
  {
    match codec.decode(token)
    case None => None
    case Some(c) =>
      if !Unexpired(c, now) then None
      else
        match FindUser(users, ById(c.userId))
        case None => None
        case Some(u) => if u.active then Some(u) else None
  }

  /**
    A token issued to a stored, active user resolves to that user's current record
    until `ttl` seconds have passed since issuance.
  */
  lemma IssuedTokenResolves(codec: TokenCodec, users: UserStore, u: User, issuedAt: int, ttl: int, now: int)
    requires SoundCodec(codec)
    requires UniqueUsers(users) && u in users && u.active
    requires now < issuedAt + ttl
    ensures VerifyToken(codec, users, GenerateToken(codec, u, issuedAt, ttl), now) == Some(u)
  {
    var c := IssueClaims(u, issuedAt, ttl);
    assert codec.decode(codec.encode(c)) == Some(c);
    FindByIdUnique(users, u);
  }

  /** No token verifies once `ttl` seconds have passed since issuance. */
  lemma IssuedTokenExpires(codec: TokenCodec, users: UserStore, u: User, issuedAt: int, ttl: int, now: int)
    requires SoundCodec(codec)
    requires issuedAt + ttl <= now
    ensures VerifyToken(codec, users, GenerateToken(codec, u, issuedAt, ttl), now).None?
  {
    var c := IssueClaims(u, issuedAt, ttl);
    assert codec.decode(codec.encode(c)) == Some(c);
  }

  /** With the default lifetime, a token issued at `t` verifies at `t + 3599` but not at `t + 3600` or later. */
  lemma DefaultLifetimeBoundary(codec: TokenCodec, users: UserStore, u: User, t: int)
    requires SoundCodec(codec)
    requires UniqueUsers(users) && u in users && u.active
    ensures VerifyToken(codec, users, GenerateToken(codec, u, t, DefaultTtl), t + 3599) == Some(u)
    ensures VerifyToken(codec, users, GenerateToken(codec, u, t, DefaultTtl), t + 3600).None?
    ensures VerifyToken(codec, users, GenerateToken(codec, u, t, DefaultTtl), t + 3601).None?
  {
    IssuedTokenResolves(codec, users, u, t, DefaultTtl, t + 3599);
    IssuedTokenExpires(codec, users, u, t, DefaultTtl, t + 3600);
    IssuedTokenExpires(codec, users, u, t, DefaultTtl, t + 3601);
  }

  /**
    Deactivation revokes outstanding tokens: once the stored record of a subject is
    inactive, no token naming that subject verifies, however long it has left.
  */
  lemma DeactivationRevokes(codec: TokenCodec, users: UserStore, token: string, now: int)
    requires codec.decode(token).Some?
    requires forall v :: v in users && v.id == codec.decode(token).value.userId ==> !v.active
    ensures VerifyToken(codec, users, token, now).None?
  {
  }
}
