/**
  The authentication controller: registration, login, logout, the current-user
  profile and password change.
*/
module Auth {
  import opened Wrappers
  import opened Text
  import opened Http
  import opened Users
  import opened Tokens

  /** Token lifetime in seconds and the environment-dependent `secure` cookie flag. */
  datatype AuthConfig = AuthConfig(ttl: int, cookieSecure: bool)

  /** What the controllers need from outside: hashing, signing, configuration and one clock reading. */
  datatype AuthEnv = AuthEnv(hasher: PasswordHasher, codec: TokenCodec, config: AuthConfig, now: int)

  /** A `Set-Cookie` directive. */
  datatype Cookie = Cookie(name: string, value: string, maxAge: int, httpOnly: bool, secure: bool, sameSite: string)

  const TokenCookie := "auth_token"

  /** The cookie register and login set: the token, for the token's lifetime, HTTP-only, SameSite=Lax. */
  function SessionCookie(config: AuthConfig, token: string): Cookie {
    Cookie(TokenCookie, token, config.ttl, true, config.cookieSecure, "Lax")
  }

  /** A successful register or login: the account, its token and the cookie carrying it. */
  datatype Session = Session(user: User, token: string, cookie: Cookie)

  /** Register and login: a token issued to `u` now, and the `auth_token` cookie that carries it. */
  function OpenSession(env: AuthEnv, u: User): (s: Session)
    ensures s.user == u && s.token == GenerateToken(env.codec, u, env.now, env.config.ttl)
    ensures s.cookie.name == TokenCookie && s.cookie.value == s.token && s.cookie.maxAge == env.config.ttl
    ensures s.cookie.httpOnly && s.cookie.secure == env.config.cookieSecure && s.cookie.sameSite == "Lax"
  {
    var token := GenerateToken(env.codec, u, env.now, env.config.ttl);
    Session(u, token, SessionCookie(env.config, token))
  }

  /**
    The cookie of a session opened for a stored, active account is non-empty and
    verifies to that account until the token's lifetime has passed.
  */
  lemma OpenSessionResolves(env: AuthEnv, users: UserStore, u: User, now: int)
    requires SoundCodec(env.codec) && UniqueUsers(users) && u in users && u.active
    requires now < env.now + env.config.ttl
    ensures OpenSession(env, u).cookie.value != ""
    ensures VerifyToken(env.codec, users, OpenSession(env, u).cookie.value, now) == Some(u)
  {
    IssuedTokenResolves(env.codec, users, u, env.now, env.config.ttl, now);
  }

  /**
    The same for an account just appended with an id no stored account has, which is
    all a registration needs; the other stored accounts need not be unique.
  */
  lemma FreshAccountSessionResolves(env: AuthEnv, users: UserStore, u: User, now: int)
    requires SoundCodec(env.codec) && u.active
    requires forall v :: v in users ==> v.id != u.id
    requires now < env.now + env.config.ttl
    ensures OpenSession(env, u).cookie.value != ""
    ensures VerifyToken(env.codec, users + [u], OpenSession(env, u).cookie.value, now) == Some(u)
  {
    var c := IssueClaims(u, env.now, env.config.ttl);
    assert env.codec.decode(env.codec.encode(c)) == Some(c);
    var found := FindUser(users + [u], ById(u.id));
    assert ById(u.id)((users + [u])[|users|]);
    assert found.Some?;
    assert found.value in users || found.value == u;
  }

  datatype RegisterInput = RegisterInput(username: Field, email: Field, password: Field, name: Field, role: Field)

  /** A registration's response together with the user store after it. */
  datatype Registered = Registered(session: Session, users: UserStore)

  /** Every required registration field is present and non-empty. */
  predicate AllFilled(input: RegisterInput) {
    Filled(input.username) && Filled(input.email) && Filled(input.password) && Filled(input.name)
  }

  /** The required registration fields, in the order they are checked. */
  const RequiredFields := ["username", "email", "password", "name"]

  function RequiredField(input: RegisterInput, k: nat): Field
    requires k < 4
  {
    [input.username, input.email, input.password, input.name][k]
  }

  /** One check per required field: it is filled, else "<field> is required". */
  function RequiredChecks(input: RegisterInput): (checks: seq<(bool, string)>)
    ensures |checks| == 4
    ensures (forall k :: 0 <= k < |checks| ==> checks[k].0) <==> AllFilled(input)
  {
    var checks := seq(4, k requires 0 <= k < 4 => (Filled(RequiredField(input, k)), RequiredFields[k] + " is required"));
    assert checks[0].0 && checks[1].0 && checks[2].0 && checks[3].0 <==> AllFilled(input);
    checks
  }

  /** The account a registration creates: names stripped, email lower-cased and stripped, role as submitted. */
  function NewUser(input: RegisterInput, env: AuthEnv, id: UserId): User
    requires input.username.Some? && input.email.Some? && input.password.Some? && input.name.Some?
  {
    User(id, Strip(input.username.value), Strip(Lower(input.email.value)), Strip(input.name.value),
         env.hasher.hash(input.password.value), OrDefault(input.role, DefaultRole), true, env.now, env.now)
  }

  /**
    `register` as written: the duplicate checks compare the SUBMITTED email and
    username with the stored (normalised) ones. `id` is the identifier the store
    assigns to the new record.
  */
  function Register(input: RegisterInput, env: AuthEnv, id: UserId, users: UserStore): (r: Outcome<Registered>)
    ensures r.Success? <==>
      && AllFilled(input)
      && (forall v :: v in users ==> v.email != input.email.value)
      && (forall v :: v in users ==> v.username != input.username.value)
    ensures r.Failure? ==> r.error.status == 400
    ensures AllFilled(input) && (forall v :: v in users ==> v.email != input.email.value)
            && (exists v :: v in users && v.username == input.username.value) ==>
      r == Fail(400, "Username already taken")
    ensures r.Success? ==>
      var u := r.value.session.user;
      && r.value.users == users + [u]
      && u.id == id && u.active
      && u.username == Strip(input.username.value)
      && u.email == Strip(Lower(input.email.value))
      && u.name == Strip(input.name.value)
      && u.passwordHash == env.hasher.hash(input.password.value)
      && u.role == (if input.role.Some? then input.role.value else DefaultRole)
      && u.createdAt == env.now && u.updatedAt == env.now
      && r.value.session == OpenSession(env, u)
  {
    match FirstFailing(RequiredChecks(input))
    case Some(message) => Fail(400, message)
    case None =>
      if FindUser(users, ByEmail(input.email.value)).Some? then Fail(400, "Email already registered")
      else if FindUser(users, ByUsername(input.username.value)).Some? then Fail(400, "Username already taken")
      else
        var u := NewUser(input, env, id);
        Success(Registered(OpenSession(env, u), users + [u]))
  }

  /** Registration reports the first missing or empty field in the order username, email, password, name. */
  lemma RegisterReportsFirstMissingField(input: RegisterInput, env: AuthEnv, id: UserId, users: UserStore, k: nat)
    requires k < 4 && !Filled(RequiredField(input, k))
    requires forall j :: 0 <= j < k ==> Filled(RequiredField(input, j))
    ensures Register(input, env, id, users) == Fail(400, RequiredFields[k] + " is required")
  {
    FirstFailingIsFirst(RequiredChecks(input), k);
  }

  /** A taken email is reported before a taken username. */
  lemma RegisterChecksEmailFirst(input: RegisterInput, env: AuthEnv, id: UserId, users: UserStore, v: User)
    requires AllFilled(input)
    requires v in users && v.email == input.email.value
    ensures Register(input, env, id, users) == Fail(400, "Email already registered")
  {
    assert ByEmail(input.email.value)(v);
  }

  /** `A@b` lower-cases to `a@b`. */
  lemma LowerSample()
    ensures Lower("A@b") == "a@b"
  {
    var r := Lower("A@b");
    assert |r| == 3 && r[0] == 'a' && r[1] == '@' && r[2] == 'b';
  }

  /** A value with no surrounding whitespace is left alone by `Strip`. */
  lemma StripUnpadded(s: string)
    requires |s| > 0 && !IsSpace(s[0]) && !IsSpace(s[|s| - 1])
    ensures TrimStart(s) == s && TrimEnd(s) == s && Strip(s) == s
  {
  }

  /** How registration normalises the sample values of the two counterexamples below. */
  lemma SampleNormalisations()
    ensures Strip(Lower("A@b")) == "a@b"
    ensures Strip(" bo") == "bo"
  {
    LowerSample();
    StripUnpadded("a@b");
    assert " bo"[1..] == "bo";
    assert TrimStart(" bo") == TrimStart("bo");
    StripUnpadded("bo");
  }

  /**
    When no stored email equals the submitted one as typed, registration goes ahead
    even though a stored account already has the email it will store.
  */
  lemma RegisterStoresDuplicateEmail(input: RegisterInput, env: AuthEnv, id: UserId, users: UserStore, v: User)
    requires AllFilled(input)
    requires forall w :: w in users ==> w.email != input.email.value && w.username != input.username.value
    requires v in users && v.email == Strip(Lower(input.email.value))
    ensures Register(input, env, id, users).Success?
    ensures !UniqueUsers(Register(input, env, id, users).value.users)
  {
    var r := Register(input, env, id, users).value.users;
    var i :| 0 <= i < |users| && users[i] == v;
    assert r[i] == v && r[|users|].email == v.email;
  }

  /**
    When no stored username equals the submitted one as typed, registration goes ahead
    even though a stored account already has the username it will store.
  */
  lemma RegisterStoresDuplicateUsername(input: RegisterInput, env: AuthEnv, id: UserId, users: UserStore, v: User)
    requires AllFilled(input)
    requires forall w :: w in users ==> w.email != input.email.value && w.username != input.username.value
    requires v in users && v.username == Strip(input.username.value)
    ensures Register(input, env, id, users).Success?
    ensures !UniqueUsers(Register(input, env, id, users).value.users)
  {
    var r := Register(input, env, id, users).value.users;
    var i :| 0 <= i < |users| && users[i] == v;
    assert r[i] == v && r[|users|].username == v.username;
  }

  /**
    The email pre-check compares the submitted email, so an email that differs from a
    stored one only in letter case passes it, and the store gains a second account
    with the same stored email.
  */
  lemma RegisterAdmitsCaseVariantEmail(env: AuthEnv)
    ensures
      var existing := User(1, "al", "a@b", "Al", "h", DefaultRole, true, 0, 0);
      var r := Register(RegisterInput(Some("al2"), Some("A@b"), Some("secret"), Some("Al"), None), env, 2, [existing]);
      && r.Success?
      && !UniqueUsers(r.value.users)
  {
    var existing := User(1, "al", "a@b", "Al", "h", DefaultRole, true, 0, 0);
    var input := RegisterInput(Some("al2"), Some("A@b"), Some("secret"), Some("Al"), None);
    SampleNormalisations();
    assert "a@b" != "A@b" && "al" != "al2";
    RegisterStoresDuplicateEmail(input, env, 2, [existing], existing);
  }

  /**
    The username pre-check compares the submitted username, so one that differs from a
    stored one only by surrounding whitespace passes it and is stored stripped.
  */
  lemma RegisterAdmitsPaddedUsername(env: AuthEnv)
    ensures
      var existing := User(1, "bo", "b@b", "Bo", "h", DefaultRole, true, 0, 0);
      var r := Register(RegisterInput(Some(" bo"), Some("c@b"), Some("secret"), Some("Bo"), None), env, 2, [existing]);
      && r.Success?
      && !UniqueUsers(r.value.users)
  {
    var existing := User(1, "bo", "b@b", "Bo", "h", DefaultRole, true, 0, 0);
    var input := RegisterInput(Some(" bo"), Some("c@b"), Some("secret"), Some("Bo"), None);
    SampleNormalisations();
    assert "b@b" != "c@b" && "bo" != " bo";
    RegisterStoresDuplicateUsername(input, env, 2, [existing], existing);
  }

  /**
    Registration with the duplicate checks made on the normalised values, the form the
    store keeps; this is what the pre-checks are evidently meant to do.
  */
  function RegisterNormalised(input: RegisterInput, env: AuthEnv, id: UserId, users: UserStore): (r: Outcome<Registered>)
    ensures r.Success? <==>
      && AllFilled(input)
      && (forall v :: v in users ==> v.email != Strip(Lower(input.email.value)))
      && (forall v :: v in users ==> v.username != Strip(input.username.value))
      && (forall v :: v in users ==> v.id != id)
    ensures r.Success? ==>
      && r.value.users == users + [r.value.session.user] && r.value.session.user == NewUser(input, env, id)
      && r.value.session == OpenSession(env, r.value.session.user)
    ensures !AllFilled(input) ==> r == Register(input, env, id, users)
    ensures AllFilled(input) && (exists v :: v in users && v.email == Strip(Lower(input.email.value))) ==>
      r == Fail(400, "Email already registered")
    ensures AllFilled(input) && (forall v :: v in users ==> v.email != Strip(Lower(input.email.value)))
            && (exists v :: v in users && v.username == Strip(input.username.value)) ==>
      r == Fail(400, "Username already taken")
    ensures r.Failure? ==> r.error.status == 400 || r.error == ApiError(500, "Registration failed")
  {
    match FirstFailing(RequiredChecks(input))
    case Some(message) => Fail(400, message)
    case None =>
      if FindUser(users, ByEmail(Strip(Lower(input.email.value)))).Some? then Fail(400, "Email already registered")
      else if FindUser(users, ByUsername(Strip(input.username.value))).Some? then Fail(400, "Username already taken")
      else if FindUser(users, ById(id)).Some? then Fail(500, "Registration failed")
      else
        var u := NewUser(input, env, id);
        Success(Registered(OpenSession(env, u), users + [u]))
  }

  /** The corrected registration keeps ids, emails and usernames unique. */
  lemma RegisterNormalisedKeepsUsersUnique(input: RegisterInput, env: AuthEnv, id: UserId, users: UserStore)
    requires UniqueUsers(users)
    requires RegisterNormalised(input, env, id, users).Success?
    ensures UniqueUsers(RegisterNormalised(input, env, id, users).value.users)
  {
    var r := RegisterNormalised(input, env, id, users).value;
    var u := r.session.user;
    forall i, j | 0 <= i < j < |r.users|
      ensures r.users[i].id != r.users[j].id
      ensures r.users[i].email != r.users[j].email
      ensures r.users[i].username != r.users[j].username
    {
      if j == |users| {
        assert r.users[j] == u && r.users[i] == users[i];
      }
    }
  }

  /** Every stored account holds its email and username in the form registration stores them. */
  ghost predicate NormalisedUsers(users: UserStore) {
    forall v :: v in users ==> Strip(Lower(v.email)) == v.email && Strip(v.username) == v.username
  }

  /**
    Over a store of normalised accounts, whatever the corrected registration accepts,
    the code as written accepts with the same account, session and store.
  */
  lemma RegisterAcceptsWhatNormalisedAccepts(input: RegisterInput, env: AuthEnv, id: UserId, users: UserStore)
    requires NormalisedUsers(users)
    requires RegisterNormalised(input, env, id, users).Success?
    ensures Register(input, env, id, users) == RegisterNormalised(input, env, id, users)
  {
    var e := input.email.value;
    var n := input.username.value;
    forall v | v in users
      ensures v.email != e && v.username != n
    {
      assert v.email != Strip(Lower(e)) && v.username != Strip(n);
      assert Strip(Lower(v.email)) == v.email && Strip(v.username) == v.username;
    }
    var u := Register(input, env, id, users).value.session.user;
    assert u == NewUser(input, env, id);
  }

  /**
    Registration keeps the store normalised: the email and username it stores are
    fixed points of the normalisation it applies, so a later registration's
    normalised checks and a later login compare like with like.
  */
  lemma RegisterKeepsUsersNormalised(input: RegisterInput, env: AuthEnv, id: UserId, users: UserStore)
    requires NormalisedUsers(users)
    requires Register(input, env, id, users).Success?
    ensures NormalisedUsers(Register(input, env, id, users).value.users)
  {
    var u := Register(input, env, id, users).value.session.user;
    var e := Lower(input.email.value);
    LowerStripCommute(e);
    LowerIdempotent(input.email.value);
    StripIdempotent(e);
    assert Strip(Lower(u.email)) == u.email;
    StripIdempotent(input.username.value);
    assert Strip(u.username) == u.username;
  }

  /**
    As written, the cookie a registration hands back is non-empty and verifies to the
    new account until the token's lifetime has passed, whenever the id is fresh.
  */
  lemma RegisteredAsWrittenSessionResolves(input: RegisterInput, env: AuthEnv, id: UserId, users: UserStore, now: int)
    requires SoundCodec(env.codec)
    requires forall v :: v in users ==> v.id != id
    requires Register(input, env, id, users).Success?
    requires now < env.now + env.config.ttl
    ensures
      var reg := Register(input, env, id, users).value;
      && reg.session.cookie.value != ""
      && VerifyToken(env.codec, reg.users, reg.session.cookie.value, now) == Some(reg.session.user)
  {
    FreshAccountSessionResolves(env, users, Register(input, env, id, users).value.session.user, now);
  }

  /**
    With the corrected registration, the cookie handed back names the new account:
    it is non-empty and verifies to that account until the token's lifetime has passed.
  */
  lemma RegisteredSessionResolves(input: RegisterInput, env: AuthEnv, id: UserId, users: UserStore, now: int)
    requires SoundCodec(env.codec) && UniqueUsers(users)
    requires RegisterNormalised(input, env, id, users).Success?
    requires now < env.now + env.config.ttl
    ensures
      var reg := RegisterNormalised(input, env, id, users).value;
      && reg.session.cookie.value != ""
      && VerifyToken(env.codec, reg.users, reg.session.cookie.value, now) == Some(reg.session.user)
  {
    var reg := RegisterNormalised(input, env, id, users).value;
    var u := reg.session.user;
    RegisterNormalisedKeepsUsersUnique(input, env, id, users);
    assert u in reg.users && u.active;
    OpenSessionResolves(env, reg.users, u, now);
  }

  datatype LoginInput = LoginInput(login: Field, password: Field)

  /** Login's lookup: email equal to the lower-cased identifier first, then username equal to it exactly. */
  function LookupLogin(users: UserStore, identifier: string): (r: Option<User>)
    ensures FindUser(users, ByEmail(Lower(identifier))).Some? ==> r == FindUser(users, ByEmail(Lower(identifier)))
    ensures FindUser(users, ByEmail(Lower(identifier))).None? ==> r == FindUser(users, ByUsername(identifier))
  {
    match FindUser(users, ByEmail(Lower(identifier)))
    case Some(u) => Some(u)
    case None => FindUser(users, ByUsername(identifier))
  }

  const InvalidCredentials := "Invalid credentials"
  const LoginRequired := "Login and password are required"
  const AccountDeactivated := "Account is deactivated"

  /** `login`: presence check, lookup, password check, then the active flag. */
  function Login(input: LoginInput, env: AuthEnv, users: UserStore): (r: Outcome<Session>)
    ensures r.Success? <==>
      && Filled(input.login) && Filled(input.password)
      && LookupLogin(users, Strip(input.login.value)).Some?
      && env.hasher.check(LookupLogin(users, Strip(input.login.value)).value.passwordHash, input.password.value)
      && LookupLogin(users, Strip(input.login.value)).value.active
    ensures r.Success? ==>
      && r.value.user in users && r.value.user.active
      && env.hasher.check(r.value.user.passwordHash, input.password.value)
      && env.codec.decode(r.value.token) == env.codec.decode(GenerateToken(env.codec, r.value.user, env.now, env.config.ttl))
    ensures r.Failure? ==> r.error.status in {400, 401}
    ensures !Filled(input.login) || !Filled(input.password) ==> r == Fail(400, LoginRequired)
    ensures Filled(input.login) && Filled(input.password) ==>
      var found := LookupLogin(users, Strip(input.login.value));
      && (found.None? ==> r == Fail(401, InvalidCredentials))
      && (found.Some? && !env.hasher.check(found.value.passwordHash, input.password.value) ==> r == Fail(401, InvalidCredentials))
      && (found.Some? && env.hasher.check(found.value.passwordHash, input.password.value) && !found.value.active ==>
            r == Fail(401, AccountDeactivated))
      && (r.Success? ==> r.value == OpenSession(env, found.value))
  {
    if !Filled(input.login) || !Filled(input.password) then Fail(400, LoginRequired)
    else
      match LookupLogin(users, Strip(input.login.value))
      case None => Fail(401, InvalidCredentials)
      case Some(u) =>
        if !env.hasher.check(u.passwordHash, input.password.value) then Fail(401, InvalidCredentials)
        else if !u.active then Fail(401, AccountDeactivated)
        else Success(OpenSession(env, u))
  }

  /**
    An unknown identifier and a wrong password give the same response, so a failed
    login does not tell whether the account exists.
  */
  lemma LoginHidesUnknownAccounts(unknown: LoginInput, wrong: LoginInput, env: AuthEnv, users: UserStore)
    requires Filled(unknown.login) && Filled(unknown.password)
    requires LookupLogin(users, Strip(unknown.login.value)).None?
    requires Filled(wrong.login) && Filled(wrong.password)
    requires LookupLogin(users, Strip(wrong.login.value)).Some?
    requires !env.hasher.check(LookupLogin(users, Strip(wrong.login.value)).value.passwordHash, wrong.password.value)
    ensures Login(unknown, env, users) == Login(wrong, env, users) == Fail(401, InvalidCredentials)
  {
  }

  /**
    The deactivation message is only given after the password matched, so it confirms
    to the caller that the password was right.
  */
  lemma DeactivatedMessageMeansPasswordMatched(input: LoginInput, env: AuthEnv, users: UserStore)
    requires Login(input, env, users) == Fail(401, AccountDeactivated)
    ensures Filled(input.login) && Filled(input.password)
    ensures
      var u := LookupLogin(users, Strip(input.login.value));
      u.Some? && u.value in users && !u.value.active && env.hasher.check(u.value.passwordHash, input.password.value)
  {
  }

  /**
    An identifier that is some account's email logs into that account, even when it is
    also another account's username.
  */
  lemma LoginPrefersEmail(input: LoginInput, env: AuthEnv, users: UserStore, u: User, v: User)
    requires UniqueUsers(users) && u in users && v in users
    requires Filled(input.login) && Filled(input.password)
    requires Lower(Strip(input.login.value)) == u.email && Strip(input.login.value) == v.username
    requires env.hasher.check(u.passwordHash, input.password.value) && u.active
    ensures Login(input, env, users).Success? && Login(input, env, users).value.user == u
  {
    LoginByEmail(input, env, users, u);
  }

  /**
    An identifier that, stripped and lower-cased, is a stored active account's email,
    with that account's password, opens a session for exactly that account.
  */
  lemma LoginByEmail(input: LoginInput, env: AuthEnv, users: UserStore, u: User)
    requires UniqueUsers(users) && u in users && u.active
    requires Filled(input.login) && Filled(input.password)
    requires Lower(Strip(input.login.value)) == u.email
    requires env.hasher.check(u.passwordHash, input.password.value)
    ensures Login(input, env, users) == Success(OpenSession(env, u))
  {
    FindByEmailUnique(users, u);
    assert LookupLogin(users, Strip(input.login.value)) == Some(u);
  }

  /**
    With the corrected registration, the new account can log in at once with the email
    it registered (in any surrounding whitespace and letter case) and its password.
  */
  lemma RegisteredUserCanLogIn(input: RegisterInput, env: AuthEnv, id: UserId, users: UserStore, later: AuthEnv)
    requires SoundHasher(env.hasher) && later.hasher == env.hasher
    requires UniqueUsers(users)
    requires RegisterNormalised(input, env, id, users).Success?
    ensures
      var reg := RegisterNormalised(input, env, id, users).value;
      var r := Login(LoginInput(input.email, input.password), later, reg.users);
      r.Success? && r.value.user == reg.session.user
  {
    var reg := RegisterNormalised(input, env, id, users).value;
    var u := reg.session.user;
    RegisterNormalisedKeepsUsersUnique(input, env, id, users);
    LowerStripCommute(input.email.value);
    assert Lower(Strip(input.email.value)) == u.email;
    assert u in reg.users && u.active;
    assert env.hasher.check(u.passwordHash, input.password.value);
    LoginByEmail(LoginInput(input.email, input.password), later, reg.users, u);
  }

  /** `logout`: a cookie that replaces the session cookie with an empty, already expired one. */
  function Logout(config: AuthConfig): (c: Cookie)
    ensures c.value == "" && c.maxAge == 0
    ensures forall token :: c.name == SessionCookie(config, token).name && c.httpOnly == SessionCookie(config, token).httpOnly
                            && c.secure == SessionCookie(config, token).secure && c.sameSite == SessionCookie(config, token).sameSite
  {
    Cookie(TokenCookie, "", 0, true, config.cookieSecure, "Lax")
  }

  /** The fields `get_current_user` reports. */
  datatype Profile = Profile(id: UserId, username: string, email: string, name: string, role: string, active: bool, createdAt: int)

  /** `get_current_user`: the attached identity's profile, or 401 when none is attached. */
  function GetCurrentUser(current: Option<User>): (r: Outcome<Profile>)
    ensures r.Success? <==> current.Some?
    ensures r.Failure? ==> r.error == ApiError(401, NotAuthenticated)
    ensures r.Success? ==>
      var u := current.value;
      && r.value.id == u.id && r.value.username == u.username && r.value.email == u.email && r.value.name == u.name
      && r.value.role == u.role && r.value.active == u.active && r.value.createdAt == u.createdAt
  {
    match current
    case None => Fail(401, NotAuthenticated)
    case Some(u) => Success(Profile(u.id, u.username, u.email, u.name, u.role, u.active, u.createdAt))
  }

  datatype PasswordChange = PasswordChange(currentPassword: Field, newPassword: Field)

  const MinPasswordLength := 6
  const PasswordsRequired := "Current password and new password are required"
  const CurrentPasswordIncorrect := "Current password is incorrect"
  const NewPasswordTooShort := "New password must be at least 6 characters"

  /**
    `change_password`: on success the user store after the change; only the password
    digest and `updatedAt` of the caller's record change.
  */
  function ChangePassword(current: Option<User>, input: PasswordChange, env: AuthEnv, users: UserStore): (r: Outcome<UserStore>)
    ensures r.Success? <==>
      && current.Some?
      && Filled(input.currentPassword) && Filled(input.newPassword)
      && env.hasher.check(current.value.passwordHash, input.currentPassword.value)
      && |input.newPassword.value| >= MinPasswordLength
    ensures r.Failure? ==> r.error.status in {400, 401}
    ensures current.None? <==> r == Fail(401, NotAuthenticated)
    ensures current.Some? && (!Filled(input.currentPassword) || !Filled(input.newPassword)) ==>
      r == Fail(400, PasswordsRequired)
    ensures current.Some? && Filled(input.currentPassword) && Filled(input.newPassword) ==>
      && (!env.hasher.check(current.value.passwordHash, input.currentPassword.value) ==>
            r == Fail(400, CurrentPasswordIncorrect))
      && ((env.hasher.check(current.value.passwordHash, input.currentPassword.value)
           && |input.newPassword.value| < MinPasswordLength) ==> r == Fail(400, NewPasswordTooShort))
    ensures r.Success? ==>
      && |r.value| == |users|
      && forall i :: 0 <= i < |users| ==>
           && r.value[i] == users[i].(passwordHash := r.value[i].passwordHash, updatedAt := r.value[i].updatedAt)
           && (users[i].id != current.value.id ==> r.value[i] == users[i])
           && (users[i].id == current.value.id ==>
                 r.value[i].passwordHash == env.hasher.hash(input.newPassword.value) && r.value[i].updatedAt == env.now)
  {
    if current.None? then Fail(401, NotAuthenticated)
    else if !Filled(input.currentPassword) || !Filled(input.newPassword) then
      Fail(400, PasswordsRequired)
    else if !env.hasher.check(current.value.passwordHash, input.currentPassword.value) then
      Fail(400, CurrentPasswordIncorrect)
    else if |input.newPassword.value| < MinPasswordLength then
      Fail(400, NewPasswordTooShort)
    else
      var id := current.value.id;
      var digest := env.hasher.hash(input.newPassword.value);
      Success(seq(|users|, i requires 0 <= i < |users| =>
        if users[i].id == id then users[i].(passwordHash := digest, updatedAt := env.now) else users[i]))
  }

  /** A wrong current password is reported before a too-short new one. */
  lemma ChangePasswordChecksCurrentFirst(current: User, input: PasswordChange, env: AuthEnv, users: UserStore)
    requires Filled(input.currentPassword) && Filled(input.newPassword)
    requires !env.hasher.check(current.passwordHash, input.currentPassword.value)
    ensures ChangePassword(Some(current), input, env, users) == Fail(400, CurrentPasswordIncorrect)
  {
  }

  /**
    After a password change the caller logs in with the new password, using the
    email it registered with.
  */
  lemma ChangedPasswordLogsIn(current: User, input: PasswordChange, env: AuthEnv, users: UserStore, later: AuthEnv)
    requires SoundHasher(env.hasher) && later.hasher == env.hasher
    requires UniqueUsers(users) && current in users && current.active
    requires current.email != "" && Lower(Strip(current.email)) == current.email
    requires ChangePassword(Some(current), input, env, users).Success?
    ensures
      var users' := ChangePassword(Some(current), input, env, users).value;
      var r := Login(LoginInput(Some(current.email), input.newPassword), later, users');
      r.Success? && r.value.user.id == current.id
  {
    var users' := ChangePassword(Some(current), input, env, users).value;
    var i :| 0 <= i < |users| && users[i] == current;
    var u' := users'[i];
    assert UniqueUsers(users') by {
      forall a, b | 0 <= a < b < |users'|
        ensures users'[a].id != users'[b].id && users'[a].email != users'[b].email && users'[a].username != users'[b].username
      {
        assert users'[a].id == users[a].id && users'[b].id == users[b].id;
      }
    }
    assert u' in users' && u'.active && u'.email == current.email;
    assert env.hasher.check(u'.passwordHash, input.newPassword.value);
    LoginByEmail(LoginInput(Some(current.email), input.newPassword), later, users', u');
  }
}
