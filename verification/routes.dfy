/**
  The routes that put a guard in front of a controller: the task routes and `/me`
  behind `auth_required`, and the admin listing behind `admin_required`. The
  properties here follow a request through the guard and the controller together.
*/
module Routes {
  import opened Wrappers
  import opened Http
  import opened Users
  import opened Tokens
  import opened Auth
  import opened Tasks
  import Guards
  import Listing

  /** `GET /tasks`: the user listing behind `auth_required`. */
  function ListOwnTasks(cookie: Field, ctx: Guards.AuthContext, q: Listing.ListQuery, store: TaskStore): (r: Outcome<Listing.Listed<Task>>)
    ensures r.Success? <==>
      Guards.Resolve(cookie, ctx).Some? && Listing.PageOf(q.page) >= 1 && Listing.LimitOf(q.limit) >= 1
    ensures r.Success? ==> forall k :: 0 <= k < |r.value.items| ==>
      r.value.items[k] in store && r.value.items[k].owner == Guards.Resolve(cookie, ctx).value.id
    ensures r.Failure? && r.error.status == 401 ==>
      Guards.Resolve(cookie, ctx).None? && r.error.message in {Guards.TokenRequired, Guards.InvalidToken}
  {
    Guards.Handle(Guards.AuthRequired, cookie, ctx, id => Listing.GetTasks(id, q, store))
  }

  /** `GET /tasks/<id>`: one task behind `auth_required`. */
  function ShowTask(cookie: Field, ctx: Guards.AuthContext, id: TaskId, store: TaskStore): (r: Outcome<Task>)
    ensures r.Success? ==>
      && Guards.Resolve(cookie, ctx).Some?
      && r.value in store && r.value.id == id && r.value.owner == Guards.Resolve(cookie, ctx).value.id
    ensures r.Failure? ==> r.error.status in {401, 404}
  {
    Guards.Handle(Guards.AuthRequired, cookie, ctx, u => GetTask(u, id, store))
  }

  /** `GET /tasks/admin/all`: the admin listing behind `admin_required`. */
  function ListAllTasks(cookie: Field, ctx: Guards.AuthContext, page: Option<int>, limit: Option<int>, store: TaskStore): (r: Outcome<Listing.Listed<Listing.AdminItem>>)
    ensures r.Success? <==>
      && Guards.Resolve(cookie, ctx).Some? && Guards.Resolve(cookie, ctx).value.role == AdminRole
      && Listing.PageOf(page) >= 1 && Listing.LimitOf(limit) >= 1
    ensures r.Success? ==>
      var u := Guards.Resolve(cookie, ctx).value;
      u in ctx.users && u.active && u.role == AdminRole && r.value.pagination.total == |store|
    ensures Guards.Resolve(cookie, ctx).Some? && Guards.Resolve(cookie, ctx).value.role != AdminRole ==>
      r == Fail(403, Guards.AdminAccessRequired)
  {
    Guards.Handle(Guards.AdminRequired, cookie, ctx, u => Listing.GetAllTasks(u, page, limit, store, ctx.users))
  }

  /** `GET /me`: the profile of the token's subject behind `auth_required`. */
  function Me(cookie: Field, ctx: Guards.AuthContext): (r: Outcome<Profile>)
    ensures r.Success? <==> Guards.Resolve(cookie, ctx).Some?
    ensures r.Success? ==>
      && ctx.codec.decode(cookie.value).Some?
      && r.value.id == ctx.codec.decode(cookie.value).value.userId
      && r.value.active
    ensures r.Failure? ==> r.error.status == 401 && r.error.message != NotAuthenticated
  {
    Guards.Handle(Guards.AuthRequired, cookie, ctx, GetCurrentUser)
  }

  /**
    Behind `auth_required` a controller always receives an identity, so the
    controllers' own "not authenticated" answer is never sent on these routes.
  */
  lemma GuardedControllersNeverSeeAnonymous(cookie: Field, ctx: Guards.AuthContext, q: Listing.ListQuery, id: TaskId, store: TaskStore)
    ensures ListOwnTasks(cookie, ctx, q, store).Failure? ==>
      ListOwnTasks(cookie, ctx, q, store).error.message != NotAuthenticated
    ensures ShowTask(cookie, ctx, id, store).Failure? ==>
      ShowTask(cookie, ctx, id, store).error.message != NotAuthenticated
    ensures Me(cookie, ctx).Failure? ==> Me(cookie, ctx).error.message != NotAuthenticated
  {
    if Guards.Resolve(cookie, ctx).Some? {
      Guards.ValidTokenOutcomes(cookie, ctx, Guards.Resolve(cookie, ctx).value);
    }
  }

  /**
    A client that registers with role "admin" holds, from the cookie it is given, a
    session that passes the admin guard until the token expires: the role check is
    only as strong as registration's acceptance of the submitted role.
  */
  lemma SelfRegisteredAdminReachesAdminRoute(
    input: RegisterInput, env: AuthEnv, id: UserId, users: UserStore,
    now: int, page: Option<int>, limit: Option<int>, store: TaskStore)
    requires SoundCodec(env.codec)
    requires input.role == Some(AdminRole)
    requires forall v :: v in users ==> v.id != id
    requires Register(input, env, id, users).Success?
    requires now < env.now + env.config.ttl
    requires Listing.PageOf(page) >= 1 && Listing.LimitOf(limit) >= 1
    ensures
      var reg := Register(input, env, id, users).value;
      ListAllTasks(Some(reg.session.cookie.value), Guards.AuthContext(env.codec, reg.users, now), page, limit, store).Success?
  {
    var reg := Register(input, env, id, users).value;
    RegisteredAsWrittenSessionResolves(input, env, id, users, now);
    Guards.ValidTokenOutcomes(Some(reg.session.cookie.value), Guards.AuthContext(env.codec, reg.users, now), reg.session.user);
  }

  /**
    Reading another user's task through the route gives the same 404 as a task that
    does not exist, for any valid session.
  */
  lemma ForeignTaskThroughRouteIsNotFound(cookie: Field, ctx: Guards.AuthContext, t: Task, store: TaskStore)
    requires Guards.Resolve(cookie, ctx).Some?
    requires UniqueTaskIds(store) && t in store && t.owner != Guards.Resolve(cookie, ctx).value.id
    ensures ShowTask(cookie, ctx, t.id, store) == Fail(404, TaskNotFound)
  {
    var u := Guards.Resolve(cookie, ctx).value;
    Guards.ValidTokenOutcomes(cookie, ctx, u);
    ForeignTaskIsNotFound(u, t, TaskInput(None, None, None, None, None), s => None, 0, store);
  }
}
