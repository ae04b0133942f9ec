/**
  The two paginated listings of the task controller: a user's own tasks with
  optional filters, and every task for an administrator. Both order tasks newest
  first, skip `(page - 1) * limit` and return at most `limit`.
*/
module Listing {
  import opened Wrappers
  import opened Seqs
  import opened Http
  import opened Users
  import opened Tasks
  import Guards

  /** `order_by('-created_at')`: later creation times come first. */
  ghost predicate NewestFirst(s: seq<Task>) {
    forall i, j :: 0 <= i < j < |s| ==> s[i].createdAt >= s[j].createdAt
  }

  /** Inserts `t` before the first task that is not newer than it. */
  function InsertByCreation(t: Task, s: seq<Task>): (r: seq<Task>)
    requires NewestFirst(s)
    ensures |r| == |s| + 1
    ensures r[0] == t || (|s| > 0 && r[0] == s[0])
    ensures NewestFirst(r)
    ensures multiset(r) == multiset(s) + multiset{t}
    decreases |s|
  {
    if |s| == 0 || t.createdAt >= s[0].createdAt then
      ConsNewestFirst(t, s);
      [t] + s
    else
      NewestFirstSlice(s, 1, |s|);
      var rest := InsertByCreation(t, s[1..]);
      assert s == [s[0]] + s[1..];
      assert multiset([s[0]] + rest) == multiset{s[0]} + multiset(rest);
      ConsNewestFirst(s[0], rest);
      [s[0]] + rest
  }

  /** Putting a task in front keeps the order when it is not older than the old head. */
  lemma ConsNewestFirst(x: Task, rest: seq<Task>)
    requires NewestFirst(rest)
    requires |rest| == 0 || rest[0].createdAt <= x.createdAt
    ensures NewestFirst([x] + rest)
  {
    var r := [x] + rest;
    forall i, j | 0 <= i < j < |r|
      ensures r[i].createdAt >= r[j].createdAt
    {
      if i == 0 {
        assert r[j] == rest[j - 1];
        assert rest[j - 1].createdAt <= rest[0].createdAt;
      } else {
        assert r[i] == rest[i - 1] && r[j] == rest[j - 1];
      }
    }
  }

  /**
    The tasks newest first. Tasks created at the same instant keep their store order;
    the database leaves that order unspecified.
  */
  function SortNewestFirst(s: seq<Task>): (r: seq<Task>)
    ensures |r| == |s|
    ensures NewestFirst(r)
    ensures multiset(r) == multiset(s)
  {
    if |s| == 0 then []
    else
      assert s == [s[0]] + s[1..];
      InsertByCreation(s[0], SortNewestFirst(s[1..]))
  }

  /** Sorting neither adds nor drops tasks. */
  lemma SortKeepsMembers(s: seq<Task>)
    ensures forall k :: 0 <= k < |SortNewestFirst(s)| ==> SortNewestFirst(s)[k] in s
    ensures forall k :: 0 <= k < |s| ==> s[k] in SortNewestFirst(s)
  {
    var r := SortNewestFirst(s);
    forall k | 0 <= k < |r|
      ensures r[k] in s
    {
      assert r[k] in multiset(r);
    }
    forall k | 0 <= k < |s|
      ensures s[k] in r
    {
      assert s[k] in multiset(s);
    }
  }

  /** A contiguous part of a newest-first sequence is newest first. */
  lemma NewestFirstSlice(s: seq<Task>, a: nat, b: nat)
    requires NewestFirst(s) && a <= b <= |s|
    ensures NewestFirst(s[a..b])
  {
  }

  function Min(a: int, b: int): int {
    if a <= b then a else b
  }

  /** `.skip(skip).limit(limit)`: at most `limit` elements, starting at position `skip`. */
  function PageSlice<T>(s: seq<T>, skip: nat, limit: nat): (r: seq<T>)
    ensures |r| == if skip >= |s| then 0 else Min(limit, |s| - skip)
    ensures forall k :: 0 <= k < |r| ==> r[k] == s[skip + k]
  {
    if skip >= |s| then [] else s[skip..skip + Min(limit, |s| - skip)]
  }

  /** `(total + limit - 1) // limit`: the number of pages of `limit` items needed for `total` items. */
  function PageCount(total: nat, limit: int): (pages: nat)
    requires limit >= 1
    ensures pages * limit >= total
    ensures total > 0 ==> (pages - 1) * limit < total
    ensures total == 0 ==> pages == 0
  {
    var q := (total + limit - 1) / limit;
    assert q * limit + (total + limit - 1) % limit == total + limit - 1;
    q
  }

  datatype Pagination = Pagination(page: int, limit: int, total: nat, pages: nat)

  /** A listing response: one page of items and its pagination block. */
  datatype Listed<T> = Listed(items: seq<T>, pagination: Pagination)

  const DefaultPage := 1
  const DefaultLimit := 10

  /** The query arguments of the user listing; `page` and `limit` are already integers when present. */
  datatype ListQuery = ListQuery(status: Field, priority: Field, page: Option<int>, limit: Option<int>)

  /** Owned by `owner` and matching each filter that is given (an empty filter is no filter). */
  function MatchesQuery(owner: UserId, q: ListQuery): Task -> bool {
    (t: Task) =>
      && t.owner == owner
      && (!Filled(q.status) || t.status == q.status.value)
      && (!Filled(q.priority) || t.priority == q.priority.value)
  }

  function PageOf(page: Option<int>): int {
    if page.Some? then page.value else DefaultPage
  }

  function LimitOf(limit: Option<int>): int {
    if limit.Some? then limit.value else DefaultLimit
  }

  /** The number of items before page `page`. */
  function Skip(page: int, limit: int): nat
    requires page >= 1 && limit >= 1
  {
    (page - 1) * limit
  }

  /**
    One page of `ordered`, or the 500 response when the page arithmetic fails: a
    limit of 0 divides by zero, and a page below 1 asks the database for a negative
    skip, which it refuses.
  */
  function Paginate<T>(ordered: seq<T>, page: int, limit: int, failure: string): (r: Outcome<Listed<T>>)
    ensures r.Success? <==> page >= 1 && limit >= 1
    ensures r.Failure? ==> r.error == ApiError(500, failure)
    ensures r.Success? ==>
      && r.value.pagination == Pagination(page, limit, |ordered|, PageCount(|ordered|, limit))
      && r.value.items == PageSlice(ordered, Skip(page, limit), limit)
  {
    if page < 1 || limit < 1 then Fail(500, failure)
    else
      Success(Listed(PageSlice(ordered, Skip(page, limit), limit), Pagination(page, limit, |ordered|, PageCount(|ordered|, limit))))
  }

  /** The caller's tasks matching the query, newest first: the sequence the user listing pages through. */
  function OwnListing(store: TaskStore, owner: UserId, q: ListQuery): seq<Task> {
    SortNewestFirst(Filter(store, MatchesQuery(owner, q)))
  }

  /** Every task of the user listing is a stored task of the caller that matches the filters. */
  lemma OwnListingMembers(store: TaskStore, owner: UserId, q: ListQuery)
    ensures forall k :: 0 <= k < |OwnListing(store, owner, q)| ==>
      var t := OwnListing(store, owner, q)[k];
      && t in store && t.owner == owner
      && (!Filled(q.status) || t.status == q.status.value)
      && (!Filled(q.priority) || t.priority == q.priority.value)
  {
    var matching := Filter(store, MatchesQuery(owner, q));
    SortKeepsMembers(matching);
    forall k | 0 <= k < |OwnListing(store, owner, q)|
      ensures OwnListing(store, owner, q)[k] in store && MatchesQuery(owner, q)(OwnListing(store, owner, q)[k])
    {
      FilterMember(store, MatchesQuery(owner, q), OwnListing(store, owner, q)[k]);
    }
  }

  /** The user listing holds exactly the caller's matching tasks, so its length is their count. */
  lemma OwnListingIsMatching(store: TaskStore, owner: UserId, q: ListQuery)
    ensures multiset(OwnListing(store, owner, q)) == multiset(Filter(store, MatchesQuery(owner, q)))
    ensures |OwnListing(store, owner, q)| == Count(store, MatchesQuery(owner, q))
  {
  }

  /** Each page of the user listing is newest first and holds only the caller's matching tasks. */
  lemma OwnPageFacts(store: TaskStore, owner: UserId, q: ListQuery, skip: nat, limit: nat)
    ensures
      var items := PageSlice(OwnListing(store, owner, q), skip, limit);
      && NewestFirst(items)
      && forall k :: 0 <= k < |items| ==>
           && items[k] in store && items[k].owner == owner
           && (!Filled(q.status) || items[k].status == q.status.value)
           && (!Filled(q.priority) || items[k].priority == q.priority.value)
  {
    var ordered := OwnListing(store, owner, q);
    var items := PageSlice(ordered, skip, limit);
    OwnListingMembers(store, owner, q);
    if skip < |ordered| {
      NewestFirstSlice(ordered, skip, skip + |items|);
      assert items == ordered[skip..skip + |items|];
    }
  }

  /** `get_tasks`: one page of the caller's matching tasks, with the total over all of them. */
  function GetTasks(current: Option<User>, q: ListQuery, store: TaskStore): (r: Outcome<Listed<Task>>)
    ensures r.Success? <==> current.Some? && PageOf(q.page) >= 1 && LimitOf(q.limit) >= 1
    ensures r.Failure? ==> r.error.status in {401, 500}
    ensures current.None? ==> r == Fail(401, NotAuthenticated)
    ensures r.Success? ==>
      r.value.pagination == Pagination(PageOf(q.page), LimitOf(q.limit), r.value.pagination.total,
                                       PageCount(r.value.pagination.total, LimitOf(q.limit)))
    ensures r.Success? ==>
      && r.value.pagination.total == Count(store, MatchesQuery(current.value.id, q))
      && |r.value.items| <= LimitOf(q.limit)
      && NewestFirst(r.value.items)
      && forall k :: 0 <= k < |r.value.items| ==>
           var t := r.value.items[k];
           && t in store && t.owner == current.value.id
           && (!Filled(q.status) || t.status == q.status.value)
           && (!Filled(q.priority) || t.priority == q.priority.value)
  {
    match current
    case None => Fail(401, NotAuthenticated)
    case Some(u) =>
      var r := Paginate(OwnListing(store, u.id, q), PageOf(q.page), LimitOf(q.limit), "Failed to get tasks");
      if r.Failure? then r
      else
        OwnListingIsMatching(store, u.id, q);
        OwnPageFacts(store, u.id, q, Skip(PageOf(q.page), LimitOf(q.limit)), LimitOf(q.limit));
        r
  }

  /** Position `i` falls on page `i / limit + 1`, at offset `i % limit` from the page's start. */
  lemma PageOfPosition(i: nat, limit: int)
    requires limit >= 1
    ensures Skip(i / limit + 1, limit) + i % limit == i
    ensures i % limit < limit
  {
  }

  /** With a valid page and limit, the user listing is that page of the caller's ordered matches. */
  lemma GetTasksIsPage(u: User, q: ListQuery, store: TaskStore)
    requires PageOf(q.page) >= 1 && LimitOf(q.limit) >= 1
    ensures GetTasks(Some(u), q, store).Success?
    ensures GetTasks(Some(u), q, store).value.items
         == PageSlice(OwnListing(store, u.id, q), Skip(PageOf(q.page), LimitOf(q.limit)), LimitOf(q.limit))
  {
  }

  /**
    Pages partition the listing: the item at position `i` of the ordered listing is
    item `i % limit` of page `i / limit + 1`.
  */
  lemma PagesPartitionListing(u: User, q: ListQuery, store: TaskStore, limit: int, i: nat)
    requires limit >= 1 && q.limit == Some(limit) && q.page == Some(i / limit + 1)
    requires i < |OwnListing(store, u.id, q)|
    ensures
      var r := GetTasks(Some(u), q, store);
      && r.Success?
      && i % limit < |r.value.items|
      && r.value.items[i % limit] == OwnListing(store, u.id, q)[i]
  {
    var ordered := OwnListing(store, u.id, q);
    var skip := Skip(i / limit + 1, limit);
    PageOfPosition(i, limit);
    assert PageOf(q.page) == i / limit + 1 && LimitOf(q.limit) == limit;
    GetTasksIsPage(u, q, store);
    PageSliceAt(ordered, skip, limit, i % limit);
  }

  /** Element `skip + k` of `s` is element `k` of the page starting at `skip`, when `k` is below the limit. */
  lemma PageSliceAt<T>(s: seq<T>, skip: nat, limit: nat, k: nat)
    requires skip + k < |s| && k < limit
    ensures k < |PageSlice(s, skip, limit)| && PageSlice(s, skip, limit)[k] == s[skip + k]
  {
  }

  /**
    Page 2 with limit 10 over 25 matching tasks holds listing items 11 to 20, and
    reports 25 in total over 3 pages.
  */
  lemma PaginationExample(u: User, q: ListQuery, store: TaskStore)
    requires q.page == Some(2) && q.limit == Some(10)
    requires Count(store, MatchesQuery(u.id, q)) == 25
    ensures
      var r := GetTasks(Some(u), q, store);
      && r.Success?
      && r.value.items == OwnListing(store, u.id, q)[10..20]
      && r.value.pagination == Pagination(2, 10, 25, 3)
  {
    var ordered := OwnListing(store, u.id, q);
    assert |ordered| == 25 by {
      assert |multiset(ordered)| == |multiset(Filter(store, MatchesQuery(u.id, q)))|;
    }
    assert PageCount(25, 10) == 3;
  }

  /** What the admin listing shows of a task's owner. */
  datatype OwnerSummary = OwnerSummary(id: UserId, username: string, email: string)

  datatype AdminItem = AdminItem(task: Task, owner: Option<OwnerSummary>)

  function Summarise(t: Task, users: UserStore): (item: AdminItem)
    ensures item.task == t
    ensures item.owner.Some? <==> FindUser(users, ById(t.owner)).Some?
    ensures item.owner.Some? ==>
      var o := FindUser(users, ById(t.owner)).value;
      item.owner.value.id == t.owner && item.owner.value.username == o.username && item.owner.value.email == o.email
  {
    match FindUser(users, ById(t.owner))
    case None => AdminItem(t, None)
    case Some(o) => AdminItem(t, Some(OwnerSummary(o.id, o.username, o.email)))
  }

  /** The admin view of each task, in the same order. */
  function Summaries(tasks: seq<Task>, users: UserStore): (r: seq<AdminItem>)
    ensures |r| == |tasks|
    ensures forall k :: 0 <= k < |r| ==> r[k] == Summarise(tasks[k], users)
  {
    seq(|tasks|, k requires 0 <= k < |tasks| => Summarise(tasks[k], users))
  }

  /** Each admin page holds the summaries of consecutive tasks of the newest-first store. */
  lemma AdminPageItems(store: TaskStore, users: UserStore, skip: nat, limit: nat)
    ensures
      var items := PageSlice(Summaries(SortNewestFirst(store), users), skip, limit);
      && |items| <= limit
      && forall k :: 0 <= k < |items| ==>
           skip + k < |store| && items[k] == Summarise(SortNewestFirst(store)[skip + k], users)
  {
  }

  /**
    `get_all_tasks`: re-checks that the caller is an admin, then pages over every
    user's tasks, newest first, with the total over all of them.
  */
  function GetAllTasks(current: Option<User>, page: Option<int>, limit: Option<int>, store: TaskStore, users: UserStore): (r: Outcome<Listed<AdminItem>>)
    ensures current.None? || current.value.role != AdminRole ==> r == Fail(403, Guards.AdminAccessRequired)
    ensures r.Success? <==> current.Some? && current.value.role == AdminRole && PageOf(page) >= 1 && LimitOf(limit) >= 1
    ensures r.Success? ==>
      r.value.pagination == Pagination(PageOf(page), LimitOf(limit), |store|, PageCount(|store|, LimitOf(limit)))
    ensures r.Success? ==>
      && r.value.pagination.total == |store|
      && |r.value.items| <= LimitOf(limit)
      && forall k :: 0 <= k < |r.value.items| ==>
           && Skip(PageOf(page), LimitOf(limit)) + k < |store|
           && r.value.items[k] == Summarise(SortNewestFirst(store)[Skip(PageOf(page), LimitOf(limit)) + k], users)
  {
    if current.None? || current.value.role != AdminRole then Fail(403, Guards.AdminAccessRequired)
    else
      var r := Paginate(Summaries(SortNewestFirst(store), users), PageOf(page), LimitOf(limit), "Failed to get all tasks");
      if r.Failure? then r
      else
        AdminPageItems(store, users, Skip(PageOf(page), LimitOf(limit)), LimitOf(limit));
        r
  }

  /**
    The admin pages cover the store: position `i` of the newest-first store is item
    `i % limit` of page `i / limit + 1`.
  */
  lemma AdminPagesCoverStore(u: User, limit: int, i: nat, store: TaskStore, users: UserStore)
    requires u.role == AdminRole && limit >= 1 && i < |store|
    ensures
      var r := GetAllTasks(Some(u), Some(i / limit + 1), Some(limit), store, users);
      && r.Success?
      && i % limit < |r.value.items|
      && r.value.items[i % limit] == Summarise(SortNewestFirst(store)[i], users)
  {
    var ordered := Summaries(SortNewestFirst(store), users);
    var skip := Skip(i / limit + 1, limit);
    PageOfPosition(i, limit);
    var r := GetAllTasks(Some(u), Some(i / limit + 1), Some(limit), store, users);
    assert r == Paginate(ordered, i / limit + 1, limit, "Failed to get all tasks");
    assert r.value.items == PageSlice(ordered, skip, limit);
    PageSliceAt(ordered, skip, limit, i % limit);
  }
}
