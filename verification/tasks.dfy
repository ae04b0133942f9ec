/**
  The task controller's owner-scoped operations: create, get, update, delete and the
  per-user statistics. Every operation takes the identity the guard attached.
*/
module Tasks {
  import opened Wrappers
  import opened Seqs
  import opened Text
  import opened Http
  import opened Users

  type TaskId = nat

  /** A stored task. Status and priority are the strings the client sent. */
  datatype Task = Task(
    id: TaskId,
    title: string,
    description: string,
    owner: UserId,
    status: string,
    priority: string,
    dueDate: Option<int>,
    completedAt: Option<int>,
    createdAt: int,
    updatedAt: int)

  /** The task collection in natural order. */
  type TaskStore = seq<Task>

  const Statuses := ["pending", "in_progress", "completed", "cancelled"]
  const Priorities := ["low", "medium", "high", "urgent"]
  const DefaultStatus := "pending"
  const DefaultPriority := "medium"
  const MaxTitleLength := 200
  const MaxDescriptionLength := 1000
  const TaskNotFound := "Task not found"

  /** `datetime.fromisoformat` (after `Z` becomes `+00:00`): a timestamp in seconds, or `None` on `ValueError`. */
  type DateParser = string -> Option<int>

  /** The task fields of a create or update body. */
  datatype TaskInput = TaskInput(title: Field, description: Field, status: Field, priority: Field, dueDate: Field)

  /** An operation's response together with the task store after it. */
  datatype Step<T> = Step(result: Outcome<T>, store: TaskStore)

  function OwnedBy(owner: UserId): Task -> bool {
    (t: Task) => t.owner == owner
  }

  function IdAndOwner(id: TaskId, owner: UserId): Task -> bool {
    (t: Task) => t.id == id && t.owner == owner
  }

  /** No two stored tasks share an id. */
  ghost predicate UniqueTaskIds(store: TaskStore) {
    forall i, j :: 0 <= i < j < |store| ==> store[i].id != store[j].id
  }

  /** `Task.objects(id=task_id, user=user).first()`: the position of the caller's task with that id. */
  function FindOwned(store: TaskStore, id: TaskId, owner: UserId): (r: Option<nat>)
    ensures r.Some? ==> r.value < |store| && store[r.value].id == id && store[r.value].owner == owner
    ensures r.None? <==> forall t :: t in store ==> !(t.id == id && t.owner == owner)
  {
    var r := FirstIndex(store, IdAndOwner(id, owner));
    assert r.None? ==> forall t :: t in store ==> !IdAndOwner(id, owner)(t);
    r
  }

  // ---------------------------------------------------------------- create

  const DueDateFormat := "Invalid due_date format. Use ISO format"

  /** `create_task`'s due date: absent or empty means none; otherwise it must parse. */
  function CreateDueDate(f: Field, parse: DateParser): (r: Outcome<Option<int>>)
    ensures r.Success? <==> !Filled(f) || parse(f.value).Some?
    ensures r.Failure? ==> r.error == ApiError(400, DueDateFormat)
    ensures r.Success? ==> r.value == (if Filled(f) then parse(f.value) else None)
  {
    if !Filled(f) then Success(None)
    else
      match parse(f.value)
      case None => Fail(400, DueDateFormat)
      case Some(d) => Success(Some(d))
  }

  /**
    `create_task`: the caller's new task with id `id`, stripped title and description,
    default status and priority, created and updated at `now`.
  */
  function CreateTask(current: Option<User>, input: TaskInput, parse: DateParser, id: TaskId, now: int, store: TaskStore): (r: Step<Task>)
    ensures r.result.Success? <==>
      && current.Some?
      && Filled(input.title) && Filled(input.description)
      && |input.title.value| <= MaxTitleLength && |input.description.value| <= MaxDescriptionLength
      && (!Filled(input.dueDate) || parse(input.dueDate.value).Some?)
    ensures r.result.Failure? ==> r.store == store && r.result.error.status in {400, 401}
    ensures current.None? <==> r.result == Fail(401, NotAuthenticated)
    ensures
      && current.Some?
      && Filled(input.title) && Filled(input.description)
      && |input.title.value| <= MaxTitleLength && |input.description.value| <= MaxDescriptionLength ==>
      (r.result == Fail(400, DueDateFormat) <==> Filled(input.dueDate) && parse(input.dueDate.value).None?)
    ensures r.result.Success? ==>
      var t := r.result.value;
      && r.store == store + [t]
      && t.id == id && t.owner == current.value.id
      && t.title == Strip(input.title.value) && t.description == Strip(input.description.value)
      && t.status == (if input.status.Some? then input.status.value else DefaultStatus)
      && t.priority == (if input.priority.Some? then input.priority.value else DefaultPriority)
      && t.dueDate == (if Filled(input.dueDate) then parse(input.dueDate.value) else None)
      && t.completedAt.None? && t.createdAt == now && t.updatedAt == now
  {
    if current.None? then Step(Fail(401, NotAuthenticated), store)
    else if !Filled(input.title) || !Filled(input.description) then
      Step(Fail(400, "Title and description are required"), store)
    else if |input.title.value| > MaxTitleLength then
      Step(Fail(400, "Title must be less than 200 characters"), store)
    else if |input.description.value| > MaxDescriptionLength then
      Step(Fail(400, "Description must be less than 1000 characters"), store)
    else
      match CreateDueDate(input.dueDate, parse)
      case Failure(e) => Step(Failure(e), store)
      case Success(due) =>
        var t := Task(id, Strip(input.title.value), Strip(input.description.value), current.value.id,
                      OrDefault(input.status, DefaultStatus), OrDefault(input.priority, DefaultPriority),
                      due, None, now, now);
        Step(Success(t), store + [t])
  }

  /** A missing title or description is reported before any length problem. */
  lemma CreateChecksPresenceFirst(u: User, input: TaskInput, parse: DateParser, id: TaskId, now: int, store: TaskStore)
    requires !Filled(input.title) || !Filled(input.description)
    ensures CreateTask(Some(u), input, parse, id, now, store).result == Fail(400, "Title and description are required")
  {
  }

  /** The length limits are inclusive: 200 and 1000 characters are accepted, one more is not. */
  lemma CreateLengthBoundaries(u: User, input: TaskInput, parse: DateParser, id: TaskId, now: int, store: TaskStore)
    requires input.title.Some? && input.description.Some? && !Filled(input.dueDate)
    requires |input.title.value| == MaxTitleLength && |input.description.value| == MaxDescriptionLength
    ensures CreateTask(Some(u), input, parse, id, now, store).result.Success?
    ensures CreateTask(Some(u), input.(title := Some(input.title.value + "x")), parse, id, now, store).result
            == Fail(400, "Title must be less than 200 characters")
    ensures CreateTask(Some(u), input.(description := Some(input.description.value + "x")), parse, id, now, store).result
            == Fail(400, "Description must be less than 1000 characters")
  {
    CreateRejectsLongTitle(u, input.(title := Some(input.title.value + "x")), parse, id, now, store);
    CreateRejectsLongDescription(u, input.(description := Some(input.description.value + "x")), parse, id, now, store);
  }

  /** A filled title over 200 characters is refused, whatever follows it. */
  lemma CreateRejectsLongTitle(u: User, input: TaskInput, parse: DateParser, id: TaskId, now: int, store: TaskStore)
    requires Filled(input.title) && Filled(input.description) && |input.title.value| > MaxTitleLength
    ensures CreateTask(Some(u), input, parse, id, now, store).result == Fail(400, "Title must be less than 200 characters")
  {
  }

  /** Within the title limit, a filled description over 1000 characters is refused. */
  lemma CreateRejectsLongDescription(u: User, input: TaskInput, parse: DateParser, id: TaskId, now: int, store: TaskStore)
    requires Filled(input.title) && Filled(input.description)
    requires |input.title.value| <= MaxTitleLength && |input.description.value| > MaxDescriptionLength
    ensures CreateTask(Some(u), input, parse, id, now, store).result == Fail(400, "Description must be less than 1000 characters")
  {
  }

  /** Appending a task with a fresh id keeps ids unique, and only its owner finds it by that id. */
  lemma AppendFreshTask(store: TaskStore, t: Task)
    requires UniqueTaskIds(store) && forall x :: x in store ==> x.id != t.id
    ensures UniqueTaskIds(store + [t])
    ensures FindOwned(store + [t], t.id, t.owner) == Some(|store|)
    ensures forall other :: other != t.owner ==> FindOwned(store + [t], t.id, other).None?
  {
    var s' := store + [t];
    assert forall k :: 0 <= k < |store| ==> s'[k] == store[k] && store[k] in store;
    var f := FindOwned(s', t.id, t.owner);
    assert s'[|store|] == t;
  }

  /** A task created with a fresh id keeps the ids unique and is then found by its owner alone. */
  lemma CreateThenFind(u: User, input: TaskInput, parse: DateParser, id: TaskId, now: int, store: TaskStore, other: UserId)
    requires UniqueTaskIds(store) && forall t :: t in store ==> t.id != id
    requires CreateTask(Some(u), input, parse, id, now, store).result.Success?
    ensures
      var r := CreateTask(Some(u), input, parse, id, now, store);
      && UniqueTaskIds(r.store)
      && FindOwned(r.store, id, u.id) == Some(|store|)
      && (other != u.id ==> FindOwned(r.store, id, other).None?)
  {
    var r := CreateTask(Some(u), input, parse, id, now, store);
    var t := r.result.value;
    assert r.store == store + [t] && t.id == id && t.owner == u.id;
    AppendFreshTask(store, t);
  }

  // ---------------------------------------------------------------- get / delete

  /** `get_task`: the caller's task with that id; someone else's task is as missing as an unknown id. */
  function GetTask(current: Option<User>, id: TaskId, store: TaskStore): (r: Outcome<Task>)
    ensures r.Success? ==> current.Some? && r.value in store && r.value.id == id && r.value.owner == current.value.id
    ensures r.Failure? ==> r.error == ApiError(401, NotAuthenticated) || r.error == ApiError(404, TaskNotFound)
    ensures current.Some? ==> (r.Failure? <==> forall t :: t in store ==> !(t.id == id && t.owner == current.value.id))
  {
    match current
    case None => Fail(401, NotAuthenticated)
    case Some(u) =>
      match FindOwned(store, id, u.id)
      case None => Fail(404, TaskNotFound)
      case Some(i) => Success(store[i])
  }

  /** `delete_task`: removes the caller's task with that id and nothing else. */
  function DeleteTask(current: Option<User>, id: TaskId, store: TaskStore): (r: Step<()>)
    ensures r.result.Failure? ==> r.store == store
    ensures r.result.Failure? ==> r.result.error == ApiError(401, NotAuthenticated) || r.result.error == ApiError(404, TaskNotFound)
    ensures current.Some? ==> (r.result.Failure? <==> forall t :: t in store ==> !(t.id == id && t.owner == current.value.id))
    ensures r.result.Success? ==>
      current.Some? &&
      exists i :: 0 <= i < |store| && store[i].id == id && store[i].owner == current.value.id
                  && r.store == store[..i] + store[i + 1..]
  {
    match current
    case None => Step(Fail(401, NotAuthenticated), store)
    case Some(u) =>
      match FindOwned(store, id, u.id)
      case None => Step(Fail(404, TaskNotFound), store)
      case Some(i) => Step(Success(()), store[..i] + store[i + 1..])
  }

  /**
    With unique ids, a successful delete leaves no task with that id and keeps every
    other task, and every other user's tasks exactly as they were.
  */
  lemma DeleteRemovesOnlyThatTask(u: User, id: TaskId, store: TaskStore, other: UserId)
    requires UniqueTaskIds(store)
    requires DeleteTask(Some(u), id, store).result.Success?
    ensures
      var after := DeleteTask(Some(u), id, store).store;
      && |after| == |store| - 1
      && (forall t :: t in after ==> t.id != id)
      && (forall t :: t in store && t.id != id ==> t in after)
      && (other != u.id ==> Filter(after, OwnedBy(other)) == Filter(store, OwnedBy(other)))
  {
    var i := FindOwned(store, id, u.id).value;
    assert DeleteTask(Some(u), id, store).store == store[..i] + store[i + 1..];
    RemoveAtDropsId(store, i);
    if other != u.id {
      FilterSkipsRejected(store, i, OwnedBy(other));
    }
  }

  /** Removing position `i` from a store with unique ids removes exactly the task with that id. */
  lemma RemoveAtDropsId(store: TaskStore, i: nat)
    requires UniqueTaskIds(store) && i < |store|
    ensures forall t :: t in store[..i] + store[i + 1..] ==> t.id != store[i].id
    ensures forall t :: t in store && t.id != store[i].id ==> t in store[..i] + store[i + 1..]
  {
    var after := store[..i] + store[i + 1..];
    forall t | t in after
      ensures t.id != store[i].id
    {
      var k :| 0 <= k < |after| && after[k] == t;
      if k < i { assert t == store[k]; } else { assert t == store[k + 1]; }
    }
    forall t | t in store && t.id != store[i].id
      ensures t in after
    {
      var k :| 0 <= k < |store| && store[k] == t;
      if k < i { assert after[k] == t; } else { assert after[k - 1] == t; }
    }
  }

  /** The task `FindOwned` locates, if any. */
  function FoundTask(store: TaskStore, id: TaskId, owner: UserId): Option<Task> {
    match FindOwned(store, id, owner)
    case None => None
    case Some(i) => Some(store[i])
  }

  /** The lookup answers from the first task, or else from the rest. */
  lemma FoundTaskUnfold(store: TaskStore, id: TaskId, owner: UserId)
    requires |store| > 0
    ensures FoundTask(store, id, owner)
         == if store[0].id == id && store[0].owner == owner then Some(store[0]) else FoundTask(store[1..], id, owner)
  {
    assert FirstIndex(store, IdAndOwner(id, owner)) == (
      if IdAndOwner(id, owner)(store[0]) then Some(0)
      else match FirstIndex(store[1..], IdAndOwner(id, owner))
           case None => None
           case Some(i) => Some(i + 1));
  }

  /** The task an owner-scoped lookup finds depends only on the caller's own tasks. */
  lemma {:induction false} FoundTaskSeesOnlyOwnTasks(store: TaskStore, id: TaskId, owner: UserId)
    ensures FoundTask(store, id, owner) == FoundTask(Filter(store, OwnedBy(owner)), id, owner)
  {
    if |store| > 0 {
      var own := Filter(store, OwnedBy(owner));
      var rest := Filter(store[1..], OwnedBy(owner));
      FoundTaskSeesOnlyOwnTasks(store[1..], id, owner);
      FoundTaskUnfold(store, id, owner);
      if store[0].owner == owner {
        assert own == [store[0]] + rest;
        assert own[0] == store[0] && own[1..] == rest;
        FoundTaskUnfold(own, id, owner);
      } else {
        assert own == rest;
      }
    }
  }

  /**
    Other users' tasks are invisible: two stores that hold the same tasks for the
    caller give the caller the same get, update and delete responses, so a task owned
    by someone else answers exactly like an id that does not exist.
  */
  lemma OthersTasksAreInvisible(u: User, id: TaskId, input: TaskInput, parse: DateParser, now: int, s1: TaskStore, s2: TaskStore)
    requires Filter(s1, OwnedBy(u.id)) == Filter(s2, OwnedBy(u.id))
    ensures GetTask(Some(u), id, s1) == GetTask(Some(u), id, s2)
    ensures UpdateTask(Some(u), id, input, parse, now, s1).result == UpdateTask(Some(u), id, input, parse, now, s2).result
    ensures DeleteTask(Some(u), id, s1).result == DeleteTask(Some(u), id, s2).result
  {
    FoundTaskSeesOnlyOwnTasks(s1, id, u.id);
    FoundTaskSeesOnlyOwnTasks(s2, id, u.id);
  }

  /** A task owned by someone else is reported as not found and the store is left as it was. */
  lemma ForeignTaskIsNotFound(u: User, t: Task, input: TaskInput, parse: DateParser, now: int, store: TaskStore)
    requires UniqueTaskIds(store) && t in store && t.owner != u.id
    ensures GetTask(Some(u), t.id, store) == Fail(404, TaskNotFound)
    ensures UpdateTask(Some(u), t.id, input, parse, now, store) == Step(Fail(404, TaskNotFound), store)
    ensures DeleteTask(Some(u), t.id, store) == Step(Fail(404, TaskNotFound), store)
  {
    var k :| 0 <= k < |store| && store[k] == t;
    assert forall x :: x in store && x.id == t.id ==> x == t;
  }

  // ---------------------------------------------------------------- update

  const TitleInvalid := "Title is required and must be less than 200 characters"
  const DescriptionInvalid := "Description is required and must be less than 1000 characters"
  const StatusInvalid := "Invalid status"
  const PriorityInvalid := "Invalid priority"
  const DueDateInvalid := "Invalid due_date format"

  /** The acceptance rule of each update field: absent, or present and acceptable. */
  predicate TitleAcceptable(f: Field) { f.None? || (f.value != "" && |f.value| <= MaxTitleLength) }
  predicate DescriptionAcceptable(f: Field) { f.None? || (f.value != "" && |f.value| <= MaxDescriptionLength) }
  predicate StatusAcceptable(f: Field) { f.None? || f.value in Statuses }
  predicate PriorityAcceptable(f: Field) { f.None? || f.value in Priorities }
  predicate DueDateAcceptable(f: Field, parse: DateParser) { f.None? || f.value == "" || parse(f.value).Some? }

  /** The update checks in the order `update_task` makes them. */
  function UpdateChecks(input: TaskInput, parse: DateParser): seq<(bool, string)> {
    [ (TitleAcceptable(input.title), TitleInvalid),
      (DescriptionAcceptable(input.description), DescriptionInvalid),
      (StatusAcceptable(input.status), StatusInvalid),
      (PriorityAcceptable(input.priority), PriorityInvalid),
      (DueDateAcceptable(input.dueDate, parse), DueDateInvalid) ]
  }

  function ApplyTitle(t: Task, f: Field): (r: Outcome<Task>)
    ensures r.Success? <==> TitleAcceptable(f)
    ensures r.Failure? ==> r == Fail(400, TitleInvalid)
  {
    if f.None? then Success(t)
    else if f.value == "" || |f.value| > MaxTitleLength then Fail(400, TitleInvalid)
    else Success(t.(title := Strip(f.value)))
  }

  function ApplyDescription(t: Task, f: Field): (r: Outcome<Task>)
    ensures r.Success? <==> DescriptionAcceptable(f)
    ensures r.Failure? ==> r == Fail(400, DescriptionInvalid)
  {
    if f.None? then Success(t)
    else if f.value == "" || |f.value| > MaxDescriptionLength then Fail(400, DescriptionInvalid)
    else Success(t.(description := Strip(f.value)))
  }

  /** A recognised status is stored; becoming "completed" stamps `completedAt` only if it is unset. */
  function ApplyStatus(t: Task, f: Field, now: int): (r: Outcome<Task>)
    ensures r.Success? <==> StatusAcceptable(f)
    ensures r.Failure? ==> r == Fail(400, StatusInvalid)
  {
    if f.None? then Success(t)
    else if f.value in Statuses then
      Success(t.(status := f.value,
                 completedAt := if f.value == "completed" && t.completedAt.None? then Some(now) else t.completedAt))
    else Fail(400, StatusInvalid)
  }

  function ApplyPriority(t: Task, f: Field): (r: Outcome<Task>)
    ensures r.Success? <==> PriorityAcceptable(f)
    ensures r.Failure? ==> r == Fail(400, PriorityInvalid)
  {
    if f.None? then Success(t)
    else if f.value in Priorities then Success(t.(priority := f.value))
    else Fail(400, PriorityInvalid)
  }

  /** A present but empty due date clears it. */
  function ApplyDueDate(t: Task, f: Field, parse: DateParser): (r: Outcome<Task>)
    ensures r.Success? <==> DueDateAcceptable(f, parse)
    ensures r.Failure? ==> r == Fail(400, DueDateInvalid)
  {
    if f.None? then Success(t)
    else if f.value == "" then Success(t.(dueDate := None))
    else
      match parse(f.value)
      case None => Fail(400, DueDateInvalid)
      case Some(d) => Success(t.(dueDate := Some(d)))
  }

  /**
    How an accepted update relates the stored task `t` to the updated one `t'`:
    each absent field is unchanged, each present field takes the submitted value,
    and `completedAt` is stamped once and never cleared.
  */
  ghost predicate PartialUpdate(t: Task, input: TaskInput, parse: DateParser, now: int, t': Task) {
    && t'.id == t.id && t'.owner == t.owner && t'.createdAt == t.createdAt && t'.updatedAt == t.updatedAt
    && t'.title == (if input.title.Some? then Strip(input.title.value) else t.title)
    && t'.description == (if input.description.Some? then Strip(input.description.value) else t.description)
    && t'.status == (if input.status.Some? then input.status.value else t.status)
    && t'.priority == (if input.priority.Some? then input.priority.value else t.priority)
    && t'.dueDate == (if input.dueDate.None? then t.dueDate
                      else if input.dueDate.value == "" then None
                      else parse(input.dueDate.value))
    && t'.completedAt == (if t.completedAt.Some? then t.completedAt
                          else if input.status == Some("completed") then Some(now)
                          else None)
  }

  /** The field updates of `update_task`, applied in order; the first invalid field ends it. */
  function UpdateFields(t: Task, input: TaskInput, parse: DateParser, now: int): (r: Outcome<Task>)
    ensures r.Failure? ==> r.error.status == 400
  {
    var t1 :- ApplyTitle(t, input.title);
    var t2 :- ApplyDescription(t1, input.description);
    var t3 :- ApplyStatus(t2, input.status, now);
    var t4 :- ApplyPriority(t3, input.priority);
    ApplyDueDate(t4, input.dueDate, parse)
  }

  /** When every present field is acceptable, the update goes through as a partial update. */
  lemma UpdateFieldsAccepts(t: Task, input: TaskInput, parse: DateParser, now: int)
    requires forall k :: 0 <= k < |UpdateChecks(input, parse)| ==> UpdateChecks(input, parse)[k].0
    ensures UpdateFields(t, input, parse, now).Success?
    ensures PartialUpdate(t, input, parse, now, UpdateFields(t, input, parse, now).value)
  {
    var checks := UpdateChecks(input, parse);
    assert checks[0].0 && checks[1].0 && checks[2].0 && checks[3].0 && checks[4].0;
    var t1 := ApplyTitle(t, input.title).value;
    assert t1 == if input.title.Some? then t.(title := Strip(input.title.value)) else t;
    var t2 := ApplyDescription(t1, input.description).value;
    assert t2 == if input.description.Some? then t1.(description := Strip(input.description.value)) else t1;
    var t3 := ApplyStatus(t2, input.status, now).value;
    assert t3.completedAt == (if t.completedAt.Some? then t.completedAt
                              else if input.status == Some("completed") then Some(now) else None);
    var t4 := ApplyPriority(t3, input.priority).value;
    assert t4 == if input.priority.Some? then t3.(priority := input.priority.value) else t3;
  }

  /**
    An update is accepted exactly when every present field is acceptable; an accepted
    one is a partial update, and a rejected one names the first bad field.
  */
  lemma UpdateFieldsSpec(t: Task, input: TaskInput, parse: DateParser, now: int)
    ensures UpdateFields(t, input, parse, now).Success? <==>
      forall k :: 0 <= k < |UpdateChecks(input, parse)| ==> UpdateChecks(input, parse)[k].0
    ensures UpdateFields(t, input, parse, now).Success? ==>
      PartialUpdate(t, input, parse, now, UpdateFields(t, input, parse, now).value)
    ensures UpdateFields(t, input, parse, now).Failure? ==>
      FirstFailing(UpdateChecks(input, parse)).Some? &&
      UpdateFields(t, input, parse, now) == Fail(400, FirstFailing(UpdateChecks(input, parse)).value)
  {
    var checks := UpdateChecks(input, parse);
    match FirstFailing(checks)
    case None =>
      UpdateFieldsAccepts(t, input, parse, now);
    case Some(m) =>
      var k :| 0 <= k < |checks| && !checks[k].0 && m == checks[k].1 && forall j :: 0 <= j < k ==> checks[j].0;
      UpdateReportsFirstInvalidField(t, input, parse, now, k);
  }

  /**
    `update_task`: the caller's task with only the submitted fields changed and
    `updatedAt` refreshed; any rejection leaves the store exactly as it was.
  */
  function UpdateTask(current: Option<User>, id: TaskId, input: TaskInput, parse: DateParser, now: int, store: TaskStore): (r: Step<Task>)
    ensures r.result.Failure? ==> r.store == store
    ensures current.Some? && (forall t :: t in store ==> !(t.id == id && t.owner == current.value.id)) ==>
      r.result == Fail(404, TaskNotFound)
    ensures current.None? ==> r.result == Fail(401, NotAuthenticated)
    ensures current.Some? && (exists t :: t in store && t.id == id && t.owner == current.value.id) ==>
      && (r.result.Success? <==> forall k :: 0 <= k < |UpdateChecks(input, parse)| ==> UpdateChecks(input, parse)[k].0)
      && (r.result.Failure? ==>
            FirstFailing(UpdateChecks(input, parse)).Some? &&
            r.result == Fail(400, FirstFailing(UpdateChecks(input, parse)).value))
    ensures r.result.Success? ==>
      current.Some? &&
      exists i :: 0 <= i < |store| && store[i].id == id && store[i].owner == current.value.id
                  && r.store == store[i := r.result.value]
                  && PartialUpdate(store[i], input, parse, now, r.result.value.(updatedAt := store[i].updatedAt))
                  && r.result.value.updatedAt == now
  {
    match current
    case None => Step(Fail(401, NotAuthenticated), store)
    case Some(u) =>
      match FindOwned(store, id, u.id)
      case None => Step(Fail(404, TaskNotFound), store)
      case Some(i) =>
        UpdateFieldsSpec(store[i], input, parse, now);
        match UpdateFields(store[i], input, parse, now)
        case Failure(e) => Step(Failure(e), store)
        case Success(t) =>
          var t' := t.(updatedAt := now);
          Step(Success(t'), store[i := t'])
  }

  /** Among several invalid fields, the first in the order title, description, status, priority, due date is reported. */
  lemma UpdateReportsFirstInvalidField(t: Task, input: TaskInput, parse: DateParser, now: int, k: nat)
    requires k < 5 && !UpdateChecks(input, parse)[k].0
    requires forall j :: 0 <= j < k ==> UpdateChecks(input, parse)[j].0
    ensures UpdateFields(t, input, parse, now) == Fail(400, UpdateChecks(input, parse)[k].1)
  {
    var checks := UpdateChecks(input, parse);
    if k == 0 {
      assert !TitleAcceptable(input.title);
    } else if k == 1 {
      assert checks[0].0;
      assert !DescriptionAcceptable(input.description);
    } else if k == 2 {
      assert checks[0].0 && checks[1].0;
      assert !StatusAcceptable(input.status);
    } else if k == 3 {
      assert checks[0].0 && checks[1].0 && checks[2].0;
      assert !PriorityAcceptable(input.priority);
    } else {
      assert checks[0].0 && checks[1].0 && checks[2].0 && checks[3].0;
      assert !DueDateAcceptable(input.dueDate, parse);
    }
  }

  /**
    Marking a task completed is idempotent: a second "completed" update keeps the
    `completedAt` of the first, whenever it happens.
  */
  lemma CompletionIsIdempotent(u: User, id: TaskId, parse: DateParser, now1: int, now2: int, store: TaskStore)
    requires UniqueTaskIds(store)
    requires
      var done := TaskInput(None, None, Some("completed"), None, None);
      UpdateTask(Some(u), id, done, parse, now1, store).result.Success?
    ensures
      var done := TaskInput(None, None, Some("completed"), None, None);
      var first := UpdateTask(Some(u), id, done, parse, now1, store);
      var second := UpdateTask(Some(u), id, done, parse, now2, first.store);
      && second.result.Success?
      && second.result.value.completedAt == first.result.value.completedAt
      && first.result.value.completedAt.Some?
  {
    var done := TaskInput(None, None, Some("completed"), None, None);
    var first := UpdateTask(Some(u), id, done, parse, now1, store);
    var i :| 0 <= i < |store| && store[i].id == id && store[i].owner == u.id && first.store == store[i := first.result.value];
    var j := FindOwned(first.store, id, u.id);
    assert first.store[i].id == id && first.store[i].owner == u.id;
    assert j.Some?;
    assert first.store[j.value].id == store[j.value].id;
    assert "completed" in Statuses;
  }

  // ---------------------------------------------------------------- stats

  /** Past due and still open: the overdue query of `get_task_stats`. */
  predicate Overdue(t: Task, now: int) {
    t.dueDate.Some? && t.dueDate.value < now && t.status != "completed" && t.status != "cancelled"
  }

  function OwnedWithStatus(owner: UserId, status: string): Task -> bool {
    (t: Task) => t.owner == owner && t.status == status
  }

  function OwnedOverdue(owner: UserId, now: int): Task -> bool {
    (t: Task) => t.owner == owner && Overdue(t, now)
  }

  datatype TaskStats = TaskStats(total: nat, pending: nat, inProgress: nat, completed: nat, cancelled: nat, overdue: nat)

  /** `get_task_stats`: counts over the caller's tasks only. */
  function GetTaskStats(current: Option<User>, now: int, store: TaskStore): (r: Outcome<TaskStats>)
    ensures r.Success? <==> current.Some?
    ensures r.Failure? ==> r.error == ApiError(401, NotAuthenticated)
    ensures r.Success? ==>
      var s := r.value;
      var owner := current.value.id;
      && s.total == Count(store, OwnedBy(owner))
      && s.pending == Count(store, OwnedWithStatus(owner, "pending"))
      && s.inProgress == Count(store, OwnedWithStatus(owner, "in_progress"))
      && s.completed == Count(store, OwnedWithStatus(owner, "completed"))
      && s.cancelled == Count(store, OwnedWithStatus(owner, "cancelled"))
      && s.overdue == Count(store, OwnedOverdue(owner, now))
      && s.pending <= s.total && s.inProgress <= s.total && s.completed <= s.total
      && s.cancelled <= s.total && s.overdue <= s.total
  {
    match current
    case None => Fail(401, NotAuthenticated)
    case Some(u) =>
      CountImplied(store, OwnedWithStatus(u.id, "pending"), OwnedBy(u.id));
      CountImplied(store, OwnedWithStatus(u.id, "in_progress"), OwnedBy(u.id));
      CountImplied(store, OwnedWithStatus(u.id, "completed"), OwnedBy(u.id));
      CountImplied(store, OwnedWithStatus(u.id, "cancelled"), OwnedBy(u.id));
      CountImplied(store, OwnedOverdue(u.id, now), OwnedBy(u.id));
      Success(TaskStats(
        Count(store, OwnedBy(u.id)),
        Count(store, OwnedWithStatus(u.id, "pending")),
        Count(store, OwnedWithStatus(u.id, "in_progress")),
        Count(store, OwnedWithStatus(u.id, "completed")),
        Count(store, OwnedWithStatus(u.id, "cancelled")),
        Count(store, OwnedOverdue(u.id, now))))
  }

  /** A narrower condition never counts more. */
  lemma {:induction false} CountImplied<T>(s: seq<T>, p: T -> bool, q: T -> bool)
    requires forall x :: p(x) ==> q(x)
    ensures Count(s, p) <= Count(s, q)
  {
    if |s| > 0 {
      CountImplied(s[1..], p, q);
    }
  }

  /** When every task of the caller has a recognised status, the four status counts add up to the total. */
  lemma {:induction false} StatusCountsAddUp(store: TaskStore, owner: UserId)
    requires forall t :: t in store && t.owner == owner ==> t.status in Statuses
    ensures Count(store, OwnedBy(owner))
         == Count(store, OwnedWithStatus(owner, "pending")) + Count(store, OwnedWithStatus(owner, "in_progress"))
          + Count(store, OwnedWithStatus(owner, "completed")) + Count(store, OwnedWithStatus(owner, "cancelled"))
  {
    if |store| > 0 {
      assert forall t :: t in store[1..] ==> t in store;
      StatusCountsAddUp(store[1..], owner);
    }
  }

  /** Overdue tasks are open ones: with recognised statuses, overdue never exceeds pending plus in-progress. */
  lemma {:induction false} OverdueAreOpen(store: TaskStore, owner: UserId, now: int)
    requires forall t :: t in store && t.owner == owner ==> t.status in Statuses
    ensures Count(store, OwnedOverdue(owner, now))
         <= Count(store, OwnedWithStatus(owner, "pending")) + Count(store, OwnedWithStatus(owner, "in_progress"))
  {
    if |store| > 0 {
      assert forall t :: t in store[1..] ==> t in store;
      OverdueAreOpen(store[1..], owner, now);
    }
  }

  /**
    The statistics are consistent: when every task of the caller has a recognised
    status, the four status counts add up to the total, and overdue tasks are among
    the pending and in-progress ones.
  */
  lemma StatsAreConsistent(u: User, now: int, store: TaskStore)
    requires forall t :: t in store && t.owner == u.id ==> t.status in Statuses
    ensures
      var s := GetTaskStats(Some(u), now, store).value;
      && s.pending + s.inProgress + s.completed + s.cancelled == s.total
      && s.overdue <= s.pending + s.inProgress
  {
    StatusCountsAddUp(store, u.id);
    OverdueAreOpen(store, u.id, now);
  }

  /** Replacing one element changes a count by at most that element's contribution. */
  lemma CountAfterReplace<T>(s: seq<T>, i: nat, x: T, p: T -> bool)
    requires i < |s|
    ensures Count(s[i := x], p) + (if p(s[i]) then 1 else 0) == Count(s, p) + (if p(x) then 1 else 0)
  {
    assert s == s[..i] + ([s[i]] + s[i + 1..]);
    assert s[i := x] == s[..i] + ([x] + s[i + 1..]);
    FilterAppend(s[..i], [s[i]] + s[i + 1..], p);
    FilterAppend([s[i]], s[i + 1..], p);
    FilterAppend(s[..i], [x] + s[i + 1..], p);
    FilterAppend([x], s[i + 1..], p);
  }

  /**
    Completing an overdue task takes it out of the overdue count, and the count of
    every other user is unaffected.
  */
  lemma CompletingRemovesFromOverdue(u: User, id: TaskId, parse: DateParser, now: int, store: TaskStore, t: Task)
    requires UniqueTaskIds(store) && t in store && t.id == id && t.owner == u.id && Overdue(t, now)
    ensures
      var after := UpdateTask(Some(u), id, TaskInput(None, None, Some("completed"), None, None), parse, now, store);
      && after.result.Success?
      && GetTaskStats(Some(u), now, after.store).value.overdue + 1 == GetTaskStats(Some(u), now, store).value.overdue
  {
    var done := TaskInput(None, None, Some("completed"), None, None);
    assert "completed" in Statuses;
    var after := UpdateTask(Some(u), id, done, parse, now, store);
    var i := FindOwned(store, id, u.id).value;
    assert store[i] == t by {
      var k :| 0 <= k < |store| && store[k] == t;
    }
    CountAfterReplace(store, i, after.result.value, OwnedOverdue(u.id, now));
  }
}
