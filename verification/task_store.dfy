/** The task store of the task CLI: a record `{last_id, tasks}` and the
    commands that read and change it. Every command is a pure function of the
    store loaded before it runs; a command that fails returns an error and
    the store it was given is the one that stays on disk. */
module TaskStore {
  import opened Wrappers
  import opened Text
  import opened Seqs

  /** The status enumeration. */
  datatype Status = Todo | InProgress | Done

  /** The text a status is stored and typed as. */
  function StatusName(s: Status): string {
    match s
    case Todo => "todo"
    case InProgress => "in-progress"
    case Done => "done"
  }

  /** `Status.values()`, in declaration order. */
  const StatusValues: seq<string> := [StatusName(Todo), StatusName(InProgress), StatusName(Done)]

  /** The status a token names, if it names one (`token in Status.values()`). */
  function ParseStatus(token: string): (r: Option<Status>)
    ensures r.Some? <==> token in StatusValues
    ensures r.Some? ==> StatusName(r.value) == token
  {
    if token == StatusName(Todo) then Some(Todo)
    else if token == StatusName(InProgress) then Some(InProgress)
    else if token == StatusName(Done) then Some(Done)
    else None
  }

  /** Each status is named by its own token and by no other status's. */
  lemma ParseStatusName(s: Status)
    ensures ParseStatus(StatusName(s)) == Some(s)
  {
  }

  /** Timestamps (`current_time()`, ISO-8601 text) are only stored, never
      inspected. */
  type Timestamp = string

  datatype Task = Task(
    id: nat,
    description: string,
    status: Status,
    createdAt: Timestamp,
    updatedAt: Timestamp)

  /** The persisted aggregate: the highest id ever assigned and the tasks in
      insertion order. */
  datatype Store = Store(lastId: nat, tasks: seq<Task>)

  /** The store `load_data` returns when there is no file yet. */
  const EmptyStore: Store := Store(0, [])

  /** What a command reports instead of succeeding. */
  datatype Error =
    | InvalidDescription(reason: DescriptionError)
    | NotFound(id: int)
    | InvalidStatus(token: string)

  /** Some task of `tasks` has id `id`. */
  predicate HasId(tasks: seq<Task>, id: int) {
    exists k :: 0 <= k < |tasks| && tasks[k].id == id
  }

  /** No two tasks share an id. */
  predicate DistinctIds(tasks: seq<Task>) {
    forall i, j :: 0 <= i < j < |tasks| ==> tasks[i].id != tasks[j].id
  }

  /** The store invariant: ids are positive, at most `lastId` and distinct,
      and every description is one validation would accept. */
  predicate Valid(s: Store) {
    && (forall k :: 0 <= k < |s.tasks| ==> 1 <= s.tasks[k].id <= s.lastId)
    && DistinctIds(s.tasks)
    && (forall k :: 0 <= k < |s.tasks| ==> ValidDescription(s.tasks[k].description))
  }

  /** Position `i` holds the first task with id `id`. */
  predicate IsFirstWithId(tasks: seq<Task>, id: int, i: nat) {
    i < |tasks| && tasks[i].id == id && forall k :: 0 <= k < i ==> tasks[k].id != id
  }

  /** Position of the first task with id `id`: the loop of `find_task`. */
  function FindIndex(tasks: seq<Task>, id: int): (r: Option<nat>)
    ensures r.None? <==> !HasId(tasks, id)
    ensures r.Some? ==> IsFirstWithId(tasks, id, r.value)
  {
    if |tasks| == 0 then None
    else if tasks[0].id == id then Some(0)
    else
      match FindIndex(tasks[1..], id)
      case None =>
        assert forall k :: 1 <= k < |tasks| ==> tasks[k] == tasks[1..][k - 1];
        None
      case Some(i) => Some(i + 1)
  }

  /** `find_task`: the first task with id `id`, or nothing. */
  function FindTask(s: Store, id: int): (r: Option<Task>)
    ensures r.None? <==> !HasId(s.tasks, id)
    ensures r.Some? ==> r.value.id == id
    ensures r.Some? ==> exists i: nat :: IsFirstWithId(s.tasks, id, i) && s.tasks[i] == r.value
  {
    match FindIndex(s.tasks, id)
    case None => None
    case Some(i) => Some(s.tasks[i])
  }

  /** With distinct ids the task found is the only one with that id. */
  lemma FindTaskUnique(s: Store, id: int, k: nat)
    requires DistinctIds(s.tasks)
    requires k < |s.tasks| && s.tasks[k].id == id
    ensures FindTask(s, id) == Some(s.tasks[k])
  {
    var i := FindIndex(s.tasks, id).value;
  }

  /** `cmd_add`: validate the description, then append a `todo` task with id
      `lastId + 1`, created and updated at `now`, and record that id as
      `lastId`. */
  function Add(s: Store, description: string, now: Timestamp): (r: Result<Store, Error>)
    ensures ValidateDescription(description).Failure? ==>
              r == Failure(InvalidDescription(ValidateDescription(description).error))
    ensures ValidateDescription(description).Success? ==> r.Success?
    ensures r.Success? ==>
              && r.value.lastId == s.lastId + 1
              && |r.value.tasks| == |s.tasks| + 1
              && r.value.tasks[..|s.tasks|] == s.tasks
    ensures r.Success? ==>
              var t := r.value.tasks[|s.tasks|];
              && t.id == r.value.lastId
              && t.description == Strip(description)
              && ValidDescription(t.description)
              && t.status == Todo
              && t.createdAt == now && t.updatedAt == now
  {
    match ValidateDescription(description)
    case Failure(e) => Failure(InvalidDescription(e))
    case Success(d) =>
      var newId := s.lastId + 1;
      Success(Store(newId, s.tasks + [Task(newId, d, Todo, now, now)]))
  }

  /** `cmd_update`: validate the description before touching the store; then
      replace the description of the first task with id `id` and stamp it
      with `now`. */
  function Update(s: Store, id: int, description: string, now: Timestamp): (r: Result<Store, Error>)
    ensures ValidateDescription(description).Failure? ==>
              r == Failure(InvalidDescription(ValidateDescription(description).error))
    ensures ValidateDescription(description).Success? && !HasId(s.tasks, id) ==>
              r == Failure(NotFound(id))
    ensures r.Success? <==> ValidateDescription(description).Success? && HasId(s.tasks, id)
    ensures r.Success? ==>
              var i := FindIndex(s.tasks, id).value;
              && r.value.lastId == s.lastId
              && |r.value.tasks| == |s.tasks|
              && (forall k :: 0 <= k < |s.tasks| && k != i ==> r.value.tasks[k] == s.tasks[k])
              && r.value.tasks[i].id == s.tasks[i].id == id
              && r.value.tasks[i].status == s.tasks[i].status
              && r.value.tasks[i].createdAt == s.tasks[i].createdAt
              && r.value.tasks[i].description == Strip(description)
              && r.value.tasks[i].updatedAt == now
  {
    match ValidateDescription(description)
    case Failure(e) => Failure(InvalidDescription(e))
    case Success(d) =>
      match FindIndex(s.tasks, id)
      case None => Failure(NotFound(id))
      case Some(i) =>
        Success(s.(tasks := s.tasks[i := s.tasks[i].(description := d, updatedAt := now)]))
  }

  /** The condition of `cmd_delete`'s comprehension: the task's id is not `id`. */
  function IdIsNot(id: int): Task -> bool {
    (t: Task) => t.id != id
  }

  /** The condition of `cmd_list`'s comprehension: the task has status `st`. */
  function StatusIs(st: Status): Task -> bool {
    (t: Task) => t.status == st
  }

  /** `cmd_delete`: keep the tasks whose id is not `id`; if that keeps all of
      them nothing matched and the store is not rewritten. */
  function Delete(s: Store, id: int): (r: Result<Store, Error>)
    ensures r.Failure? <==> !HasId(s.tasks, id)
    ensures r.Failure? ==> r.error == NotFound(id)
    ensures r.Success? ==>
              && r.value.lastId == s.lastId
              && |r.value.tasks| < |s.tasks|
              && IsSubsequence(r.value.tasks, s.tasks)
              && (forall k :: 0 <= k < |r.value.tasks| ==> r.value.tasks[k].id != id)
  {
    var kept := Filter(IdIsNot(id), s.tasks);
    FilterIsSubsequence(IdIsNot(id), s.tasks);
    if |kept| == |s.tasks| then Failure(NotFound(id))
    else Success(s.(tasks := kept))
  }

  /** `change_status`: refuse a token outside `Status.values()` before the
      store is consulted; then set the status of the first task with id `id`
      and stamp it with `now`. */
  function ChangeStatus(s: Store, id: int, token: string, now: Timestamp): (r: Result<Store, Error>)
    ensures token !in StatusValues ==> r == Failure(InvalidStatus(token))
    ensures token in StatusValues && !HasId(s.tasks, id) ==> r == Failure(NotFound(id))
    ensures r.Success? <==> token in StatusValues && HasId(s.tasks, id)
    ensures r.Success? ==>
              var i := FindIndex(s.tasks, id).value;
              && r.value.lastId == s.lastId
              && |r.value.tasks| == |s.tasks|
              && (forall k :: 0 <= k < |s.tasks| && k != i ==> r.value.tasks[k] == s.tasks[k])
              && r.value.tasks[i].id == s.tasks[i].id == id
              && r.value.tasks[i].description == s.tasks[i].description
              && r.value.tasks[i].createdAt == s.tasks[i].createdAt
              && StatusName(r.value.tasks[i].status) == token
              && r.value.tasks[i].updatedAt == now
  {
    match ParseStatus(token)
    case None => Failure(InvalidStatus(token))
    case Some(st) =>
      match FindIndex(s.tasks, id)
      case None => Failure(NotFound(id))
      case Some(i) =>
        Success(s.(tasks := s.tasks[i := s.tasks[i].(status := st, updatedAt := now)]))
  }

  /** `s'` is `s` with the task at position `i` given status `st` and stamped
      `now`: `lastId`, every other task, and that task's id, description and
      `createdAt` are unchanged. */
  predicate StatusSetAt(s: Store, s': Store, i: nat, st: Status, now: Timestamp) {
    && i < |s.tasks|
    && s'.lastId == s.lastId
    && |s'.tasks| == |s.tasks|
    && (forall k :: 0 <= k < |s.tasks| && k != i ==> s'.tasks[k] == s.tasks[k])
    && s'.tasks[i] == s.tasks[i].(status := st, updatedAt := now)
  }

  /** `cmd_mark_todo`, `cmd_mark_in_progress`, `cmd_mark_done`: `change_status`
      with a fixed token, which always passes the status check. */
  function MarkTodo(s: Store, id: int, now: Timestamp): (r: Result<Store, Error>)
    ensures r.Failure? <==> !HasId(s.tasks, id)
    ensures r.Failure? ==> r.error == NotFound(id)
    ensures r.Success? ==>
              && FindIndex(s.tasks, id).Some?
              && StatusSetAt(s, r.value, FindIndex(s.tasks, id).value, Todo, now)
  {
    ChangeStatus(s, id, StatusName(Todo), now)
  }

  function MarkInProgress(s: Store, id: int, now: Timestamp): (r: Result<Store, Error>)
    ensures r.Failure? <==> !HasId(s.tasks, id)
    ensures r.Failure? ==> r.error == NotFound(id)
    ensures r.Success? ==>
              && FindIndex(s.tasks, id).Some?
              && StatusSetAt(s, r.value, FindIndex(s.tasks, id).value, InProgress, now)
  {
    ChangeStatus(s, id, StatusName(InProgress), now)
  }

  function MarkDone(s: Store, id: int, now: Timestamp): (r: Result<Store, Error>)
    ensures r.Failure? <==> !HasId(s.tasks, id)
    ensures r.Failure? ==> r.error == NotFound(id)
    ensures r.Success? ==>
              && FindIndex(s.tasks, id).Some?
              && StatusSetAt(s, r.value, FindIndex(s.tasks, id).value, Done, now)
  {
    ChangeStatus(s, id, StatusName(Done), now)
  }

  /** The selection made by `cmd_list`. A missing or empty filter (Python's
      `if status:`) selects every task; otherwise the filter must be a status
      token and selects the tasks with that status, in insertion order. */
  function List(s: Store, filter: Option<string>): (r: Result<seq<Task>, Error>)
    ensures (filter.None? || filter.value == "") ==> r == Success(s.tasks)
    ensures filter.Some? && filter.value != "" && filter.value !in StatusValues ==>
              r == Failure(InvalidStatus(filter.value))
    ensures filter.Some? && filter.value in StatusValues ==>
              && r.Success?
              && IsSubsequence(r.value, s.tasks)
              && (forall k :: 0 <= k < |r.value| ==> StatusName(r.value[k].status) == filter.value)
  {
    if filter.None? || filter.value == "" then Success(s.tasks)
    else
      match ParseStatus(filter.value)
      case None => Failure(InvalidStatus(filter.value))
      case Some(st) =>
        FilterIsSubsequence(StatusIs(st), s.tasks);
        Success(Filter(StatusIs(st), s.tasks))
  }

  /** Filtering by a status lists every task that has it. */
  lemma ListKeepsMatching(s: Store, st: Status, k: nat)
    requires k < |s.tasks| && s.tasks[k].status == st
    ensures List(s, Some(StatusName(st))).Success?
    ensures s.tasks[k] in List(s, Some(StatusName(st))).value
  {
    ParseStatusName(st);
    FilterKeeps(StatusIs(st), s.tasks, k);
  }

  /** Filtering by a status lists each task that has it exactly as often as
      the store holds it, and no other task. */
  lemma ListMultiplicity(s: Store, st: Status, t: Task)
    ensures List(s, Some(StatusName(st))).Success?
    ensures multiset(List(s, Some(StatusName(st))).value)[t] ==
              if t.status == st then multiset(s.tasks)[t] else 0
  {
    ParseStatusName(st);
    FilterMultiplicity(StatusIs(st), s.tasks, t);
  }

  /** After a successful add, a listing by status is the listing before it,
      followed by the new task when it has that status. */
  lemma ListAfterAdd(s: Store, description: string, now: Timestamp, st: Status)
    requires Add(s, description, now).Success?
    ensures
      var s' := Add(s, description, now).value;
      var t := s'.tasks[|s.tasks|];
      List(s', Some(StatusName(st))) ==
        Success(List(s, Some(StatusName(st))).value + if st == Todo then [t] else [])
  {
    ParseStatusName(st);
    var s' := Add(s, description, now).value;
    var t := s'.tasks[|s.tasks|];
    assert s'.tasks == s.tasks + [t];
    FilterAppend(StatusIs(st), s.tasks, [t]);
    assert Filter(StatusIs(st), [t]) == if st == Todo then [t] else [];
  }

  /** Filtering by a status no task has lists nothing. */
  lemma ListAbsentStatus(s: Store, st: Status)
    requires forall k :: 0 <= k < |s.tasks| ==> s.tasks[k].status != st
    ensures List(s, Some(StatusName(st))) == Success([])
  {
    ParseStatusName(st);
    var r := Filter(StatusIs(st), s.tasks);
    if |r| != 0 {
      FilterIsSubsequence(StatusIs(st), s.tasks);
      SubsequenceMember(r, s.tasks, 0);
    }
  }

  /** The store `load_data` starts from satisfies the invariant. */
  lemma EmptyStoreValid()
    ensures Valid(EmptyStore) && EmptyStore.tasks == []
  {
  }

  /** Adding keeps the invariant, and the id it hands out is held by no task
      already in the store: ids are never reused, whatever was deleted. */
  lemma AddPreservesValid(s: Store, description: string, now: Timestamp)
    requires Valid(s)
    requires Add(s, description, now).Success?
    ensures Valid(Add(s, description, now).value)
    ensures !HasId(s.tasks, Add(s, description, now).value.lastId)
  {
    var s' := Add(s, description, now).value;
    forall k | 0 <= k < |s'.tasks|
      ensures 1 <= s'.tasks[k].id <= s'.lastId
    {
      if k < |s.tasks| {
        assert s'.tasks[k] == s.tasks[k];
      }
    }
    forall i, j | 0 <= i < j < |s'.tasks|
      ensures s'.tasks[i].id != s'.tasks[j].id
    {
      assert s'.tasks[i] == s.tasks[i];
      if j < |s.tasks| {
        assert s'.tasks[j] == s.tasks[j];
      }
    }
    forall k | 0 <= k < |s'.tasks|
      ensures ValidDescription(s'.tasks[k].description)
    {
      if k < |s.tasks| {
        assert s'.tasks[k] == s.tasks[k];
      }
    }
  }

  /** Replacing one task by another with the same id and a valid description
      keeps the invariant. */
  lemma ReplaceKeepsValid(s: Store, i: nat, t: Task)
    requires Valid(s)
    requires i < |s.tasks| && t.id == s.tasks[i].id && ValidDescription(t.description)
    ensures Valid(s.(tasks := s.tasks[i := t]))
  {
  }

  /** Updating a description keeps the invariant and every task's id. */
  lemma UpdatePreservesValid(s: Store, id: int, description: string, now: Timestamp)
    requires Valid(s)
    requires Update(s, id, description, now).Success?
    ensures Valid(Update(s, id, description, now).value)
    ensures forall k :: 0 <= k < |s.tasks| ==> Update(s, id, description, now).value.tasks[k].id == s.tasks[k].id
  {
    var i := FindIndex(s.tasks, id).value;
    ReplaceKeepsValid(s, i, Update(s, id, description, now).value.tasks[i]);
  }

  /** Changing a status keeps the invariant and every task's id. */
  lemma ChangeStatusPreservesValid(s: Store, id: int, token: string, now: Timestamp)
    requires Valid(s)
    requires ChangeStatus(s, id, token, now).Success?
    ensures Valid(ChangeStatus(s, id, token, now).value)
    ensures forall k :: 0 <= k < |s.tasks| ==> ChangeStatus(s, id, token, now).value.tasks[k].id == s.tasks[k].id
  {
    var i := FindIndex(s.tasks, id).value;
    ReplaceKeepsValid(s, i, ChangeStatus(s, id, token, now).value.tasks[i]);
  }

  /** Keeping a subsequence of the tasks keeps the invariant. */
  lemma {:induction false} SubsequenceKeepsValid(s: Store, tasks: seq<Task>)
    requires Valid(s) && IsSubsequence(tasks, s.tasks)
    ensures Valid(s.(tasks := tasks))
    decreases |s.tasks|
  {
    if |tasks| != 0 {
      var rest := s.(tasks := s.tasks[1..]);
      assert Valid(rest);
      if tasks[0] == s.tasks[0] {
        SubsequenceKeepsValid(rest, tasks[1..]);
        forall j | 0 < j < |tasks|
          ensures tasks[0].id != tasks[j].id
        {
          assert tasks[j] == tasks[1..][j - 1];
          SubsequenceMember(tasks[1..], s.tasks[1..], j - 1);
        }
      } else {
        SubsequenceKeepsValid(rest, tasks);
      }
    }
  }

  /** Deleting keeps the invariant; `lastId` is untouched, so the deleted id
      is never handed out again. */
  lemma DeletePreservesValid(s: Store, id: int)
    requires Valid(s)
    requires Delete(s, id).Success?
    ensures Valid(Delete(s, id).value)
    ensures !HasId(Delete(s, id).value.tasks, id)
  {
    SubsequenceKeepsValid(s, Delete(s, id).value.tasks);
  }

  /** A delete keeps every task whose id differs from the one deleted. */
  lemma DeleteKeepsOthers(s: Store, id: int, k: nat)
    requires HasId(s.tasks, id)
    requires k < |s.tasks| && s.tasks[k].id != id
    ensures Delete(s, id).Success? && s.tasks[k] in Delete(s, id).value.tasks
  {
    FilterKeeps(IdIsNot(id), s.tasks, k);
  }

  /** A delete of an existing id keeps each task with another id exactly as
      often as the store holds it, and drops every task with the id. */
  lemma DeleteMultiplicity(s: Store, id: int, t: Task)
    requires HasId(s.tasks, id)
    ensures Delete(s, id).Success?
    ensures multiset(Delete(s, id).value.tasks)[t] == if t.id != id then multiset(s.tasks)[t] else 0
  {
    FilterMultiplicity(IdIsNot(id), s.tasks, t);
  }

  /** With distinct ids, a successful delete removes exactly the one task
      carrying the id and leaves the others in place around the gap. */
  lemma DeleteRemovesOne(s: Store, i: nat)
    requires DistinctIds(s.tasks) && i < |s.tasks|
    ensures Delete(s, s.tasks[i].id) == Success(s.(tasks := s.tasks[..i] + s.tasks[i + 1..]))
  {
    FilterDropsOne(IdIsNot(s.tasks[i].id), s.tasks, i);
  }
}
