/** Successive invocations of the CLI against one store. Each invocation
    loads the store, runs one command and writes the result back only when
    the command succeeded; `Step` is the store left on disk afterwards and
    `Run` the stores seen along a sequence of invocations. */
module Session {
  import opened Wrappers
  import opened Text
  import TaskStore
  import Seqs

  type Store = TaskStore.Store

  /** A command with its arguments already parsed; task ids are integers. */
  datatype Command =
    | Add(description: string)
    | Update(id: int, description: string)
    | Delete(id: int)
    | MarkTodo(id: int)
    | MarkInProgress(id: int)
    | MarkDone(id: int)
    | List(filter: Option<string>)

  /** One invocation: a command and the wall-clock time it reads. */
  datatype Invocation = Invocation(command: Command, now: TaskStore.Timestamp)

  /** The store on disk after a command that produced `r` from `s`: its
      result when it succeeded, and `s` itself when it failed. */
  function Persisted(s: Store, r: Result<Store, TaskStore.Error>): Store {
    if r.Success? then r.value else s
  }

  /** The store on disk after one invocation. */
  function Step(s: Store, inv: Invocation): (s': Store)
    ensures s'.lastId >= s.lastId
    ensures inv.command.Add? ==>
              (s'.lastId == s.lastId + 1 <==> ValidateDescription(inv.command.description).Success?)
    ensures !inv.command.Add? ==> s'.lastId == s.lastId
    ensures s'.lastId == s.lastId ==> |s'.tasks| <= |s.tasks|
    ensures inv.command.List? ==> s' == s
  {
    match inv.command
    case Add(d) => Persisted(s, TaskStore.Add(s, d, inv.now))
    case Update(id, d) => Persisted(s, TaskStore.Update(s, id, d, inv.now))
    case Delete(id) => Persisted(s, TaskStore.Delete(s, id))
    case MarkTodo(id) => Persisted(s, TaskStore.MarkTodo(s, id, inv.now))
    case MarkInProgress(id) => Persisted(s, TaskStore.MarkInProgress(s, id, inv.now))
    case MarkDone(id) => Persisted(s, TaskStore.MarkDone(s, id, inv.now))
    case List(_) => s
  }

  /** A command that fails writes nothing: an invalid description or an id
      no task has leaves the loaded store as it was. */
  lemma FailureKeepsStore(s: Store, inv: Invocation)
    ensures inv.command.Add? && ValidateDescription(inv.command.description).Failure? ==>
              Step(s, inv) == s
    ensures inv.command.Update? &&
            (ValidateDescription(inv.command.description).Failure? || !TaskStore.HasId(s.tasks, inv.command.id)) ==>
              Step(s, inv) == s
    ensures (inv.command.Delete? || inv.command.MarkTodo? || inv.command.MarkInProgress? || inv.command.MarkDone?) &&
            !TaskStore.HasId(s.tasks, inv.command.id) ==>
              Step(s, inv) == s
  {
  }

  /** An `add` invocation keeps the invariant. */
  lemma AddStepKeepsValid(s: Store, inv: Invocation)
    requires TaskStore.Valid(s) && inv.command.Add?
    ensures TaskStore.Valid(Step(s, inv))
  {
    if TaskStore.Add(s, inv.command.description, inv.now).Success? {
      TaskStore.AddPreservesValid(s, inv.command.description, inv.now);
    }
  }

  /** An `update` invocation keeps the invariant. */
  lemma UpdateStepKeepsValid(s: Store, inv: Invocation)
    requires TaskStore.Valid(s) && inv.command.Update?
    ensures TaskStore.Valid(Step(s, inv))
  {
    if TaskStore.Update(s, inv.command.id, inv.command.description, inv.now).Success? {
      TaskStore.UpdatePreservesValid(s, inv.command.id, inv.command.description, inv.now);
    }
  }

  /** A `delete` invocation keeps the invariant. */
  lemma DeleteStepKeepsValid(s: Store, inv: Invocation)
    requires TaskStore.Valid(s) && inv.command.Delete?
    ensures TaskStore.Valid(Step(s, inv))
  {
    if TaskStore.Delete(s, inv.command.id).Success? {
      TaskStore.DeletePreservesValid(s, inv.command.id);
    }
  }

  /** A `mark-*` invocation keeps the invariant. */
  lemma MarkStepKeepsValid(s: Store, inv: Invocation)
    requires TaskStore.Valid(s)
    requires inv.command.MarkTodo? || inv.command.MarkInProgress? || inv.command.MarkDone?
    ensures TaskStore.Valid(Step(s, inv))
  {
    var st := match inv.command
      case MarkTodo(_) => TaskStore.Todo
      case MarkInProgress(_) => TaskStore.InProgress
      case _ => TaskStore.Done;
    var r := TaskStore.ChangeStatus(s, inv.command.id, TaskStore.StatusName(st), inv.now);
    assert Step(s, inv) == Persisted(s, r);
    if r.Success? {
      TaskStore.ChangeStatusPreservesValid(s, inv.command.id, TaskStore.StatusName(st), inv.now);
    }
  }

  /** Every invocation leaves a store that satisfies the invariant. */
  lemma StepPreservesValid(s: Store, inv: Invocation)
    requires TaskStore.Valid(s)
    ensures TaskStore.Valid(Step(s, inv))
  {
    match inv.command
    case Add(_) => AddStepKeepsValid(s, inv);
    case Update(_, _) => UpdateStepKeepsValid(s, inv);
    case Delete(_) => DeleteStepKeepsValid(s, inv);
    case List(_) =>
    case _ => MarkStepKeepsValid(s, inv);
  }

  /** The stores seen along `invs`, starting from `s`: entry `k + 1` is the
      store after the `k`-th invocation. */
  function Run(s: Store, invs: seq<Invocation>): (r: seq<Store>)
    ensures |r| == |invs| + 1 && r[0] == s
    decreases |invs|
  {
    if |invs| == 0 then [s]
    else [s] + Run(Step(s, invs[0]), invs[1..])
  }

  /** Entry `k + 1` of a run is entry `k` after invocation `k`. */
  lemma {:induction false} RunStep(s: Store, invs: seq<Invocation>, k: nat)
    requires k < |invs|
    ensures Run(s, invs)[k + 1] == Step(Run(s, invs)[k], invs[k])
    decreases k
  {
    if k != 0 {
      var s' := Step(s, invs[0]);
      RunStep(s', invs[1..], k - 1);
      assert Run(s, invs)[k + 1] == Run(s', invs[1..])[k];
      assert Run(s, invs)[k] == Run(s', invs[1..])[k - 1];
    }
  }

  /** The invariant holds in every store along a run from a valid store. */
  lemma {:induction false} RunPreservesValid(s: Store, invs: seq<Invocation>, k: nat)
    requires TaskStore.Valid(s) && k <= |invs|
    ensures TaskStore.Valid(Run(s, invs)[k])
  {
    if k != 0 {
      RunPreservesValid(s, invs, k - 1);
      RunStep(s, invs, k - 1);
      StepPreservesValid(Run(s, invs)[k - 1], invs[k - 1]);
    }
  }

  /** Invocation `k` of `invs` adds a task with an acceptable description. */
  predicate AddsTask(invs: seq<Invocation>, k: nat)
    requires k < |invs|
  {
    invs[k].command.Add? && ValidateDescription(invs[k].command.description).Success?
  }

  /** One invocation of a run never lowers `lastId`, and raises it by one
      exactly when it adds a task. */
  lemma RunLastIdStep(s: Store, invs: seq<Invocation>, k: nat)
    requires k < |invs|
    ensures Run(s, invs)[k].lastId <= Run(s, invs)[k + 1].lastId
    ensures Run(s, invs)[k + 1].lastId == Run(s, invs)[k].lastId + 1 <==> AddsTask(invs, k)
  {
    RunStep(s, invs, k);
  }

  /** `lastId` never decreases from one store of `r` to the next. */
  predicate LastIdsNondecreasing(r: seq<Store>) {
    forall i :: 0 < i < |r| ==> r[i - 1].lastId <= r[i].lastId
  }

  /** In such a sequence `lastId` never decreases between any two stores. */
  lemma {:induction false} NondecreasingBetween(r: seq<Store>, j: nat, k: nat)
    requires LastIdsNondecreasing(r) && j <= k < |r|
    ensures r[j].lastId <= r[k].lastId
    decreases k
  {
    if j < k {
      NondecreasingBetween(r, j, k - 1);
    }
  }

  /** The stores of a run never lower `lastId`. */
  lemma RunLastIdsNondecreasing(s: Store, invs: seq<Invocation>)
    ensures LastIdsNondecreasing(Run(s, invs))
  {
    forall i | 0 < i < |Run(s, invs)|
      ensures Run(s, invs)[i - 1].lastId <= Run(s, invs)[i].lastId
    {
      RunLastIdStep(s, invs, i - 1);
    }
  }

  /** `lastId` never decreases along a run. */
  lemma LastIdMonotone(s: Store, invs: seq<Invocation>, j: nat, k: nat)
    requires j <= k <= |invs|
    ensures Run(s, invs)[j].lastId <= Run(s, invs)[k].lastId
  {
    RunLastIdsNondecreasing(s, invs);
    NondecreasingBetween(Run(s, invs), j, k);
  }

  /** When invocation `k` adds a task, the id it assigns is `lastId + 1`; the
      new task holds it afterwards, and no task of any earlier store of the
      run held it, deleted tasks included. */
  lemma IdsNeverReused(s: Store, invs: seq<Invocation>, j: nat, k: nat)
    requires TaskStore.Valid(s)
    requires j <= k < |invs| && AddsTask(invs, k)
    ensures Run(s, invs)[k + 1].lastId == Run(s, invs)[k].lastId + 1
    ensures TaskStore.HasId(Run(s, invs)[k + 1].tasks, Run(s, invs)[k + 1].lastId)
    ensures !TaskStore.HasId(Run(s, invs)[j].tasks, Run(s, invs)[k + 1].lastId)
  {
    var before := Run(s, invs)[k];
    var inv := invs[k];
    RunStep(s, invs, k);
    var after := TaskStore.Add(before, inv.command.description, inv.now).value;
    assert Run(s, invs)[k + 1] == after;
    assert after.tasks[|before.tasks|].id == after.lastId;
    RunPreservesValid(s, invs, j);
    LastIdMonotone(s, invs, j, k);
  }

  /** Two invocations of a run that each add a task assign different ids, the
      later one the larger. */
  lemma AssignedIdsIncrease(s: Store, invs: seq<Invocation>, j: nat, k: nat)
    requires j < k < |invs| && AddsTask(invs, j) && AddsTask(invs, k)
    ensures Run(s, invs)[j + 1].lastId < Run(s, invs)[k + 1].lastId
  {
    LastIdMonotone(s, invs, j + 1, k);
    RunLastIdStep(s, invs, k);
  }

  /** An `add` with an acceptable description appends a `todo` task with the
      next id and records that id. */
  lemma AddStep(s: Store, d: string, now: TaskStore.Timestamp)
    requires ValidateDescription(d).Success?
    ensures Step(s, Invocation(Add(d), now)) ==
              TaskStore.Store(s.lastId + 1, s.tasks + [TaskStore.Task(s.lastId + 1, Strip(d), TaskStore.Todo, now, now)])
  {
  }

  /** `mark-done` sets the status of the first task with the id and stamps it. */
  lemma MarkDoneStep(s: Store, id: int, i: nat, now: TaskStore.Timestamp)
    requires TaskStore.IsFirstWithId(s.tasks, id, i)
    ensures Step(s, Invocation(MarkDone(id), now)) ==
              s.(tasks := s.tasks[i := s.tasks[i].(status := TaskStore.Done, updatedAt := now)])
  {
    assert TaskStore.FindIndex(s.tasks, id) == Some(i);
    TaskStore.ParseStatusName(TaskStore.Done);
  }

  /** With distinct ids, `delete` cuts out the one task with the id. */
  lemma DeleteStep(s: Store, i: nat, now: TaskStore.Timestamp)
    requires TaskStore.DistinctIds(s.tasks) && i < |s.tasks|
    ensures Step(s, Invocation(Delete(s.tasks[i].id), now)) ==
              s.(tasks := s.tasks[..i] + s.tasks[i + 1..])
  {
    TaskStore.DeleteRemovesOne(s, i);
  }

  /** A session from an empty store: add two tasks, finish the first, delete
      it, add a third. The third task gets id 3, not the freed id 1, the
      surviving tasks keep their insertion order, and listing `done` tasks
      finds none. */
  lemma Walkthrough(d1: string, d2: string, d3: string,
                    t1: TaskStore.Timestamp, t2: TaskStore.Timestamp, t3: TaskStore.Timestamp,
                    t4: TaskStore.Timestamp, t5: TaskStore.Timestamp)
    requires ValidDescription(d1) && ValidDescription(d2) && ValidDescription(d3)
    ensures
      var s1 := Step(TaskStore.EmptyStore, Invocation(Add(d1), t1));
      var s2 := Step(s1, Invocation(Add(d2), t2));
      var s3 := Step(s2, Invocation(MarkDone(1), t3));
      var s4 := Step(s3, Invocation(Delete(1), t4));
      var s5 := Step(s4, Invocation(Add(d3), t5));
      && s2.tasks == [TaskStore.Task(1, d1, TaskStore.Todo, t1, t1),
                      TaskStore.Task(2, d2, TaskStore.Todo, t2, t2)]
      && s3.tasks == [TaskStore.Task(1, d1, TaskStore.Done, t1, t3), s2.tasks[1]]
      && s4 == TaskStore.Store(2, [s2.tasks[1]])
      && s5 == TaskStore.Store(3, [s2.tasks[1], TaskStore.Task(3, d3, TaskStore.Todo, t5, t5)])
      && TaskStore.List(s5, Some("done")) == Success([])
      && TaskStore.List(s5, None) == Success(s5.tasks)
  {
    ValidateFixesValid(d1);
    ValidateFixesValid(d2);
    ValidateFixesValid(d3);
    var a := TaskStore.Task(1, d1, TaskStore.Todo, t1, t1);
    var b := TaskStore.Task(2, d2, TaskStore.Todo, t2, t2);
    var c := TaskStore.Task(3, d3, TaskStore.Todo, t5, t5);
    var a' := a.(status := TaskStore.Done, updatedAt := t3);
    AddStep(TaskStore.EmptyStore, d1, t1);
    assert TaskStore.EmptyStore.tasks + [a] == [a];
    var s1 := Step(TaskStore.EmptyStore, Invocation(Add(d1), t1));
    assert s1 == TaskStore.Store(1, [a]);
    AddStep(s1, d2, t2);
    assert [a] + [b] == [a, b];
    var s2 := Step(s1, Invocation(Add(d2), t2));
    assert s2 == TaskStore.Store(2, [a, b]);
    MarkDoneStep(s2, 1, 0, t3);
    assert [a, b][0 := a'] == [a', b];
    var s3 := Step(s2, Invocation(MarkDone(1), t3));
    assert s3 == TaskStore.Store(2, [a', b]);
    DeleteStep(s3, 0, t4);
    assert [a', b][..0] + [a', b][1..] == [b];
    var s4 := Step(s3, Invocation(Delete(1), t4));
    assert s4 == TaskStore.Store(2, [b]);
    AddStep(s4, d3, t5);
    assert [b] + [c] == [b, c];
    TaskStore.ListAbsentStatus(TaskStore.Store(3, [b, c]), TaskStore.Done);
  }
}
