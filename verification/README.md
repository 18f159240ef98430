# Task store of the Python task CLI, modelled in Dafny

`task_cli.py` keeps its tasks in a JSON record `{last_id, tasks}`. Every
invocation loads the record, runs one command (add, update, delete, mark a
status, list) and writes the record back only when the command succeeded.
This project models that store without the file I/O: each command is a pure
function from the loaded store to a `Result` holding either the store to be
written or the error the command reports; on an error the store on disk is
the one that was loaded.

- `wrappers.dfy` (`Wrappers`): `Option` and `Result`.
- `text.dfy` (`Text`): Python's `str.strip()` over the code points for which
  `str.isspace()` holds, and `validate_description`.
- `seqs.dfy` (`Seqs`): the list comprehension `[x for x in xs if p(x)]` as
  `Filter`, with the subsequence relation that states order preservation.
- `task_store.dfy` (`TaskStore`): `Status`, `Task`, `Store`, the store
  invariant `Valid`, `find_task`, and every command.
- `session.dfy` (`Session`): one invocation (`Step`: the store left on disk)
  and a run of invocations (`Run`). It carries the properties that span
  several commands: `last_id` never decreases and ids are never reused.

A task's status is a `Status` value, so every stored status is one of the
three tokens by construction. The clock (`current_time`) is a `now`
parameter of the commands that stamp a task; timestamps are strings that
are stored and never inspected. Task ids reach the commands as
already-parsed integers.

Details of the code the model keeps:

- `cmd_list` tests `if status:`, so an empty filter string lists every task,
  as no filter does (`TaskStore.List`).
- `cmd_update` and `change_status` change the first task `find_task`
  returns, while `cmd_delete` drops every task with the id. The two agree
  while ids are distinct, which `Valid` requires.
- The description is validated before the store is loaded, so a bad
  description with an unknown id reports the description error. A bad status
  token with an unknown id reports the status error.
- `validate_description` raises `ValueError`, and `main` does not catch it
  around `cmd_add`/`cmd_update`, so the process ends with a traceback rather
  than a one-line message. The model returns `InvalidDescription`; in both
  cases nothing is written.

## Model

| member | source | states |
|---|---|---|
| Text.Strip | task_cli.py:52 | the result is no longer than `s`, has no whitespace at either end, and is empty exactly when `s` is all whitespace |
| Text.StripTrims | task_cli.py:52 | `Strip(s)` is `s` with only whitespace cut from its two ends |
| Text.StripIsUnique | task_cli.py:52 | any whitespace trimming of `s` with no whitespace left at its ends equals `Strip(s)`, so `StripTrims` and the contract of `Strip` determine it |
| Text.StripIdempotent | task_cli.py:52 | stripping twice is stripping once |
| Text.ValidateDescription | task_cli.py:51-57 | fails with `EmptyDescription` exactly when the input is all whitespace (or empty), with `DescriptionTooLong` exactly when the stripped text exceeds 255 code points; otherwise returns the stripped text, which is non-empty, at most 255 long and has no whitespace at its ends |
| Text.ValidateFixesValid | task_cli.py:51-57 | a description that satisfies the stored-description rules is accepted unchanged |
| Text.ValidateIdempotent | task_cli.py:51-57 | validating an accepted description again yields the same text |
| Seqs.Filter | task_cli.py:109 | the comprehension keeps only elements satisfying the condition, is no longer than its input, and keeps as many elements as the input exactly when every element satisfies the condition |
| Seqs.FilterIsSubsequence | task_cli.py:109 | the selection is a subsequence of the input: relative order is kept |
| Seqs.FilterMultiplicity | task_cli.py:109 | each element occurs in the selection as often as in the input when it satisfies the condition, and not at all otherwise |
| Seqs.FilterKeeps | task_cli.py:109 | every element satisfying the condition is selected |
| Seqs.FilterAppend | task_cli.py:109 | selecting from a concatenation is the concatenation of the selections |
| Seqs.FilterAll | task_cli.py:108-112 | when every element satisfies the condition the comprehension returns the input itself, which is the "length unchanged" case of `cmd_delete` |
| Seqs.FilterDropsFirst | task_cli.py:109 | when only the first element fails the condition, the selection is the rest of the input |
| Seqs.FilterDropsOne | task_cli.py:109 | when only the element at position `i` fails the condition, the selection is the input with that element cut out |
| TaskStore.StatusValues | task_cli.py:15-17 | the three status tokens `todo`, `in-progress`, `done`, in declaration order |
| TaskStore.ParseStatus | task_cli.py:10-17 | a token is accepted exactly when it is one of `Status.values()`, and the accepted status is named by that token |
| TaskStore.ParseStatusName | task_cli.py:10-17 | every status's own name parses back to that status |
| TaskStore.Valid | task_cli.py:71-83 | the store invariant the commands keep: every id lies in `1..last_id`, no two tasks share an id, and every description is one validation accepts |
| TaskStore.FindIndex | task_cli.py:44-48 | returns nothing exactly when no task has the id, otherwise the position of the first task with that id |
| TaskStore.FindTask | task_cli.py:44-48 | returns nothing exactly when no task has the id, otherwise a task with that id standing at the first such position |
| TaskStore.FindTaskUnique | task_cli.py:44-48 | with distinct ids, the task found is the one task carrying the id |
| TaskStore.Add | task_cli.py:67-84 | fails exactly when validation fails, with its error; otherwise `last_id` becomes `last_id + 1`, existing tasks are kept in order and one task is appended with that id, the stripped description, status `todo` and `createdAt == updatedAt == now` |
| TaskStore.AddPreservesValid | task_cli.py:71-83 | adding keeps the store invariant, and the new id is held by no task already in the store |
| TaskStore.Update | task_cli.py:89-101 | a validation failure wins over a missing id; a missing id reports `NotFound`; otherwise only the first matching task changes, only its description (to the stripped text) and `updatedAt` (to `now`), and `last_id` is unchanged |
| TaskStore.UpdatePreservesValid | task_cli.py:99-100 | updating keeps the store invariant and every task's id |
| TaskStore.Delete | task_cli.py:106-116 | fails with `NotFound` exactly when no task has the id; otherwise the result is a strictly shorter subsequence of the tasks in which no task has the id, and `last_id` is unchanged |
| TaskStore.DeleteKeepsOthers | task_cli.py:109 | a delete of an existing id keeps every task whose id differs |
| TaskStore.DeleteMultiplicity | task_cli.py:109 | a delete of an existing id keeps each task with another id exactly as often as the store holds it and drops every task with the id |
| TaskStore.DeletePreservesValid | task_cli.py:109 | deleting keeps the store invariant and no task with the deleted id remains |
| TaskStore.DeleteRemovesOne | task_cli.py:109-116 | with distinct ids, deleting the id at position `i` succeeds and removes exactly that task, leaving the others in place |
| TaskStore.ChangeStatus | task_cli.py:120-134 | a token outside `Status.values()` is refused before the lookup; a missing id reports `NotFound`; otherwise only the first matching task changes, only its status (to the named one) and `updatedAt` (to `now`), and `last_id` is unchanged |
| TaskStore.ChangeStatusPreservesValid | task_cli.py:132-133 | changing a status keeps the store invariant and every task's id |
| TaskStore.MarkTodo | task_cli.py:139-140 | never reports an invalid status; fails exactly when the id is missing; on success only the first matching task changes, its status becoming `todo` and `updatedAt` becoming `now`, while its id, description and `createdAt`, every other task, and `last_id` are unchanged |
| TaskStore.MarkInProgress | task_cli.py:143-144 | never reports an invalid status; fails exactly when the id is missing; on success only the first matching task changes, its status becoming `in-progress` and `updatedAt` becoming `now`, while its id, description and `createdAt`, every other task, and `last_id` are unchanged |
| TaskStore.MarkDone | task_cli.py:147-148 | never reports an invalid status; fails exactly when the id is missing; on success only the first matching task changes, its status becoming `done` and `updatedAt` becoming `now`, while its id, description and `createdAt`, every other task, and `last_id` are unchanged |
| TaskStore.List | task_cli.py:158-166 | no filter or an empty one lists every task as stored; a non-empty token outside `Status.values()` is refused; a status token lists a subsequence of the tasks, all with that status |
| TaskStore.ListKeepsMatching | task_cli.py:166 | filtering by a status lists every task that has it |
| TaskStore.ListMultiplicity | task_cli.py:166 | filtering by a status lists each task with that status exactly as often as the store holds it, and no other task |
| TaskStore.ListAfterAdd | task_cli.py:166 | after a successful add (which appends, line 83) the listing by a status is the earlier listing followed by the new task exactly when the status is `todo` |
| TaskStore.ListAbsentStatus | task_cli.py:166 | filtering by a status no task has lists nothing |
| TaskStore.EmptyStoreValid | task_cli.py:25-26 | the store used when there is no file satisfies the invariant |
| Session.Step | task_cli.py:205-267 | one command never lowers `last_id`; only `add` raises it, by exactly one and exactly when the description is valid; a command that keeps `last_id` never adds tasks; `list` leaves the store as loaded |
| Session.FailureKeepsStore | task_cli.py:67-134 | a command refused for an invalid description or for an id no task has leaves the store on disk as it was loaded |
| Session.AddStepKeepsValid | task_cli.py:67-84 | an `add` leaves a valid store valid, whether it succeeds or fails |
| Session.UpdateStepKeepsValid | task_cli.py:89-101 | an `update` leaves a valid store valid, whether it succeeds or fails |
| Session.DeleteStepKeepsValid | task_cli.py:106-116 | a `delete` leaves a valid store valid, whether it succeeds or fails |
| Session.MarkStepKeepsValid | task_cli.py:120-148 | a `mark-*` leaves a valid store valid, whether it succeeds or fails |
| Session.StepPreservesValid | task_cli.py:205-267 | every command leaves a store that satisfies the invariant |
| Session.Run | task_cli.py:205-267 | a run of `n` invocations passes through `n + 1` stores, the first being the one loaded |
| Session.RunStep | task_cli.py:205-267 | each store of a run is the previous one after one invocation, the store written back only on success |
| Session.RunPreservesValid | task_cli.py:67-148 | every store along a run from a valid store is valid |
| Session.RunLastIdStep | task_cli.py:71-82 | one invocation of a run never lowers `last_id`, and raises it by one exactly when it adds a task |
| Session.RunLastIdsNondecreasing | task_cli.py:82 | `last_id` never decreases from one store of a run to the next |
| Session.LastIdMonotone | task_cli.py:82 | `last_id` never decreases between any two stores of a run |
| Session.IdsNeverReused | task_cli.py:71-83 | an id assigned by an add is held by the new task and by no task of any earlier store of the run, deleted ones included |
| Session.AssignedIdsIncrease | task_cli.py:71-83 | two adds in one run assign different ids, the later one the larger |
| Session.AddStep | task_cli.py:67-84 | an `add` with an acceptable description appends a `todo` task with id `last_id + 1` and the stripped text, stamped `now`, and records that id |
| Session.MarkDoneStep | task_cli.py:120-134 | `mark-done` sets the first task with the id to `done` and stamps it, changing nothing else |
| Session.DeleteStep | task_cli.py:106-116 | with distinct ids, `delete` removes exactly the task with the id and keeps the rest in order |
| Session.Walkthrough | task_cli.py:67-166 | add, add, mark-done 1, delete 1, add from an empty store yields ids 1, 2, 3 (the freed id 1 is not reused), keeps task 2 before task 3, and lists no `done` task |

## Left out

- `load_data` and `save_data` (task_cli.py:24-41): file existence check, JSON parsing, the `.bak` rename on a parse error and its warning. The model starts from an in-memory store. A successfully parsed file is not re-validated by the code, so the lemmas assume `Valid` of the loaded store.
- `current_time` (task_cli.py:20-21): wall-clock time; passed in as `now`.
- `parse_task_id` (task_cli.py:60-64): Python's `int()` accepts signs, surrounding whitespace, underscores and non-ASCII digits; ids enter the model as integers.
- `build_parser` and `main` (task_cli.py:179-267): argument parsing. `Session.Command` stands for a command whose arguments are already parsed; usage errors are not modelled, including `main`'s refusal of an empty `add` description before `cmd_add` runs. `Session.Step` models only the dispatch to the commands.
- `print_task` and every printed message (task_cli.py:151-155 and elsewhere), including the "No tasks found" branch of `cmd_list`: output only.
- JSON values of other types in a loaded file (a string id, an unknown status string): the model's `Task` holds a natural id and a `Status`, which is what every command of the code writes.
- Round trip through the file: `Session.Run` hands each invocation the store the previous one left, so it assumes that `save_data` followed by `load_data` gives back the same store. A failed write (for instance `json.dump` raising part-way after `open(..., "w")` has truncated the file) leaves a file that the next `load_data` replaces with an empty store (task_cli.py:31-36); from there ids restart at 1. `Session.IdsNeverReused`, `Session.AssignedIdsIncrease` and `Session.LastIdMonotone` hold only for runs with no such reset.
- Lone surrogates: Python strings may hold them (arguments decoded with `surrogateescape`), Dafny's `char` cannot. Model strings are sequences of Unicode scalar values, and `|s|` is Python's `len(s)` only for those.
