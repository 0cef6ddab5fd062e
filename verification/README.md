# Task bookkeeping of the web client, in Dafny

This project models the client-side bookkeeping the task manager's web client
does on its lists of tasks, and proves properties of that model. It covers three
parts of the client:

- **The trash view** (`TrashTab`). It decides which soft-deleted tasks to list,
  how the search box narrows them, and which tasks count as canonical
  (Supabase-backed). It models the four actions restore, permanent delete, empty
  trash and restore all. Each action is a pure transition on the component's
  local state: the `restoringIds`, `optimisticallyRestored` and
  `optimisticallyDeleted` arrays and the `emptyingTrash` flag. Backend outcomes
  are parameters. The backend calls made and the toasts shown are recorded.
- **The task-operations hook** (`useTaskOperations`). It models the reducer for
  the `task_created` / `task_updated` / `task_deleted` push events and the
  active/archived split of a fetched list. It also models the id-keyed
  mutations that look a task up by its numeric `id` and address the backend by
  its `taskId`, and `getTasksByStatus`.
- **The assignment-handler hook** of the task detail view
  (`useTaskDetailAssignmentHandlers`). It models the test that classifies a
  task as canonical and the routing of the four assignment operations to one
  of two handler sets.

Modules:

| file | module | contents |
|---|---|---|
| `wrappers.dfy` | `Wrappers` | `Option` |
| `seqs.dfy` | `Seqs` | order-preserving `Filter`, `Count`, `Subseq` (sub-sequence), `RemoveAll`, and lemmas about them |
| `text.dfy` | `Text` | JavaScript `toLowerCase` (ASCII), `trim`, `includes`, decimal rendering of integers |
| `task_model.dfy` | `TaskModel` | `Id`, `Task`, `Key` (`id.toString()`), truthiness, `find` / `findIndex` by id |
| `trash_tab.dfy` | `TrashTab` | the trash view |
| `trash_tab_as_written.dfy` | `TrashTabAsWritten` | the trash view's handlers with their undeclared backend calls (see Findings) |
| `task_operations.dfy` | `TaskOperations` | the task-operations hook |
| `assignment_handlers.dfy` | `AssignmentHandlers` | the assignment-handler hook |

## Model

| member | source | states |
|---|---|---|
| TaskModel.FindIndex | client/src/hooks/useTaskOperations.tsx:94 | the result is the position of the first task whose id is strictly equal to the given one, and `None` exactly when no task has that id |
| TaskModel.Find | client/src/components/settings/TrashTab.tsx:74 | the result is `None` exactly when no task has the id; otherwise it is the first task of the list carrying that id |
| TaskModel.KeyOfNumbers | client/src/components/settings/TrashTab.tsx:52 | two numeric ids have the same `toString()` key exactly when they are equal; a numeric id and the string of its digits share a key |
| Text.Lower | client/src/components/settings/TrashTab.tsx:60-62 | `toLowerCase` keeps the length and lower-cases every position; no upper-case ASCII letter survives |
| Text.Trim | client/src/components/settings/TrashTab.tsx:58 | `trim()` returns a contiguous piece of the input such that everything before and after it is whitespace and it has no whitespace at either end; it is empty exactly when the input is blank |
| Text.IncludesSpec | client/src/components/settings/TrashTab.tsx:60-62 | the left-to-right scan `includes` answers true exactly when the needle occurs at some position of the haystack |
| Text.IntDecimalRoundTrip | client/src/components/settings/TrashTab.tsx:52 | reading back the decimal rendering of an integer gives the integer; the rendering starts with `-` exactly for negatives |
| Text.IntToDecimalInjective | client/src/components/settings/TrashTab.tsx:52 | distinct integers render to distinct strings |
| TrashTab.IsSupabaseTaskSpec | client/src/components/settings/TrashTab.tsx:67-70 | a task is canonical exactly when its id is a number and its `taskId` is `T`, one or more digits, then any tail (the pattern is anchored only at the start) |
| TrashTab.DeletedTasks | client/src/components/settings/TrashTab.tsx:49-55 | the listing is an in-order sub-sequence of the fetched tasks; a task is in it exactly when it has a truthy `deletedAt` and its key is in neither optimistic overlay; its length is the number of such tasks |
| TrashTab.FilteredTasks | client/src/components/settings/TrashTab.tsx:57-64 | a blank query gives the listing unchanged; any other query keeps, in order, exactly the tasks whose title, project or `taskId` contains the query ignoring case, and as many as there are such listed tasks |
| TrashTab.SearchIgnoresCase | client/src/components/settings/TrashTab.tsx:59-63 | searching "alp" among a task titled "Alpha" and one titled "Beta" with key "T200" finds only the first |
| TrashTab.RestoreInFlight | client/src/components/settings/TrashTab.tsx:73 | while a restore is outstanding the id is appended to `restoringIds` after its old entries, the bulk buttons are disabled, and both overlays and the emptying flag are unchanged |
| TrashTab.HandleRestore | client/src/components/settings/TrashTab.tsx:72-138 | on every path the id leaves `restoringIds` and other entries keep their order; a found task makes exactly one call, the one for the task `find` returns, a missing one none and no toast; a found task gains an `optimisticallyRestored` entry exactly when its call succeeds; a canonical task gets one update call and a success or error toast; a legacy task gets one `restoreTask` call and a toast only on success |
| TrashTab.RestoreSuccessLeavesTrash | client/src/components/settings/TrashTab.tsx:84-86 | after a successful restore of a found task, no task under its key is listed |
| TrashTab.RestoreFailureKeepsTrash | client/src/components/settings/TrashTab.tsx:105-109 | a failed restore, and an outstanding one, leave the listing exactly as it was |
| TrashTab.RestoreHasNoGuard | client/src/components/settings/TrashTab.tsx:72-74 | a restore of the same task started while the first is still outstanding makes the same single call again; only the row's disabled button prevents it |
| TrashTab.PermanentDeleteInFlight | client/src/components/settings/TrashTab.tsx:146-147 | while a permanent delete is outstanding the key is appended to `optimisticallyDeleted` after its old entries, and `restoringIds`, `optimisticallyRestored` and the emptying flag are unchanged |
| TrashTab.HandlePermanentDelete | client/src/components/settings/TrashTab.tsx:140-159 | a missing task changes nothing; a legacy task gets only the refusal toast; a canonical task gets one delete call, keeps its key hidden on success, and on failure loses every `optimisticallyDeleted` entry under its key and gets the error toast |
| TrashTab.PermanentDeleteFailureRestoresView | client/src/components/settings/TrashTab.tsx:151-153 | a failed permanent delete of a listed task leaves the listing as it was before the click; while outstanding, the task is hidden |
| TrashTab.PermanentDeleteSuccessHidesTask | client/src/components/settings/TrashTab.tsx:147-150 | after a successful permanent delete of a canonical task, no task under its key is listed |
| TrashTab.SupabaseDeleted | client/src/components/settings/TrashTab.tsx:165 | the tasks empty trash deletes are exactly the canonical tasks of the listing, in listing order, as many as the listing has |
| TrashTab.ListedKeysNotYetDeleted | client/src/components/settings/TrashTab.tsx:53 | the key of a listed canonical task is never already in `optimisticallyDeleted`, which is why empty trash's roll-back restores the overlay exactly |
| TrashTab.EmptyTrashInFlight | client/src/components/settings/TrashTab.tsx:164-170 | while the deletes are outstanding the flag is up, the bulk buttons are disabled, `optimisticallyDeleted` is its old entries followed by the keys of the canonical listed tasks in order, and the other two lists are unchanged |
| TrashTab.EmptyTrashInFlightShowsLegacy | client/src/components/settings/TrashTab.tsx:164-170 | while the deletes are outstanding (listed tasks sharing a key being the same task), the trash lists exactly the legacy part of what it listed before, in order |
| TrashTab.HandleEmptyTrash | client/src/components/settings/TrashTab.tsx:161-193 | with nothing listed nothing happens; otherwise one delete per canonical listed task, in listing order, and the flag ends down; if all succeed their keys are appended to `optimisticallyDeleted` and the toast reports their number; if any fails `optimisticallyDeleted` is exactly as before and the error toast shows |
| TrashTab.EmptyTrashSuccessLeavesLegacy | client/src/components/settings/TrashTab.tsx:165-180 | when every delete succeeds (listed tasks sharing a key being the same task), the listing afterwards is exactly the legacy part of the listing before, in order |
| TrashTab.EmptyTrashFailureRestoresView | client/src/components/settings/TrashTab.tsx:181-183 | when any delete fails, the listing is again exactly what it was before the click, including tasks whose own delete succeeded |
| TrashTab.EmptyTrashOnEmptyListIsInert | client/src/components/settings/TrashTab.tsx:162 | with nothing listed there is no canonical task to delete and the handler changes nothing |
| TrashTab.RestoreEach | client/src/components/settings/TrashTab.tsx:223 | restoring a list of ids one after another removes exactly those keys from `restoringIds` and keeps other entries in order; it makes as many calls as there are ids that `find` resolves, none for a missing id, so one per id when all are found |
| TrashTab.RestoreEachCalls | client/src/components/settings/TrashTab.tsx:223 | when every id is found, the i-th call is the restore call for the i-th id's task; when every call succeeds as well, there is one success toast per id |
| TrashTab.RestoreEachOverlay | client/src/components/settings/TrashTab.tsx:86 | after restoring a list of ids, `optimisticallyRestored` keeps its old entries in front, and a key is new in it exactly when it is the key of a found id whose call succeeded |
| TrashTab.RestoreAll | client/src/components/settings/TrashTab.tsx:223 | "Restore all" makes one call per listed task, the i-th being the restore call for the task `find` returns for the i-th listed id; `restoringIds` ends as its old entries minus every listed key, in order; `optimisticallyDeleted` and the emptying flag are unchanged; `optimisticallyRestored` keeps its old entries in front and gains exactly the keys of the listed tasks whose call succeeded; when all succeed every restore shows the success toast |
| TrashTab.RestoreAllEmptiesTrash | client/src/components/settings/TrashTab.tsx:223 | when every restore call of "Restore all" succeeds, the trash lists nothing afterwards |
| TrashTab.ButtonsFollowBusyState | client/src/components/settings/TrashTab.tsx:224-291 | from an idle page nothing is disabled; a restore in flight disables "Restore all", "Empty trash" and the row delete buttons, and the restore button of exactly the rows under its key; an empty trash in flight disables every button; a finished restore or empty trash leaves the bulk buttons enabled again |
| TrashTab.InitialListsSoftDeleted | client/src/components/settings/TrashTab.tsx:16-19 | when the tab mounts every button is enabled and the trash lists exactly the soft-deleted fetched tasks, in fetch order |
| TrashTabAsWritten.RestoreAsWritten | client/src/components/settings/TrashTab.tsx:85 | as written, a restore makes no backend call, records nothing in `optimisticallyRestored`, clears the id from `restoringIds`, and leaves the listing unchanged |
| TrashTabAsWritten.PermanentDeleteAsWritten | client/src/components/settings/TrashTab.tsx:149 | as written, a permanent delete makes no backend call, and a canonical task always gets the error toast |
| TrashTabAsWritten.EmptyTrashAsWritten | client/src/components/settings/TrashTab.tsx:173 | as written, empty trash makes no backend call and leaves the listing unchanged |
| TrashTabAsWritten.AsWrittenNothingLeavesTrash | client/src/components/settings/TrashTab.tsx:85-173 | as written, a listed task is still listed after a restore, a permanent delete or an empty trash |
| TaskOperations.ReplaceMatching | client/src/hooks/useTaskOperations.tsx:27-31 | every entry whose `taskId` equals the payload's becomes the payload, and every other entry stays in its place |
| TaskOperations.HandleMessage | client/src/hooks/useTaskOperations.tsx:17-45 | `archivedTasks` never changes; the task query is invalidated exactly for the three known events; created appends the payload after the unchanged list; updated replaces each entry with a matching `taskId`; deleted keeps, in order, exactly the entries with another `taskId`; any other event changes nothing |
| TaskOperations.CreatedDoesNotDeduplicate | client/src/hooks/useTaskOperations.tsx:21-22 | a created event appends the payload even when an entry with the same `taskId` is already listed |
| TaskOperations.DeleteOfUnknownIsNoop | client/src/hooks/useTaskOperations.tsx:35-38 | a deleted event whose `taskId` no entry carries leaves the lists unchanged |
| TaskOperations.UpdateIsIdempotent | client/src/hooks/useTaskOperations.tsx:26-31 | applying the same update event twice gives the same list as applying it once |
| TaskOperations.DeleteIsIdempotent | client/src/hooks/useTaskOperations.tsx:35-38 | applying the same delete event twice gives the same list as applying it once |
| TaskOperations.DeleteAfterUpdateOrCreate | client/src/hooks/useTaskOperations.tsx:21-38 | an update or a create followed by a delete with the same `taskId` ends where the delete alone ends |
| TaskOperations.SyncFromFetch | client/src/hooks/useTaskOperations.tsx:57-62 | the active list holds exactly the non-archived fetched tasks and the archived list exactly the archived ones, each in fetch order; together they hold every fetched task exactly once |
| TaskOperations.GetTasksByStatus | client/src/hooks/useTaskOperations.tsx:120-122 | the result keeps, in order, exactly the listed tasks with that status |
| TaskOperations.UpdateTaskById | client/src/hooks/useTaskOperations.tsx:93-98 | no mutation exactly when no listed task has the id; otherwise one update of the first such task's `taskId` with the given patch |
| TaskOperations.DeleteTaskHandler | client/src/hooks/useTaskOperations.tsx:100-105 | no mutation exactly when no listed task has the id; otherwise one delete of the first such task's `taskId` |
| TaskOperations.ArchiveTask | client/src/hooks/useTaskOperations.tsx:112-114 | archiving is the update-by-id with `{ archived: true }`: the mutation, when there is one, sets `archived` to true |
| TaskOperations.RestoreDeletedTask | client/src/hooks/useTaskOperations.tsx:107-110 | restoring a deleted task only logs: the lists are unchanged and no mutation is issued |
| AssignmentHandlers.UseAssignmentHandlers | client/src/components/task-detail/hooks/useTaskDetailAssignmentHandlers.ts:19-28 | the task is canonical exactly when both `taskId` and `updatedAt` are present and non-empty; the canonical flag holds exactly when the Supabase set is selected; the selected set's capabilities are that set's |
| AssignmentHandlers.HandleAssignPerson | client/src/components/task-detail/hooks/useTaskDetailAssignmentHandlers.ts:30-32 | exactly one dispatch, to the selected set, of `assignPerson` with the task key and person unchanged |
| AssignmentHandlers.HandleRemoveAssignee | client/src/components/task-detail/hooks/useTaskDetailAssignmentHandlers.ts:33-35 | exactly one dispatch, to the selected set, of `removeAssignee` with the task key unchanged |
| AssignmentHandlers.HandleAddCollaborator | client/src/components/task-detail/hooks/useTaskDetailAssignmentHandlers.ts:36-38 | at most one dispatch, made exactly when the selected set defines the operation, with the arguments unchanged |
| AssignmentHandlers.HandleRemoveCollaborator | client/src/components/task-detail/hooks/useTaskDetailAssignmentHandlers.ts:39-41 | at most one dispatch, made exactly when the selected set defines the operation, with the arguments unchanged |
| AssignmentHandlers.HandlersNeverMix | client/src/components/task-detail/hooks/useTaskDetailAssignmentHandlers.ts:23-41 | every handler dispatches to the Supabase set for a canonical task and to the legacy set otherwise; assign and remove-assignee dispatch exactly once, and each collaborator handler dispatches once or not at all according to the selected set |
| AssignmentHandlers.ClassificationReadsOnlyKeyAndUpdatedAt | client/src/components/task-detail/hooks/useTaskDetailAssignmentHandlers.ts:19 | two tasks that agree on `taskId` and `updatedAt` get the same handlers |
| AssignmentHandlers.ClassifiersDisagree | client/src/components/task-detail/hooks/useTaskDetailAssignmentHandlers.ts:19 | the detail view's canonical test and the trash view's (`TrashTab.tsx` lines 67-70) differ both ways: some task passes only the first and some task passes only the second |

## Left out

- Rendering, routing (`navigate`), toast wording and durations, console logging, and the "30 days" note: display only. Toasts are modelled by their kind and, for empty trash, the reported count.
- React Query: fetching, caching, the mutation objects and `invalidateQueries`. Invalidation is recorded as a flag, fetched data is an input, and a mutation is recorded as a value.
- The websocket transport and URL construction in `useTaskOperations` (I/O); only the message reducer is modelled.
- `createTaskHandler`, `getAllTasks`, `navigateToTask` and `isLoading`/`isConnected` of `useTaskOperations`: they forward to a mutation, log, or return state unchanged, so nothing about them is left to prove.
- `triggerRefresh` (useTaskOperations.tsx lines 128-131): it adds one to the `refreshTrigger` counter and invalidates the task query. The counter is only handed back to consumers, none of which is part of this model, so it is not modelled.
- The handler sets that `useSupabaseTaskAssignments` and the legacy context provide are not part of this model. A set is reduced to its backend and to whether it defines the two optional collaborator operations. A handler set lacking `assignPerson` or `removeAssignee`, which would throw, is not modelled.
- Concurrency: handlers run one at a time, each to completion. The state while one is outstanding is given by the `…InFlight` functions. Interleavings of two outstanding handlers are not modelled.
- TrashTab.RestoreAll: "Restore all" fires the restores without awaiting them; the model runs them one after another in list order, each to completion.
- TrashTab.HandleEmptyTrash: `Promise.all` is modelled by a list of per-call outcomes; the order in which the calls settle is not modelled, since only "all succeeded or not" matters to the handler.
- Values: `null` and `undefined` are both `None`; a task's `id` is always present, either an integer or a string. Non-integer numbers are not modelled.
- TaskModel.Key: numeric ids are unbounded integers rendered in plain decimal. JavaScript numbers are doubles, so this matches only for safe integers (magnitude below 2^53). Beyond that, distinct integers can compare equal, and from 1e21 on `toString` gives exponent form ("1e+21"). Text.IntToDecimal and Text.IntToDecimalInjective carry the same restriction.
- Strings are sequences of Unicode scalar values, while JavaScript strings are UTF-16 code units. Lone surrogates and the code-unit indexing of `includes` on characters outside the Basic Multilingual Plane are not modelled.
- Text.Lower: lower-cases the ASCII letters only; Unicode case mapping is not modelled.
- TaskModel.Key: `toString()` is modelled concretely, so the numeric id 5 and the string id "5" share a key just as in JavaScript. Lemmas that need keys to tell tasks apart assume that listed tasks sharing a key are the same task (TrashTab.KeysIdentify).
- The settings page, dashboard and other consumers of these hooks are outside the modelled core.

Where a reader might expect otherwise, the model follows the code:

- A created event is appended even when its `taskId` is already listed.
- An updated event replaces every entry with that `taskId`.
- A canonical restore is recorded in `optimisticallyRestored` only after the call succeeds.
- The empty-trash roll-back is all or nothing.
- `handleRestore` has no re-entry guard.
- A failed legacy restore is only logged.

## Findings

| source | as written | input that shows it | evidently intended | confidence | as-written member | corrected member |
|---|---|---|---|---|---|---|
| client/src/components/settings/TrashTab.tsx:85 | `updateTaskSupabase` and `restoreTask` (line 113) are called but neither imported nor declared, so the call throws and the catch treats it as a failed restore | restore of any listed task | the call reaches the backend, and a successful restore takes the task out of the trash | medium, not executed: a global definition elsewhere in the application would make the names resolve | TrashTabAsWritten.RestoreAsWritten, TrashTabAsWritten.AsWrittenNothingLeavesTrash | TrashTab.HandleRestore, TrashTab.RestoreSuccessLeavesTrash |
| client/src/components/settings/TrashTab.tsx:149 | `deleteTaskSupabase` is called but neither imported nor declared, so the optimistic hide is always rolled back with an error toast | permanent delete of a listed canonical task | the delete reaches the backend and the task stays hidden | medium, not executed: a global definition elsewhere in the application would make the name resolve | TrashTabAsWritten.PermanentDeleteAsWritten, TrashTabAsWritten.AsWrittenNothingLeavesTrash | TrashTab.HandlePermanentDelete, TrashTab.PermanentDeleteSuccessHidesTask |
| client/src/components/settings/TrashTab.tsx:173 | the same undeclared `deleteTaskSupabase` makes every empty trash with a canonical task listed fail and roll back | empty trash with one canonical task listed | the deletes reach the backend and only the legacy tasks stay listed | medium, not executed: a global definition elsewhere in the application would make the name resolve | TrashTabAsWritten.EmptyTrashAsWritten, TrashTabAsWritten.AsWrittenNothingLeavesTrash | TrashTab.HandleEmptyTrash, TrashTab.EmptyTrashSuccessLeavesLegacy |
