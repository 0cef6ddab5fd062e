/**
 The `useTaskOperations` hook: the task lists it keeps, the reducer it runs on
 each websocket push event, the split of a fetched list into active and
 archived tasks, and the lookups that turn a numeric id into a backend
 mutation keyed by `taskId`.
 */
module TaskOperations {
  import opened Wrappers
  import opened Seqs
  import opened TaskModel

  /** The hook's two lists. */
  datatype TaskLists = TaskLists(customTasks: seq<Task>, archivedTasks: seq<Task>)

  /** A websocket message: an event name and a task payload. */
  datatype Message = Message(event: string, data: Task)

  /**
   The effect of one message: the new lists, and whether the hook asks React
   Query to refetch `/api/tasks`.
   */
  datatype Reduced = Reduced(lists: TaskLists, invalidatesTasks: bool)

  const TaskCreated := "task_created"
  const TaskUpdated := "task_updated"
  const TaskDeleted := "task_deleted"

  // ---------------------------------------------------------------- push events

  /**
   `tasks.map(t => t.taskId === payload.taskId ? payload : t)`: every entry
   with the payload's `taskId` (an absent one matches an absent one) becomes
   the payload, every other entry keeps its place.
   */
  function ReplaceMatching(tasks: seq<Task>, payload: Task): (r: seq<Task>)
    ensures |r| == |tasks|
    ensures forall i :: 0 <= i < |tasks| && tasks[i].taskId == payload.taskId ==> r[i] == payload
    ensures forall i :: 0 <= i < |tasks| && tasks[i].taskId != payload.taskId ==> r[i] == tasks[i]
  {
    if |tasks| == 0 then []
    else [if tasks[0].taskId == payload.taskId then payload else tasks[0]] + ReplaceMatching(tasks[1..], payload)
  }

  /** The predicate "has a `taskId` other than `taskId`". */
  function OtherTaskId(taskId: Option<string>): Task -> bool {
    (t: Task) => t.taskId != taskId
  }

  /**
   `handleWebSocketMessage`: created appends, updated replaces, deleted
   removes, anything else is ignored. Only `customTasks` is touched.
   */
  function HandleMessage(lists: TaskLists, msg: Message): (r: Reduced)
    ensures r.lists.archivedTasks == lists.archivedTasks
    ensures r.invalidatesTasks <==> msg.event in {TaskCreated, TaskUpdated, TaskDeleted}
    ensures msg.event == TaskCreated ==>
      var before := lists.customTasks;
      var after := r.lists.customTasks;
      |after| == |before| + 1 && after[..|before|] == before && after[|before|] == msg.data
    ensures msg.event == TaskUpdated ==>
      var before := lists.customTasks;
      var after := r.lists.customTasks;
      && |after| == |before|
      && (forall i :: 0 <= i < |before| ==>
            after[i] == if before[i].taskId == msg.data.taskId then msg.data else before[i])
    ensures msg.event == TaskDeleted ==>
      var before := lists.customTasks;
      var after := r.lists.customTasks;
      && Subseq(after, before)
      && (forall t :: t in after <==> t in before && t.taskId != msg.data.taskId)
      && |after| == Count(before, OtherTaskId(msg.data.taskId))
    ensures msg.event !in {TaskCreated, TaskUpdated, TaskDeleted} ==> r == Reduced(lists, false)
  {
    var tasks := lists.customTasks;
    if msg.event == TaskCreated then
      Reduced(lists.(customTasks := tasks + [msg.data]), true)
    else if msg.event == TaskUpdated then
      Reduced(lists.(customTasks := ReplaceMatching(tasks, msg.data)), true)
    else if msg.event == TaskDeleted then
      Reduced(lists.(customTasks := Filter(tasks, OtherTaskId(msg.data.taskId))), true)
    else
      Reduced(lists, false)
  }

  /** A created event is appended even when a task with the same `taskId` is already listed. */
  lemma CreatedDoesNotDeduplicate(lists: TaskLists, payload: Task, i: nat)
    requires i < |lists.customTasks| && lists.customTasks[i].taskId == payload.taskId
    ensures var after := HandleMessage(lists, Message(TaskCreated, payload)).lists.customTasks;
      && after[i].taskId == payload.taskId
      && after[|after| - 1] == payload
      && i != |after| - 1
  {
  }

  /** A delete event for a `taskId` nobody has leaves the lists exactly as they were. */
  lemma DeleteOfUnknownIsNoop(lists: TaskLists, payload: Task)
    requires forall t :: t in lists.customTasks ==> t.taskId != payload.taskId
    ensures HandleMessage(lists, Message(TaskDeleted, payload)).lists == lists
  {
    FilterKeepsAll(lists.customTasks, OtherTaskId(payload.taskId));
  }

  /** Replaying an update event changes nothing more. */
  lemma {:induction false} UpdateIsIdempotent(tasks: seq<Task>, payload: Task)
    ensures ReplaceMatching(ReplaceMatching(tasks, payload), payload) == ReplaceMatching(tasks, payload)
  {
    if |tasks| > 0 {
      UpdateIsIdempotent(tasks[1..], payload);
    }
  }

  /** Replaying a delete event changes nothing more. */
  lemma DeleteIsIdempotent(tasks: seq<Task>, taskId: Option<string>)
    ensures Filter(Filter(tasks, OtherTaskId(taskId)), OtherTaskId(taskId)) == Filter(tasks, OtherTaskId(taskId))
  {
    FilterKeepsAll(Filter(tasks, OtherTaskId(taskId)), OtherTaskId(taskId));
  }

  /**
   A delete event wipes out whatever earlier update or create events left
   under the same `taskId`: update-then-delete and create-then-delete end
   where the delete alone ends.
   */
  lemma {:induction false} DeleteAfterUpdateOrCreate(tasks: seq<Task>, payload: Task)
    ensures Filter(ReplaceMatching(tasks, payload), OtherTaskId(payload.taskId))
         == Filter(tasks, OtherTaskId(payload.taskId))
    ensures Filter(tasks + [payload], OtherTaskId(payload.taskId))
         == Filter(tasks, OtherTaskId(payload.taskId))
  {
    if |tasks| > 0 {
      DeleteAfterUpdateOrCreate(tasks[1..], payload);
    }
    FilterConcat(tasks, [payload], OtherTaskId(payload.taskId));
  }

  // ---------------------------------------------------------------- fetched list

  function IsActive(t: Task): bool {
    !t.archived
  }

  function IsArchived(t: Task): bool {
    t.archived
  }

  /**
   The effect that runs when the fetched list changes: `customTasks` gets the
   non-archived tasks and `archivedTasks` the archived ones, each in fetch
   order; together they hold every fetched task exactly once.
   */
  function SyncFromFetch(tasks: seq<Task>): (r: TaskLists)
    ensures Subseq(r.customTasks, tasks) && Subseq(r.archivedTasks, tasks)
    ensures forall t :: t in r.customTasks <==> t in tasks && !t.archived
    ensures forall t :: t in r.archivedTasks <==> t in tasks && t.archived
    ensures |r.customTasks| + |r.archivedTasks| == |tasks|
    ensures multiset(r.customTasks) + multiset(r.archivedTasks) == multiset(tasks)
  {
    CountComplement(tasks, IsActive, IsArchived);
    FilterSplitsMultiset(tasks, IsActive, IsArchived);
    TaskLists(Filter(tasks, IsActive), Filter(tasks, IsArchived))
  }

  /** The predicate "has status `status`". */
  function HasStatus(status: string): Task -> bool {
    (t: Task) => t.status == status
  }

  /** `getTasksByStatus(status)`: exactly the listed tasks with that status, in order. */
  function GetTasksByStatus(customTasks: seq<Task>, status: string): (r: seq<Task>)
    ensures Subseq(r, customTasks)
    ensures forall t :: t in r <==> t in customTasks && t.status == status
    ensures forall i :: 0 <= i < |r| ==> r[i].status == status
    ensures |r| == Count(customTasks, HasStatus(status))
  {
    Filter(customTasks, HasStatus(status))
  }

  // ---------------------------------------------------------------- mutations by id

  /** The fields of a `Partial<Task>` update the model carries. */
  datatype Patch = Patch(archived: Option<bool>, status: Option<string>, title: Option<string>, project: Option<string>)

  /** `{ archived: true }`. */
  const ArchivePatch := Patch(Some(true), None, None, None)

  /** A mutation the hook hands to React Query, keyed by the task's `taskId`. */
  datatype Mutation = UpdateTask(taskId: Option<string>, updates: Patch) | DeleteTask(taskId: Option<string>)

  /**
   `updateTaskById(id, updates)`: no mutation when no listed task has that id;
   otherwise one update of the FIRST such task's `taskId`.
   */
  function UpdateTaskById(customTasks: seq<Task>, id: Id, updates: Patch): (r: Option<Mutation>)
    ensures r.None? <==> forall t :: t in customTasks ==> t.id != id
    ensures r.Some? ==> exists i :: && 0 <= i < |customTasks|
                                    && customTasks[i].id == id
                                    && (forall j :: 0 <= j < i ==> customTasks[j].id != id)
                                    && r.value == UpdateTask(customTasks[i].taskId, updates)
  {
    match FindIndex(customTasks, id)
    case None => None
    case Some(i) => Some(UpdateTask(customTasks[i].taskId, updates))
  }

  /**
   `deleteTask(id)`: no mutation when no listed task has that id; otherwise one
   delete of the FIRST such task's `taskId`.
   */
  function DeleteTaskHandler(customTasks: seq<Task>, id: Id): (r: Option<Mutation>)
    ensures r.None? <==> forall t :: t in customTasks ==> t.id != id
    ensures r.Some? ==> exists i :: && 0 <= i < |customTasks|
                                    && customTasks[i].id == id
                                    && (forall j :: 0 <= j < i ==> customTasks[j].id != id)
                                    && r.value == DeleteTask(customTasks[i].taskId)
  {
    match FindIndex(customTasks, id)
    case None => None
    case Some(i) => Some(DeleteTask(customTasks[i].taskId))
  }

  /** `archiveTask(id)` is `updateTaskById(id, { archived: true })` and nothing else. */
  function ArchiveTask(customTasks: seq<Task>, id: Id): (r: Option<Mutation>)
    ensures r == UpdateTaskById(customTasks, id, ArchivePatch)
    ensures r.Some? ==> r.value.UpdateTask? && r.value.updates.archived == Some(true)
  {
    UpdateTaskById(customTasks, id, ArchivePatch)
  }

  /** `restoreDeletedTask(id)` only logs: the lists stay as they are and no mutation is issued. */
  function RestoreDeletedTask(lists: TaskLists, id: Id): (r: (TaskLists, Option<Mutation>))
    ensures r.0 == lists && r.1.None?
  {
    (lists, None)
  }
}
