/**
 The `useTaskDetailAssignmentHandlers` hook of the task detail view: it picks
 one of two handler sets for the task on screen and routes the four
 assignment operations to that set.

 The two handler sets are owned by other hooks whose code is not part of
 this model. What the routing depends on is which backend a set belongs to
 and whether it defines the two optional collaborator operations, so a set
 is modelled by exactly that. An invocation is recorded as a `Dispatch`.
 */
module AssignmentHandlers {
  import opened Wrappers
  import opened TaskModel
  import TrashTab

  datatype Backend = SupabaseSet | LegacySet

  /** Which of the optional operations a handler set defines. */
  datatype Capabilities = Capabilities(hasAddCollaborator: bool, hasRemoveCollaborator: bool)

  datatype HandlerSet = HandlerSet(backend: Backend, capabilities: Capabilities)

  datatype Person = Person(name: string, avatar: string, fullName: Option<string>)

  datatype Operation =
    | AssignPerson(taskId: string, person: Person)
    | RemoveAssignee(taskId: string)
    | AddCollaborator(taskId: string, person: Person)
    | RemoveCollaborator(taskId: string, index: int)

  /** One invocation of a handler-set operation. */
  datatype Dispatch = Dispatch(backend: Backend, op: Operation)

  /** What the hook returns: its classification and the set its handlers close over. */
  datatype Handlers = Handlers(isSupabaseTask: bool, handlerSet: HandlerSet)

  /** The detail view's test for a canonical task: truthy `taskId` and truthy `updatedAt`. */
  predicate IsSupabaseTask(t: Task) {
    Truthy(t.taskId) && Truthy(t.updatedAt)
  }

  /**
   The hook body: classify the task and select the handler set. The returned
   flag is the classification the selection used.
   */
  function UseAssignmentHandlers(t: Task, supabase: Capabilities, legacy: Capabilities): (h: Handlers)
    ensures h.isSupabaseTask <==>
      t.taskId.Some? && t.taskId.value != "" && t.updatedAt.Some? && t.updatedAt.value != ""
    ensures h.isSupabaseTask <==> h.handlerSet.backend == SupabaseSet
    ensures h.handlerSet.capabilities == if h.isSupabaseTask then supabase else legacy
  {
    var isSupabase := IsSupabaseTask(t);
    Handlers(isSupabase, if isSupabase then HandlerSet(SupabaseSet, supabase) else HandlerSet(LegacySet, legacy))
  }

  /** `handleAssignPerson(taskId, person)`: forwarded once, unchanged, to the selected set. */
  function HandleAssignPerson(h: Handlers, taskId: string, person: Person): (r: seq<Dispatch>)
    ensures |r| == 1 && r[0].backend == h.handlerSet.backend
    ensures r[0].op.AssignPerson? && r[0].op.taskId == taskId && r[0].op.person == person
  {
    [Dispatch(h.handlerSet.backend, AssignPerson(taskId, person))]
  }

  /** `handleRemoveAssignee(taskId)`: forwarded once, unchanged, to the selected set. */
  function HandleRemoveAssignee(h: Handlers, taskId: string): (r: seq<Dispatch>)
    ensures |r| == 1 && r[0].backend == h.handlerSet.backend
    ensures r[0].op.RemoveAssignee? && r[0].op.taskId == taskId
  {
    [Dispatch(h.handlerSet.backend, RemoveAssignee(taskId))]
  }

  /** `handleAddCollaborator(taskId, person)`: forwarded only when the selected set defines it. */
  function HandleAddCollaborator(h: Handlers, taskId: string, person: Person): (r: seq<Dispatch>)
    ensures |r| <= 1
    ensures |r| == 1 <==> h.handlerSet.capabilities.hasAddCollaborator
    ensures |r| == 1 ==> r[0] == Dispatch(h.handlerSet.backend, AddCollaborator(taskId, person))
  {
    if h.handlerSet.capabilities.hasAddCollaborator then
      [Dispatch(h.handlerSet.backend, AddCollaborator(taskId, person))]
    else []
  }

  /** `handleRemoveCollaborator(taskId, idx)`: forwarded only when the selected set defines it. */
  function HandleRemoveCollaborator(h: Handlers, taskId: string, index: int): (r: seq<Dispatch>)
    ensures |r| <= 1
    ensures |r| == 1 <==> h.handlerSet.capabilities.hasRemoveCollaborator
    ensures |r| == 1 ==> r[0] == Dispatch(h.handlerSet.backend, RemoveCollaborator(taskId, index))
  {
    if h.handlerSet.capabilities.hasRemoveCollaborator then
      [Dispatch(h.handlerSet.backend, RemoveCollaborator(taskId, index))]
    else []
  }

  /** Every invocation any of the four handlers makes for one task. */
  function AllDispatches(h: Handlers, taskId: string, person: Person, index: int): seq<Dispatch> {
    HandleAssignPerson(h, taskId, person) + HandleRemoveAssignee(h, taskId)
      + HandleAddCollaborator(h, taskId, person) + HandleRemoveCollaborator(h, taskId, index)
  }

  /**
   One task never mixes the two sets. For a canonical task every handler
   invokes the Supabase set, otherwise the legacy set; assign and remove
   assignee invoke it exactly once with their arguments unchanged, and the
   collaborator handlers invoke it once when the selected set defines the
   operation and not at all otherwise.
   */
  lemma HandlersNeverMix(t: Task, supabase: Capabilities, legacy: Capabilities,
                         taskId: string, person: Person, index: int)
    ensures var h := UseAssignmentHandlers(t, supabase, legacy);
            var expected := if IsSupabaseTask(t) then SupabaseSet else LegacySet;
            var caps := if IsSupabaseTask(t) then supabase else legacy;
            && HandleAssignPerson(h, taskId, person) == [Dispatch(expected, AssignPerson(taskId, person))]
            && HandleRemoveAssignee(h, taskId) == [Dispatch(expected, RemoveAssignee(taskId))]
            && HandleAddCollaborator(h, taskId, person)
               == (if caps.hasAddCollaborator then [Dispatch(expected, AddCollaborator(taskId, person))] else [])
            && HandleRemoveCollaborator(h, taskId, index)
               == (if caps.hasRemoveCollaborator then [Dispatch(expected, RemoveCollaborator(taskId, index))] else [])
            && (forall d :: d in AllDispatches(h, taskId, person, index) ==> d.backend == expected)
  {
  }

  /** The classification reads `taskId` and `updatedAt` and no other field of the task. */
  lemma ClassificationReadsOnlyKeyAndUpdatedAt(t: Task, u: Task, supabase: Capabilities, legacy: Capabilities)
    requires u.taskId == t.taskId && u.updatedAt == t.updatedAt
    ensures UseAssignmentHandlers(u, supabase, legacy) == UseAssignmentHandlers(t, supabase, legacy)
  {
  }

  /**
   The trash view and the detail view classify differently, and neither test
   implies the other: a task with key "T1", a numeric id and no `updatedAt`
   is canonical to the trash and legacy here; a task with key "abc", a
   string id and an `updatedAt` is the reverse.
   */
  lemma ClassifiersDisagree()
    ensures exists t :: TrashTab.IsSupabaseTask(t) && !IsSupabaseTask(t)
    ensures exists t :: !TrashTab.IsSupabaseTask(t) && IsSupabaseTask(t)
  {
    var a := Task(Num(1), Some("T1"), None, None, "todo", false, None, None, None);
    assert TrashTab.IsSupabaseTask(a) && !IsSupabaseTask(a);
    var b := Task(NonNum("x"), Some("abc"), None, None, "todo", false, None, None, Some("2024-01-01"));
    assert !TrashTab.IsSupabaseTask(b) && IsSupabaseTask(b);
  }
}
