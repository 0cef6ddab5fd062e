/**
 The settings page's trash view (`TrashTab`): which tasks it lists, how the
 search box narrows them, and how restore, permanent delete, empty trash and
 restore all move its local bookkeeping.

 The component's local state is the tuple `TrashState`. The three id lists
 are kept as JavaScript arrays (order and repeats included) of `id.toString()`
 keys. Each handler is a pure transition from the state before the click to
 the state after every backend call it makes has settled. The outcome of each
 call is a parameter: `true` when the awaited call resolves (or the
 synchronous call returns), `false` when it throws or rejects. For the
 handlers that await, the state in between is given by a separate
 `...InFlight` function.
 */
module TrashTab {
  import opened Wrappers
  import opened Seqs
  import opened Text
  import opened TaskModel

  datatype TrashState = TrashState(
    restoringIds: seq<string>,
    optimisticallyRestored: seq<string>,
    optimisticallyDeleted: seq<string>,
    emptyingTrash: bool)

  /** The state when the tab mounts. */
  const Initial := TrashState([], [], [], false)

  // ---------------------------------------------------------------- classification

  /** The regular expression `/^T\d+/`: a `T` and at least one ASCII digit at the start, anything after. */
  predicate HasTaskKeyShape(s: string) {
    |s| >= 2 && s[0] == 'T' && IsDigit(s[1])
  }

  /** `s` is `"T"`, then a non-empty run of digits, then an arbitrary tail. */
  ghost predicate SplitsAsTaskKey(s: string, digits: string, rest: string) {
    |digits| >= 1 && AllDigits(digits) && s == "T" + digits + rest
  }

  /** The trash view's test for a task owned by the canonical (Supabase) backend. */
  predicate IsSupabaseTask(t: Task) {
    t.taskId.Some? && HasTaskKeyShape(t.taskId.value) && t.id.Num?
  }

  /**
   A task is canonical exactly when its id is a number and its `taskId` is a
   string that begins with `T` and one or more digits; trailing characters of
   any kind are allowed, because the pattern is anchored only at the start.
   */
  lemma IsSupabaseTaskSpec(t: Task)
    ensures IsSupabaseTask(t) <==>
      && t.id.Num?
      && t.taskId.Some?
      && exists digits, rest :: SplitsAsTaskKey(t.taskId.value, digits, rest)
  {
    if t.taskId.Some? {
      var s := t.taskId.value;
      if HasTaskKeyShape(s) {
        assert SplitsAsTaskKey(s, s[1..2], s[2..]);
      }
      if exists digits, rest :: SplitsAsTaskKey(s, digits, rest) {
        var digits, rest :| SplitsAsTaskKey(s, digits, rest);
        assert s[1] == digits[0];
      }
    }
  }

  // ---------------------------------------------------------------- the listed tasks

  /** A task the trash lists: soft-deleted and in neither optimistic overlay. */
  predicate Trashed(restored: seq<string>, deleted: seq<string>, t: Task) {
    Truthy(t.deletedAt) && Key(t.id) !in restored && Key(t.id) !in deleted
  }

  function ShownInTrash(restored: seq<string>, deleted: seq<string>): Task -> bool {
    t => Trashed(restored, deleted, t)
  }

  /**
   The `deletedTasks` memo: the soft-deleted tasks, in fetch order, minus the
   ones the overlays have already restored or deleted.
   */
  function DeletedTasks(allTasks: seq<Task>, st: TrashState): (r: seq<Task>)
    ensures Subseq(r, allTasks)
    ensures forall t :: t in r <==>
      && t in allTasks
      && Truthy(t.deletedAt)
      && Key(t.id) !in st.optimisticallyRestored
      && Key(t.id) !in st.optimisticallyDeleted
    ensures forall i :: 0 <= i < |r| ==> Trashed(st.optimisticallyRestored, st.optimisticallyDeleted, r[i])
    ensures |r| == Count(allTasks, ShownInTrash(st.optimisticallyRestored, st.optimisticallyDeleted))
  {
    Filter(allTasks, ShownInTrash(st.optimisticallyRestored, st.optimisticallyDeleted))
  }

  // ---------------------------------------------------------------- search

  /** The search test of one row against an already lower-cased query. */
  predicate MatchesSearch(t: Task, needle: string) {
    || Includes(Lower(t.title.GetOr("")), needle)
    || Includes(Lower(t.project.GetOr("")), needle)
    || Includes(Lower(t.taskId.GetOr("")), needle)
  }

  function MatchingSearch(needle: string): Task -> bool {
    t => MatchesSearch(t, needle)
  }

  /** The lower-cased field (an absent one reads as `""`) contains the lower-cased query somewhere. */
  ghost predicate FieldHit(field: Option<string>, query: string) {
    exists i :: OccursAt(Lower(field.GetOr("")), Lower(query), i)
  }

  /** The row's title, project or `taskId` contains the query, ignoring case. */
  ghost predicate SearchHit(t: Task, query: string) {
    FieldHit(t.title, query) || FieldHit(t.project, query) || FieldHit(t.taskId, query)
  }

  ghost function SearchHits(query: string): Task -> bool {
    t => SearchHit(t, query)
  }

  lemma MatchesSearchMeansHit(query: string)
    ensures forall t :: MatchesSearch(t, Lower(query)) <==>
      FieldHit(t.title, query) || FieldHit(t.project, query) || FieldHit(t.taskId, query)
  {
    forall t: Task
      ensures MatchesSearch(t, Lower(query)) <==>
        FieldHit(t.title, query) || FieldHit(t.project, query) || FieldHit(t.taskId, query)
    {
      IncludesSpec(Lower(t.title.GetOr("")), Lower(query));
      IncludesSpec(Lower(t.project.GetOr("")), Lower(query));
      IncludesSpec(Lower(t.taskId.GetOr("")), Lower(query));
    }
  }

  /**
   The `filteredTasks` memo. A blank query (empty or whitespace only) lists the
   deleted tasks unchanged; any other query keeps, in order, the tasks whose
   title, project or `taskId` contains the query, ignoring case. The query is
   matched as typed: it is trimmed only for the blank test.
   */
  function FilteredTasks(deleted: seq<Task>, searchQuery: string): (r: seq<Task>)
    ensures IsBlank(searchQuery) ==> r == deleted
    ensures Subseq(r, deleted)
    ensures !IsBlank(searchQuery) ==> forall t :: t in r <==>
      && t in deleted
      && (FieldHit(t.title, searchQuery) || FieldHit(t.project, searchQuery) || FieldHit(t.taskId, searchQuery))
    ensures !IsBlank(searchQuery) ==> |r| == Count(deleted, SearchHits(searchQuery))
  {
    if |Trim(searchQuery)| == 0 then
      SubseqRefl(deleted);
      deleted
    else
      MatchesSearchMeansHit(searchQuery);
      CountCongruent(deleted, MatchingSearch(Lower(searchQuery)), SearchHits(searchQuery));
      Filter(deleted, MatchingSearch(Lower(searchQuery)))
  }

  /**
   Searching "alp" among a task titled "Alpha" and one titled "Beta" with key
   "T200" and no project finds only the first: case is ignored.
   */
  lemma SearchIgnoresCase(alpha: Task, beta: Task)
    requires alpha.title == Some("Alpha")
    requires beta.title == Some("Beta") && beta.taskId == Some("T200") && beta.project == None
    ensures FilteredTasks([alpha, beta], "alp") == [alpha]
  {
    AlphaMatches(alpha);
    BetaMisses(beta);
    QueryAlpIsPlain();
    FilterPair(alpha, beta, MatchingSearch("alp"));
  }

  lemma QueryAlpIsPlain()
    ensures !IsBlank("alp") && Lower("alp") == "alp"
  {
    assert !IsJsWhitespace("alp"[0]);
    assert Lower("alp")[0] == 'a' && Lower("alp")[1] == 'l' && Lower("alp")[2] == 'p';
  }

  lemma AlphaMatches(alpha: Task)
    requires alpha.title == Some("Alpha")
    ensures MatchesSearch(alpha, "alp")
  {
    assert Lower("Alpha") == "alpha";
    assert Includes("alpha", "alp");
  }

  lemma BetaMisses(beta: Task)
    requires beta.title == Some("Beta") && beta.taskId == Some("T200") && beta.project == None
    ensures !MatchesSearch(beta, "alp")
  {
    assert Lower("Beta") == "beta";
    assert Lower("T200") == "t200";
    assert !Includes("beta", "alp") by {
      assert "beta"[1..] == "eta" && "eta"[1..] == "ta";
      assert !Includes("ta", "alp");
      assert "beta"[..3][0] == 'b' && "eta"[..3][0] == 'e';
    }
    assert !Includes("t200", "alp") by {
      assert "t200"[1..] == "200" && "200"[1..] == "00";
      assert !Includes("00", "alp");
      assert "t200"[..3][0] == 't' && "200"[..3][0] == '2';
    }
    assert !Includes("", "alp");
  }

  // ---------------------------------------------------------------- handlers

  /** A backend call a handler makes. */
  datatype Call =
    | UpdateSupabase(taskId: string)  // `updateTaskSupabase(taskId, { deletedAt: null, deletedBy: null })`
    | RestoreLegacy(id: Id)           // `restoreTask(id)`
    | DeleteSupabase(taskId: string)  // `deleteTaskSupabase(taskId)`

  /** A toast the handler shows. */
  datatype Notice =
    | TaskRestored
    | RestoreFailed
    | PermanentlyDeleted
    | DeleteFailed
    | LegacyDeleteRefused
    | TrashEmptied(count: nat)
    | EmptyTrashFailed

  /** What one click leaves behind: the new state, the calls made in order, the toasts shown. */
  datatype Step = Step(state: TrashState, calls: seq<Call>, notices: seq<Notice>)

  /** How a handler treats the task it looks up by id. */
  datatype Route = NotFound | Supabase(taskId: string) | Legacy

  function RouteOf(allTasks: seq<Task>, id: Id): Route {
    match Find(allTasks, id)
    case None => NotFound
    case Some(t) => if IsSupabaseTask(t) then Supabase(t.taskId.value) else Legacy
  }

  /** The restore call `handleRestore` makes for a task it has found. */
  function RestoreCallOf(t: Task): Call {
    if IsSupabaseTask(t) then UpdateSupabase(t.taskId.value) else RestoreLegacy(t.id)
  }

  /**
   While a restore is outstanding the row is booked as restoring, after the
   entries already there; nothing else changes.
   */
  function RestoreInFlight(st: TrashState, id: Id): (r: TrashState)
    ensures r.restoringIds == st.restoringIds + [Key(id)]
    ensures BulkActionsDisabled(r)
    ensures r.optimisticallyRestored == st.optimisticallyRestored
    ensures r.optimisticallyDeleted == st.optimisticallyDeleted
    ensures r.emptyingTrash == st.emptyingTrash
  {
    st.(restoringIds := st.restoringIds + [Key(id)])
  }

  /**
   `handleRestore(id)`. On every exit path the id leaves `restoringIds` and
   all other entries stay in place; the not-found path changes nothing else.
   A found task gains an `optimisticallyRestored` entry exactly when its
   restore call succeeds.
   */
  function HandleRestore(allTasks: seq<Task>, st: TrashState, id: Id, succeeds: bool): (r: Step)
    ensures Key(id) !in r.state.restoringIds
    ensures r.state.restoringIds == RemoveAll(st.restoringIds, Key(id))
    ensures r.state.optimisticallyDeleted == st.optimisticallyDeleted
    ensures r.state.emptyingTrash == st.emptyingTrash
    ensures |r.calls| == if Find(allTasks, id).Some? then 1 else 0
    ensures Find(allTasks, id).Some? ==> r.calls == [RestoreCallOf(Find(allTasks, id).value)]
    ensures Find(allTasks, id).None? ==>
      r.calls == [] && r.notices == [] && r.state.optimisticallyRestored == st.optimisticallyRestored
    ensures Find(allTasks, id).Some? ==>
      r.state.optimisticallyRestored ==
        (if succeeds then st.optimisticallyRestored + [Key(id)] else st.optimisticallyRestored)
    ensures Find(allTasks, id).Some? && IsSupabaseTask(Find(allTasks, id).value) ==>
      && r.calls == [UpdateSupabase(Find(allTasks, id).value.taskId.value)]
      && r.notices == (if succeeds then [TaskRestored] else [RestoreFailed])
    ensures Find(allTasks, id).Some? && !IsSupabaseTask(Find(allTasks, id).value) ==>
      && r.calls == [RestoreLegacy(id)]
      && r.notices == (if succeeds then [TaskRestored] else [])
  {
    var key := Key(id);
    var pending := RestoreInFlight(st, id);
    RemoveAllAppended(st.restoringIds, key);
    var settled := pending.(restoringIds := RemoveAll(pending.restoringIds, key));
    var restored := settled.(optimisticallyRestored := settled.optimisticallyRestored + [key]);
    match RouteOf(allTasks, id)
    case NotFound => Step(settled, [], [])
    case Supabase(taskId) =>
      if succeeds then Step(restored, [UpdateSupabase(taskId)], [TaskRestored])
      else Step(settled, [UpdateSupabase(taskId)], [RestoreFailed])
    case Legacy =>
      if succeeds then Step(restored, [RestoreLegacy(id)], [TaskRestored])
      else Step(settled, [RestoreLegacy(id)], [])
  }

  /**
   While a permanent delete is outstanding the task is already hidden: its key
   follows the keys hidden before; nothing else changes.
   */
  function PermanentDeleteInFlight(st: TrashState, id: Id): (r: TrashState)
    ensures r.optimisticallyDeleted == st.optimisticallyDeleted + [Key(id)]
    ensures r.restoringIds == st.restoringIds && r.optimisticallyRestored == st.optimisticallyRestored
    ensures r.emptyingTrash == st.emptyingTrash
  {
    st.(optimisticallyDeleted := st.optimisticallyDeleted + [Key(id)])
  }

  /**
   `handlePermanentDelete(id)`. A missing or legacy task makes no call and
   leaves the state alone. A canonical task is hidden before the call, stays
   hidden when it succeeds, and loses every `optimisticallyDeleted` entry
   under its key when it fails.
   */
  function HandlePermanentDelete(allTasks: seq<Task>, st: TrashState, id: Id, succeeds: bool): (r: Step)
    ensures r.state.restoringIds == st.restoringIds
    ensures r.state.optimisticallyRestored == st.optimisticallyRestored
    ensures r.state.emptyingTrash == st.emptyingTrash
    ensures Find(allTasks, id).None? ==> r == Step(st, [], [])
    ensures Find(allTasks, id).Some? && !IsSupabaseTask(Find(allTasks, id).value) ==>
      r == Step(st, [], [LegacyDeleteRefused])
    ensures Find(allTasks, id).Some? && IsSupabaseTask(Find(allTasks, id).value) ==>
      && r.calls == [DeleteSupabase(Find(allTasks, id).value.taskId.value)]
      && (succeeds ==> r.state.optimisticallyDeleted == st.optimisticallyDeleted + [Key(id)])
      && (succeeds ==> r.notices == [PermanentlyDeleted])
      && (!succeeds ==> r.state.optimisticallyDeleted == RemoveAll(st.optimisticallyDeleted, Key(id)))
      && (!succeeds ==> r.notices == [DeleteFailed])
  {
    match RouteOf(allTasks, id)
    case NotFound => Step(st, [], [])
    case Legacy => Step(st, [], [LegacyDeleteRefused])
    case Supabase(taskId) =>
      var pending := PermanentDeleteInFlight(st, id);
      if succeeds then Step(pending, [DeleteSupabase(taskId)], [PermanentlyDeleted])
      else
        RemoveAllAppended(st.optimisticallyDeleted, Key(id));
        var reverted := pending.(optimisticallyDeleted := RemoveAll(pending.optimisticallyDeleted, Key(id)));
        Step(reverted, [DeleteSupabase(taskId)], [DeleteFailed])
  }

  /** The ids of a list of tasks, in order. */
  function IdsOf(tasks: seq<Task>): (r: seq<Id>)
    ensures |r| == |tasks|
    ensures forall i :: 0 <= i < |tasks| ==> r[i] == tasks[i].id
  {
    seq(|tasks|, i requires 0 <= i < |tasks| => tasks[i].id)
  }

  /** The keys of a list of ids, in order. */
  function IdKeys(ids: seq<Id>): (r: seq<string>)
    ensures |r| == |ids|
    ensures forall i :: 0 <= i < |ids| ==> r[i] == Key(ids[i])
  {
    seq(|ids|, i requires 0 <= i < |ids| => Key(ids[i]))
  }

  /** The keys of a list of tasks, in order. */
  function KeysOf(tasks: seq<Task>): (r: seq<string>)
    ensures |r| == |tasks|
    ensures forall i :: 0 <= i < |tasks| ==> r[i] == Key(tasks[i].id)
  {
    IdKeys(IdsOf(tasks))
  }

  /** One delete call per canonical task, in order. */
  function DeleteCalls(tasks: seq<Task>): (r: seq<Call>)
    requires forall i :: 0 <= i < |tasks| ==> IsSupabaseTask(tasks[i])
    ensures |r| == |tasks|
    ensures forall i :: 0 <= i < |tasks| ==> r[i].DeleteSupabase? && tasks[i].taskId == Some(r[i].taskId)
  {
    var calls := seq(|tasks|, i requires 0 <= i < |tasks| => assert IsSupabaseTask(tasks[i]); DeleteSupabase(tasks[i].taskId.value));
    assert forall i :: 0 <= i < |tasks| ==> IsSupabaseTask(tasks[i]) && calls[i] == DeleteSupabase(tasks[i].taskId.value);
    calls
  }

  /** `Promise.all` resolves: every delete call succeeded. */
  predicate AllSucceeded(outcomes: seq<bool>) {
    forall i :: 0 <= i < |outcomes| ==> outcomes[i]
  }

  /** The canonical tasks among the listed deleted ones, which empty trash deletes. */
  function SupabaseDeleted(allTasks: seq<Task>, st: TrashState): (r: seq<Task>)
    ensures Subseq(r, DeletedTasks(allTasks, st))
    ensures |r| == Count(DeletedTasks(allTasks, st), IsSupabaseTask)
    ensures forall i :: 0 <= i < |r| ==> IsSupabaseTask(r[i])
    ensures forall t :: t in r <==> t in DeletedTasks(allTasks, st) && IsSupabaseTask(t)
  {
    Filter(DeletedTasks(allTasks, st), IsSupabaseTask)
  }

  /**
   While the deletes are outstanding: the flag is up and the keys of the
   canonical listed tasks, and no others, follow the keys hidden before.
   */
  function EmptyTrashInFlight(allTasks: seq<Task>, st: TrashState): (r: TrashState)
    ensures r.emptyingTrash && BulkActionsDisabled(r)
    ensures r.optimisticallyDeleted == st.optimisticallyDeleted + KeysOf(SupabaseDeleted(allTasks, st))
    ensures forall t :: t in SupabaseDeleted(allTasks, st) ==> Key(t.id) in r.optimisticallyDeleted
    ensures r.restoringIds == st.restoringIds && r.optimisticallyRestored == st.optimisticallyRestored
  {
    var keys := KeysOf(SupabaseDeleted(allTasks, st));
    assert forall t :: t in SupabaseDeleted(allTasks, st) ==> Key(t.id) in keys;
    st.(emptyingTrash := true, optimisticallyDeleted := st.optimisticallyDeleted + keys)
  }

  /**
   `handleEmptyTrash()`. With nothing listed it does nothing. Otherwise it
   makes one delete call per canonical listed task and ends with the flag
   down; if every call succeeds their keys stay in `optimisticallyDeleted`,
   and if any fails the list is exactly what it was before the click.
   `outcomes[i]` is the outcome of the i-th call.
   */
  function HandleEmptyTrash(allTasks: seq<Task>, st: TrashState, outcomes: seq<bool>): (r: Step)
    requires |outcomes| == |SupabaseDeleted(allTasks, st)|
    ensures |DeletedTasks(allTasks, st)| == 0 ==> r == Step(st, [], [])
    ensures |DeletedTasks(allTasks, st)| > 0 ==>
      && !r.state.emptyingTrash
      && r.state.restoringIds == st.restoringIds
      && r.state.optimisticallyRestored == st.optimisticallyRestored
      && |r.calls| == |outcomes|
      && (forall i :: 0 <= i < |r.calls| ==>
            r.calls[i] == DeleteSupabase(SupabaseDeleted(allTasks, st)[i].taskId.value))
    ensures |DeletedTasks(allTasks, st)| > 0 && AllSucceeded(outcomes) ==>
      && r.state.optimisticallyDeleted == st.optimisticallyDeleted + KeysOf(SupabaseDeleted(allTasks, st))
      && r.notices == [TrashEmptied(|outcomes|)]
    ensures |DeletedTasks(allTasks, st)| > 0 && !AllSucceeded(outcomes) ==>
      && r.state.optimisticallyDeleted == st.optimisticallyDeleted
      && r.notices == [EmptyTrashFailed]
  {
    var deleted := DeletedTasks(allTasks, st);
    if |deleted| == 0 then Step(st, [], [])
    else
      var supabaseTasks := SupabaseDeleted(allTasks, st);
      var taskIds := KeysOf(supabaseTasks);
      var pending := EmptyTrashInFlight(allTasks, st);
      var calls := DeleteCalls(supabaseTasks);
      if AllSucceeded(outcomes) then
        Step(pending.(emptyingTrash := false), calls, [TrashEmptied(|supabaseTasks|)])
      else
        ListedKeysNotYetDeleted(allTasks, st);
        RemoveAppendedBlock(st.optimisticallyDeleted, taskIds);
        var reverted := pending.(optimisticallyDeleted := Filter(pending.optimisticallyDeleted, NotIn(taskIds)));
        Step(reverted.(emptyingTrash := false), calls, [EmptyTrashFailed])
  }

  /** The key of a listed task is not in `optimisticallyDeleted`, or the task would not be listed. */
  lemma ListedKeysNotYetDeleted(allTasks: seq<Task>, st: TrashState)
    ensures forall k :: k in st.optimisticallyDeleted ==> k !in KeysOf(SupabaseDeleted(allTasks, st))
  {
    var canon := SupabaseDeleted(allTasks, st);
    var keys := KeysOf(canon);
    forall k | k in keys
      ensures k !in st.optimisticallyDeleted
    {
      var i :| 0 <= i < |keys| && keys[i] == k;
      assert canon[i] in canon;
    }
  }

  /** Each task of a list has its key among the list's keys. */
  lemma KeysOfListed(tasks: seq<Task>)
    ensures forall t :: t in tasks ==> Key(t.id) in KeysOf(tasks)
  {
    forall t | t in tasks
      ensures Key(t.id) in KeysOf(tasks)
    {
      var i :| 0 <= i < |tasks| && tasks[i] == t;
      assert KeysOf(tasks)[i] == Key(t.id);
    }
  }

  /** The test `allTasks.find(t => t.id === id)` passes: some task carries the id. */
  function FoundIn(allTasks: seq<Task>): Id -> bool {
    id => Find(allTasks, id).Some?
  }

  /**
   `handleRestore` applied to each id in turn, each run to completion before
   the next. Every id leaves `restoringIds`, every other entry stays in
   order, and there is one call per id that is found and none for the others.
   */
  function RestoreEach(allTasks: seq<Task>, st: TrashState, ids: seq<Id>, outcomes: seq<bool>): (r: Step)
    requires |outcomes| == |ids|
    ensures r.state.restoringIds == Filter(st.restoringIds, NotIn(IdKeys(ids)))
    ensures r.state.optimisticallyDeleted == st.optimisticallyDeleted
    ensures r.state.emptyingTrash == st.emptyingTrash
    ensures |r.calls| == Count(ids, FoundIn(allTasks))
    ensures AllFound(allTasks, ids) ==> |r.calls| == |ids|
    decreases |ids|
  {
    if |ids| == 0 then
      FilterKeepsAll(st.restoringIds, NotIn(IdKeys(ids)));
      Step(st, [], [])
    else
      var first := HandleRestore(allTasks, st, ids[0], outcomes[0]);
      var rest := RestoreEach(allTasks, first.state, ids[1..], outcomes[1..]);
      RemoveThenFilter(st.restoringIds, ids);
      AllFoundTail(allTasks, ids);
      Step(rest.state, first.calls + rest.calls, first.notices + rest.notices)
  }

  /** The first handler runs to completion, then the rest run from its state. */
  lemma RestoreEachStep(allTasks: seq<Task>, st: TrashState, ids: seq<Id>, outcomes: seq<bool>)
    requires |outcomes| == |ids| > 0
    ensures var first := HandleRestore(allTasks, st, ids[0], outcomes[0]);
      var rest := RestoreEach(allTasks, first.state, ids[1..], outcomes[1..]);
      RestoreEach(allTasks, st, ids, outcomes) == Step(rest.state, first.calls + rest.calls, first.notices + rest.notices)
  {
  }

  /** Every id of the list finds a task in the fetched list. */
  predicate AllFound(allTasks: seq<Task>, ids: seq<Id>) {
    forall i :: 0 <= i < |ids| ==> Find(allTasks, ids[i]).Some?
  }

  /** `k` is the key of an id in the list whose task was found and whose restore call succeeded. */
  ghost predicate RestoredBy(allTasks: seq<Task>, ids: seq<Id>, outcomes: seq<bool>, k: string) {
    exists i :: 0 <= i < |ids| && i < |outcomes| && outcomes[i] && Find(allTasks, ids[i]).Some? && k == Key(ids[i])
  }

  /**
   When every id is found, the i-th call is the restore call of the i-th
   id's task; when every call succeeds as well, each restore shows one
   "Task Restored" toast.
   */
  lemma {:induction false} RestoreEachCalls(allTasks: seq<Task>, st: TrashState, ids: seq<Id>, outcomes: seq<bool>)
    requires |outcomes| == |ids| && AllFound(allTasks, ids)
    ensures var r := RestoreEach(allTasks, st, ids, outcomes);
      && |r.calls| == |ids|
      && forall i :: 0 <= i < |ids| ==> r.calls[i] == RestoreCallOf(Find(allTasks, ids[i]).value)
    ensures AllSucceeded(outcomes) ==>
      var r := RestoreEach(allTasks, st, ids, outcomes);
      |r.notices| == |ids| && forall i :: 0 <= i < |ids| ==> r.notices[i] == TaskRestored
    decreases |ids|
  {
    if |ids| > 0 {
      var first := HandleRestore(allTasks, st, ids[0], outcomes[0]);
      assert Find(allTasks, ids[0]).Some?;
      AllFoundTail(allTasks, ids);
      AllSucceededTail(outcomes);
      RestoreEachCalls(allTasks, first.state, ids[1..], outcomes[1..]);
      RestoreEachStep(allTasks, st, ids, outcomes);
      ShiftCalls(allTasks, ids, first.calls, RestoreEach(allTasks, first.state, ids[1..], outcomes[1..]).calls);
      if AllSucceeded(outcomes) {
        ShiftNotices(first.notices, RestoreEach(allTasks, first.state, ids[1..], outcomes[1..]).notices);
      }
    }
  }

  lemma AllFoundTail(allTasks: seq<Task>, ids: seq<Id>)
    requires |ids| > 0
    ensures AllFound(allTasks, ids) ==> AllFound(allTasks, ids[1..])
  {
    if AllFound(allTasks, ids) {
      forall i | 0 <= i < |ids[1..]|
        ensures Find(allTasks, ids[1..][i]).Some?
      {
        assert ids[1..][i] == ids[i + 1];
      }
    }
  }

  lemma AllSucceededTail(outcomes: seq<bool>)
    requires |outcomes| > 0
    ensures AllSucceeded(outcomes) ==> outcomes[0] && AllSucceeded(outcomes[1..])
  {
    if AllSucceeded(outcomes) {
      assert outcomes[0];
      forall i | 0 <= i < |outcomes[1..]|
        ensures outcomes[1..][i]
      {
        assert outcomes[1..][i] == outcomes[i + 1];
      }
    }
  }

  /** Prepending the first id's call to the calls of the rest lines the calls up with all the ids. */
  lemma ShiftCalls(allTasks: seq<Task>, ids: seq<Id>, head: seq<Call>, tail: seq<Call>)
    requires |ids| > 0 && AllFound(allTasks, ids)
    requires head == [RestoreCallOf(Find(allTasks, ids[0]).value)]
    requires |tail| == |ids| - 1
    requires forall i :: 0 <= i < |ids| - 1 ==> tail[i] == RestoreCallOf(Find(allTasks, ids[1..][i]).value)
    ensures |head + tail| == |ids|
    ensures forall i :: 0 <= i < |ids| ==> (head + tail)[i] == RestoreCallOf(Find(allTasks, ids[i]).value)
  {
    forall i | 1 <= i < |ids|
      ensures (head + tail)[i] == RestoreCallOf(Find(allTasks, ids[i]).value)
    {
      assert (head + tail)[i] == tail[i - 1];
      assert ids[1..][i - 1] == ids[i];
    }
  }

  lemma ShiftNotices(head: seq<Notice>, tail: seq<Notice>)
    requires head == [TaskRestored]
    requires forall i :: 0 <= i < |tail| ==> tail[i] == TaskRestored
    ensures forall i :: 0 <= i < |head + tail| ==> (head + tail)[i] == TaskRestored
  {
  }

  /**
   `optimisticallyRestored` after the restores: the entries from before stay
   in front, and the new entries are exactly the keys of the ids whose task
   was found and whose restore call succeeded.
   */
  lemma {:induction false} RestoreEachOverlay(allTasks: seq<Task>, st: TrashState, ids: seq<Id>, outcomes: seq<bool>)
    requires |outcomes| == |ids|
    ensures st.optimisticallyRestored <= RestoreEach(allTasks, st, ids, outcomes).state.optimisticallyRestored
    ensures forall i :: 0 <= i < |ids| && outcomes[i] && Find(allTasks, ids[i]).Some? ==>
      Key(ids[i]) in RestoreEach(allTasks, st, ids, outcomes).state.optimisticallyRestored
    ensures forall k :: k in RestoreEach(allTasks, st, ids, outcomes).state.optimisticallyRestored ==>
      k in st.optimisticallyRestored || RestoredBy(allTasks, ids, outcomes, k)
    decreases |ids|
  {
    if |ids| > 0 {
      var first := HandleRestore(allTasks, st, ids[0], outcomes[0]);
      RestoreEachOverlay(allTasks, first.state, ids[1..], outcomes[1..]);
      RestoreEachStep(allTasks, st, ids, outcomes);
      OverlayStep(allTasks, st, first.state, ids, outcomes,
        RestoreEach(allTasks, first.state, ids[1..], outcomes[1..]).state.optimisticallyRestored);
    }
  }

  /** One inductive step of `RestoreEachOverlay`, with the rest's result given by name. */
  lemma OverlayStep(allTasks: seq<Task>, st: TrashState, mid: TrashState, ids: seq<Id>, outcomes: seq<bool>, after: seq<string>)
    requires |outcomes| == |ids| > 0
    requires mid == HandleRestore(allTasks, st, ids[0], outcomes[0]).state
    requires mid.optimisticallyRestored <= after
    requires forall i :: 0 <= i < |ids[1..]| && outcomes[1..][i] && Find(allTasks, ids[1..][i]).Some? ==>
      Key(ids[1..][i]) in after
    requires forall k :: k in after ==>
      k in mid.optimisticallyRestored || RestoredBy(allTasks, ids[1..], outcomes[1..], k)
    ensures st.optimisticallyRestored <= after
    ensures forall i :: 0 <= i < |ids| && outcomes[i] && Find(allTasks, ids[i]).Some? ==> Key(ids[i]) in after
    ensures forall k :: k in after ==> k in st.optimisticallyRestored || RestoredBy(allTasks, ids, outcomes, k)
  {
    var before := st.optimisticallyRestored;
    var m := mid.optimisticallyRestored;
    assert before <= m;
    PrefixTrans(before, m, after);
    forall i | 0 <= i < |ids| && outcomes[i] && Find(allTasks, ids[i]).Some?
      ensures Key(ids[i]) in after
    {
      if i == 0 {
        assert m[|before|] == Key(ids[0]);
        PrefixKeeps(m, after, |before|);
      } else {
        assert ids[1..][i - 1] == ids[i] && outcomes[1..][i - 1] == outcomes[i];
      }
    }
    forall k | k in after
      ensures k in before || RestoredBy(allTasks, ids, outcomes, k)
    {
      if k in m {
        if k !in before {
          assert outcomes[0] && Find(allTasks, ids[0]).Some? && k == Key(ids[0]);
        }
      } else {
        var j :| 0 <= j < |ids[1..]| && j < |outcomes[1..]| && outcomes[1..][j]
          && Find(allTasks, ids[1..][j]).Some? && k == Key(ids[1..][j]);
        assert ids[1..][j] == ids[j + 1] && outcomes[1..][j] == outcomes[j + 1];
      }
    }
  }

  lemma RemoveThenFilter(s: seq<string>, ids: seq<Id>)
    requires |ids| > 0
    ensures Filter(RemoveAll(s, Key(ids[0])), NotIn(IdKeys(ids[1..]))) == Filter(s, NotIn(IdKeys(ids)))
  {
    var keys := IdKeys(ids);
    assert keys == [Key(ids[0])] + IdKeys(ids[1..]);
    forall x | x in s
      ensures NotIn(keys)(x) == (NotEqual(Key(ids[0]))(x) && NotIn(IdKeys(ids[1..]))(x))
    {
    }
    FilterFilter(s, NotEqual(Key(ids[0])), NotIn(IdKeys(ids[1..])), NotIn(keys));
  }

  /** The id of every task taken from the fetched list finds a task there. */
  lemma ListedIdsAreFound(allTasks: seq<Task>, listed: seq<Task>)
    requires forall t :: t in listed ==> t in allTasks
    ensures forall i :: 0 <= i < |IdsOf(listed)| ==> Find(allTasks, IdsOf(listed)[i]).Some?
  {
    forall i | 0 <= i < |IdsOf(listed)|
      ensures Find(allTasks, IdsOf(listed)[i]).Some?
    {
      assert listed[i] in listed;
    }
  }

  /**
   The "Restore all" button: `handleRestore` once per listed deleted task.
   `outcomes[i]` is the outcome of the i-th task's restore call. The i-th
   call restores the task that `find` returns for the i-th listed id; the
   overlay keeps its old entries in front and gains exactly the keys of the
   listed tasks whose call succeeded.
   */
  function RestoreAll(allTasks: seq<Task>, st: TrashState, outcomes: seq<bool>): (r: Step)
    requires |outcomes| == |DeletedTasks(allTasks, st)|
    ensures |r.calls| == |DeletedTasks(allTasks, st)|
    ensures forall i :: 0 <= i < |DeletedTasks(allTasks, st)| ==>
      && Find(allTasks, DeletedTasks(allTasks, st)[i].id).Some?
      && r.calls[i] == RestoreCallOf(Find(allTasks, DeletedTasks(allTasks, st)[i].id).value)
    ensures r.state.restoringIds == Filter(st.restoringIds, NotIn(KeysOf(DeletedTasks(allTasks, st))))
    ensures forall t :: t in DeletedTasks(allTasks, st) ==> Key(t.id) !in r.state.restoringIds
    ensures forall k :: k in st.restoringIds && k !in KeysOf(DeletedTasks(allTasks, st)) ==> k in r.state.restoringIds
    ensures r.state.optimisticallyDeleted == st.optimisticallyDeleted
    ensures r.state.emptyingTrash == st.emptyingTrash
    ensures st.optimisticallyRestored <= r.state.optimisticallyRestored
    ensures forall i :: 0 <= i < |DeletedTasks(allTasks, st)| && outcomes[i] ==>
      Key(DeletedTasks(allTasks, st)[i].id) in r.state.optimisticallyRestored
    ensures forall k :: k in r.state.optimisticallyRestored ==>
      k in st.optimisticallyRestored || RestoredBy(allTasks, IdsOf(DeletedTasks(allTasks, st)), outcomes, k)
    ensures AllSucceeded(outcomes) ==>
      |r.notices| == |outcomes| && forall i :: 0 <= i < |r.notices| ==> r.notices[i] == TaskRestored
  {
    RestoreAllCalls(allTasks, st, outcomes);
    RestoreAllBusy(allTasks, st, outcomes);
    RestoreAllOverlay(allTasks, st, outcomes);
    RestoreEach(allTasks, st, IdsOf(DeletedTasks(allTasks, st)), outcomes)
  }

  lemma RestoreAllCalls(allTasks: seq<Task>, st: TrashState, outcomes: seq<bool>)
    requires |outcomes| == |DeletedTasks(allTasks, st)|
    ensures var r := RestoreEach(allTasks, st, IdsOf(DeletedTasks(allTasks, st)), outcomes);
      && |r.calls| == |DeletedTasks(allTasks, st)|
      && (forall i :: 0 <= i < |DeletedTasks(allTasks, st)| ==>
           && Find(allTasks, DeletedTasks(allTasks, st)[i].id).Some?
           && r.calls[i] == RestoreCallOf(Find(allTasks, DeletedTasks(allTasks, st)[i].id).value))
      && (AllSucceeded(outcomes) ==>
           |r.notices| == |outcomes| && forall i :: 0 <= i < |r.notices| ==> r.notices[i] == TaskRestored)
  {
    var deleted := DeletedTasks(allTasks, st);
    ListedIdsAreFound(allTasks, deleted);
    RestoreEachCalls(allTasks, st, IdsOf(deleted), outcomes);
  }

  lemma RestoreAllBusy(allTasks: seq<Task>, st: TrashState, outcomes: seq<bool>)
    requires |outcomes| == |DeletedTasks(allTasks, st)|
    ensures var r := RestoreEach(allTasks, st, IdsOf(DeletedTasks(allTasks, st)), outcomes);
      && r.state.restoringIds == Filter(st.restoringIds, NotIn(KeysOf(DeletedTasks(allTasks, st))))
      && (forall t :: t in DeletedTasks(allTasks, st) ==> Key(t.id) !in r.state.restoringIds)
      && (forall k :: k in st.restoringIds && k !in KeysOf(DeletedTasks(allTasks, st)) ==> k in r.state.restoringIds)
      && r.state.optimisticallyDeleted == st.optimisticallyDeleted
      && r.state.emptyingTrash == st.emptyingTrash
  {
    var deleted := DeletedTasks(allTasks, st);
    KeysOfListed(deleted);
  }

  lemma RestoreAllOverlay(allTasks: seq<Task>, st: TrashState, outcomes: seq<bool>)
    requires |outcomes| == |DeletedTasks(allTasks, st)|
    ensures var r := RestoreEach(allTasks, st, IdsOf(DeletedTasks(allTasks, st)), outcomes);
      && st.optimisticallyRestored <= r.state.optimisticallyRestored
      && (forall i :: 0 <= i < |DeletedTasks(allTasks, st)| && outcomes[i] ==>
           Key(DeletedTasks(allTasks, st)[i].id) in r.state.optimisticallyRestored)
      && (forall k :: k in r.state.optimisticallyRestored ==>
           k in st.optimisticallyRestored || RestoredBy(allTasks, IdsOf(DeletedTasks(allTasks, st)), outcomes, k))
  {
    var deleted := DeletedTasks(allTasks, st);
    ListedIdsAreFound(allTasks, deleted);
    RestoreEachOverlay(allTasks, st, IdsOf(deleted), outcomes);
  }

  /**
   When every restore call succeeds, the trash lists nothing afterwards:
   every listed task's key has joined `optimisticallyRestored`.
   */
  lemma RestoreAllEmptiesTrash(allTasks: seq<Task>, st: TrashState, outcomes: seq<bool>)
    requires |outcomes| == |DeletedTasks(allTasks, st)|
    requires AllSucceeded(outcomes)
    ensures DeletedTasks(allTasks, RestoreAll(allTasks, st, outcomes).state) == []
  {
    var deleted := DeletedTasks(allTasks, st);
    var after := RestoreAll(allTasks, st, outcomes).state;
    var now := DeletedTasks(allTasks, after);
    if |now| > 0 {
      var t := now[0];
      assert t in allTasks && Truthy(t.deletedAt);
      assert Key(t.id) !in after.optimisticallyRestored && Key(t.id) !in after.optimisticallyDeleted;
      PrefixMembers(st.optimisticallyRestored, after.optimisticallyRestored);
      assert false;
    }
  }

  // ---------------------------------------------------------------- buttons

  /** "Restore all", "Empty trash" and every row's delete button are disabled while anything is busy. */
  predicate BulkActionsDisabled(st: TrashState) {
    |st.restoringIds| > 0 || st.emptyingTrash
  }

  /** A row's restore button is disabled while that row restores or the trash empties. */
  predicate RowRestoreDisabled(st: TrashState, t: Task) {
    Key(t.id) in st.restoringIds || st.emptyingTrash
  }

  // ---------------------------------------------------------------- properties

  /** A successful restore of a found task takes every task under its key out of the listing. */
  lemma RestoreSuccessLeavesTrash(allTasks: seq<Task>, st: TrashState, id: Id)
    requires Find(allTasks, id).Some?
    ensures forall t :: t in allTasks && Key(t.id) == Key(id) ==>
      t !in DeletedTasks(allTasks, HandleRestore(allTasks, st, id, true).state)
  {
  }

  /**
   A failed restore leaves the listing exactly as it was, and so does the
   outstanding one: the task is not hidden before the call succeeds.
   */
  lemma RestoreFailureKeepsTrash(allTasks: seq<Task>, st: TrashState, id: Id)
    ensures DeletedTasks(allTasks, HandleRestore(allTasks, st, id, false).state) == DeletedTasks(allTasks, st)
    ensures DeletedTasks(allTasks, RestoreInFlight(st, id)) == DeletedTasks(allTasks, st)
  {
  }

  /**
   The handler has no guard against a second click: a restore started while
   the first is still outstanding makes the same single call again. Only the
   row's disabled button stands in the way.
   */
  lemma RestoreHasNoGuard(allTasks: seq<Task>, st: TrashState, t: Task, first: bool, second: bool)
    requires t in allTasks
    ensures var again := HandleRestore(allTasks, RestoreInFlight(st, t.id), t.id, second);
            |again.calls| == 1 && again.calls == HandleRestore(allTasks, st, t.id, first).calls
    ensures RowRestoreDisabled(RestoreInFlight(st, t.id), t)
  {
  }

  /** `!!task.deletedAt`: the task is soft-deleted. */
  function SoftDeleted(t: Task): bool {
    Truthy(t.deletedAt)
  }

  /**
   When the tab mounts, every button is enabled and the trash lists every
   soft-deleted task of the fetched list, in fetch order.
   */
  lemma InitialListsSoftDeleted(allTasks: seq<Task>, t: Task)
    ensures !BulkActionsDisabled(Initial) && !RowRestoreDisabled(Initial, t)
    ensures DeletedTasks(allTasks, Initial) == Filter(allTasks, SoftDeleted)
  {
  }

  /**
   The disabled state of the buttons follows the busy state: nothing is
   disabled when idle; a restore in flight disables the bulk actions and
   exactly the restoring rows' restore buttons; an empty trash in flight
   disables everything; a finished restore or empty trash leaves an idle
   page idle again.
   */
  lemma ButtonsFollowBusyState(allTasks: seq<Task>, st: TrashState, t: Task, u: Task, succeeds: bool, outcomes: seq<bool>)
    requires st.restoringIds == [] && !st.emptyingTrash
    ensures !BulkActionsDisabled(st) && !RowRestoreDisabled(st, t)
    ensures BulkActionsDisabled(RestoreInFlight(st, u.id))
    ensures RowRestoreDisabled(RestoreInFlight(st, u.id), t) <==> Key(t.id) == Key(u.id)
    ensures BulkActionsDisabled(EmptyTrashInFlight(allTasks, st)) && RowRestoreDisabled(EmptyTrashInFlight(allTasks, st), t)
    ensures !BulkActionsDisabled(HandleRestore(allTasks, st, u.id, succeeds).state)
    ensures |outcomes| == |SupabaseDeleted(allTasks, st)| ==>
      !BulkActionsDisabled(HandleEmptyTrash(allTasks, st, outcomes).state)
  {
  }

  /**
   A permanent delete that fails on a listed task leaves the listing exactly
   as it was before the click; while it is outstanding the task is hidden.
   */
  lemma PermanentDeleteFailureRestoresView(allTasks: seq<Task>, st: TrashState, t: Task)
    requires t in DeletedTasks(allTasks, st)
    ensures t !in DeletedTasks(allTasks, PermanentDeleteInFlight(st, t.id))
    ensures DeletedTasks(allTasks, HandlePermanentDelete(allTasks, st, t.id, false).state)
         == DeletedTasks(allTasks, st)
  {
    RemoveAllAppended(st.optimisticallyDeleted, Key(t.id));
  }

  /** A successful permanent delete of a canonical task keeps every task under its key out of the listing. */
  lemma PermanentDeleteSuccessHidesTask(allTasks: seq<Task>, st: TrashState, t: Task)
    requires t in allTasks && IsSupabaseTask(Find(allTasks, t.id).value)
    ensures forall u :: u in allTasks && Key(u.id) == Key(t.id) ==>
      u !in DeletedTasks(allTasks, HandlePermanentDelete(allTasks, st, t.id, true).state)
  {
  }

  /** Listed tasks that share a key are the same task (the rows' React keys are unique). */
  ghost predicate KeysIdentify(tasks: seq<Task>) {
    forall i, j :: 0 <= i < |tasks| && 0 <= j < |tasks| && Key(tasks[i].id) == Key(tasks[j].id) ==> tasks[i] == tasks[j]
  }

  function NotSupabase(t: Task): bool {
    !IsSupabaseTask(t)
  }

  /**
   While the deletes of empty trash are outstanding, the trash lists exactly
   the legacy part of what it listed before the click, in the same order.
   */
  lemma EmptyTrashInFlightShowsLegacy(allTasks: seq<Task>, st: TrashState)
    requires KeysIdentify(DeletedTasks(allTasks, st))
    ensures DeletedTasks(allTasks, EmptyTrashInFlight(allTasks, st)) == Filter(DeletedTasks(allTasks, st), NotSupabase)
  {
    var keys := KeysOf(SupabaseDeleted(allTasks, st));
    var before := ShownInTrash(st.optimisticallyRestored, st.optimisticallyDeleted);
    var now := ShownInTrash(st.optimisticallyRestored, st.optimisticallyDeleted + keys);
    forall x | x in allTasks
      ensures now(x) == (before(x) && NotSupabase(x))
    {
      HiddenWhileEmptying(allTasks, st, x);
    }
    FilterFilter(allTasks, before, NotSupabase, now);
  }

  /** A listed task is hidden by the outstanding empty trash exactly when it is canonical. */
  lemma HiddenWhileEmptying(allTasks: seq<Task>, st: TrashState, x: Task)
    requires KeysIdentify(DeletedTasks(allTasks, st))
    requires x in allTasks
    ensures Trashed(st.optimisticallyRestored, st.optimisticallyDeleted + KeysOf(SupabaseDeleted(allTasks, st)), x)
        == (Trashed(st.optimisticallyRestored, st.optimisticallyDeleted, x) && !IsSupabaseTask(x))
  {
    var deleted := DeletedTasks(allTasks, st);
    var canon := SupabaseDeleted(allTasks, st);
    var keys := KeysOf(canon);
    var listed := Trashed(st.optimisticallyRestored, st.optimisticallyDeleted, x);
    if listed && Key(x.id) in keys {
      var i :| 0 <= i < |keys| && keys[i] == Key(x.id);
      var c := canon[i];
      assert c in deleted && x in deleted;
      var a :| 0 <= a < |deleted| && deleted[a] == x;
      var b :| 0 <= b < |deleted| && deleted[b] == c;
      assert Key(deleted[a].id) == Key(deleted[b].id);
    }
    if listed && IsSupabaseTask(x) {
      assert x in canon;
      var i :| 0 <= i < |canon| && canon[i] == x;
      assert keys[i] == Key(x.id);
    }
  }

  /**
   When every delete succeeds, what the trash still lists is exactly the
   legacy part of what it listed before, in the same order: legacy tasks
   cannot be deleted from here and stay.
   */
  lemma EmptyTrashSuccessLeavesLegacy(allTasks: seq<Task>, st: TrashState, outcomes: seq<bool>)
    requires KeysIdentify(DeletedTasks(allTasks, st))
    requires |outcomes| == |SupabaseDeleted(allTasks, st)|
    requires AllSucceeded(outcomes)
    ensures DeletedTasks(allTasks, HandleEmptyTrash(allTasks, st, outcomes).state)
         == Filter(DeletedTasks(allTasks, st), NotSupabase)
  {
    if |DeletedTasks(allTasks, st)| == 0 {
      assert Filter(DeletedTasks(allTasks, st), NotSupabase) == [];
    } else {
      EmptyTrashInFlightShowsLegacy(allTasks, st);
    }
  }

  /**
   If any delete fails, the trash lists again everything it listed before the
   click, including the tasks whose own delete succeeded: the roll-back is
   all or nothing.
   */
  lemma EmptyTrashFailureRestoresView(allTasks: seq<Task>, st: TrashState, outcomes: seq<bool>)
    requires |outcomes| == |SupabaseDeleted(allTasks, st)|
    requires !AllSucceeded(outcomes)
    ensures DeletedTasks(allTasks, HandleEmptyTrash(allTasks, st, outcomes).state) == DeletedTasks(allTasks, st)
  {
  }

  /** Nothing listed: the button is not shown, and calling the handler anyway changes nothing. */
  lemma EmptyTrashOnEmptyListIsInert(allTasks: seq<Task>, st: TrashState)
    requires |DeletedTasks(allTasks, st)| == 0
    ensures |SupabaseDeleted(allTasks, st)| == 0
    ensures HandleEmptyTrash(allTasks, st, []) == Step(st, [], [])
  {
  }
}
