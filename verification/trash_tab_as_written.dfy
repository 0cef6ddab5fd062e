/**
 The trash view's three backend calls as the component is written.

 `TrashTab.tsx` calls `updateTaskSupabase`, `restoreTask` and
 `deleteTaskSupabase`, but it neither imports nor declares any of them: its
 imports bring in `updateTask` and `deleteTask`, which only feed two mutation
 objects nothing uses. Each call therefore throws a `ReferenceError` before
 any request leaves the client, and the surrounding `try` catches it as a
 failed call. The members here are the handlers under that reading: no call
 is made and every one takes its failure path. The `TrashTab` module models
 the evidently intended handlers, whose calls reach a backend and may
 succeed.
 */
module TrashTabAsWritten {
  import opened Seqs
  import opened TaskModel
  import opened TrashTab

  /** `handleRestore` as written: the call throws, so the restore fails without reaching a backend. */
  function RestoreAsWritten(allTasks: seq<Task>, st: TrashState, id: Id): (r: Step)
    ensures r.calls == []
    ensures r.state.optimisticallyRestored == st.optimisticallyRestored
    ensures r.state.restoringIds == RemoveAll(st.restoringIds, Key(id))
    ensures DeletedTasks(allTasks, r.state) == DeletedTasks(allTasks, st)
  {
    var failed := HandleRestore(allTasks, st, id, false);
    Step(failed.state, [], failed.notices)
  }

  /** `handlePermanentDelete` as written: the call throws and the optimistic hide is rolled back. */
  function PermanentDeleteAsWritten(allTasks: seq<Task>, st: TrashState, id: Id): (r: Step)
    ensures r.calls == []
    ensures Find(allTasks, id).Some? && IsSupabaseTask(Find(allTasks, id).value) ==> r.notices == [DeleteFailed]
  {
    var failed := HandlePermanentDelete(allTasks, st, id, false);
    Step(failed.state, [], failed.notices)
  }

  /** `n` failed outcomes. */
  function Failures(n: nat): (r: seq<bool>)
    ensures |r| == n
    ensures n > 0 ==> !AllSucceeded(r)
  {
    var r := seq(n, _ => false);
    assert n > 0 ==> !r[0];
    r
  }

  /**
   `handleEmptyTrash` as written: with a canonical task listed, the first
   `deleteTaskSupabase` of the `map` throws, so no delete is issued and the
   whole optimistic hide is rolled back; with none listed, the `map` calls
   nothing and the empty `Promise.all` resolves.
   */
  function EmptyTrashAsWritten(allTasks: seq<Task>, st: TrashState): (r: Step)
    ensures r.calls == []
    ensures DeletedTasks(allTasks, r.state) == DeletedTasks(allTasks, st)
  {
    var n := |SupabaseDeleted(allTasks, st)|;
    if n == 0 then
      var done := HandleEmptyTrash(allTasks, st, []);
      assert done.state.optimisticallyDeleted == st.optimisticallyDeleted by {
        assert KeysOf(SupabaseDeleted(allTasks, st)) == [];
      }
      done
    else
      var failed := HandleEmptyTrash(allTasks, st, Failures(n));
      Step(failed.state, [], failed.notices)
  }

  /**
   As written, nothing ever leaves the trash through these handlers: a listed
   task stays listed after a restore, a permanent delete or an empty trash.
   */
  lemma AsWrittenNothingLeavesTrash(allTasks: seq<Task>, st: TrashState, t: Task)
    requires t in DeletedTasks(allTasks, st)
    ensures t in DeletedTasks(allTasks, RestoreAsWritten(allTasks, st, t.id).state)
    ensures t in DeletedTasks(allTasks, PermanentDeleteAsWritten(allTasks, st, t.id).state)
    ensures t in DeletedTasks(allTasks, EmptyTrashAsWritten(allTasks, st).state)
  {
    PermanentDeleteFailureRestoresView(allTasks, st, t);
  }
}
