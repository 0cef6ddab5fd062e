/**
 The task record the client keeps, as far as the modelled hooks and components
 read it, and the identity helpers they share.
 */
module TaskModel {
  import opened Wrappers
  import Text

  /**
   The record's `id`. The backends hand out either a JavaScript number (modelled
   as an integer) or some other value, which reaches the client as a string.
   */
  datatype Id = Num(n: int) | NonNum(s: string)

  /**
   A task. Fields the client may see as `undefined` or `null` are `Option`s;
   collaboration fields (assignee, collaborators) are not read by the modelled
   logic and are left out.
   */
  datatype Task = Task(
    id: Id,
    taskId: Option<string>,
    title: Option<string>,
    project: Option<string>,
    status: string,
    archived: bool,
    deletedAt: Option<string>,
    deletedBy: Option<string>,
    updatedAt: Option<string>)

  /** `id.toString()`: the string under which the trash view books a task in its id lists. */
  function Key(id: Id): string {
    match id
    case Num(n) => Text.IntToDecimal(n)
    case NonNum(s) => s
  }

  /** Distinct numeric ids never share a key; a numeric and a string id can. */
  lemma KeyOfNumbers(a: int, b: int)
    ensures Key(Num(a)) == Key(Num(b)) <==> a == b
    ensures Key(Num(a)) == Key(NonNum(Text.IntToDecimal(a)))
  {
    Text.IntToDecimalInjective(a, b);
  }

  /** JavaScript truthiness of an optional string: present and non-empty. */
  predicate Truthy(o: Option<string>) {
    o.Some? && o.value != ""
  }

  /**
   The position at which `tasks.find(t => t.id === id)` stops: that of the
   FIRST task with that id, or `None` when there is none.
   */
  function FindIndex(tasks: seq<Task>, id: Id): (r: Option<nat>)
    ensures r.None? <==> forall i :: 0 <= i < |tasks| ==> tasks[i].id != id
    ensures r.Some? ==> r.value < |tasks| && tasks[r.value].id == id
    ensures r.Some? ==> forall j :: 0 <= j < r.value ==> tasks[j].id != id
  {
    if |tasks| == 0 then None
    else if tasks[0].id == id then Some(0)
    else
      match FindIndex(tasks[1..], id)
      case None => None
      case Some(k) => Some(k + 1)
  }

  /** `tasks.find(t => t.id === id)`: the first task with that id, if any. */
  function Find(tasks: seq<Task>, id: Id): (r: Option<Task>)
    ensures r.None? <==> forall t :: t in tasks ==> t.id != id
    ensures r.Some? ==> r.value in tasks && r.value.id == id
    ensures r.Some? ==> exists k :: && 0 <= k < |tasks|
                                    && tasks[k] == r.value
                                    && forall j :: 0 <= j < k ==> tasks[j].id != id
  {
    match FindIndex(tasks, id)
    case None => None
    case Some(k) => Some(tasks[k])
  }
}
