/** The task record shared by every component (src/lib/types.ts). */
module Types {

  /** An optional field: `undefined` in the source is `None`. */
  datatype Option<+T> = None | Some(value: T)

  datatype Complexity = Low | Medium | High

  /**
   * A task. `dueDate` is the millisecond timestamp of the source's `Date`
   * (its `getTime()` value); `priorityScore` is only ever compared and
   * subtracted, so an integer stands for the source's number.
   */
  datatype Task = Task(
    id: string,
    title: string,
    description: Option<string>,
    dueDate: int,
    complexity: Complexity,
    isComplete: bool,
    priorityScore: Option<int>,
    reasoning: Option<string>)

  /** Some task of the list carries this id. */
  predicate HasId(tasks: seq<Task>, id: string)
  {
    exists i :: 0 <= i < |tasks| && tasks[i].id == id
  }

  /** No two tasks of the list share an id. */
  predicate UniqueIds(tasks: seq<Task>)
  {
    forall i, j :: 0 <= i < j < |tasks| ==> tasks[i].id != tasks[j].id
  }

  /**
   * `tasks.find(p)` as the index of the first task satisfying `p`, or
   * `|tasks|` when there is none.
   */
  function IndexWhere(tasks: seq<Task>, p: Task -> bool): (k: nat)
    ensures k <= |tasks|
    ensures forall i :: 0 <= i < k ==> !p(tasks[i])
    ensures k < |tasks| ==> p(tasks[k])
  {
    if tasks == [] then 0
    else if p(tasks[0]) then 0
    else 1 + IndexWhere(tasks[1..], p)
  }
}
