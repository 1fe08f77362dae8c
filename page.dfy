/**
 * The home page's task store (src/app/page.tsx). The page keeps one `tasks`
 * list and replaces it wholesale in each handler; the new lists are computed
 * by the functions below, and the class `Home` holds the state the handlers
 * read and write.
 */
module Page {
  import opened Types
  import opened TaskFormSchema
  import opened Actions

  /** A new task from the form's values: not complete, no score, no reasoning. */
  function NewTask(id: string, values: TaskFormValues): (t: Task)
    ensures t.id == id && !t.isComplete && t.priorityScore.None? && t.reasoning.None?
    ensures t.title == values.title && t.description == values.description
    ensures t.dueDate == values.dueDate && t.complexity == values.complexity
  {
    Task(id, values.title, values.description, values.dueDate, values.complexity, false, None, None)
  }

  /** `{ ...task, ...values, priorityScore: undefined, reasoning: undefined }` */
  function EditedTask(task: Task, values: TaskFormValues): Task
  {
    task.(title := values.title, description := values.description, dueDate := values.dueDate,
          complexity := values.complexity, priorityScore := None, reasoning := None)
  }

  /**
   * The edit: every task with the edited id gets the form's fields and loses
   * its score and reasoning, keeping id and completion; every other task is
   * kept as it is, in place.
   */
  function EditTasks(tasks: seq<Task>, id: string, values: TaskFormValues): (r: seq<Task>)
    ensures |r| == |tasks|
    ensures forall i :: 0 <= i < |tasks| && tasks[i].id != id ==> r[i] == tasks[i]
    ensures forall i :: 0 <= i < |tasks| && tasks[i].id == id ==>
      && r[i].id == tasks[i].id && r[i].isComplete == tasks[i].isComplete
      && r[i].title == values.title && r[i].description == values.description
      && r[i].dueDate == values.dueDate && r[i].complexity == values.complexity
      && r[i].priorityScore.None? && r[i].reasoning.None?
  {
    if tasks == [] then []
    else
      [if tasks[0].id == id then EditedTask(tasks[0], values) else tasks[0]]
      + EditTasks(tasks[1..], id, values)
  }

  function Toggled(task: Task): Task
  {
    task.(isComplete := !task.isComplete)
  }

  /** The toggle: the completion of every task with the id flips and nothing else changes. */
  function ToggleTasks(tasks: seq<Task>, id: string): (r: seq<Task>)
    ensures |r| == |tasks|
    ensures forall i :: 0 <= i < |tasks| ==>
      && r[i].isComplete == (if tasks[i].id == id then !tasks[i].isComplete else tasks[i].isComplete)
      && r[i].(isComplete := tasks[i].isComplete) == tasks[i]
  {
    if tasks == [] then []
    else [if tasks[0].id == id then Toggled(tasks[0]) else tasks[0]] + ToggleTasks(tasks[1..], id)
  }

  /** Toggling the same id twice gives back the original list. */
  lemma ToggleTwice(tasks: seq<Task>, id: string)
    ensures ToggleTasks(ToggleTasks(tasks, id), id) == tasks
  {
  }

  /** `r` is `s` with some elements left out and the rest kept in their order. */
  predicate IsSubsequence(r: seq<Task>, s: seq<Task>)
  {
    if r == [] then true
    else if s == [] then false
    else if r[0] == s[0] then IsSubsequence(r[1..], s[1..])
    else IsSubsequence(r, s[1..])
  }

  /**
   * The delete: exactly the tasks without the id remain, each as often as
   * before.
   */
  function DeleteTasks(tasks: seq<Task>, id: string): (r: seq<Task>)
    ensures forall t :: t in r <==> t in tasks && t.id != id
    ensures forall t :: multiset(r)[t] == if t.id == id then 0 else multiset(tasks)[t]
  {
    if tasks == [] then []
    else
      assert tasks == [tasks[0]] + tasks[1..];
      var rest := DeleteTasks(tasks[1..], id);
      if tasks[0].id == id then rest else [tasks[0]] + rest
  }

  /** The tasks that remain after a delete keep their original relative order. */
  lemma {:induction false} DeleteKeepsOrder(tasks: seq<Task>, id: string)
    ensures IsSubsequence(DeleteTasks(tasks, id), tasks)
  {
    if tasks != [] {
      DeleteKeepsOrder(tasks[1..], id);
      var rest := DeleteTasks(tasks[1..], id);
      if tasks[0].id == id && rest != [] {
        assert rest[0] in rest;
      }
    }
  }

  /** Deleting an id that no task carries changes nothing. */
  lemma {:induction false} DeleteAbsentId(tasks: seq<Task>, id: string)
    requires !HasId(tasks, id)
    ensures DeleteTasks(tasks, id) == tasks
  {
    if tasks != [] {
      DeleteAbsentId(tasks[1..], id);
    }
  }

  /** With unique ids, no later task shares the first task's id. */
  lemma HeadIdNotInTail(tasks: seq<Task>, t: Task)
    requires UniqueIds(tasks) && tasks != [] && t in tasks[1..]
    ensures t.id != tasks[0].id
  {
  }

  /** Dropping the first task keeps ids unique. */
  lemma UniqueIdsTail(tasks: seq<Task>)
    requires UniqueIds(tasks) && tasks != []
    ensures UniqueIds(tasks[1..])
  {
  }

  /** Prepending a task whose id no task of the list carries keeps ids unique. */
  lemma UniqueIdsCons(t: Task, s: seq<Task>)
    requires UniqueIds(s) && forall u :: u in s ==> u.id != t.id
    ensures UniqueIds([t] + s)
  {
  }

  /** A delete keeps the ids unique. */
  lemma {:induction false} DeleteKeepsIdsUnique(tasks: seq<Task>, id: string)
    requires UniqueIds(tasks)
    ensures UniqueIds(DeleteTasks(tasks, id))
  {
    if tasks != [] {
      UniqueIdsTail(tasks);
      DeleteKeepsIdsUnique(tasks[1..], id);
      var rest := DeleteTasks(tasks[1..], id);
      if tasks[0].id != id {
        forall u | u in rest ensures u.id != tasks[0].id {
          HeadIdNotInTail(tasks, u);
        }
        UniqueIdsCons(tasks[0], rest);
      }
    }
  }

  /** `prioritizedTasks.find(p => p.id === id)` */
  function IndexOfId(tasks: seq<Task>, id: string): nat
  {
    IndexWhere(tasks, (t: Task) => t.id == id)
  }

  function MergeOne(original: Task, prioritized: seq<Task>): Task
  {
    var k := IndexOfId(prioritized, original.id);
    if k < |prioritized| then prioritized[k] else original
  }

  /**
   * The merge of a prioritisation result: every task stays in place and is
   * replaced by the first prioritised record with its id, if there is one.
   */
  function MergeById(tasks: seq<Task>, prioritized: seq<Task>): (r: seq<Task>)
    ensures |r| == |tasks|
    ensures forall i :: 0 <= i < |tasks| ==> r[i].id == tasks[i].id
    ensures forall i :: 0 <= i < |tasks| ==>
      (forall p :: p in prioritized ==> p.id != tasks[i].id) ==> r[i] == tasks[i]
    ensures forall i, m :: (0 <= i < |tasks| && 0 <= m < |prioritized| && prioritized[m].id == tasks[i].id
      && (forall q :: 0 <= q < m ==> prioritized[q].id != tasks[i].id)) ==> r[i] == prioritized[m]
  {
    if tasks == [] then []
    else [MergeOne(tasks[0], prioritized)] + MergeById(tasks[1..], prioritized)
  }

  /** `tasks.filter(t => !t.isComplete)` */
  function IncompleteTasks(tasks: seq<Task>): (r: seq<Task>)
    ensures forall t :: t in r <==> t in tasks && !t.isComplete
    ensures forall t :: multiset(r)[t] == if t.isComplete then 0 else multiset(tasks)[t]
  {
    if tasks == [] then []
    else
      assert tasks == [tasks[0]] + tasks[1..];
      var rest := IncompleteTasks(tasks[1..]);
      if tasks[0].isComplete then rest else [tasks[0]] + rest
  }

  /**
   * A reconciled record carries the id of original `j` exactly when its entry
   * has that original's title and `j` is the first original with that title:
   * fallback records (whose id is fresh) never do.
   */
  lemma ReconciledIdMatches(tasks: seq<Task>, entries: seq<AiTaskOutput>, dates: DateCodec, fallbackId: string,
                            j: int, m: int)
    requires UniqueIds(tasks) && !HasId(tasks, fallbackId)
    requires 0 <= j < |tasks| && 0 <= m < |entries|
    ensures Reconcile(tasks, entries, dates, fallbackId)[m].id == tasks[j].id
            <==> entries[m].title == tasks[j].title && IndexOfTitle(tasks, tasks[j].title) == j
  {
  }

  /** A synthesised fallback record, whose id is fresh, never enters the store. */
  lemma FallbackNeverStored(tasks: seq<Task>, entries: seq<AiTaskOutput>, dates: DateCodec, fallbackId: string)
    requires !HasId(tasks, fallbackId)
    ensures !HasId(MergeById(tasks, Reconcile(tasks, entries, dates, fallbackId)), fallbackId)
  {
  }

  /**
   * Title matching meets id merging: an original whose title repeats an
   * earlier original's title is never updated by a prioritisation.
   */
  lemma StaleDuplicateTitleNotUpdated(tasks: seq<Task>, entries: seq<AiTaskOutput>, dates: DateCodec,
                                      fallbackId: string, i: int, j: int)
    requires UniqueIds(tasks) && !HasId(tasks, fallbackId)
    requires 0 <= i < j < |tasks| && tasks[i].title == tasks[j].title
    ensures MergeById(tasks, Reconcile(tasks, entries, dates, fallbackId))[j] == tasks[j]
  {
    var r := Reconcile(tasks, entries, dates, fallbackId);
    forall p | p in r ensures p.id != tasks[j].id {
      var m :| 0 <= m < |r| && r[m] == p;
      ReconciledIdMatches(tasks, entries, dates, fallbackId, j, m);
    }
  }

  /** An original that no entry names by title is left as it is. */
  lemma UnnamedTaskNotUpdated(tasks: seq<Task>, entries: seq<AiTaskOutput>, dates: DateCodec,
                              fallbackId: string, j: int)
    requires UniqueIds(tasks) && !HasId(tasks, fallbackId)
    requires 0 <= j < |tasks|
    requires forall m :: 0 <= m < |entries| ==> entries[m].title != tasks[j].title
    ensures MergeById(tasks, Reconcile(tasks, entries, dates, fallbackId))[j] == tasks[j]
  {
  }

  /**
   * The first original with a given title takes the language model's fields from the
   * first entry with that title and keeps everything else.
   */
  lemma FirstTitleTakesFirstEntry(tasks: seq<Task>, entries: seq<AiTaskOutput>, dates: DateCodec,
                                  fallbackId: string, j: int, m: int)
    requires UniqueIds(tasks) && !HasId(tasks, fallbackId)
    requires 0 <= j < |tasks| && forall i :: 0 <= i < j ==> tasks[i].title != tasks[j].title
    requires 0 <= m < |entries| && entries[m].title == tasks[j].title
    requires forall q :: 0 <= q < m ==> entries[q].title != tasks[j].title
    ensures MergeById(tasks, Reconcile(tasks, entries, dates, fallbackId))[j] == ApplyAiEntry(tasks[j], entries[m], dates)
  {
    var r := Reconcile(tasks, entries, dates, fallbackId);
    assert IndexOfTitle(tasks, tasks[j].title) == j;
    ReconciledIdMatches(tasks, entries, dates, fallbackId, j, m);
    forall q | 0 <= q < m ensures r[q].id != tasks[j].id {
      ReconciledIdMatches(tasks, entries, dates, fallbackId, j, q);
    }
  }

  /** What the page tells the user after a prioritisation request. */
  datatype Notice = NotEnoughTasks | AiError(message: string) | TasksPrioritized(reasoning: string)

  /** The page's state: the task list, the task open in the form, the task awaiting delete confirmation. */
  class Home {
    var tasks: seq<Task>
    var editingTask: Option<Task>
    var taskToDelete: Option<string>

    /** Ids are unique across the live task list. */
    ghost predicate Valid()
      reads this
    {
      UniqueIds(tasks)
    }

    constructor ()
      ensures Valid()
      ensures tasks == [] && editingTask == None && taskToDelete == None
    {
      tasks := [];
      editingTask := None;
      taskToDelete := None;
    }

    /** Opens the form, for a new task (`None`) or for editing one. */
    method OpenForm(task: Option<Task>)
      modifies this
      ensures editingTask == task
      ensures tasks == old(tasks) && taskToDelete == old(taskToDelete)
    {
      editingTask := task;
    }

    /**
     * Submits the form: edits the task open in the form, or prepends a new
     * task with the fresh id; then the form is closed.
     */
    method SubmitForm(values: TaskFormValues, newId: string)
      requires Valid()
      requires editingTask.None? ==> !HasId(tasks, newId)
      modifies this
      ensures Valid()
      ensures old(editingTask).Some? ==> tasks == EditTasks(old(tasks), old(editingTask).value.id, values)
      ensures old(editingTask).None? ==> tasks == [NewTask(newId, values)] + old(tasks)
      ensures editingTask == None && taskToDelete == old(taskToDelete)
    {
      match editingTask {
        case Some(task) =>
          tasks := EditTasks(tasks, task.id, values);
        case None =>
          tasks := [NewTask(newId, values)] + tasks;
      }
      editingTask := None;
    }

    method ToggleComplete(id: string)
      requires Valid()
      modifies this
      ensures Valid()
      ensures tasks == ToggleTasks(old(tasks), id)
      ensures editingTask == old(editingTask) && taskToDelete == old(taskToDelete)
    {
      tasks := ToggleTasks(tasks, id);
    }

    /** Remembers which task the delete confirmation is about. */
    method OpenDeleteAlert(id: string)
      modifies this
      ensures taskToDelete == Some(id)
      ensures tasks == old(tasks) && editingTask == old(editingTask)
    {
      taskToDelete := Some(id);
    }

    /** Confirms the delete; an unset (or empty, hence falsy) id does nothing. */
    method ConfirmDelete()
      requires Valid()
      modifies this
      ensures Valid()
      ensures editingTask == old(editingTask)
      ensures old(taskToDelete).Some? && old(taskToDelete).value != "" ==>
        tasks == DeleteTasks(old(tasks), old(taskToDelete).value) && taskToDelete == None
      ensures old(taskToDelete).None? || old(taskToDelete).value == "" ==>
        tasks == old(tasks) && taskToDelete == old(taskToDelete)
    {
      if taskToDelete.Some? && taskToDelete.value != "" {
        DeleteKeepsIdsUnique(tasks, taskToDelete.value);
        tasks := DeleteTasks(tasks, taskToDelete.value);
        taskToDelete := None;
      }
    }

    /**
     * Prioritisation: with fewer than two incomplete tasks nothing is sent and
     * nothing changes; otherwise the whole list is sent, an error leaves the
     * list as it is, and a result is merged into the list by id.
     */
    method Prioritize(ai: seq<AiTaskInput> -> AiReply, dates: DateCodec, fallbackId: string)
      returns (notice: Notice)
      requires Valid()
      modifies this
      ensures Valid()
      ensures editingTask == old(editingTask) && taskToDelete == old(taskToDelete)
      ensures |IncompleteTasks(old(tasks))| < 2 ==> notice == NotEnoughTasks && tasks == old(tasks)
      ensures |IncompleteTasks(old(tasks))| >= 2 ==>
        match PrioritizeTasks(old(tasks), ai, dates, fallbackId)
        case Error(message) => notice == AiError(message) && tasks == old(tasks)
        case Prioritized(prioritized, reasoning) =>
          notice == TasksPrioritized(reasoning) && tasks == MergeById(old(tasks), prioritized)
      ensures notice != AiError(NoTasksError)
    {
      if |IncompleteTasks(tasks)| < 2 {
        return NotEnoughTasks;
      }
      var result := PrioritizeTasks(tasks, ai, dates, fallbackId);
      match result {
        case Error(message) =>
          notice := AiError(message);
        case Prioritized(prioritized, reasoning) =>
          var merged := MergeById(tasks, prioritized);
          assert UniqueIds(merged) by {
            forall i, j | 0 <= i < j < |merged| ensures merged[i].id != merged[j].id {
              assert merged[i].id == tasks[i].id && merged[j].id == tasks[j].id;
            }
          }
          tasks := merged;
          notice := TasksPrioritized(reasoning);
      }
    }
  }
}
