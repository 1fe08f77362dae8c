/**
 * The server action that asks the language model to prioritise the task list
 * (src/app/actions.ts): the projection of the tasks into the language model's input,
 * the reconciliation of its answer with the original tasks by title,
 * and the general reasoning shown to the user.
 *
 * The language model itself is an oracle `ai`, a function from the projected tasks to
 * either its list of entries or a failure; date formatting and parsing are the
 * two functions of a `DateCodec`.
 */
module Actions {
  import opened Types

  const NoTasksError := "No tasks to prioritize."
  const FailedError := "Failed to prioritize tasks using AI. Please try again later."
  const DefaultReasoning := "Tasks have been prioritized by AI."

  /** One task as the language model receives it. */
  datatype AiTaskInput = AiTaskInput(
    title: string,
    description: string,
    dueDate: string,
    complexity: Complexity,
    isComplete: bool)

  /** One entry of the language model's answer. */
  datatype AiTaskOutput = AiTaskOutput(
    title: string,
    description: string,
    dueDate: string,
    complexity: Complexity,
    isComplete: bool,
    priorityScore: int,
    reasoning: string)

  /** What the language-model call yields: its entries, or any failure (transport, schema, provider). */
  datatype AiReply = Replied(entries: seq<AiTaskOutput>) | Failed

  /** Turning a timestamp into the `yyyy-MM-dd` text the language model reads, and its date text back into a timestamp. */
  datatype DateCodec = DateCodec(format: int -> string, parse: string -> int)

  datatype PrioritizeResult =
    | Prioritized(prioritizedTasks: seq<Task>, reasoning: string)
    | Error(error: string)

  /** `task.description || ''` */
  function DescriptionText(description: Option<string>): string
  {
    match description
    case None => ""
    case Some(d) => d
  }

  function ToAiInput(task: Task, dates: DateCodec): AiTaskInput
  {
    AiTaskInput(task.title, DescriptionText(task.description), dates.format(task.dueDate),
                task.complexity, task.isComplete)
  }

  /** `formatTasksForAI`: every task, in order, projected to the language model's input shape. */
  function FormatTasksForAI(tasks: seq<Task>, dates: DateCodec): (r: seq<AiTaskInput>)
    ensures |r| == |tasks|
    ensures forall i :: 0 <= i < |tasks| ==>
      && r[i].title == tasks[i].title
      && (tasks[i].description.Some? ==> r[i].description == tasks[i].description.value)
      && (tasks[i].description.None? ==> r[i].description == "")
      && r[i].dueDate == dates.format(tasks[i].dueDate)
      && r[i].complexity == tasks[i].complexity
      && r[i].isComplete == tasks[i].isComplete
  {
    if tasks == [] then [] else [ToAiInput(tasks[0], dates)] + FormatTasksForAI(tasks[1..], dates)
  }

  /** `tasks.find(t => t.title === title)` */
  function IndexOfTitle(tasks: seq<Task>, title: string): nat
  {
    IndexWhere(tasks, (t: Task) => t.title == title)
  }

  /** An original task with the fields the language model returns taken from its entry. */
  function ApplyAiEntry(original: Task, entry: AiTaskOutput, dates: DateCodec): Task
  {
    original.(dueDate := dates.parse(entry.dueDate),
              complexity := entry.complexity,
              isComplete := entry.isComplete,
              priorityScore := Some(entry.priorityScore),
              reasoning := Some(entry.reasoning))
  }

  /** The fallback record for an entry whose title matches no original. */
  function SynthesizeTask(entry: AiTaskOutput, dates: DateCodec, fallbackId: string): Task
  {
    Task(fallbackId, entry.title, Some(entry.description), dates.parse(entry.dueDate),
         entry.complexity, entry.isComplete, Some(entry.priorityScore), Some(entry.reasoning))
  }

  function ReconcileEntry(tasks: seq<Task>, entry: AiTaskOutput, dates: DateCodec, fallbackId: string): Task
  {
    var k := IndexOfTitle(tasks, entry.title);
    if k < |tasks| then ApplyAiEntry(tasks[k], entry, dates) else SynthesizeTask(entry, dates, fallbackId)
  }

  /** The language model's entry supplies due date, complexity, completion, score and reasoning of the record. */
  predicate TakesAiFields(t: Task, entry: AiTaskOutput, dates: DateCodec)
  {
    && t.dueDate == dates.parse(entry.dueDate)
    && t.complexity == entry.complexity
    && t.isComplete == entry.isComplete
    && t.priorityScore == Some(entry.priorityScore)
    && t.reasoning == Some(entry.reasoning)
  }

  /**
   * `result.prioritizedTasks.map(...)`: one record per entry of the language
   * model, in its order. An entry whose title is that of some original takes id,
   * title and description from the FIRST such original; otherwise the record is
   * new, carries the fallback id and takes every field from the entry.
   */
  function Reconcile(tasks: seq<Task>, entries: seq<AiTaskOutput>, dates: DateCodec, fallbackId: string): (r: seq<Task>)
    ensures |r| == |entries|
    ensures forall m :: 0 <= m < |entries| ==>
      && TakesAiFields(r[m], entries[m], dates)
      && var k := IndexOfTitle(tasks, entries[m].title);
         if k < |tasks| then
           r[m].id == tasks[k].id && r[m].title == tasks[k].title && r[m].description == tasks[k].description
         else
           r[m].id == fallbackId && r[m].title == entries[m].title && r[m].description == Some(entries[m].description)
  {
    if entries == [] then []
    else [ReconcileEntry(tasks, entries[0], dates, fallbackId)] + Reconcile(tasks, entries[1..], dates, fallbackId)
  }

  /** `result.prioritizedTasks[0]?.reasoning || DefaultReasoning` */
  function GeneralReasoning(entries: seq<AiTaskOutput>): (r: string)
    ensures r != ""
    ensures |entries| > 0 && entries[0].reasoning != "" ==> r == entries[0].reasoning
    ensures |entries| == 0 || entries[0].reasoning == "" ==> r == DefaultReasoning
  {
    if |entries| > 0 && entries[0].reasoning != "" then entries[0].reasoning else DefaultReasoning
  }

  /**
   * `prioritizeTasks`: an empty list is refused before the language model is consulted;
   * otherwise the WHOLE list is projected and sent, a failure becomes the fixed
   * error, and a reply is reconciled with the original tasks.
   */
  function PrioritizeTasks(tasks: seq<Task>, ai: seq<AiTaskInput> -> AiReply, dates: DateCodec, fallbackId: string)
    : (r: PrioritizeResult)
    ensures |tasks| == 0 ==> r == Error(NoTasksError)
    ensures |tasks| > 0 && ai(FormatTasksForAI(tasks, dates)).Failed? ==> r == Error(FailedError)
    ensures |tasks| > 0 && ai(FormatTasksForAI(tasks, dates)).Replied? ==>
      var entries := ai(FormatTasksForAI(tasks, dates)).entries;
      && r.Prioritized?
      && r.prioritizedTasks == Reconcile(tasks, entries, dates, fallbackId)
      && |r.prioritizedTasks| == |entries|
      && r.reasoning == GeneralReasoning(entries)
    ensures r.Error? ==> r.error == NoTasksError || r.error == FailedError
  {
    if |tasks| == 0 then Error(NoTasksError)
    else
      match ai(FormatTasksForAI(tasks, dates))
      case Failed => Error(FailedError)
      case Replied(entries) =>
        Prioritized(Reconcile(tasks, entries, dates, fallbackId), GeneralReasoning(entries))
  }
}
