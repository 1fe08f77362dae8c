# Task list with AI prioritisation — a Dafny model

This project models the logic of a small task-list web application: the
`Task` record, the page's task store (create, edit, toggle-complete, delete,
and the merge of an AI prioritisation result), the server action that sends
the tasks to a language model and reconciles its answer with the originals,
the display sort, and the task form's validation schema.

Modules, one per source file:

- `Types` (`src/lib/types.ts`): `Task`, `Complexity`, `Option`, the
  "ids are unique" predicate, and `IndexWhere`, the first-match search that
  both `tasks.find` calls of the source perform.
- `TaskFormSchema` (`src/components/app/task-form-schema.ts`): the schema as a
  function from the raw form input to the parsed values or the list of issues.
- `Actions` (`src/app/actions.ts`): the projection sent to the language model,
  the title-based reconciliation, the general reasoning, and `prioritizeTasks`.
  The language-model call is an oracle parameter `ai` that yields its entries
  or a failure; date formatting and parsing are the two functions of a
  `DateCodec` parameter.
- `TaskList` (`src/components/app/task-list.tsx`): the comparator, a stable
  insertion sort driven by it, and the list view (empty state or sorted copy).
- `Page` (`src/app/page.tsx`): the pure list operations each handler computes,
  lemmas about prioritisation composed with the merge, and the class `Home`
  holding the page's state (`tasks`, `editingTask`, `taskToDelete`) with one
  method per handler.

Points the Dafny model makes explicit:

- The reconciliation matches the language model's entries to originals by **title**
  (first match), while the page merges the result by **id**. With unique ids
  and a fresh fallback id, a synthesised fallback record never reaches the
  store (`Page.FallbackNeverStored`), an original whose title repeats an
  earlier title is never updated, and the first original with a title takes
  the fields of the first entry with that title (`Page.StaleDuplicateTitleNotUpdated`,
  `Page.FirstTitleTakesFirstEntry`, `Page.UnnamedTaskNotUpdated`).
- The comparator is antisymmetric but not transitive when scored and unscored
  tasks share a completion group (`TaskList.CompareNotTransitive`). The sorted
  copy is always a permutation with incomplete tasks first; it is in
  comparator order only when, within each completion group, every task is
  scored or none is (`TaskList.SortedWhenHomogeneous`).
- `if (taskToDelete)` is a truthiness test, so an empty id deletes nothing.

Behaviours of the code worth noting: the whole list, completed tasks
included, is sent for prioritisation; the comparator is not a total order;
the reconciled list contains only the language model's entries, so an
original the language model omitted is absent from it and survives only
because the page merges by id; and the general reasoning falls back to the
default text also when the first entry's reasoning is the empty string.

## Model

| member | source | states |
|---|---|---|
| `TaskFormSchema.ParseComplexity` | src/components/app/task-form-schema.ts:9-11 | exactly `low`, `medium`, `high` are accepted, each to its enum value |
| `TaskFormSchema.Issues` | src/components/app/task-form-schema.ts:3-12 | each issue is reported iff its rule is broken: title under 3 or over 100 characters, a present description over 500, a missing due date, a missing or non-enum complexity |
| `TaskFormSchema.Validate` | src/components/app/task-form-schema.ts:3-12 | the input is accepted iff title length is 3..100, the description is absent or at most 500, the due date is present and the complexity is one of the three; accepted values carry the input's fields; a rejection carries the non-empty issue list |
| `Actions.FormatTasksForAI` | src/app/actions.ts:7-15 | the projection keeps length and order, copies title, complexity and completion, formats the due date, and turns an absent description into `""` |
| `Types.IndexWhere` | src/app/actions.ts:29 | the index found is that of the first task satisfying the test, or the list length when none does; `Actions.IndexOfTitle` (this line) and `Page.IndexOfId` (src/app/page.tsx:148) are this search with the title and the id test |
| `Actions.Reconcile` | src/app/actions.ts:28-52 | one record per language-model entry, in its order; each takes due date, complexity, completion, score and reasoning from its entry; id, title and description come from the first original with the entry's title, or else the record carries the fallback id and the entry's title and description |
| `Actions.GeneralReasoning` | src/app/actions.ts:54 | the result is never empty: the first entry's reasoning when there is one and it is non-empty, else the default text |
| `Actions.PrioritizeTasks` | src/app/actions.ts:17-61 | an empty list yields `No tasks to prioritize.` whatever the oracle; otherwise the whole list's projection is what the oracle sees, a failure yields the fixed error, a reply yields exactly the reconciliation of its entries with the original tasks (as many tasks as entries) and the general reasoning of the entries; no other error exists |
| `TaskList.Compare` | src/components/app/task-list.tsx:24-34 | incomplete before complete; with both scores present and different, the higher score first; otherwise the earlier due date first, and zero exactly on equal dates |
| `TaskList.CompareAntisymmetric` | src/components/app/task-list.tsx:25-33 | swapping the arguments flips the sign or keeps zero |
| `TaskList.CompareNotTransitive` | src/components/app/task-list.tsx:25-33 | there are three tasks the comparator orders in a cycle |
| `TaskList.CompareTransitive` | src/components/app/task-list.tsx:25-33 | among tasks that do not mix scored and unscored within a completion group, "not after" is transitive |
| `TaskList.Insert` | src/components/app/task-list.tsx:24 | inserting adds exactly the one element to the multiset of the list |
| `TaskList.InsertPartitioned` | src/components/app/task-list.tsx:25-27 | inserting into a completion-partitioned list keeps it partitioned |
| `TaskList.SortForDisplay` | src/components/app/task-list.tsx:24-34 | the sorted copy is a permutation of the input with every incomplete task before every complete one |
| `TaskList.InsertSorted` | src/components/app/task-list.tsx:24-34 | inserting into a list in comparator order keeps it in order when scores are homogeneous |
| `TaskList.SortedWhenHomogeneous` | src/components/app/task-list.tsx:24-34 | when no completion group mixes scored and unscored tasks, the sorted copy is in comparator order |
| `TaskList.DisplayOrder` | src/components/app/task-list.tsx:24-34 | under that condition, for any two positions: incomplete first; a higher score first when both scored and different; otherwise the due dates are non-decreasing |
| `TaskList.TaskListView` | src/components/app/task-list.tsx:13-34 | the empty state is shown iff the list is empty; otherwise the shown list is a partitioned permutation of the input |
| `Page.NewTask` | src/app/page.tsx:98-102 | a created task carries the fresh id and the form's fields, is not complete and has no score or reasoning |
| `Page.EditTasks` | src/app/page.tsx:92-94 | length and order kept; tasks with another id unchanged; the edited task keeps id and completion, takes the form's fields and loses score and reasoning |
| `Page.ToggleTasks` | src/app/page.tsx:110-112 | length kept; completion flips exactly for tasks with the id; every other field of every task unchanged |
| `Page.ToggleTwice` | src/app/page.tsx:109-113 | toggling the same id twice restores the list |
| `Page.DeleteTasks` | src/app/page.tsx:123 | a task remains iff it was there and has another id, each as often as before |
| `Page.DeleteKeepsOrder` | src/app/page.tsx:123 | the remaining tasks keep their relative order |
| `Page.DeleteAbsentId` | src/app/page.tsx:123 | deleting an id no task carries changes nothing |
| `Page.DeleteKeepsIdsUnique` | src/app/page.tsx:123 | a delete keeps ids unique |
| `Page.MergeById` | src/app/page.tsx:147-150 | length, order and every id kept; each task is replaced by the first record with its id, or kept when there is none |
| `Page.IncompleteTasks` | src/app/page.tsx:132 | exactly the incomplete tasks are kept, each as often as in the list, and no complete task |
| `Page.ReconciledIdMatches` | src/app/page.tsx:147-150 | a reconciled record carries an original's id iff its entry has that original's title and the original is the first with that title |
| `Page.FallbackNeverStored` | src/app/page.tsx:147-150 | after reconciliation and merge no task carries the (fresh) fallback id |
| `Page.StaleDuplicateTitleNotUpdated` | src/app/page.tsx:147-150 | an original whose title repeats an earlier original's title is left unchanged by a prioritisation |
| `Page.UnnamedTaskNotUpdated` | src/app/page.tsx:147-150 | an original whose title no entry carries is left unchanged |
| `Page.FirstTitleTakesFirstEntry` | src/app/page.tsx:147-150 | the first original with a title becomes that original with the language model's fields from the first entry with the title |
| `Page.Home.constructor` | src/app/page.tsx:61 | the store starts empty, with nothing being edited or deleted |
| `Page.Home.OpenForm` | src/app/page.tsx:76-79 | records the task being edited (or none for a new task), nothing else |
| `Page.Home.SubmitForm` | src/app/page.tsx:89-107 | editing applies `EditTasks` for the edited task's id; otherwise the new task is prepended before the unchanged old list; ids stay unique; the form is closed |
| `Page.Home.ToggleComplete` | src/app/page.tsx:109-113 | the list becomes `ToggleTasks` of the old list; ids stay unique |
| `Page.Home.OpenDeleteAlert` | src/app/page.tsx:115-118 | records the id awaiting confirmation, nothing else |
| `Page.Home.ConfirmDelete` | src/app/page.tsx:120-128 | with a non-empty pending id the list becomes `DeleteTasks` of it and the pending id is cleared; otherwise nothing changes |
| `Page.Home.Prioritize` | src/app/page.tsx:130-158 | fewer than two incomplete tasks: no change and the "not enough" notice; else the whole list goes to `PrioritizeTasks`, an error leaves the list unchanged, a result is merged by id; ids stay unique; the empty-list error never surfaces here |

## Left out

- The prompt and flow around the language model (`src/ai/flows/intelligent-task-prioritization.ts`) are not part of this model: the call is the oracle parameter `ai`, whose output shape follows the flow's schema. The "sorted highest first" promise of that schema is not relied on.
- Date formatting (`yyyy-MM-dd`) and parsing of the language model's date text depend on a date library and time zones: they are the uninterpreted functions of `DateCodec`, and no round trip is claimed.
- Clock-based ids: a new task's id and the fallback id are parameters. Creating requires the id to be fresh. One fallback id serves every fallback record of a call, as the clock would within one millisecond.
- The async transition, the busy flag and the stale `tasks` snapshot between request and merge are concurrency, not modelled; `Home.Prioritize` runs as one step.
- The mount effect and seed tasks, toasts (the `Notice` result names which one is shown), dialog open flags, the 200 ms delay before the form's edited task is cleared (modelled as immediate), and all rendering.
- `src/components/app/header.tsx`, `logo.tsx` and `task-item.tsx` are presentation only, including the overdue flag (it reads the clock) and the button-disable rule.
- Page.EditTasks: always overwrites the description with the form's value; a form value object that lacks the description key altogether would keep the old description under the source's spread, and the form component is not part of this model.
- TaskList.SortForDisplay: the platform's library sort is replaced by a stable insertion sort with the same comparator. With a non-transitive comparator the library may produce another order; stability itself is not stated as a lemma.
- TaskFormSchema.Validate: lengths count Dafny characters rather than UTF-16 code units; an invalid `Date` value and non-string inputs are not modelled; the enum message is the schema library's default text.
- Scores are integers rather than floating-point numbers (no NaN); due dates are integer timestamps.
- The `!tasks` null test in `prioritizeTasks` and the lookup used only for the delete toast's text are not modelled.
