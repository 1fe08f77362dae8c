/**
 * The task form's validation schema (src/components/app/task-form-schema.ts)
 * as a function from the raw form input to either the parsed form values or
 * the list of issues found, one per failing rule, in field order.
 */
module TaskFormSchema {
  import opened Types

  const MinTitleLength := 3
  const MaxTitleLength := 100
  const MaxDescriptionLength := 500

  /** What the form hands to the schema; an unset field is `None`. */
  datatype TaskFormInput = TaskFormInput(
    title: string,
    description: Option<string>,
    dueDate: Option<int>,
    complexity: Option<string>)

  /** The values the schema produces when the input passes. */
  datatype TaskFormValues = TaskFormValues(
    title: string,
    description: Option<string>,
    dueDate: int,
    complexity: Complexity)

  datatype Issue =
    | TitleTooShort
    | TitleTooLong
    | DescriptionTooLong
    | DueDateRequired
    | ComplexityRequired
    | ComplexityInvalid(received: string)
  {
    /** The message the schema attaches to each issue (the enum's default message belongs to the schema library). */
    function Message(): string
    {
      match this
      case TitleTooShort => "Title must be at least 3 characters long."
      case TitleTooLong => "Title must be 100 characters or less."
      case DescriptionTooLong => "Description must be 500 characters or less."
      case DueDateRequired => "A due date is required."
      case ComplexityRequired => "Complexity level is required."
      case ComplexityInvalid(s) => "Invalid enum value. Expected 'low' | 'medium' | 'high', received '" + s + "'"
    }
  }

  datatype Validation = Valid(values: TaskFormValues) | Invalid(issues: seq<Issue>)

  /** The enum `['low', 'medium', 'high']`. */
  function ParseComplexity(s: string): (c: Option<Complexity>)
    ensures c == Some(Low) <==> s == "low"
    ensures c == Some(Medium) <==> s == "medium"
    ensures c == Some(High) <==> s == "high"
  {
    if s == "low" then Some(Low)
    else if s == "medium" then Some(Medium)
    else if s == "high" then Some(High)
    else None
  }

  function TitleIssues(title: string): seq<Issue>
  {
    (if |title| < MinTitleLength then [TitleTooShort] else [])
    + (if |title| > MaxTitleLength then [TitleTooLong] else [])
  }

  function DescriptionIssues(description: Option<string>): seq<Issue>
  {
    match description
    case None => []
    case Some(d) => if |d| > MaxDescriptionLength then [DescriptionTooLong] else []
  }

  function DueDateIssues(dueDate: Option<int>): seq<Issue>
  {
    if dueDate.None? then [DueDateRequired] else []
  }

  function ComplexityIssues(complexity: Option<string>): seq<Issue>
  {
    match complexity
    case None => [ComplexityRequired]
    case Some(s) => if ParseComplexity(s).None? then [ComplexityInvalid(s)] else []
  }

  /** Every rule of the schema that the input breaks. */
  function Issues(input: TaskFormInput): (issues: seq<Issue>)
    ensures TitleTooShort in issues <==> |input.title| < 3
    ensures TitleTooLong in issues <==> |input.title| > 100
    ensures DescriptionTooLong in issues <==> input.description.Some? && |input.description.value| > 500
    ensures DueDateRequired in issues <==> input.dueDate.None?
    ensures ComplexityRequired in issues <==> input.complexity.None?
    ensures forall s :: ComplexityInvalid(s) in issues <==>
      input.complexity == Some(s) && s != "low" && s != "medium" && s != "high"
  {
    TitleIssues(input.title) + DescriptionIssues(input.description)
    + DueDateIssues(input.dueDate) + ComplexityIssues(input.complexity)
  }

  /** `taskSchema.safeParse`: the values when no rule is broken, the issues otherwise. */
  function Validate(input: TaskFormInput): (v: Validation)
    ensures v.Valid? <==>
      && 3 <= |input.title| <= 100
      && (input.description.None? || |input.description.value| <= 500)
      && input.dueDate.Some?
      && input.complexity.Some?
      && input.complexity.value in {"low", "medium", "high"}
    ensures v.Valid? ==>
      && v.values.title == input.title
      && v.values.description == input.description
      && Some(v.values.dueDate) == input.dueDate
      && Some(v.values.complexity) == ParseComplexity(input.complexity.value)
    ensures v.Invalid? ==> v.issues == Issues(input) && v.issues != []
  {
    var issues := Issues(input);
    if issues == [] then
      Valid(TaskFormValues(input.title, input.description, input.dueDate.value,
                           ParseComplexity(input.complexity.value).value))
    else
      Invalid(issues)
  }
}
