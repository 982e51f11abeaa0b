/** The `TodoRequest` body model and the path-id constraint, as the web
    framework enforces them before a handler runs. */
module Requests {
  import opened Results

  const TitleMinLength := 3
  const TitleMaxLength := 50
  const DescribeMinLength := 3
  const DescribeMaxLength := 1000
  const PriorityMin := 1
  const PriorityMax := 5

  /** A request body as it arrives. `completed` is `None` when the field is
      missing or is not a boolean. */
  datatype RawRequest = RawRequest(title: string, describe: string, priority: int, completed: Option<bool>)

  /** A body that passed validation. */
  datatype TodoRequest = TodoRequest(title: string, describe: string, priority: int, completed: bool)

  datatype Field = Title | Describe | Priority | Completed

  /** One entry of the framework's error list: which field broke which kind
      of constraint. */
  datatype Violation =
    | TooShort(field: Field)
    | TooLong(field: Field)
    | BelowMinimum(field: Field)
    | AboveMaximum(field: Field)
    | MissingBoolean(field: Field)

  /** The closed-form reading of each violation: when it applies to `raw`. */
  predicate Violates(raw: RawRequest, v: Violation)
  {
    match v
    case TooShort(f) =>
      (f == Title && |raw.title| < TitleMinLength) || (f == Describe && |raw.describe| < DescribeMinLength)
    case TooLong(f) =>
      (f == Title && |raw.title| > TitleMaxLength) || (f == Describe && |raw.describe| > DescribeMaxLength)
    case BelowMinimum(f) => f == Priority && raw.priority < PriorityMin
    case AboveMaximum(f) => f == Priority && raw.priority > PriorityMax
    case MissingBoolean(f) => f == Completed && raw.completed.None?
  }

  /** Every bound of the request model holds. */
  predicate WithinBounds(title: string, describe: string, priority: int)
  {
    && TitleMinLength <= |title| <= TitleMaxLength
    && DescribeMinLength <= |describe| <= DescribeMaxLength
    && PriorityMin <= priority <= PriorityMax
  }

  /** The body is accepted as a `TodoRequest`. */
  predicate Acceptable(raw: RawRequest)
  {
    WithinBounds(raw.title, raw.describe, raw.priority) && raw.completed.Some?
  }

  function LengthCheck(f: Field, s: string, minLength: nat, maxLength: nat): seq<Violation>
  {
    if |s| < minLength then [TooShort(f)]
    else if |s| > maxLength then [TooLong(f)]
    else []
  }

  function RangeCheck(f: Field, x: int, ge: int, le: int): seq<Violation>
  {
    if x < ge then [BelowMinimum(f)]
    else if x > le then [AboveMaximum(f)]
    else []
  }

  /** The error list, field by field in declaration order: it names
      exactly the constraints `raw` breaks. */
  function Violations(raw: RawRequest): (vs: seq<Violation>)
    ensures forall v :: v in vs <==> Violates(raw, v)
    ensures |vs| <= 4
  {
    LengthCheck(Title, raw.title, TitleMinLength, TitleMaxLength)
    + LengthCheck(Describe, raw.describe, DescribeMinLength, DescribeMaxLength)
    + RangeCheck(Priority, raw.priority, PriorityMin, PriorityMax)
    + (if raw.completed.None? then [MissingBoolean(Completed)] else [])
  }

  /** Parses a body into a `TodoRequest`, or rejects it. */
  function Validate(raw: RawRequest): (r: Result<TodoRequest>)
    ensures r.Ok? <==> Acceptable(raw)
    ensures !r.NotFound?
    ensures r.Ok? ==> && r.value.title == raw.title
                      && r.value.describe == raw.describe
                      && r.value.priority == raw.priority
                      && raw.completed == Some(r.value.completed)
  {
    var vs := Violations(raw);
    if vs == [] then
      Ok(TodoRequest(raw.title, raw.describe, raw.priority, raw.completed.value))
    else
      ValidationError
  }

  /** `todo_id: int = Path(gt=0)`. */
  predicate ValidPathId(id: int)
  {
    id > 0
  }
}
