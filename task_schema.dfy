/** The request and response shapes of the task resource and their validation. */
module TaskSchema {
  import opened Common

  /** Default of `status` when a create body leaves it out. */
  const StatusDefault: string := "todo"
  /** Default of `priority` when a create body leaves it out. */
  const PriorityDefault: string := "medium"

  /** The validated fields of a task: `title` is required, three fields are nullable. */
  datatype TaskBase = TaskBase(
    title: string,
    description: Option<string>,
    status: string,
    priority: string,
    assignedTo: Option<int>,
    dueDate: Option<Timestamp>)

  /** A create body, once validated, is exactly the base shape. */
  type TaskCreate = TaskBase

  /** A JSON body over the six task members, each absent, null or a value. */
  datatype TaskFields = TaskFields(
    title: Member<string>,
    description: Member<string>,
    status: Member<string>,
    priority: Member<string>,
    assignedTo: Member<int>,
    dueDate: Member<Timestamp>)
  {
    /** No member was sent: `dict(exclude_unset=True)` is empty. */
    predicate NoneSet() {
      title.Absent? && description.Absent? && status.Absent? && priority.Absent?
      && assignedTo.Absent? && dueDate.Absent?
    }
  }

  /**
   * Every update member is optional and nullable, so any body over the six
   * members, the empty one included, is a valid update; which members were
   * sent is kept.
   */
  type TaskUpdate = TaskFields

  /** The response shape: the base fields plus the ones the store generates. */
  datatype Task = Task(base: TaskBase, id: int, createdAt: Timestamp, updatedAt: Timestamp)

  /** A `str` member with a default: absent gives the default, null is refused. */
  function Defaulted(m: Member<string>, default: string, name: string): (r: Result<string, FieldError>)
    ensures r.Ok? <==> m != Present(None)
    ensures m.Absent? ==> r == Ok(default)
    ensures m.Present? && m.value.Some? ==> r == Ok(m.value.value)
    ensures r.Err? ==> r.error == NotNullable(name)
  {
    match m
    case Absent => Ok(default)
    case Present(None) => Err(NotNullable(name))
    case Present(Some(v)) => Ok(v)
  }

  /** An `Optional[...] = None` member: absent and null both give `None`. */
  function Nullable<T>(m: Member<T>): (r: Option<T>)
    ensures m.Present? ==> r == m.value
    ensures m.Absent? ==> r.None?
  {
    match m
    case Absent => None
    case Present(v) => v
  }

  /** Validates a create body against `TaskCreate`. */
  function ParseTaskCreate(body: TaskFields): (r: Result<TaskCreate, FieldError>)
    ensures r.Ok? <==>
      body.title.Present? && body.title.value.Some?
      && body.status != Present(None) && body.priority != Present(None)
    ensures body.title.Absent? ==> r == Err(Missing("title"))
    ensures body.title == Present(None) ==> r == Err(NotNullable("title"))
    ensures r.Ok? ==>
      && r.value.title == body.title.value.value
      && (body.status.Absent? ==> r.value.status == "todo")
      && (body.status.Present? ==> Some(r.value.status) == body.status.value)
      && (body.priority.Absent? ==> r.value.priority == "medium")
      && (body.priority.Present? ==> Some(r.value.priority) == body.priority.value)
      && Merged(body.description, None, r.value.description)
      && Merged(body.assignedTo, None, r.value.assignedTo)
      && Merged(body.dueDate, None, r.value.dueDate)
  {
    match body.title
    case Absent => Err(Missing("title"))
    case Present(None) => Err(NotNullable("title"))
    case Present(Some(title)) =>
      match Defaulted(body.status, StatusDefault, "status")
      case Err(e) => Err(e)
      case Ok(status) =>
        match Defaulted(body.priority, PriorityDefault, "priority")
        case Err(e) => Err(e)
        case Ok(priority) =>
          Ok(TaskBase(title, Nullable(body.description), status, priority,
                      Nullable(body.assignedTo), Nullable(body.dueDate)))
  }
}
