/** Values shared by the schemas, the tables and the route handlers. */
module Common {

  /** A clock reading (the source takes it from `datetime.utcnow`); the model treats it as opaque. */
  type Timestamp = int

  datatype Option<T> = None | Some(value: T)

  /** The value of an option, or `default` when it is absent. */
  function OrElse<T>(o: Option<T>, default: T): (r: T)
    ensures o.Some? ==> r == o.value
    ensures o.None? ==> r == default
  {
    match o
    case Some(v) => v
    case None => default
  }

  datatype Result<T, E> = Ok(value: T) | Err(error: E)

  /**
   * One member of a JSON request body: left out entirely, or present with a
   * value or with an explicit `null` (`Present(None)`).  Pydantic remembers the
   * difference, which is what `dict(exclude_unset=True)` relies on.
   */
  datatype Member<T> = Absent | Present(value: Option<T>)

  /**
   * `after` is what a column holds once `m` has been applied to it: a present
   * member (null included) replaces the column, an absent one leaves `before`.
   */
  predicate Merged<T(==)>(m: Member<T>, before: Option<T>, after: Option<T>) {
    (m.Absent? ==> after == before) && (m.Present? ==> after == m.value)
  }

  /** Applies one body member to a column that currently holds `current`. */
  function Apply<T>(m: Member<T>, current: Option<T>): (r: Option<T>)
    ensures Merged(m, current, r)
  {
    match m
    case Absent => current
    case Present(v) => v
  }

  /** Why request validation refused a body, before any handler runs. */
  datatype FieldError = Missing(field: string) | NotNullable(field: string) | NotAnEmail

  /** The error kinds a route handler answers with. */
  datatype HttpError =
    | NotFound   // 404: no row with that id
    | NoFields   // 400: an update body that sets no field
    | Rejected   // 400: the store refused the write and it was rolled back
    | BadQuery   // 422: `skip` or `limit` out of range

  /** Python truthiness of an optional query string: `None` and `""` are false. */
  predicate Truthy(s: Option<string>) {
    s.Some? && s.value != ""
  }

  /** The `skip` / `limit` query defaults and the largest `limit` both list endpoints accept. */
  const DefaultSkip: int := 0
  const DefaultLimit: int := 10
  const MaxLimit: int := 100

  function Min(a: int, b: int): (m: int)
    ensures m <= a && m <= b && (m == a || m == b)
  {
    if a <= b then a else b
  }

  function Max(a: int, b: int): (m: int)
    ensures m >= a && m >= b && (m == a || m == b)
  {
    if a >= b then a else b
  }
}
