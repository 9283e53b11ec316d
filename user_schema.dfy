/** The request and response shapes of the employee resource and their validation. */
module UserSchema {
  import opened Common

  /**
   * Stands in for Pydantic's `EmailStr` check: exactly one `@`, with a
   * non-empty part on each side.  The full address grammar is not modelled.
   */
  predicate IsValidEmail(s: string)
    ensures IsValidEmail(s) ==> '@' in s && |s| >= 3
    ensures IsValidEmail(s) ==> s[0] != '@' && s[|s| - 1] != '@'
  {
    exists i | 0 < i < |s| - 1 :: s[i] == '@' && '@' !in s[..i] && '@' !in s[i + 1..]
  }

  /** The validated fields of an employee: all six are required. */
  datatype EmployeeBase = EmployeeBase(
    name: string,
    email: string,
    phone: string,
    department: string,
    position: string,
    hireDate: Timestamp)

  /** A create body, once validated, is exactly the base shape. */
  type EmployeeCreate = EmployeeBase

  /** A JSON body over the six employee members, each absent, null or a value. */
  datatype EmployeeFields = EmployeeFields(
    name: Member<string>,
    email: Member<string>,
    phone: Member<string>,
    department: Member<string>,
    position: Member<string>,
    hireDate: Member<Timestamp>)
  {
    /** No member was sent: `dict(exclude_unset=True)` is empty. */
    predicate NoneSet() {
      name.Absent? && email.Absent? && phone.Absent? && department.Absent?
      && position.Absent? && hireDate.Absent?
    }
  }

  /** Every update member is optional and nullable; an email that is sent must be valid. */
  type EmployeeUpdate = EmployeeFields

  /** The `Optional[EmailStr]` check of an update body. */
  predicate EmailAcceptable(m: Member<string>)
    ensures m.Absent? ==> EmailAcceptable(m)
    ensures m == Present(None) ==> EmailAcceptable(m)
    ensures m.Present? && m.value.Some? ==> (EmailAcceptable(m) <==> IsValidEmail(m.value.value))
  {
    m.Present? && m.value.Some? ==> IsValidEmail(m.value.value)
  }

  /** The response shape: the base fields plus the ones the store generates. */
  datatype Employee = Employee(base: EmployeeBase, id: int, createdAt: Timestamp, updatedAt: Timestamp)

  /** A required, non-nullable member. */
  function Required<T>(m: Member<T>, name: string): (r: Result<T, FieldError>)
    ensures r.Ok? <==> m.Present? && m.value.Some?
    ensures r.Ok? ==> r.value == m.value.value
    ensures m.Absent? ==> r == Err(Missing(name))
    ensures m == Present(None) ==> r == Err(NotNullable(name))
  {
    match m
    case Absent => Err(Missing(name))
    case Present(None) => Err(NotNullable(name))
    case Present(Some(v)) => Ok(v)
  }

  /** Validates a create body against `EmployeeCreate`. */
  function ParseEmployeeCreate(body: EmployeeFields): (r: Result<EmployeeCreate, FieldError>)
    ensures r.Ok? <==>
      && body.name.Present? && body.name.value.Some?
      && body.email.Present? && body.email.value.Some? && IsValidEmail(body.email.value.value)
      && body.phone.Present? && body.phone.value.Some?
      && body.department.Present? && body.department.value.Some?
      && body.position.Present? && body.position.value.Some?
      && body.hireDate.Present? && body.hireDate.value.Some?
    ensures r.Ok? ==>
      && Present(Some(r.value.name)) == body.name
      && Present(Some(r.value.email)) == body.email
      && Present(Some(r.value.phone)) == body.phone
      && Present(Some(r.value.department)) == body.department
      && Present(Some(r.value.position)) == body.position
      && Present(Some(r.value.hireDate)) == body.hireDate
      && IsValidEmail(r.value.email)
  {
    match (Required(body.name, "name"), Required(body.email, "email"), Required(body.phone, "phone"),
           Required(body.department, "department"), Required(body.position, "position"),
           Required(body.hireDate, "hire_date"))
    case (Ok(name), Ok(email), Ok(phone), Ok(department), Ok(position), Ok(hireDate)) =>
      if IsValidEmail(email) then Ok(EmployeeBase(name, email, phone, department, position, hireDate))
      else Err(NotAnEmail)
    case (Err(e), _, _, _, _, _) => Err(e)
    case (_, Err(e), _, _, _, _) => Err(e)
    case (_, _, Err(e), _, _, _) => Err(e)
    case (_, _, _, Err(e), _, _) => Err(e)
    case (_, _, _, _, Err(e), _) => Err(e)
    case (_, _, _, _, _, Err(e)) => Err(e)
  }

  /** Validates an update body against `EmployeeUpdate`: only a sent, non-null email is checked. */
  function ParseEmployeeUpdate(body: EmployeeFields): (r: Result<EmployeeUpdate, FieldError>)
    ensures r.Ok? <==> EmailAcceptable(body.email)
    ensures r.Ok? ==> r.value == body
    ensures r.Err? ==> r.error == NotAnEmail
  {
    if EmailAcceptable(body.email) then Ok(body) else Err(NotAnEmail)
  }
}
