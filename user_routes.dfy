/**
 * The employee handlers, run one request at a time against the `user` table.
 * A write whose result would hold two rows with one email breaks the UNIQUE
 * constraint and is rolled back; any other refusal by the store is the
 * parameter `rejects`.
 */
module UserRoutes {
  import opened Common
  import opened RecordStore
  import opened UserSchema
  import opened UserModel

  /** The column values `create_user` inserts: all six fields of the body. */
  function EmployeeCreateValues(c: EmployeeCreate): (v: EmployeeFields)
    ensures !v.NoneSet()
    ensures IsValidEmail(c.email) ==> ParseEmployeeCreate(v) == Ok(c)
  {
    EmployeeFields(Present(Some(c.name)), Present(Some(c.email)), Present(Some(c.phone)),
                   Present(Some(c.department)), Present(Some(c.position)), Present(Some(c.hireDate)))
  }

  /** An update that sends a non-null email already held by another row. */
  predicate EmailClash(rows: map<int, EmployeeRow>, id: int, m: Member<string>)
    ensures m.Absent? || m == Present(None) ==> !EmailClash(rows, id, m)
    ensures EmailClash(rows, id, m) ==> exists k | k in rows && k != id :: rows[k].email == m.value
  {
    m.Present? && m.value.Some? && TakenByOther(rows, m.value.value, id)
  }

  /**
   * The `response_model=Employee` check on a row: it fails when a column
   * holds NULL or the email is not an `EmailStr`.
   */
  function AsEmployeeResponse(row: EmployeeRow): (r: Option<Employee>)
    ensures r.Some? <==>
      && row.name.Some? && row.email.Some? && IsValidEmail(row.email.value) && row.phone.Some?
      && row.department.Some? && row.position.Some? && row.hireDate.Some?
    ensures r.Some? ==>
      && r.value.id == row.id && r.value.createdAt == row.createdAt && r.value.updatedAt == row.updatedAt
      && Some(r.value.base.name) == row.name && Some(r.value.base.email) == row.email
      && Some(r.value.base.phone) == row.phone && Some(r.value.base.department) == row.department
      && Some(r.value.base.position) == row.position && Some(r.value.base.hireDate) == row.hireDate
  {
    match (row.name, row.email, row.phone, row.department, row.position, row.hireDate)
    case (Some(name), Some(email), Some(phone), Some(department), Some(position), Some(hireDate)) =>
      if IsValidEmail(email) then
        Some(Employee(EmployeeBase(name, email, phone, department, position, hireDate),
                      row.id, row.createdAt, row.updatedAt))
      else None
    case _ => None
  }

  /**
   * Creating and then reading back an employee answers with exactly the
   * submitted fields, plus the generated id and timestamps.
   */
  lemma CreatedEmployeeAnswersBody(id: int, c: EmployeeCreate, now: Timestamp)
    requires IsValidEmail(c.email)
    ensures AsEmployeeResponse(InsertRow(id, EmployeeCreateValues(c), now)) == Some(Employee(c, id, now, now))
  {
    var row := InsertRow(id, EmployeeCreateValues(c), now);
    assert row.name == Some(c.name) && row.email == Some(c.email) && row.phone == Some(c.phone);
    assert row.department == Some(c.department) && row.position == Some(c.position);
    assert row.hireDate == Some(c.hireDate);
  }

  class UserStore {
    /** The table: rows by primary key, their natural order, and the next key to hand out. */
    var rows: map<int, EmployeeRow>
    var order: seq<int>
    var nextId: int

    ghost predicate Valid()
      reads this
    {
      && WellFormed(rows, order, nextId)
      && (forall k | k in rows :: rows[k].id == k)
      && UniqueEmails(rows)
      && (forall k | k in rows && rows[k].email.Some? :: IsValidEmail(rows[k].email.value))
    }

    /** The table's rows in natural order. */
    function Table(): (t: seq<EmployeeRow>)
      reads this
      requires Valid()
      ensures |t| == |order|
      ensures forall i | 0 <= i < |t| :: t[i] == rows[order[i]] && t[i].id == order[i]
    {
      InOrder(rows, order)
    }

    constructor ()
      ensures Valid() && rows == map[] && order == []
    {
      rows, order, nextId := map[], [], 1;
    }

    /** GET /{id}: a select on the primary key; no row is NotFound. */
    function GetUser(id: int): (r: Result<EmployeeRow, HttpError>)
      reads this
      requires Valid()
      ensures r.Ok? <==> id in rows
      ensures r.Ok? ==> r.value == rows[id] && r.value.id == id
      ensures r.Err? ==> r.error == NotFound
    {
      var p := (row: EmployeeRow) => row.id == id;
      SelectByKey(rows, order, nextId, p, id);
      var found := Where(Table(), p);
      if found == [] then Err(NotFound) else Ok(found[0])
    }

    /** GET /: the `[skip, skip + limit)` page of all employees in natural order. */
    function ListUsers(skip: Option<int>, limit: Option<int>): (r: Result<seq<EmployeeRow>, HttpError>)
      reads this
      requires Valid()
      ensures
        var s, l := OrElse(skip, DefaultSkip), OrElse(limit, DefaultLimit);
        && (r.Err? <==> s < 0 || l < 1 || l > MaxLimit)
        && (r.Err? ==> r.error == BadQuery)
        && (r.Ok? ==> |r.value| == Min(l, Max(0, |Table()| - s)))
        && (r.Ok? ==> forall i | 0 <= i < |r.value| :: r.value[i] == Table()[s + i])
    {
      var s, l := OrElse(skip, DefaultSkip), OrElse(limit, DefaultLimit);
      if s < 0 || l < 1 || l > MaxLimit then Err(BadQuery) else Ok(Page(Table(), s, l))
    }

    /**
     * POST /: insert the fields of `data`, commit, and read the new row back;
     * an email some row already holds breaks the constraint and is rolled back.
     */
    method CreateUser(data: EmployeeCreate, now: Timestamp, rejects: bool) returns (r: Result<EmployeeRow, HttpError>)
      requires Valid() && IsValidEmail(data.email)
      modifies this
      ensures Valid()
      ensures rejects || EmailHeld(old(rows), data.email) ==>
        r == Err(Rejected) && rows == old(rows) && order == old(order) && nextId == old(nextId)
      ensures !rejects && !EmailHeld(old(rows), data.email) ==>
        && r.Ok? && r.value.id !in old(rows)
        && r.value == InsertRow(r.value.id, EmployeeCreateValues(data), now)
        && rows == old(rows)[r.value.id := r.value]
        && Table() == old(Table()) + [r.value]
    {
      var id := nextId;
      var row := InsertRow(id, EmployeeCreateValues(data), now);
      var candidate := rows[id := row];
      UniqueAfterWrite(rows, id, row);
      InsertKeepsTable(rows, order, nextId, row);
      assert TakenByOther(rows, data.email, id) <==> EmailHeld(rows, data.email);
      if rejects || !UniqueEmails(candidate) {
        // the INSERT failed and was rolled back: nothing was written
        r := Err(Rejected);
        return;
      }
      rows, order, nextId := candidate, order + [id], nextId + 1;
      r := GetUser(id);
    }

    /**
     * PUT /{id}: existence is checked first, then that the body sets some
     * field; only then is the row updated with the fields that were sent,
     * and an email held by another row breaks the constraint and is rolled back.
     */
    method UpdateUser(id: int, data: EmployeeUpdate, now: Timestamp, rejects: bool) returns (r: Result<EmployeeRow, HttpError>)
      requires Valid() && EmailAcceptable(data.email)
      modifies this
      ensures Valid() && order == old(order) && nextId == old(nextId)
      ensures id !in old(rows) ==> r == Err(NotFound) && rows == old(rows)
      ensures id in old(rows) && data.NoneSet() ==> r == Err(NoFields) && rows == old(rows)
      ensures id in old(rows) && !data.NoneSet() && (rejects || EmailClash(old(rows), id, data.email)) ==>
        r == Err(Rejected) && rows == old(rows)
      ensures id in old(rows) && !data.NoneSet() && !rejects && !EmailClash(old(rows), id, data.email) ==>
        && r == Ok(UpdateRow(old(rows)[id], data, now))
        && rows == old(rows)[id := r.value]
        && forall i | 0 <= i < |order| :: Table()[i] == if order[i] == id then r.value else old(Table())[i]
    {
      var existing := GetUser(id);
      if existing.Err? {
        r := Err(NotFound);
        return;
      }
      if data.NoneSet() {
        r := Err(NoFields);
        return;
      }
      var row := UpdateRow(existing.value, data, now);
      var candidate := rows[id := row];
      UniqueAfterWrite(rows, id, row);
      if data.email.Absent? {
        KeptEmailStaysUnique(rows, id, row);
      }
      if rejects || !UniqueEmails(candidate) {
        // the UPDATE failed and was rolled back
        r := Err(Rejected);
        return;
      }
      ReplaceKeepsTable(rows, order, nextId, id, row);
      rows := candidate;
      r := GetUser(id);
    }

    /** DELETE /{id}: remove the one row with key `id` and answer with that id. */
    method DeleteUser(id: int, rejects: bool) returns (r: Result<int, HttpError>)
      requires Valid()
      modifies this
      ensures Valid() && nextId == old(nextId)
      ensures id !in old(rows) ==> r == Err(NotFound) && rows == old(rows) && order == old(order)
      ensures id in old(rows) && rejects ==> r == Err(Rejected) && rows == old(rows) && order == old(order)
      ensures id in old(rows) && !rejects ==>
        var k := IndexOf(old(order), id);
        && r == Ok(id)
        && rows == old(rows) - {id} && !GetUser(id).Ok?
        && Table() == old(Table())[..k] + old(Table())[k + 1..]
    {
      var existing := GetUser(id);
      if existing.Err? {
        r := Err(NotFound);
        return;
      }
      if rejects {
        // the DELETE failed and was rolled back
        r := Err(Rejected);
        return;
      }
      RemoveKeepsTable(rows, order, nextId, id);
      rows, order := rows - {id}, Without(order, id);
      r := Ok(id);
    }
  }
}
