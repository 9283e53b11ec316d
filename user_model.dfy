/**
 * The `user` table: its row, the values its columns take on INSERT and on
 * UPDATE, and the UNIQUE constraint on `email`.
 */
module UserModel {
  import opened Common
  import opened UserSchema

  /** One row of `user`.  No data column is declared NOT NULL, so each may hold NULL. */
  datatype EmployeeRow = EmployeeRow(
    id: int,
    name: Option<string>,
    email: Option<string>,
    phone: Option<string>,
    department: Option<string>,
    position: Option<string>,
    hireDate: Option<Timestamp>,
    createdAt: Timestamp,
    updatedAt: Timestamp)

  /** The row an INSERT with the column values `v` stores under key `id` at time `now`. */
  function InsertRow(id: int, v: EmployeeFields, now: Timestamp): (r: EmployeeRow)
    ensures r.id == id && r.createdAt == now && r.updatedAt == now
    ensures Merged(v.name, None, r.name)
    ensures Merged(v.email, None, r.email)
    ensures Merged(v.phone, None, r.phone)
    ensures Merged(v.department, None, r.department)
    ensures Merged(v.position, None, r.position)
    ensures Merged(v.hireDate, None, r.hireDate)
  {
    EmployeeRow(id, Apply(v.name, None), Apply(v.email, None), Apply(v.phone, None),
                Apply(v.department, None), Apply(v.position, None), Apply(v.hireDate, None), now, now)
  }

  /** The row an UPDATE setting the column values `v` at time `now` leaves behind. */
  function UpdateRow(row: EmployeeRow, v: EmployeeFields, now: Timestamp): (r: EmployeeRow)
    ensures r.id == row.id && r.createdAt == row.createdAt && r.updatedAt == now
    ensures Merged(v.name, row.name, r.name)
    ensures Merged(v.email, row.email, r.email)
    ensures Merged(v.phone, row.phone, r.phone)
    ensures Merged(v.department, row.department, r.department)
    ensures Merged(v.position, row.position, r.position)
    ensures Merged(v.hireDate, row.hireDate, r.hireDate)
  {
    row.(name := Apply(v.name, row.name),
         email := Apply(v.email, row.email),
         phone := Apply(v.phone, row.phone),
         department := Apply(v.department, row.department),
         position := Apply(v.position, row.position),
         hireDate := Apply(v.hireDate, row.hireDate),
         updatedAt := now)
  }

  /**
   * The UNIQUE constraint on `email`: no two rows hold the same non-NULL
   * email (NULLs never collide in SQL).
   */
  predicate UniqueEmails(rows: map<int, EmployeeRow>)
    ensures UniqueEmails(rows) <==>
      forall a, b | a in rows && b in rows && rows[a].email.Some? && rows[a].email == rows[b].email :: a == b
    ensures (forall k | k in rows :: rows[k].email.None?) ==> UniqueEmails(rows)
  {
    forall a, b | a in rows && b in rows && a != b && rows[a].email.Some? :: rows[a].email != rows[b].email
  }

  /** Some row other than the one under `except` holds the email `e`. */
  predicate TakenByOther(rows: map<int, EmployeeRow>, e: string, except: int) {
    exists k | k in rows && k != except :: rows[k].email == Some(e)
  }

  /** Some row holds the email `e`. */
  predicate EmailHeld(rows: map<int, EmployeeRow>, e: string) {
    exists k | k in rows :: rows[k].email == Some(e)
  }

  /**
   * Writing `row` under key `id` (a new key or an existing one) into a table
   * that meets the constraint breaks it exactly when the written email is
   * already held by a different row.
   */
  lemma UniqueAfterWrite(rows: map<int, EmployeeRow>, id: int, row: EmployeeRow)
    requires UniqueEmails(rows)
    ensures UniqueEmails(rows[id := row]) <==> !(row.email.Some? && TakenByOther(rows, row.email.value, id))
  {
    var rows' := rows[id := row];
    if row.email.Some? && TakenByOther(rows, row.email.value, id) {
      var k :| k in rows && k != id && rows[k].email == row.email;
      assert rows'[id].email == rows'[k].email;
    }
  }

  /** An update that keeps a row's email cannot violate the constraint. */
  lemma KeptEmailStaysUnique(rows: map<int, EmployeeRow>, id: int, row: EmployeeRow)
    requires UniqueEmails(rows) && id in rows && row.email == rows[id].email
    ensures UniqueEmails(rows[id := row])
  {
    UniqueAfterWrite(rows, id, row);
  }
}
