/**
 * The `task` table: its row, the values its columns take on INSERT (column
 * defaults for the columns left out) and on UPDATE (`updated_at` refreshed).
 */
module TaskModel {
  import opened Common
  import opened TaskSchema

  /** Column default of `status`. */
  const StatusColumnDefault: string := "todo"
  /** Column default of `priority`. */
  const PriorityColumnDefault: string := "medium"

  /**
   * One row of `task`.  No data column is declared NOT NULL, so each may hold
   * NULL; `assigned_to` refers to `user.id`, which the model does not enforce.
   */
  datatype TaskRow = TaskRow(
    id: int,
    title: Option<string>,
    description: Option<string>,
    status: Option<string>,
    priority: Option<string>,
    assignedTo: Option<int>,
    dueDate: Option<Timestamp>,
    createdAt: Timestamp,
    updatedAt: Timestamp)

  /** The row an INSERT with the column values `v` stores under key `id` at time `now`. */
  function InsertRow(id: int, v: TaskFields, now: Timestamp): (r: TaskRow)
    ensures r.id == id && r.createdAt == now && r.updatedAt == now
    ensures Merged(v.title, None, r.title)
    ensures Merged(v.description, None, r.description)
    ensures Merged(v.status, Some("todo"), r.status)
    ensures Merged(v.priority, Some("medium"), r.priority)
    ensures Merged(v.assignedTo, None, r.assignedTo)
    ensures Merged(v.dueDate, None, r.dueDate)
  {
    TaskRow(id, Apply(v.title, None), Apply(v.description, None),
            Apply(v.status, Some(StatusColumnDefault)), Apply(v.priority, Some(PriorityColumnDefault)),
            Apply(v.assignedTo, None), Apply(v.dueDate, None), now, now)
  }

  /** The row an UPDATE setting the column values `v` at time `now` leaves behind. */
  function UpdateRow(row: TaskRow, v: TaskFields, now: Timestamp): (r: TaskRow)
    ensures r.id == row.id && r.createdAt == row.createdAt && r.updatedAt == now
    ensures Merged(v.title, row.title, r.title)
    ensures Merged(v.description, row.description, r.description)
    ensures Merged(v.status, row.status, r.status)
    ensures Merged(v.priority, row.priority, r.priority)
    ensures Merged(v.assignedTo, row.assignedTo, r.assignedTo)
    ensures Merged(v.dueDate, row.dueDate, r.dueDate)
  {
    row.(title := Apply(v.title, row.title),
         description := Apply(v.description, row.description),
         status := Apply(v.status, row.status),
         priority := Apply(v.priority, row.priority),
         assignedTo := Apply(v.assignedTo, row.assignedTo),
         dueDate := Apply(v.dueDate, row.dueDate),
         updatedAt := now)
  }

  /** An update that sends only `status` changes only `status` and `updated_at`. */
  lemma StatusOnlyUpdate(row: TaskRow, s: string, now: Timestamp)
    ensures UpdateRow(row, TaskFields(Absent, Absent, Present(Some(s)), Absent, Absent, Absent), now)
         == row.(status := Some(s), updatedAt := now)
  {
  }
}
