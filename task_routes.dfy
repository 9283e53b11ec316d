/**
 * The task handlers, run one request at a time against the `task` table.
 * Each write either commits or, when the store refuses it, is rolled back so
 * that the table is exactly as before.  Whether the store refuses a write is
 * not visible in the handlers, so it is the parameter `rejects`.
 */
module TaskRoutes {
  import opened Common
  import opened RecordStore
  import opened TaskSchema
  import opened TaskModel

  /** One `where` clause of a select on `task`: a column compared with a value. */
  datatype Condition = IdIs(id: int) | StatusIs(status: string) | PriorityIs(priority: string) | AssignedTo(user: int)

  /** SQL equality: a NULL column equals nothing. */
  predicate Holds(c: Condition, row: TaskRow)
    ensures c.StatusIs? && row.status.None? ==> !Holds(c, row)
    ensures c.PriorityIs? && row.priority.None? ==> !Holds(c, row)
    ensures c.AssignedTo? && row.assignedTo.None? ==> !Holds(c, row)
  {
    match c
    case IdIs(id) => row.id == id
    case StatusIs(s) => row.status == Some(s)
    case PriorityIs(p) => row.priority == Some(p)
    case AssignedTo(u) => row.assignedTo == Some(u)
  }

  /** Chained `.where(...)` calls combine their clauses with AND. */
  predicate HoldsAll(conds: seq<Condition>, row: TaskRow)
    ensures HoldsAll(conds, row) <==> forall c | c in conds :: Holds(c, row)
    ensures conds == [] ==> HoldsAll(conds, row)
  {
    forall i | 0 <= i < |conds| :: Holds(conds[i], row)
  }

  /** `task_table.select()` with the clauses `conds`, over the rows `table`. */
  function Select(table: seq<TaskRow>, conds: seq<Condition>): (r: seq<TaskRow>)
    ensures |r| <= |table|
    ensures forall row | row in r :: row in table && forall c | c in conds :: Holds(c, row)
    ensures forall row | row in table && HoldsAll(conds, row) :: row in r
  {
    WhereMembers(table, row => HoldsAll(conds, row));
    Where(table, row => HoldsAll(conds, row))
  }

  /**
   * The rows the list endpoint wants for the filters `status` and
   * `priority`: each filter that is given and non-empty must match, the
   * others impose nothing.
   */
  predicate Wanted(status: Option<string>, priority: Option<string>, row: TaskRow) {
    && (Truthy(status) ==> row.status == Some(status.value))
    && (Truthy(priority) ==> row.priority == Some(priority.value))
  }

  /** The column values `create_task` inserts: all six fields of the body. */
  function TaskCreateValues(c: TaskCreate): (v: TaskFields)
    ensures !v.NoneSet()
    ensures ParseTaskCreate(v) == Ok(c)
  {
    TaskFields(Present(Some(c.title)), Present(c.description), Present(Some(c.status)),
               Present(Some(c.priority)), Present(c.assignedTo), Present(c.dueDate))
  }

  /**
   * The `response_model=Task` check on a row: it fails when a column the
   * response requires (`title`, `status`, `priority`) holds NULL.
   */
  function AsTaskResponse(row: TaskRow): (r: Option<Task>)
    ensures r.Some? <==> row.title.Some? && row.status.Some? && row.priority.Some?
    ensures r.Some? ==>
      && r.value.id == row.id && r.value.createdAt == row.createdAt && r.value.updatedAt == row.updatedAt
      && Some(r.value.base.title) == row.title && r.value.base.description == row.description
      && Some(r.value.base.status) == row.status && Some(r.value.base.priority) == row.priority
      && r.value.base.assignedTo == row.assignedTo && r.value.base.dueDate == row.dueDate
  {
    match (row.title, row.status, row.priority)
    case (Some(title), Some(status), Some(priority)) =>
      Some(Task(TaskBase(title, row.description, status, priority, row.assignedTo, row.dueDate),
                row.id, row.createdAt, row.updatedAt))
    case _ => None
  }

  /**
   * Creating and then reading back a task answers with exactly the submitted
   * fields, plus the generated id and timestamps.
   */
  lemma CreatedTaskAnswersBody(id: int, c: TaskCreate, now: Timestamp)
    ensures AsTaskResponse(InsertRow(id, TaskCreateValues(c), now)) == Some(Task(c, id, now, now))
  {
    var row := InsertRow(id, TaskCreateValues(c), now);
    assert row.title == Some(c.title) && row.status == Some(c.status) && row.priority == Some(c.priority);
  }

  /**
   * `TaskUpdate` accepts an explicit null title and the column takes it, so
   * the updated row no longer fits the response shape.
   */
  lemma NullTitleUpdateLosesResponse(row: TaskRow, v: TaskUpdate, now: Timestamp)
    requires v.title == Present(None)
    ensures !v.NoneSet()
    ensures AsTaskResponse(UpdateRow(row, v, now)).None?
  {
  }

  /** Both filters together select the rows matching both (logical AND). */
  lemma {:induction false} FiltersConjoin(table: seq<TaskRow>, s: string, p: string)
    requires s != "" && p != ""
    ensures forall row :: row in Select(table, [StatusIs(s), PriorityIs(p)]) <==>
      row in table && row.status == Some(s) && row.priority == Some(p)
  {
    var conds := [StatusIs(s), PriorityIs(p)];
    WhereMembers(table, row => HoldsAll(conds, row));
    forall row ensures HoldsAll(conds, row) <==> row.status == Some(s) && row.priority == Some(p) {
      assert conds[0] == StatusIs(s) && conds[1] == PriorityIs(p);
    }
  }

  class TaskStore {
    /** The table: rows by primary key, their natural order, and the next key to hand out. */
    var rows: map<int, TaskRow>
    var order: seq<int>
    var nextId: int

    ghost predicate Valid()
      reads this
    {
      WellFormed(rows, order, nextId) && (forall k | k in rows :: rows[k].id == k)
    }

    /** The table's rows in natural order. */
    function Table(): (t: seq<TaskRow>)
      reads this
      requires Valid()
      ensures |t| == |order|
      ensures forall i | 0 <= i < |t| :: t[i] == rows[order[i]] && t[i].id == order[i]
    {
      InOrder(rows, order)
    }

    constructor ()
      ensures Valid() && rows == map[] && order == []
    {
      rows, order, nextId := map[], [], 1;
    }

    /** The rows a select on the primary key `id` returns. */
    function SelectId(id: int): (s: seq<TaskRow>)
      reads this
      requires Valid()
      ensures s == if id in rows then [rows[id]] else []
    {
      var p := row => HoldsAll([IdIs(id)], row);
      assert forall k | k in rows :: p(rows[k]) <==> k == id by {
        forall k | k in rows ensures p(rows[k]) <==> k == id {
          var conds := [IdIs(id)];
          assert conds[0] == IdIs(id);
          assert HoldsAll(conds, rows[k]) <==> Holds(conds[0], rows[k]);
        }
      }
      SelectByKey(rows, order, nextId, p, id);
      Select(Table(), [IdIs(id)])
    }

    /** POST /: insert the fields of `data`, commit, and read the new row back. */
    method CreateTask(data: TaskCreate, now: Timestamp, rejects: bool) returns (r: Result<TaskRow, HttpError>)
      requires Valid()
      modifies this
      ensures Valid()
      ensures rejects ==> r == Err(Rejected) && rows == old(rows) && order == old(order) && nextId == old(nextId)
      ensures !rejects ==>
        && r.Ok? && r.value.id !in old(rows)
        && r.value == InsertRow(r.value.id, TaskCreateValues(data), now)
        && rows == old(rows)[r.value.id := r.value]
        && Table() == old(Table()) + [r.value]
    {
      if rejects {
        // the INSERT failed and was rolled back: nothing was written
        r := Err(Rejected);
        return;
      }
      var id := nextId;
      var row := InsertRow(id, TaskCreateValues(data), now);
      InsertKeepsTable(rows, order, nextId, row);
      rows, order, nextId := rows[id := row], order + [id], nextId + 1;
      var back := SelectId(id);
      r := Ok(back[0]);
    }

    /** GET /: the `[skip, skip + limit)` page of the rows that pass the filters. */
    method ListTasks(skip: Option<int>, limit: Option<int>, status: Option<string>, priority: Option<string>)
      returns (r: Result<seq<TaskRow>, HttpError>)
      requires Valid()
      ensures
        var s, l := OrElse(skip, DefaultSkip), OrElse(limit, DefaultLimit);
        && (r.Err? <==> s < 0 || l < 1 || l > MaxLimit)
        && (r.Err? ==> r.error == BadQuery)
        && (r.Ok? ==> r.value == Page(Where(Table(), row => Wanted(status, priority, row)), s, l))
        && (r.Ok? ==> |r.value| == Min(l, Max(0, |Where(Table(), row => Wanted(status, priority, row))| - s)))
    {
      var s, l := OrElse(skip, DefaultSkip), OrElse(limit, DefaultLimit);
      if s < 0 || l < 1 || l > MaxLimit {
        r := Err(BadQuery);
        return;
      }
      var conds: seq<Condition> := [];
      if Truthy(status) {
        conds := conds + [StatusIs(status.value)];
      }
      if Truthy(priority) {
        conds := conds + [PriorityIs(priority.value)];
      }
      forall row ensures HoldsAll(conds, row) == Wanted(status, priority, row) {
        assert Truthy(status) ==> StatusIs(status.value) in conds;
        assert Truthy(priority) ==> PriorityIs(priority.value) in conds;
      }
      WhereCongruent(Table(), row => HoldsAll(conds, row), row => Wanted(status, priority, row));
      var selected := Select(Table(), conds);
      r := Ok(Page(selected, s, l));
    }

    /** GET /{id}: the row with key `id`, or NotFound. */
    method GetTask(id: int) returns (r: Result<TaskRow, HttpError>)
      requires Valid()
      ensures r.Ok? <==> id in rows
      ensures r.Ok? ==> r.value == rows[id] && r.value.id == id
      ensures r.Err? ==> r.error == NotFound
    {
      var found := SelectId(id);
      if found == [] {
        r := Err(NotFound);
      } else {
        r := Ok(found[0]);
      }
    }

    /**
     * PUT /{id}: existence is checked first, then that the body sets some
     * field; only then is the row updated with the fields that were sent.
     */
    method UpdateTask(id: int, data: TaskUpdate, now: Timestamp, rejects: bool) returns (r: Result<TaskRow, HttpError>)
      requires Valid()
      modifies this
      ensures Valid() && order == old(order) && nextId == old(nextId)
      ensures id !in old(rows) ==> r == Err(NotFound) && rows == old(rows)
      ensures id in old(rows) && data.NoneSet() ==> r == Err(NoFields) && rows == old(rows)
      ensures id in old(rows) && !data.NoneSet() && rejects ==> r == Err(Rejected) && rows == old(rows)
      ensures id in old(rows) && !data.NoneSet() && !rejects ==>
        && r == Ok(UpdateRow(old(rows)[id], data, now))
        && rows == old(rows)[id := r.value]
        && forall i | 0 <= i < |order| :: Table()[i] == if order[i] == id then r.value else old(Table())[i]
    {
      var existing := SelectId(id);
      if existing == [] {
        r := Err(NotFound);
        return;
      }
      if data.NoneSet() {
        r := Err(NoFields);
        return;
      }
      if rejects {
        // the UPDATE failed and was rolled back
        r := Err(Rejected);
        return;
      }
      var row := UpdateRow(existing[0], data, now);
      ReplaceKeepsTable(rows, order, nextId, id, row);
      rows := rows[id := row];
      var updated := SelectId(id);
      r := Ok(updated[0]);
    }

    /** DELETE /{id}: remove the one row with key `id` and answer with that id. */
    method DeleteTask(id: int, rejects: bool) returns (r: Result<int, HttpError>)
      requires Valid()
      modifies this
      ensures Valid() && nextId == old(nextId)
      ensures id !in old(rows) ==> r == Err(NotFound) && rows == old(rows) && order == old(order)
      ensures id in old(rows) && rejects ==> r == Err(Rejected) && rows == old(rows) && order == old(order)
      ensures id in old(rows) && !rejects ==>
        var k := IndexOf(old(order), id);
        && r == Ok(id)
        && rows == old(rows) - {id} && id !in rows
        && Table() == old(Table())[..k] + old(Table())[k + 1..]
    {
      var existing := SelectId(id);
      if existing == [] {
        r := Err(NotFound);
        return;
      }
      if rejects {
        // the DELETE failed and was rolled back
        r := Err(Rejected);
        return;
      }
      RemoveKeepsTable(rows, order, nextId, id);
      rows, order := rows - {id}, Without(order, id);
      r := Ok(id);
    }

    /** GET /user/{user_id}/tasks: every task assigned to `userId`; never an error. */
    method ListUserTasks(userId: int) returns (r: seq<TaskRow>)
      requires Valid()
      ensures r == Where(Table(), (row: TaskRow) => row.assignedTo == Some(userId))
      ensures forall row :: row in r <==> row in Table() && row.assignedTo == Some(userId)
    {
      var conds := [AssignedTo(userId)];
      forall row ensures HoldsAll(conds, row) == (row.assignedTo == Some(userId)) {
        assert conds[0] == AssignedTo(userId);
      }
      WhereCongruent(Table(), row => HoldsAll(conds, row), (row: TaskRow) => row.assignedTo == Some(userId));
      WhereMembers(Table(), (row: TaskRow) => row.assignedTo == Some(userId));
      r := Select(Table(), conds);
    }
  }

  /** Every row `ListTasks` answers with is in the table and passes both filters. */
  lemma ListedRowsPassFilters(table: seq<TaskRow>, status: Option<string>, priority: Option<string>, skip: nat, limit: nat)
    ensures forall row | row in Page(Where(table, row => Wanted(status, priority, row)), skip, limit) ::
      row in table
      && (Truthy(status) ==> row.status == Some(status.value))
      && (Truthy(priority) ==> row.priority == Some(priority.value))
  {
    var selected := Where(table, row => Wanted(status, priority, row));
    forall row | row in Page(selected, skip, limit) ensures row in selected {
      var i :| 0 <= i < |Page(selected, skip, limit)| && Page(selected, skip, limit)[i] == row;
    }
  }

  /** With 15 rows selected, the default page holds 10 and the next one the other 5. */
  lemma FifteenRowsPaged(selected: seq<TaskRow>)
    requires |selected| == 15
    ensures |Page(selected, 0, 10)| == 10 && |Page(selected, 10, 10)| == 5
    ensures Page(selected, 0, 10) + Page(selected, 10, 10) == selected
  {
    PagesConcatenate(selected, 0, 10, 10);
    assert Page(selected, 0, 20) == selected;
  }
}
