/**
 * The five task endpoints, run step by step against the `tasks` table. The
 * table is held as a map from task id to row, with the next id the store
 * will generate; `now` stands for the database clock at the moment of the
 * statement.
 */
module Controllers {
  import opened Wrappers
  import opened DotNetText
  import opened Models
  import opened TaskRules

  /** The HTTP result of a handler. */
  datatype Response =
    | OkList(items: seq<TaskItem>)           // 200 with an array
    | Ok(task: TaskItem)                     // 200 with one task
    | Created(location: int, created: TaskItem) // 201, location names get-by-id
    | NotFound(message: string)              // 404
    | BadRequest(error: ErrorBody)           // 400
    | NoContent                              // 204

  /** The sort key of `ORDER BY created_at`: NULL sorts below every time. */
  function CreatedKey(row: Row): int {
    match row.createdAt
    case None => -1
    case Some(t) => t
  }

  /** A NULL scalar reads as `default(int)`, which is 0. */
  function ScalarOrDefault(scalar: Option<int>): (r: int)
    ensures scalar.None? ==> r == 0
    ensures scalar.Some? ==> r == scalar.value
  {
    scalar.GetOr(0)
  }

  lemma NonemptyHasMember(ids: set<int>)
    requires ids != {}
    ensures exists x :: x in ids
  {
    assert (forall x :: x !in ids) ==> ids == {};
  }

  /** Every nonempty set of ids has a row created no earlier than the rest. */
  lemma {:induction false} LatestExists(ids: set<int>, table: map<int, Row>)
    requires ids != {} && ids <= table.Keys
    ensures exists k :: LatestRemaining(ids, table, k)
    decreases |ids|
  {
    NonemptyHasMember(ids);
    var x :| x in ids;
    if ids == {x} {
      assert LatestRemaining(ids, table, x);
    } else {
      var rest := ids - {x};
      LatestExists(rest, table);
      var k :| LatestRemaining(rest, table, k);
      if CreatedKey(table[x]) <= CreatedKey(table[k]) {
        assert LatestRemaining(ids, table, k);
      } else {
        assert LatestRemaining(ids, table, x);
      }
    }
  }

  /** The rows taken so far by the ordered scan are rows of the table,
      each once and none of them still `remaining`; with `remaining` they
      make up the whole table. */
  ghost predicate ScannedRows(rows: seq<Row>, remaining: set<int>, table: map<int, Row>) {
    && remaining <= table.Keys
    && |rows| + |remaining| == |table|
    && (forall i :: 0 <= i < |rows| ==>
          rows[i].taskid in table && table[rows[i].taskid] == rows[i] && rows[i].taskid !in remaining)
    && (forall i, j :: 0 <= i < j < |rows| ==> rows[i].taskid != rows[j].taskid)
  }

  /** Every id no longer remaining has been taken. */
  ghost predicate ScannedAllTaken(rows: seq<Row>, remaining: set<int>, table: map<int, Row>) {
    forall id :: id in table && id !in remaining ==> exists i :: 0 <= i < |rows| && rows[i].taskid == id
  }

  /** The rows taken are latest first, and none was created before a
      remaining one. */
  ghost predicate ScannedInOrder(rows: seq<Row>, remaining: set<int>, table: map<int, Row>)
    requires remaining <= table.Keys
  {
    && (forall i, j :: 0 <= i < j < |rows| ==> CreatedKey(rows[i]) >= CreatedKey(rows[j]))
    && (forall i, id :: 0 <= i < |rows| && id in remaining ==> CreatedKey(rows[i]) >= CreatedKey(table[id]))
  }

  ghost predicate ScannedLatestFirst(rows: seq<Row>, remaining: set<int>, table: map<int, Row>) {
    && ScannedRows(rows, remaining, table)
    && ScannedAllTaken(rows, remaining, table)
    && ScannedInOrder(rows, remaining, table)
  }

  /** A remaining row created no earlier than any other remaining row. */
  predicate LatestRemaining(remaining: set<int>, table: map<int, Row>, k: int)
    requires remaining <= table.Keys
  {
    k in remaining && forall j :: j in remaining ==> CreatedKey(table[j]) <= CreatedKey(table[k])
  }

  lemma ScanStepRows(rows: seq<Row>, remaining: set<int>, table: map<int, Row>, k: int)
    requires ScannedRows(rows, remaining, table)
    requires forall id :: id in table ==> table[id].taskid == id
    requires k in remaining
    ensures ScannedRows(rows + [table[k]], remaining - {k}, table)
  {
  }

  lemma ScanStepAllTaken(rows: seq<Row>, remaining: set<int>, table: map<int, Row>, k: int)
    requires ScannedAllTaken(rows, remaining, table)
    requires forall id :: id in table ==> table[id].taskid == id
    requires k in table
    ensures ScannedAllTaken(rows + [table[k]], remaining - {k}, table)
  {
    var rows' := rows + [table[k]];
    forall id | id in table && id !in remaining - {k}
      ensures exists i :: 0 <= i < |rows'| && rows'[i].taskid == id
    {
      if id == k {
        assert rows'[|rows|].taskid == id;
      } else {
        var i :| 0 <= i < |rows| && rows[i].taskid == id;
        assert rows'[i].taskid == id;
      }
    }
  }

  lemma ScanStepInOrder(rows: seq<Row>, remaining: set<int>, table: map<int, Row>, k: int)
    requires remaining <= table.Keys
    requires ScannedInOrder(rows, remaining, table)
    requires LatestRemaining(remaining, table, k)
    ensures ScannedInOrder(rows + [table[k]], remaining - {k}, table)
  {
  }

  /** Taking a latest remaining row keeps the scan in order. */
  lemma ScanStep(rows: seq<Row>, remaining: set<int>, table: map<int, Row>, k: int)
    requires ScannedLatestFirst(rows, remaining, table)
    requires forall id :: id in table ==> table[id].taskid == id
    requires LatestRemaining(remaining, table, k)
    ensures ScannedLatestFirst(rows + [table[k]], remaining - {k}, table)
  {
    ScanStepRows(rows, remaining, table, k);
    ScanStepAllTaken(rows, remaining, table, k);
    ScanStepInOrder(rows, remaining, table, k);
  }

  /** `rows` lists the table: each row of the table exactly once, as
      stored, with `created_at` non-increasing. */
  ghost predicate ListsLatestFirst(rows: seq<Row>, table: map<int, Row>) {
    && |rows| == |table|
    && (forall i :: 0 <= i < |rows| ==> rows[i].taskid in table && table[rows[i].taskid] == rows[i])
    && (forall i, j :: 0 <= i < j < |rows| ==> rows[i].taskid != rows[j].taskid)
    && (forall id :: id in table ==> exists i :: 0 <= i < |rows| && rows[i].taskid == id)
    && (forall i, j :: 0 <= i < j < |rows| ==> CreatedKey(rows[i]) >= CreatedKey(rows[j]))
  }

  /** Mapping keeps the order of `created_at`, with NULL as the minimum. */
  lemma MappedCreatedOrder(r1: Row, r2: Row)
    requires CreatedKey(r1) >= CreatedKey(r2)
    ensures MapRowToTaskItem(r1).createdAt >= MapRowToTaskItem(r2).createdAt
  {
  }

  /** Mapping each row of an ordered listing of the table, in place, gives
      an ordered listing of the tasks. */
  lemma MappedListing(rows: seq<Row>, tasks: seq<TaskItem>, table: map<int, Row>)
    requires ListsLatestFirst(rows, table)
    requires |tasks| == |rows| && forall k :: 0 <= k < |rows| ==> tasks[k] == MapRowToTaskItem(rows[k])
    ensures forall i :: 0 <= i < |tasks| ==>
      tasks[i].taskId in table && tasks[i] == MapRowToTaskItem(table[tasks[i].taskId])
    ensures forall i, j :: 0 <= i < j < |tasks| ==> tasks[i].taskId != tasks[j].taskId
    ensures forall id :: id in table ==> exists i :: 0 <= i < |tasks| && tasks[i].taskId == id
    ensures forall i, j :: 0 <= i < j < |tasks| ==> tasks[i].createdAt >= tasks[j].createdAt
  {
    forall i | 0 <= i < |tasks|
      ensures tasks[i].taskId == rows[i].taskid
    {
    }
    forall id | id in table
      ensures exists i :: 0 <= i < |tasks| && tasks[i].taskId == id
    {
      var i :| 0 <= i < |rows| && rows[i].taskid == id;
      assert tasks[i].taskId == id;
    }
    forall i, j | 0 <= i < j < |tasks|
      ensures tasks[i].createdAt >= tasks[j].createdAt
    {
      MappedCreatedOrder(rows[i], rows[j]);
    }
  }

  class TasksController {
    /** The `tasks` table, keyed by its `taskid` column. */
    var table: map<int, Row>
    /** The id the store will give the next inserted row. */
    var nextId: int

    /** The key column matches the key, ids are positive, and every id is
        below the next one to be generated. */
    ghost predicate Valid()
      reads this
    {
      && nextId >= 1
      && forall id :: id in table ==> 1 <= id < nextId && table[id].taskid == id
    }

    /** Every stored row has the shape the write handlers give it. */
    ghost predicate AllWrittenByHandlers()
      reads this
    {
      forall id :: id in table ==> WrittenByHandlers(table[id])
    }

    constructor (initial: map<int, Row>, next: int)
      requires next >= 1
      requires forall id :: id in initial ==> 1 <= id < next && initial[id].taskid == id
      ensures Valid() && table == initial && nextId == next
    {
      table := initial;
      nextId := next;
    }

    // -------------------------------------------------------------------
    // The store's side of each statement

    /** `SELECT ... WHERE taskid = @id`: the rows whose key column is `id`. */
    function SelectById(id: int): (rows: seq<Row>)
      reads this
      requires Valid()
      ensures |rows| <= 1
      ensures |rows| == 1 <==> id in table
      ensures forall i :: 0 <= i < |rows| ==> rows[i] == table[id] && rows[i].taskid == id
    {
      if id in table then [table[id]] else []
    }

    /** `SELECT COUNT(*) ... WHERE taskid = @id`: the number of rows whose
        key column is `id`. */
    function CountById(id: int): (count: Option<int>)
      reads this
      requires Valid()
      ensures count.Some? && (count.value == 1 <==> id in table) && (count.value == 0 <==> id !in table)
    {
      var matching := set k | k in table && table[k].taskid == id;
      assert forall k :: k in matching ==> k == id;
      assert id in table ==> id in matching;
      assert matching == if id in table then {id} else {};
      Some(|matching|)
    }

    /** `SELECT ... ORDER BY created_at DESC`: every row once, latest first,
        rows created at the same time in no particular order. */
    method SelectAllByCreatedDesc() returns (rows: seq<Row>)
      requires Valid()
      ensures ListsLatestFirst(rows, table)
    {
      var remaining := table.Keys;
      rows := [];
      while remaining != {}
        invariant ScannedLatestFirst(rows, remaining, table)
        decreases |remaining|
      {
        LatestExists(remaining, table);
        var k :| LatestRemaining(remaining, table, k);
        ScanStep(rows, remaining, table, k);
        rows := rows + [table[k]];
        remaining := remaining - {k};
      }
    }

    /** `LAST_INSERT_ID()` after an insert: the row goes in under a new id. */
    method InsertAndGetId(row: Row) returns (newId: int)
      requires Valid()
      modifies this
      ensures Valid()
      ensures newId == old(nextId) && newId !in old(table)
      ensures table == old(table)[newId := row.(taskid := newId)]
      ensures nextId == old(nextId) + 1
    {
      newId := nextId;
      table := table[newId := row.(taskid := newId)];
      nextId := nextId + 1;
    }

    // -------------------------------------------------------------------
    // The handlers

    /** GET api/tasks: every task once, latest created first. */
    method GetAllTasks() returns (resp: Response)
      requires Valid()
      ensures resp.OkList?
      ensures |resp.items| == |table|
      ensures forall i :: 0 <= i < |resp.items| ==>
        resp.items[i].taskId in table && resp.items[i] == MapRowToTaskItem(table[resp.items[i].taskId])
      ensures forall i, j :: 0 <= i < j < |resp.items| ==> resp.items[i].taskId != resp.items[j].taskId
      ensures forall id :: id in table ==> exists i :: 0 <= i < |resp.items| && resp.items[i].taskId == id
      ensures forall i, j :: 0 <= i < j < |resp.items| ==> resp.items[i].createdAt >= resp.items[j].createdAt
    {
      var rows := SelectAllByCreatedDesc();
      var tasks: seq<TaskItem> := [];
      for i := 0 to |rows|
        invariant |tasks| == i
        invariant forall k :: 0 <= k < i ==> tasks[k] == MapRowToTaskItem(rows[k])
      {
        tasks := tasks + [MapRowToTaskItem(rows[i])];
      }
      MappedListing(rows, tasks, table);
      resp := OkList(tasks);
    }

    /** GET api/tasks/{id}: the task, or not-found exactly when the id has
        no row. */
    method GetTask(id: int) returns (resp: Response)
      requires Valid()
      ensures resp.NotFound? <==> id !in table
      ensures id !in table ==> resp == NotFound(NotFoundMessage(id))
      ensures id in table ==> resp == Ok(MapRowToTaskItem(table[id])) && resp.task.taskId == id
    {
      var rows := SelectById(id);
      if |rows| == 0 {
        return NotFound(NotFoundMessage(id));
      }
      resp := Ok(MapRowToTaskItem(rows[0]));
    }

    /** POST api/tasks: validate, insert under a new id, read the row back. */
    method CreateTask(modelStateValid: bool, body: TaskBody, now: Timestamp) returns (resp: Response)
      requires Valid()
      modifies this
      ensures Valid()
      ensures ValidateBody(modelStateValid, body).Some? ==>
        && resp == BadRequest(ValidateBody(modelStateValid, body).value)
        && table == old(table) && nextId == old(nextId)
      ensures ValidateBody(modelStateValid, body).None? ==>
        var id := old(nextId);
        && id >= 1 && id !in old(table)
        && table == old(table)[id := InsertedRow(id, body, now)]
        && nextId == old(nextId) + 1
        && resp == Created(id, MapRowToTaskItem(InsertedRow(id, body, now)))
        && resp.created.taskId == id
        && resp.created.name == body.name.value
        && resp.created.description == body.description
        && resp.created.status == CreateStatus(body.status)
        && resp.created.status in ValidStatuses
        && resp.created.createdAt == now && resp.created.updatedAt == now
      ensures old(AllWrittenByHandlers()) ==> AllWrittenByHandlers()
    {
      var invalid := ValidateBody(modelStateValid, body);
      if invalid.Some? {
        return BadRequest(invalid.value);
      }
      var status := CreateStatus(body.status);
      var newTaskId := InsertAndGetId(Row(0, body.name, body.description, Some(status), Some(now), Some(now)));
      var rows := SelectById(newTaskId);
      var createdTask := MapRowToTaskItem(rows[0]);
      resp := Created(createdTask.taskId, createdTask);
      InsertedTask(modelStateValid, newTaskId, body, now);
    }

    /** PUT api/tasks/{id}: validate, check the id exists, overwrite the
        row, read it back. */
    method UpdateTask(modelStateValid: bool, id: int, body: TaskBody, now: Timestamp) returns (resp: Response)
      requires Valid()
      modifies this
      ensures Valid() && nextId == old(nextId)
      ensures ValidateBody(modelStateValid, body).Some? ==>
        resp == BadRequest(ValidateBody(modelStateValid, body).value) && table == old(table)
      ensures ValidateBody(modelStateValid, body).None? && id !in old(table) ==>
        resp == NotFound(NotFoundMessage(id)) && table == old(table)
      ensures ValidateBody(modelStateValid, body).None? && id in old(table) ==>
        && table == old(table)[id := UpdatedRow(old(table)[id], body, now)]
        && resp == Ok(MapRowToTaskItem(table[id]))
        && resp.task.taskId == id
        && resp.task.name == body.name.value
        && resp.task.description == body.description
        && resp.task.status == body.status.GetOr(DefaultStatus)
        && resp.task.createdAt == MapRowToTaskItem(old(table)[id]).createdAt
        && resp.task.updatedAt == now
      ensures old(AllWrittenByHandlers()) ==> AllWrittenByHandlers()
    {
      var invalid := ValidateBody(modelStateValid, body);
      if invalid.Some? {
        return BadRequest(invalid.value);
      }
      var found := ScalarOrDefault(CountById(id)) > 0;
      if !found {
        return NotFound(NotFoundMessage(id));
      }
      ghost var before := table[id];
      var current := table[id];
      table := table[id := current.(name := body.name, description := body.description,
                                    status := Some(UpdateStatus(body.status)), updatedAt := Some(now))];
      var rows := SelectById(id);
      var updatedTask := MapRowToTaskItem(rows[0]);
      resp := Ok(updatedTask);
      UpdatedTask(modelStateValid, before, body, now);
    }

    /** DELETE api/tasks/{id}: check the id exists, remove its row. */
    method DeleteTask(id: int) returns (resp: Response)
      requires Valid()
      modifies this
      ensures Valid() && nextId == old(nextId)
      ensures id !in old(table) ==> resp == NotFound(NotFoundMessage(id)) && table == old(table)
      ensures id in old(table) ==> resp == NoContent && table == old(table) - {id}
      ensures old(AllWrittenByHandlers()) ==> AllWrittenByHandlers()
    {
      var found := ScalarOrDefault(CountById(id)) > 0;
      if !found {
        return NotFound(NotFoundMessage(id));
      }
      table := table - {id};
      resp := NoContent;
    }
  }

  // ---------------------------------------------------------------------
  // Sequences of requests, as a client sees them

  /** A deleted task is not found afterwards. */
  method DeleteThenGet(c: TasksController, id: int) returns (deleted: Response, fetched: Response)
    requires c.Valid()
    modifies c
    ensures deleted == if id in old(c.table) then NoContent else NotFound(NotFoundMessage(id))
    ensures fetched == NotFound(NotFoundMessage(id))
  {
    deleted := c.DeleteTask(id);
    fetched := c.GetTask(id);
  }

  /** A created task reads back with the name, description and status it
      was created with. */
  method CreateThenGet(c: TasksController, body: TaskBody, now: Timestamp) returns (created: Response, fetched: Response)
    requires c.Valid()
    requires ValidateBody(true, body).None?
    modifies c
    ensures created.Created? && fetched.Ok?
    ensures fetched.task == created.created
    ensures fetched.task.name == body.name.value && fetched.task.description == body.description
    ensures body.status.Some? && body.status.value != "" ==> fetched.task.status == body.status.value
  {
    created := c.CreateTask(true, body, now);
    fetched := c.GetTask(created.location);
    CreateStatusOfAcceptedBody(true, body);
  }

  /** The example body {name: "A", status: "In Progress"} round-trips. */
  method CreateInProgressThenGet(c: TasksController, now: Timestamp) returns (fetched: Response)
    requires c.Valid()
    modifies c
    ensures fetched.Ok? && fetched.task.name == "A" && fetched.task.status == "In Progress"
    ensures fetched.task.description == None
  {
    var body := TaskBody(Some("A"), None, Some("In Progress"));
    assert !IsWhiteSpace("A"[0]);
    assert "In Progress" in ValidStatuses && !IsWhiteSpace("In Progress"[0]);
    var created := c.CreateTask(true, body, now);
    fetched := c.GetTask(created.location);
  }

  /** Updating an id with no row, with an accepted body, changes nothing;
      with a refused body it is a bad request, not a not-found. */
  method UpdateMissing(c: TasksController, modelStateValid: bool, id: int, body: TaskBody, now: Timestamp)
    returns (resp: Response)
    requires c.Valid() && id !in c.table
    modifies c
    ensures c.table == old(c.table)
    ensures resp.NotFound? <==> ValidateBody(modelStateValid, body).None?
    ensures resp.BadRequest? <==> ValidateBody(modelStateValid, body).Some?
  {
    resp := c.UpdateTask(modelStateValid, id, body, now);
  }
}
