/**
 * The pure parts of the task handlers: the checks a request body must pass,
 * how each write path picks the status it stores, the response messages,
 * and the mapping from a stored row to a task record.
 */
module TaskRules {
  import opened Wrappers
  import opened DotNetText
  import opened Models

  // ---------------------------------------------------------------------
  // Statuses and messages

  /** The accepted statuses, in the order the error message lists them. */
  const ValidStatuses: seq<string> := ["Not Started", "In Progress", "Completed"]

  const NameRequiredMessage: string := "Task name is required"

  function StatusChoicesMessage(): string {
    "Status must be one of: " + Join(", ", ValidStatuses)
  }

  /** The status error spells out the three statuses, in order. */
  lemma StatusChoicesMessageText()
    ensures StatusChoicesMessage() == "Status must be one of: " + "Not Started, In Progress, Completed"
  {
    assert ValidStatuses[1..][1..] == ["Completed"];
    assert ValidStatuses[1..] == ["In Progress", "Completed"];
  }

  /** The 404 message: a fixed prefix and suffix around the decimal text
      of the id, which reads back as the id. */
  function NotFoundMessage(id: int): (m: string)
    ensures |m| > 23 && m[..13] == "Task with id " && m[|m| - 10..] == " not found"
    ensures ParseDecimal(m[13..|m| - 10]) == Some(id)
  {
    var m := "Task with id " + IntToDecimal(id) + " not found";
    IntToDecimalRoundTrip(id);
    assert m[13..|m| - 10] == IntToDecimal(id);
    m
  }

  /** A not-found message names its id: no two ids share a message. */
  lemma NotFoundMessageNamesId(a: int, b: int)
    requires NotFoundMessage(a) == NotFoundMessage(b)
    ensures a == b
  {
  }

  // ---------------------------------------------------------------------
  // Validation of a request body (create and update share it)

  /** The body of a 400 response: the framework's model-state errors, or a
      message of the handler's own. */
  datatype ErrorBody = ModelStateErrors | Message(text: string)

  /** The status test: a status is refused when it is neither null nor
      empty and not exactly one of the valid statuses. */
  predicate StatusAccepted(status: Option<string>): (b: bool)
    ensures b <==> || status == None || status == Some("")
                   || status == Some("Not Started") || status == Some("In Progress") || status == Some("Completed")
  {
    IsNullOrEmpty(status) || status.value in ValidStatuses
  }

  /** The checks in the order the handlers make them; the first one that
      fails decides the error. `None` means the body is accepted. */
  function ValidateBody(modelStateValid: bool, body: TaskBody): (r: Option<ErrorBody>)
    ensures r.None? <==> modelStateValid && !IsNullOrWhiteSpace(body.name) && StatusAccepted(body.status)
  {
    if !modelStateValid then Some(ModelStateErrors)
    else if IsNullOrWhiteSpace(body.name) then Some(Message(NameRequiredMessage))
    else if !StatusAccepted(body.status) then Some(Message(StatusChoicesMessage()))
    else None
  }

  /** An accepted body has a name with at least one non-whitespace
      character, and its status is null, empty or one of the three. */
  lemma AcceptedBody(body: TaskBody)
    requires ValidateBody(true, body).None?
    ensures body.name.Some? && exists i :: 0 <= i < |body.name.value| && !IsWhiteSpace(body.name.value[i])
    ensures body.status == None || body.status == Some("") || body.status.value in ValidStatuses
  {
  }

  /** A null, empty or whitespace-only name is refused with the name
      message, whatever the status is. */
  lemma BlankNameRejected(body: TaskBody)
    requires body.name.None? || forall i :: 0 <= i < |body.name.value| ==> IsWhiteSpace(body.name.value[i])
    ensures ValidateBody(true, body) == Some(Message("Task name is required"))
  {
  }

  /** With a usable name, a status other than null, "" and the three valid
      ones is refused with the message listing the valid ones. */
  lemma BadStatusRejected(body: TaskBody)
    requires !IsNullOrWhiteSpace(body.name)
    requires body.status.Some? && body.status.value != ""
    requires body.status.value != "Not Started" && body.status.value != "In Progress" && body.status.value != "Completed"
    ensures ValidateBody(true, body) == Some(Message(StatusChoicesMessage()))
  {
  }

  /** A whitespace-only status is refused: the status test looks for an
      empty string, not a blank one. */
  lemma BlankStatusRejected(body: TaskBody)
    requires !IsNullOrWhiteSpace(body.name)
    requires body.status.Some? && |body.status.value| > 0
    requires forall i :: 0 <= i < |body.status.value| ==> IsWhiteSpace(body.status.value[i])
    ensures ValidateBody(true, body) == Some(Message(StatusChoicesMessage()))
  {
    var s := body.status.value;
    assert !IsWhiteSpace(ValidStatuses[0][0]) && !IsWhiteSpace(ValidStatuses[1][0]) && !IsWhiteSpace(ValidStatuses[2][0]);
    assert IsWhiteSpace(s[0]);
  }

  /** Model-state errors come before everything else. */
  lemma ModelStateFirst(body: TaskBody)
    ensures ValidateBody(false, body) == Some(ModelStateErrors)
  {
  }

  // ---------------------------------------------------------------------
  // The status each write path stores

  /** Create stores the default status for a null or blank status. */
  function CreateStatus(status: Option<string>): (r: string)
    ensures r == DefaultStatus || (status.Some? && r == status.value)
    ensures !IsNullOrWhiteSpace(Some(r))
    ensures status.None? || status == Some("") ==> r == DefaultStatus
  {
    assert !IsWhiteSpace(DefaultStatus[0]);
    if IsNullOrWhiteSpace(status) then DefaultStatus else status.value
  }

  /** Update stores the default status only for a null status. */
  function UpdateStatus(status: Option<string>): (r: string)
    ensures status.None? ==> r == DefaultStatus
    ensures status.Some? ==> r == status.value
  {
    status.GetOr(DefaultStatus)
  }

  /** On an accepted body, create stores one of the three statuses, and
      stores the default exactly when the status was null, empty or the
      default itself. */
  lemma CreateStatusOfAcceptedBody(modelStateValid: bool, body: TaskBody)
    requires ValidateBody(modelStateValid, body).None?
    ensures CreateStatus(body.status) in ValidStatuses
    ensures CreateStatus(body.status) == DefaultStatus <==>
              body.status == None || body.status == Some("") || body.status == Some(DefaultStatus)
    ensures body.status.Some? && body.status.value != "" ==> CreateStatus(body.status) == body.status.value
  {
    if body.status.Some? && body.status.value != "" {
      var s := body.status.value;
      assert s in ValidStatuses;
      assert !IsWhiteSpace(s[0]);
    }
  }

  /** On an accepted body, update stores the given status as it is, the
      default when it was null, and so an empty status stays empty. */
  lemma UpdateStatusOfAcceptedBody(modelStateValid: bool, body: TaskBody)
    requires ValidateBody(modelStateValid, body).None?
    ensures UpdateStatus(body.status) in ValidStatuses || UpdateStatus(body.status) == ""
    ensures UpdateStatus(body.status) == "" <==> body.status == Some("")
    ensures body.status.None? ==> UpdateStatus(body.status) == DefaultStatus
    ensures body.status.Some? ==> UpdateStatus(body.status) == body.status.value
  {
  }

  /** The two paths part on an empty status: create stores the default,
      update stores "", which is not one of the valid statuses. */
  lemma EmptyStatusDiffers()
    ensures ValidateBody(true, TaskBody(Some("A"), None, Some(""))).None?
    ensures CreateStatus(Some("")) == DefaultStatus
    ensures UpdateStatus(Some("")) == "" && "" !in ValidStatuses
  {
    assert !IsWhiteSpace("A"[0]);
  }

  /** A status left out of the JSON body keeps the record's initializer
      value, so both paths store the default for it. */
  lemma OmittedStatusDefaults(name: JsonField, description: JsonField)
    ensures CreateStatus(BindTaskBody(name, description, Omitted).status) == DefaultStatus
    ensures UpdateStatus(BindTaskBody(name, description, Omitted).status) == DefaultStatus
  {
  }

  /** A name left out of the JSON body is the initializer's empty string,
      which the name check refuses. */
  lemma OmittedNameRejected(description: JsonField, status: JsonField)
    ensures ValidateBody(true, BindTaskBody(Omitted, description, status)) == Some(Message(NameRequiredMessage))
  {
  }

  // ---------------------------------------------------------------------
  // Stored rows and their mapping to task records

  /** One row of the `tasks` table. The key column is never NULL; any other
      column may be. */
  datatype Row = Row(
    taskid: int,
    name: Option<string>,
    description: Option<string>,
    status: Option<string>,
    createdAt: Option<Timestamp>,
    updatedAt: Option<Timestamp>)

  /** A timestamp column, with `DateTime.MinValue` for NULL. */
  function TimestampOrMin(column: Option<Timestamp>): (t: Timestamp)
    ensures column.None? ==> t == MinTimestamp
    ensures column.Some? ==> t == column.value
    ensures MinTimestamp <= t
  {
    column.GetOr(MinTimestamp)
  }

  /** Maps a row to a task record. A NULL name or status reads as the
      empty string (the text of a database NULL is empty), a NULL
      description as absent, a NULL timestamp as the minimum timestamp. */
  function MapRowToTaskItem(row: Row): (t: TaskItem)
    ensures t.taskId == row.taskid
    ensures t.description == row.description
    ensures t.name == (if row.name.Some? then row.name.value else "")
    ensures t.status == (if row.status.Some? then row.status.value else "")
    ensures row.createdAt.None? ==> t.createdAt == MinTimestamp
    ensures row.updatedAt.None? ==> t.updatedAt == MinTimestamp
    ensures row.createdAt.Some? ==> t.createdAt == row.createdAt.value
    ensures row.updatedAt.Some? ==> t.updatedAt == row.updatedAt.value
  {
    TaskItem(
      row.taskid,
      row.name.GetOr(""),
      row.description,
      row.status.GetOr(""),
      TimestampOrMin(row.createdAt),
      TimestampOrMin(row.updatedAt))
  }

  /** The row a task record would be stored as: every column filled. */
  function ItemToRow(t: TaskItem): Row {
    Row(t.taskId, Some(t.name), t.description, Some(t.status), Some(t.createdAt), Some(t.updatedAt))
  }

  predicate NoNullColumns(row: Row) {
    row.name.Some? && row.status.Some? && row.createdAt.Some? && row.updatedAt.Some?
  }

  /** Mapping recovers every task record from its stored row. */
  lemma MapItemToRow(t: TaskItem)
    ensures NoNullColumns(ItemToRow(t))
    ensures MapRowToTaskItem(ItemToRow(t)) == t
  {
  }

  /** A row without NULLs (other than in the description) loses nothing in
      the mapping. */
  lemma MapRowLossless(row: Row)
    requires NoNullColumns(row)
    ensures ItemToRow(MapRowToTaskItem(row)) == row
  {
  }

  /** The mapping cannot tell a NULL name or status from an empty one, nor
      a NULL timestamp from the minimum one. */
  lemma MapRowMergesNulls(row: Row)
    ensures MapRowToTaskItem(row.(name := None)) == MapRowToTaskItem(row.(name := Some("")))
    ensures MapRowToTaskItem(row.(status := None)) == MapRowToTaskItem(row.(status := Some("")))
    ensures MapRowToTaskItem(row.(createdAt := None)) == MapRowToTaskItem(row.(createdAt := Some(MinTimestamp)))
  {
  }

  // ---------------------------------------------------------------------
  // The rows the write paths store

  /** The row an insert stores: the body's name and description, the
      create-path status, and `now` in both timestamps. */
  function InsertedRow(id: int, body: TaskBody, now: Timestamp): (r: Row)
    ensures r.taskid == id && r.name == body.name && r.description == body.description
    ensures r.status == Some(CreateStatus(body.status))
    ensures r.createdAt == Some(now) && r.updatedAt == r.createdAt
  {
    Row(id, body.name, body.description, Some(CreateStatus(body.status)), Some(now), Some(now))
  }

  /** The row an update leaves: name, description and status replaced,
      `updatedAt` set to `now`, key and `createdAt` kept. */
  function UpdatedRow(row: Row, body: TaskBody, now: Timestamp): (r: Row)
    ensures r.taskid == row.taskid && r.createdAt == row.createdAt
    ensures r.name == body.name && r.description == body.description
    ensures r.status == Some(UpdateStatus(body.status)) && r.updatedAt == Some(now)
  {
    row.(name := body.name, description := body.description,
         status := Some(UpdateStatus(body.status)), updatedAt := Some(now))
  }

  /** Rows as the handlers write them: a usable name, a status that is one
      of the three or empty, and both timestamps. */
  predicate WrittenByHandlers(row: Row) {
    && !IsNullOrWhiteSpace(row.name)
    && row.status.Some? && (row.status.value in ValidStatuses || row.status.value == "")
    && row.createdAt.Some? && row.updatedAt.Some?
  }

  /** The task record read back after an insert of an accepted body. */
  lemma InsertedTask(modelStateValid: bool, id: int, body: TaskBody, now: Timestamp)
    requires ValidateBody(modelStateValid, body).None?
    ensures WrittenByHandlers(InsertedRow(id, body, now))
    ensures var t := MapRowToTaskItem(InsertedRow(id, body, now));
      && t.taskId == id && t.name == body.name.value && t.description == body.description
      && t.status == CreateStatus(body.status) && t.status in ValidStatuses
      && t.createdAt == now && t.updatedAt == now
  {
    CreateStatusOfAcceptedBody(modelStateValid, body);
  }

  /** The task record read back after an update with an accepted body. */
  lemma UpdatedTask(modelStateValid: bool, row: Row, body: TaskBody, now: Timestamp)
    requires ValidateBody(modelStateValid, body).None?
    ensures row.createdAt.Some? ==> WrittenByHandlers(UpdatedRow(row, body, now))
    ensures var t := MapRowToTaskItem(UpdatedRow(row, body, now));
      && t.taskId == row.taskid && t.name == body.name.value && t.description == body.description
      && t.status == UpdateStatus(body.status)
      && t.createdAt == MapRowToTaskItem(row).createdAt && t.updatedAt == now
  {
    UpdateStatusOfAcceptedBody(modelStateValid, body);
  }
}
