/**
 * The task record the API sends and receives, and how a JSON request body
 * becomes one.
 */
module Models {
  import opened Wrappers

  /** A point in time as a count of ticks; `DateTime.MinValue` is tick 0. */
  type Timestamp = nat

  const MinTimestamp: Timestamp := 0

  /** The status a task gets when none is given. */
  const DefaultStatus: string := "Not Started"

  /** A task as the API returns it. `description` may be absent; the other
      fields always hold a value. */
  datatype TaskItem = TaskItem(
    taskId: int,
    name: string,
    description: Option<string>,
    status: string,
    createdAt: Timestamp,
    updatedAt: Timestamp)

  /** A freshly constructed record: the property initializers give an empty
      name and the default status; the rest take their type's default. */
  const NewTaskItem: TaskItem :=
    TaskItem(0, "", None, DefaultStatus, MinTimestamp, MinTimestamp)

  /** Each property initializer of the record: an empty name, no
      description, the default status. */
  lemma NewTaskItemDefaults()
    ensures NewTaskItem.name == "" && NewTaskItem.description == None
    ensures NewTaskItem.status == "Not Started"
    ensures NewTaskItem.createdAt == MinTimestamp && NewTaskItem.updatedAt == MinTimestamp
  {
  }

  /** What the handlers read from a request body. Name and status are
      nullable here because the handlers test them for null. */
  datatype TaskBody = TaskBody(name: Option<string>, description: Option<string>, status: Option<string>)

  /** One property of a JSON object: left out, given as `null`, or a string. */
  datatype JsonField = Omitted | Null | Text(s: string)

  /** A property left out keeps the initializer's value; `null` overwrites
      it with null; a string overwrites it with that string. */
  function BindField(field: JsonField, initial: Option<string>): Option<string> {
    match field
    case Omitted => initial
    case Null => None
    case Text(s) => Some(s)
  }

  /** Binds a request body onto a fresh record. */
  function BindTaskBody(name: JsonField, description: JsonField, status: JsonField): (b: TaskBody)
    ensures name.Omitted? ==> b.name == Some("")
    ensures status.Omitted? ==> b.status == Some(DefaultStatus)
    ensures description.Omitted? || description.Null? ==> b.description == None
    ensures name.Text? ==> b.name == Some(name.s)
    ensures name.Null? ==> b.name == None
    ensures status.Null? ==> b.status == None
    ensures status.Text? ==> b.status == Some(status.s)
    ensures description.Text? ==> b.description == Some(description.s)
  {
    TaskBody(
      BindField(name, Some(NewTaskItem.name)),
      BindField(description, NewTaskItem.description),
      BindField(status, Some(NewTaskItem.status)))
  }
}
