/**
 * The records shared by the board client and the todo server: columns, tasks
 * (called todos in the source) and the request bodies the client sends.
 */
module Types {
  import opened Wrappers

  /** JavaScript truthiness of an optional string: present and not empty. */
  predicate Truthy(v: Option<string>)
  {
    v.Some? && v.value != ""
  }

  /** Row identities are opaque uuid strings. */
  type Id = string

  /** `createdAt`/`updatedAt` are opaque to all the logic modelled here. */
  type Stamp = nat

  datatype Column = Column(id: Id, name: string, position: int)

  /** A task; `description` is nullable in the table. */
  datatype Todo = Todo(
    id: Id,
    columnId: Id,
    title: string,
    description: Option<string>,
    position: int,
    createdAt: Stamp,
    updatedAt: Stamp)

  function TodoId(t: Todo): Id { t.id }
  function TodoColumn(t: Todo): Id { t.columnId }
  function TodoPosition(t: Todo): int { t.position }
  function ColumnPosition(c: Column): int { c.position }

  /** What the task dialog hands to its `onSubmit` callback. */
  datatype TaskInput = TaskInput(title: string, description: string, columnId: Id)

  /** Body of `POST /todos`; a field the client leaves `undefined` is `None`. */
  datatype CreateBody = CreateBody(
    title: Option<string>,
    description: Option<string>,
    columnId: Option<Id>,
    position: Option<int>)

  /** Body of `PATCH /todos/:id`: the subset of fields to overwrite. */
  datatype Fields = Fields(
    title: Option<string>,
    description: Option<string>,
    columnId: Option<Id>,
    position: Option<int>)

  /** A persistence request for one task, as the board hands it to `updateTodo`. */
  datatype Update = Update(id: Id, fields: Fields)
}
