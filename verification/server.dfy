/**
 * The todo server's `/todos` handlers, over an abstract store: the set of
 * column ids and a map from task id to task. The database is reduced to the
 * constraints of the `tasks` table that a request can violate; a violation
 * surfaces as a 500 reply and leaves the store as it was.
 */
module Server {
  import opened Wrappers
  import opened Types

  /** `title` is `varchar(255)`. */
  const MaxTitleLength: nat := 255
  /** `position` is a Postgres `integer`. */
  const MinInt32: int := -0x8000_0000
  const MaxInt32: int := 0x7fff_ffff

  datatype Store = Store(columns: set<Id>, todos: map<Id, Todo>)

  datatype Reply =
    | Found(task: Todo)      // 200 with the task
    | Created(task: Todo)    // 201 with the new task
    | Updated(task: Todo)    // 200 with the patched task
    | Deleted                // 200
    | BadRequest             // 400
    | NotFound               // 404
    | ServerError            // 500

  /** A handler's effect: the store afterwards and the reply sent. */
  datatype Outcome = Outcome(store: Store, reply: Reply)

  /** What the table's constraints let a row hold. */
  predicate Storable(columns: set<Id>, t: Todo)
  {
    && t.columnId in columns
    && |t.title| <= MaxTitleLength
    && MinInt32 <= t.position <= MaxInt32
  }

  /** Every row is keyed by its own id and satisfies the table's constraints. */
  predicate Valid(s: Store)
  {
    forall id :: id in s.todos ==> s.todos[id].id == id && Storable(s.columns, s.todos[id])
  }

  /** `GET /todos/:id`. */
  function GetById(s: Store, id: Id): (r: Reply)
    ensures r.Found? <==> id in s.todos
    ensures r.Found? ==> r.task == s.todos[id]
    ensures !r.Found? ==> r == NotFound
  {
    if id in s.todos then Found(s.todos[id]) else NotFound
  }

  /**
   * The row `POST /todos` inserts: the new id, both timestamps at `now`, and
   * `position ?? 0`.
   */
  function NewRow(body: CreateBody, newId: Id, now: Stamp): (t: Todo)
    requires body.title.Some? && body.columnId.Some?
    ensures t.id == newId && t.title == body.title.value && t.columnId == body.columnId.value
    ensures t.description == body.description
    ensures body.position.None? ==> t.position == 0
    ensures body.position.Some? ==> t.position == body.position.value
    ensures t.createdAt == now && t.updatedAt == now
  {
    Todo(newId, body.columnId.value, body.title.value, body.description,
         body.position.GetOr(0), now, now)
  }

  /**
   * `POST /todos`. A missing or empty title or column id is a 400 before the
   * store is touched; a row the table refuses (unknown column, over-long
   * title, out-of-range position, id already taken) is a 500.
   */
  function Create(s: Store, body: CreateBody, newId: Id, now: Stamp): (r: Outcome)
    ensures !Truthy(body.title) || !Truthy(body.columnId) <==> r.reply.BadRequest?
    ensures !r.reply.Created? ==> r.store == s
    ensures r.reply.Created? <==>
      && Truthy(body.title) && Truthy(body.columnId)
      && newId !in s.todos
      && Storable(s.columns, NewRow(body, newId, now))
    ensures r.reply.Created? ==>
      && r.reply.task == NewRow(body, newId, now)
      && r.store == s.(todos := s.todos[newId := r.reply.task])
    ensures r.reply.Created? && body.position.None? ==> r.reply.task.position == 0
  {
    if !Truthy(body.title) || !Truthy(body.columnId) then Outcome(s, BadRequest)
    else
      var row := NewRow(body, newId, now);
      if newId in s.todos || !Storable(s.columns, row) then Outcome(s, ServerError)
      else Outcome(s.(todos := s.todos[newId := row]), Created(row))
  }

  /** `{ ...row, ...fields, updatedAt: now }`: supplied fields overwrite, the rest stay. */
  function Apply(t: Todo, f: Fields, now: Stamp): (u: Todo)
    ensures u.id == t.id && u.createdAt == t.createdAt && u.updatedAt == now
    ensures u.title == f.title.GetOr(t.title)
    ensures u.columnId == f.columnId.GetOr(t.columnId)
    ensures u.position == f.position.GetOr(t.position)
    ensures f.description.Some? ==> u.description == f.description
    ensures f.description.None? ==> u.description == t.description
  {
    t.(title := f.title.GetOr(t.title),
       description := if f.description.Some? then f.description else t.description,
       columnId := f.columnId.GetOr(t.columnId),
       position := f.position.GetOr(t.position),
       updatedAt := now)
  }

  /**
   * Whether a supplied `position` can be bound as the `integer` parameter of
   * the update at all. Postgres refuses an out-of-range value while binding,
   * before any row is matched.
   */
  predicate PositionBinds(f: Fields)
  {
    f.position.Some? ==> MinInt32 <= f.position.value <= MaxInt32
  }

  /**
   * `PATCH /todos/:id`. A position outside 32 bits is a 500 whatever the id;
   * otherwise an unknown id is a 404 and changes nothing, a patch the table
   * refuses is a 500 and changes nothing, and an accepted one rewrites
   * exactly that row.
   */
  function Patch(s: Store, id: Id, f: Fields, now: Stamp): (r: Outcome)
    ensures !PositionBinds(f) ==> r == Outcome(s, ServerError)
    ensures PositionBinds(f) && id !in s.todos ==> r == Outcome(s, NotFound)
    ensures r.reply == NotFound <==> PositionBinds(f) && id !in s.todos
    ensures !r.reply.Updated? ==> r.store == s
    ensures r.reply.Updated? <==> id in s.todos && Storable(s.columns, Apply(s.todos[id], f, now))
    ensures r.reply.Updated? ==>
      && r.reply.task == Apply(s.todos[id], f, now)
      && r.store.columns == s.columns
      && r.store.todos.Keys == s.todos.Keys
      && r.store.todos[id] == r.reply.task
      && forall k :: k in s.todos && k != id ==> r.store.todos[k] == s.todos[k]
  {
    if !PositionBinds(f) then Outcome(s, ServerError)
    else if id !in s.todos then Outcome(s, NotFound)
    else
      var row := Apply(s.todos[id], f, now);
      if !Storable(s.columns, row) then Outcome(s, ServerError)
      else Outcome(s.(todos := s.todos[id := row]), Updated(row))
  }

  /** `DELETE /todos/:id`: removes exactly that row, or replies 404. */
  function Delete(s: Store, id: Id): (r: Outcome)
    ensures r.reply == NotFound <==> id !in s.todos
    ensures id !in s.todos ==> r.store == s
    ensures id in s.todos ==>
      && r.reply == Deleted
      && r.store.columns == s.columns
      && r.store.todos.Keys == s.todos.Keys - {id}
      && forall k :: k in r.store.todos ==> r.store.todos[k] == s.todos[k]
  {
    if id !in s.todos then Outcome(s, NotFound)
    else Outcome(s.(todos := s.todos - {id}), Deleted)
  }

  /** Each handler keeps the store valid. */
  lemma HandlersPreserveValid(s: Store, body: CreateBody, f: Fields, id: Id, now: Stamp)
    requires Valid(s)
    ensures Valid(Create(s, body, id, now).store)
    ensures Valid(Patch(s, id, f, now).store)
    ensures Valid(Delete(s, id).store)
  {
  }

  /** Reading a task back after creating it returns the created row. */
  lemma GetAfterCreate(s: Store, body: CreateBody, newId: Id, now: Stamp)
    requires Create(s, body, newId, now).reply.Created?
    ensures GetById(Create(s, body, newId, now).store, newId) == Found(NewRow(body, newId, now))
  {
  }

  /** Reading a task back after patching it returns the patched row. */
  lemma GetAfterPatch(s: Store, id: Id, f: Fields, now: Stamp)
    requires Patch(s, id, f, now).reply.Updated?
    ensures GetById(Patch(s, id, f, now).store, id) == Found(Apply(s.todos[id], f, now))
  {
  }

  /**
   * Once deleted, a task can be neither read, patched nor deleted again; a
   * patch whose position cannot be bound fails with a 500 before the id is
   * looked up.
   */
  lemma GoneAfterDelete(s: Store, id: Id, f: Fields, now: Stamp)
    ensures var s' := Delete(s, id).store;
      && GetById(s', id) == NotFound
      && Patch(s', id, f, now) == Outcome(s', if PositionBinds(f) then NotFound else ServerError)
      && Delete(s', id) == Outcome(s', NotFound)
  {
  }
}
