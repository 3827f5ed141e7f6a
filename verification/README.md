# Kanban board reordering, modelled in Dafny

This project models the client-side reordering logic of a kanban board, plus
the request rules around it.

On the board, all tasks ("todos") live in one flat list. A column renders the
tasks of that list whose `columnId` is the column's id, in list order. A drag
gesture delivers three events:

- drag-start fills the drag overlay;
- drag-over rearranges the flat list optimistically, either moving the dragged
  task onto a hovered task with `arrayMove` or giving it a hovered column's id;
- drag-end clears the overlay and sends at most one update
  `{columnId, position}`, where `position` is the task's index in the whole
  flat list.

Loading sorts columns and tasks by `position`. A new task gets the number of
tasks already in its column as its position. The server's `/todos` handlers
(get by id, create, patch, delete) work over an abstract store. The task
dialog fills in defaults when it opens and guards its submit.

Modules:

- `Wrappers` (wrappers.dfy): `Option`.
- `Types` (types.dfy): columns, tasks and request bodies.
- `Sequences` (sequences.dfy): `findIndex`, and `arrayMove` defined as "remove
  at `from`, insert at `to`", with a pointwise description, identity and
  inverse lemmas.
- `Sorting` (sorting.dfy): the stable sort that `Array.prototype.sort`
  guarantees, with sortedness, permutation and stability proved.
- `Board` (board.dfy): board state, column views, load, new-task position, and
  the drag-start, drag-over and drag-end handlers.
- `Server` (server.dfy): the store and the four handlers.
- `TaskDialog` (task_dialog.dfy): the dialog's open defaults and submit.
- `Flows` (flows.dfy): how the client's requests meet the server's handlers.

Behaviours of the code that the model follows as written:

- **Hover over a task is not idempotent.** Repeating the same drag-over event
  applies `arrayMove` again from the new indices. Over an adjacent task this
  swaps the pair back (`Board.HoverTaskToggles`). Only the over-column branch
  is idempotent (`Board.DragOverColumnIdempotent`).
- **No clamping of indices.** Indices come from `findIndex`. `Board.DragOver`
  therefore requires the ids it looks up to be present; otherwise the source
  reads a field of `tasks[-1]` and throws.
- **No per-column sequences.** The persisted `position` is the flat-list
  index, not the index within the destination column
  (`Board.DropPositionIsFlatIndex`).
- **No column-existence check on the client.** A hover over a column sets the
  task's `columnId` to the droppable's id. The server does check, through the
  column foreign key, and answers 500.

## Model

| member | source | states |
|---|---|---|
| Sequences.ArrayMove | client/src/components/kanban/KanbanBoard.tsx:100-103 | the moved element lands at `to`; the rest, without it, is the same sequence before and after; the result is a permutation |
| Sequences.ArrayMoveAt | client/src/components/kanban/KanbanBoard.tsx:100-103 | pointwise: slots between `from` and `to` shift by one towards `from`, all others keep their element |
| Sequences.ArrayMoveSelf | client/src/components/kanban/KanbanBoard.tsx:121 | `arrayMove(x, i, i)` returns a sequence equal to `x` |
| Sequences.ArrayMoveInverse | client/src/components/kanban/KanbanBoard.tsx:100-103 | moving back from `to` to `from` restores the original sequence |
| Sequences.IndexOfSwapped | client/src/components/kanban/KanbanBoard.tsx:91-92 | after a move between neighbours, the neighbour is found at the index the moved element left |
| Board.FindIndex | client/src/components/kanban/KanbanBoard.tsx:91-92 | -1 exactly when no task has the id; otherwise the first index holding it |
| Board.Find | client/src/components/kanban/KanbanBoard.tsx:137 | `find` succeeds exactly when the id is present, and returns the task at `findIndex` |
| Board.ColumnView | client/src/components/kanban/KanbanBoard.tsx:235 | a column shows exactly the tasks whose `columnId` is its id |
| Board.ColumnViewCount | client/src/components/kanban/KanbanBoard.tsx:235 | the number of tasks a column shows is the number of tasks carrying its id |
| Board.ColumnPrefixCount | client/src/components/kanban/KanbanBoard.tsx:235 | a column shows at most `i` of the first `i` tasks, and all of them exactly when they all carry its id |
| Board.ColumnRankLocates | client/src/components/kanban/KanbanBoard.tsx:235 | a task's index in its column is at most its flat index, with equality exactly when no other column's task precedes it |
| Board.ColumnRankOrder | client/src/components/kanban/KanbanBoard.tsx:235 | the column filter preserves list order |
| Board.ColumnViewSorted | client/src/components/kanban/KanbanBoard.tsx:58-60 | when the flat list is sorted by position, so is every column |
| Sorting.SortBy | client/src/components/kanban/KanbanBoard.tsx:58-59 | the sort result is ordered by non-decreasing key and is a permutation of its input |
| Sorting.SortByStable | client/src/components/kanban/KanbanBoard.tsx:58-59 | elements with equal keys keep their relative order |
| Sorting.SortBySorted | client/src/components/kanban/KanbanBoard.tsx:58-59 | sorting an already sorted list returns it unchanged |
| Board.Load | client/src/components/kanban/KanbanBoard.tsx:54-66 | a successful fetch leaves columns and tasks sorted by position and each a permutation of what was fetched; a failed fetch changes nothing |
| Board.LoadColumns | client/src/components/kanban/KanbanBoard.tsx:56-60 | after a load every column is position-sorted, and ties keep the server's order |
| Board.NewTaskPosition | client/src/components/kanban/KanbanBoard.tsx:176 | a new task's position is the number of tasks whose column is its target column |
| Board.CreateRequest | client/src/components/kanban/KanbanBoard.tsx:167-177 | the create body carries the dialog's fields and that count as position |
| Board.DragStart | client/src/components/kanban/KanbanBoard.tsx:68-72 | the overlay gets the task with the dragged id when one exists; otherwise nothing changes |
| Board.OverTask | client/src/components/kanban/KanbanBoard.tsx:89-105 | the dragged task, carrying the hovered task's column, lands at the hovered task's former index; every other task keeps its fields and relative order |
| Board.OverColumn | client/src/components/kanban/KanbanBoard.tsx:107-125 | only the dragged task changes, and only its `columnId`; the order is untouched |
| Board.DragOver | client/src/components/kanban/KanbanBoard.tsx:74-126 | no `over`, a self-hover or a non-task drag returns the list unchanged; any other hover keeps the length and the multiset of ids |
| Board.DragOverColumnIdempotent | client/src/components/kanban/KanbanBoard.tsx:110-124 | a second identical hover over a column changes nothing more |
| Board.FindMoved | client/src/components/kanban/KanbanBoard.tsx:91-103 | with distinct ids, after a move the dragged task is found at its target index |
| Board.HoverAdjacentSwaps | client/src/components/kanban/KanbanBoard.tsx:89-104 | a hover over an adjacent task of the same column swaps the two |
| Board.HoverTaskToggles | client/src/components/kanban/KanbanBoard.tsx:89-104 | hovering twice over an adjacent task changes the list, then restores it, so the hover is not idempotent |
| Board.DragEnd | client/src/components/kanban/KanbanBoard.tsx:128-165 | the overlay is always cleared; one update is sent exactly for a drop on another column or on a found task; it carries the target column and the dragged task's flat index |
| Board.DropPositionIsFlatIndex | client/src/components/kanban/KanbanBoard.tsx:145-162 | the persisted position is the dragged task's first flat index; it equals the number of the destination column's tasks ahead of it exactly when every earlier task is in that column, and on a column drop the task is not among the destination's tasks |
| Board.DropOnFoundTask | client/src/components/kanban/KanbanBoard.tsx:152-163 | a drop on a found task sends that task's column and the dragged task's first flat index |
| Board.DragEndIntended | client/src/components/kanban/KanbanBoard.tsx:128-165 | the corrected drop: a column drop persists exactly when the column differs from the drag-start column; it agrees with `DragEnd` on every other drop and whenever the task is still in its start column |
| Board.Hovered | client/src/components/kanban/KanbanBoard.tsx:68-126 | drag-start then one drag-over: the overlay holds the found task, and the ids are a rearrangement of the original ones |
| Board.ColumnDropAfterHoverIsLost | client/src/components/kanban/KanbanBoard.tsx:110-149 | after a hover over column `c`, the board shows the task in `c`, yet the drop on `c` sends no update |
| Board.ColumnDropAfterHoverPersists | client/src/components/kanban/KanbanBoard.tsx:110-149 | with the corrected drop, the same gesture sends `{c, flat index}` exactly when the task started in another column |
| Board.OverTaskKeepsHovered | client/src/components/kanban/KanbanBoard.tsx:89-104 | with distinct ids, the hovered task's record survives a hover unchanged |
| Board.TaskDropAfterHover | client/src/components/kanban/KanbanBoard.tsx:89-163 | a hover over task `o` then a drop on `o` sends `o`'s column and `o`'s former index, as written and as corrected |
| Server.GetById | server/src/index.ts:51-71 | the stored task when the id is present, 404 otherwise |
| Server.Create | server/src/index.ts:73-101 | 400 exactly when title or column id is missing or empty, with the store unchanged; a row is stored exactly when the table's constraints accept it, and without a position it gets 0 |
| Server.Apply | server/src/index.ts:107 | supplied fields overwrite, all others stay, and `updatedAt` becomes `now` |
| Server.Patch | server/src/index.ts:103-124 | a position outside 32 bits is a 500 whatever the id; otherwise 404 exactly on an unknown id with nothing changed, and only that row is rewritten, or nothing changes when the table refuses the row |
| Server.Delete | server/src/index.ts:126-146 | 404 exactly on an unknown id; otherwise exactly that id is removed and every other row is kept |
| Server.HandlersPreserveValid | server/src/db/schema.ts:20-34 | every handler keeps each row keyed by its id and within the table's constraints |
| Server.GetAfterCreate | server/src/index.ts:84-94 | a created task reads back as the inserted row |
| Server.GetAfterPatch | server/src/index.ts:105-117 | a patched task reads back as the patched row |
| Server.GoneAfterDelete | server/src/index.ts:103-137 | after a delete, get and delete on that id give 404, and so does a patch unless its position is outside 32 bits, which gives 500 |
| TaskDialog.OnOpen | client/src/components/kanban/TaskDialog.tsx:41-49 | on open the fields take the initial task's values or "", and the column falls back from task to default to first column to ""; a closed dialog is unchanged |
| TaskDialog.DefaultColumnChoice | client/src/components/kanban/TaskDialog.tsx:45-47 | the chosen column is one of the candidates, and "" exactly when none is usable |
| TaskDialog.Submit | client/src/components/kanban/TaskDialog.tsx:51-64 | an empty title or column submits nothing and changes nothing; otherwise the fields are submitted, the dialog closes on success and stays on failure, and loading ends false |
| Flows.SubmittedCreateIsValid | server/src/index.ts:76-81 | what the dialog submits is never refused with 400, and a created task's position is the number of tasks the board shows in its column |
| Flows.DropPatchMovesOnly | server/src/index.ts:103-109 | an accepted update from the corrected drop changes only the task's column and position |

## Left out

- Server: `server/src/index.ts` imports a `todo` table that the schema module
  does not export (it exports `columns` and `tasks`), so as written the
  handlers reach no table at all. The model assumes `todo` is the `tasks`
  table.
- HTTP transport (`client/src/lib/api.ts`): a request is modelled as the value
  the client would send, and a reply as a value of `Server.Reply`.
- React state scheduling: each handler is a function of the current state,
  and a drop sees the list the last hover produced, as it does once the
  component has re-rendered. A `tasks` closure older than that is not
  modelled.
- The refetch after create, update and delete is not modelled. Neither is the
  `isLoading` flag.
- `handleUpdateTask`, `handleDeleteTask` and the dialog open/close helpers: thin
  calls into the API with no logic of their own.
- Pointer sensing and collision detection belong to the drag-and-drop library.
  `over` is an input.
- Ids are opaque strings. The database rejects id text that is not a uuid with
  a 500; the model does not.
- `GET /columns`, `GET /todos` and the database failures behind the 500 catch
  blocks are not modelled. The only failures modelled are rows the table's
  constraints refuse: an unknown column, a title over 255 characters, a
  position outside 32 bits, or a new id already taken.
- Server.Storable: a title over 255 characters is always refused. Postgres
  instead truncates a `varchar(255)` value whose excess characters are all
  spaces, and stores it; that case is not modelled.
- Server.Patch: only the four task fields are modelled. A body that sets `id`,
  sets timestamps or sets `description` to `null` is not.
- Server.Create: field types are assumed to be strings and integers. JSON
  values of other types, and their truthiness, are not modelled.
- Timestamps are opaque numbers. `now` is a parameter.
- The seed script, the column and card rendering components, and the table
  schema: the schema is used only for the constraints above.
- TaskDialog.Submit: the intermediate `loading = true` during the await is not
  modelled. Only the state after the promise settles is.

## Findings

| source | as written | input that shows it | evidently intended | confidence | as-written member | corrected member |
|---|---|---|---|---|---|---|
| client/src/components/kanban/KanbanBoard.tsx:141-149 | a column drop persists only when the task's current `columnId` differs from the column, but the drag-over over that column (lines 110-124) has already set it to the column | a task of column A dragged over the background of column B and dropped there: the hover sets its `columnId` to B, the drop compares B with B and sends nothing, so a drop on a column's background does not persist the move | compare with the column the task had when the drag started, which the overlay task still holds, and persist the move | medium, not executed; assumes the component re-renders between the hover and the drop, so that the drop sees the hovered list | Board.ColumnDropAfterHoverIsLost | Board.DragEndIntended, with Board.ColumnDropAfterHoverPersists |
