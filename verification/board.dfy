/**
 * The kanban board's client state and its drag handlers. All tasks live in
 * one flat list; a column shows the tasks of that list whose `columnId` is
 * the column's id, in list order. Each handler is a pure function of the
 * current state.
 */
module Board {
  import opened Wrappers
  import opened Types
  import opened Sequences
  import opened Sorting

  /** The component's state: columns, the flat task list, and the task in the drag overlay. */
  datatype BoardState = BoardState(columns: seq<Column>, tasks: seq<Todo>, active: Option<Todo>)

  /** The type tag the drag-and-drop library attaches to a draggable or droppable. */
  datatype Kind = TaskKind | ColumnKind | Untagged

  /** The dragged item (`active`) or the one under the pointer (`over`). */
  datatype Item = Item(id: Id, kind: Kind)

  function Ids(tasks: seq<Todo>): seq<Id>
  {
    MapSeq(TodoId, tasks)
  }

  predicate Contains(tasks: seq<Todo>, id: Id)
  {
    id in Ids(tasks)
  }

  /** `tasks.findIndex((t) => t.id === id)`. */
  function FindIndex(tasks: seq<Todo>, id: Id): (r: int)
    ensures -1 <= r < |tasks|
    ensures r == -1 <==> !Contains(tasks, id)
    ensures 0 <= r ==> tasks[r].id == id && forall j :: 0 <= j < r ==> tasks[j].id != id
  {
    IndexOf(Ids(tasks), id)
  }

  /** `tasks.find((t) => t.id === id)`: agrees with `FindIndex`. */
  function Find(tasks: seq<Todo>, id: Id): (r: Option<Todo>)
    ensures r.Some? <==> Contains(tasks, id)
    ensures r.Some? ==> r.value.id == id && r.value == tasks[FindIndex(tasks, id)]
  {
    var i := FindIndex(tasks, id);
    if i < 0 then None else Some(tasks[i])
  }

  /** Two task lists with the same ids in the same order locate every id at the same index. */
  lemma FindIndexByIds(a: seq<Todo>, b: seq<Todo>, id: Id)
    requires Ids(a) == Ids(b)
    ensures FindIndex(a, id) == FindIndex(b, id)
  {
  }

  // ---------------------------------------------------------------------------
  // Column views

  /** `tasks.filter((t) => t.columnId === c)`: what the column with id `c` renders. */
  function ColumnView(tasks: seq<Todo>, c: Id): (r: seq<Todo>)
    ensures |r| <= |tasks|
    ensures forall k :: 0 <= k < |r| ==> r[k].columnId == c
    ensures forall t :: t in r <==> (t in tasks && t.columnId == c)
  {
    if |tasks| == 0 then []
    else
      assert tasks == [tasks[0]] + tasks[1..];
      (if tasks[0].columnId == c then [tasks[0]] else []) + ColumnView(tasks[1..], c)
  }

  lemma {:induction false} ColumnViewAppend(a: seq<Todo>, b: seq<Todo>, c: Id)
    ensures ColumnView(a + b, c) == ColumnView(a, c) + ColumnView(b, c)
  {
    if |a| == 0 {
      assert a + b == b;
    } else {
      assert (a + b)[1..] == a[1..] + b;
      ColumnViewAppend(a[1..], b, c);
    }
  }

  /** The number of tasks a column shows is the number of tasks carrying its id. */
  lemma {:induction false} ColumnViewCount(tasks: seq<Todo>, c: Id)
    ensures |ColumnView(tasks, c)| == multiset(MapSeq(TodoColumn, tasks))[c]
  {
    if |tasks| > 0 {
      ColumnViewCount(tasks[1..], c);
      assert MapSeq(TodoColumn, tasks) == [tasks[0].columnId] + MapSeq(TodoColumn, tasks[1..]);
    }
  }

  /** A column shows every task of the list exactly when every task carries its id. */
  lemma {:induction false} ColumnViewFull(tasks: seq<Todo>, c: Id)
    ensures |ColumnView(tasks, c)| == |tasks| <==> forall j :: 0 <= j < |tasks| ==> tasks[j].columnId == c
  {
    if |tasks| > 0 {
      ColumnViewFull(tasks[1..], c);
      assert forall j :: 1 <= j < |tasks| ==> tasks[j] == tasks[1..][j - 1];
    }
  }

  /** Index of `tasks[i]` within the view of its own column. */
  function ColumnRank(tasks: seq<Todo>, i: nat): nat
    requires i < |tasks|
  {
    |ColumnView(tasks[..i], tasks[i].columnId)|
  }

  /**
   * `ColumnRank` is where the task shows up in its column, and it is never
   * more than the task's index in the flat list; the two agree exactly when
   * every task before it sits in the same column.
   */
  lemma {:induction false} ColumnRankLocates(tasks: seq<Todo>, i: nat)
    requires i < |tasks|
    ensures ColumnRank(tasks, i) < |ColumnView(tasks, tasks[i].columnId)|
    ensures ColumnView(tasks, tasks[i].columnId)[ColumnRank(tasks, i)] == tasks[i]
    ensures ColumnRank(tasks, i) <= i
    ensures ColumnRank(tasks, i) == i <==> forall j :: 0 <= j < i ==> tasks[j].columnId == tasks[i].columnId
  {
    ColumnViewSplit(tasks, i);
    ColumnPrefixCount(tasks, i, tasks[i].columnId);
  }

  /** Column `c` shows at most `i` of the first `i` tasks, and all of them exactly when they all carry its id. */
  lemma {:induction false} ColumnPrefixCount(tasks: seq<Todo>, i: nat, c: Id)
    requires i <= |tasks|
    ensures |ColumnView(tasks[..i], c)| <= i
    ensures |ColumnView(tasks[..i], c)| == i <==> forall j :: 0 <= j < i ==> tasks[j].columnId == c
  {
    ColumnViewFull(tasks[..i], c);
    assert forall j :: 0 <= j < i ==> tasks[..i][j] == tasks[j];
  }

  /** The view of a task's column is the view of the tasks before it, the task, and the view of those after. */
  lemma {:induction false} ColumnViewSplit(tasks: seq<Todo>, i: nat)
    requires i < |tasks|
    ensures ColumnView(tasks, tasks[i].columnId)
         == ColumnView(tasks[..i], tasks[i].columnId) + [tasks[i]] + ColumnView(tasks[i + 1..], tasks[i].columnId)
  {
    var c := tasks[i].columnId;
    var pre, mid, post := tasks[..i], [tasks[i]], tasks[i + 1..];
    assert tasks == pre + tasks[i..];
    assert tasks[i..] == mid + post;
    ColumnViewAppend(pre, mid + post, c);
    ColumnViewAppend(mid, post, c);
    ColumnViewSingle(tasks[i], c);
    var vpre, vpost := ColumnView(pre, c), ColumnView(post, c);
    assert ColumnView(tasks, c) == vpre + ([tasks[i]] + vpost);
    assert vpre + ([tasks[i]] + vpost) == vpre + [tasks[i]] + vpost;
  }

  lemma {:induction false} ColumnViewSingle(t: Todo, c: Id)
    ensures ColumnView([t], c) == if t.columnId == c then [t] else []
  {
    assert [t][1..] == [];
  }

  /** Column views keep the list order: an earlier task of the column shows earlier. */
  lemma ColumnRankOrder(tasks: seq<Todo>, i: nat, j: nat)
    requires i < j < |tasks|
    requires tasks[i].columnId == tasks[j].columnId
    ensures ColumnRank(tasks, i) < ColumnRank(tasks, j)
  {
    var c := tasks[i].columnId;
    assert tasks[..j] == tasks[..i] + tasks[i..j];
    ColumnViewAppend(tasks[..i], tasks[i..j], c);
    assert tasks[i] in tasks[i..j];
    assert tasks[i] in ColumnView(tasks[i..j], c);
  }

  /** Filtering a position-sorted list leaves every column position-sorted. */
  lemma {:induction false} ColumnViewSorted(tasks: seq<Todo>, c: Id)
    requires SortedBy(tasks, TodoPosition)
    ensures SortedBy(ColumnView(tasks, c), TodoPosition)
  {
    if |tasks| > 0 {
      var rest := ColumnView(tasks[1..], c);
      assert SortedBy(tasks[1..], TodoPosition);
      ColumnViewSorted(tasks[1..], c);
      forall k | 0 <= k < |rest|
        ensures tasks[0].position <= rest[k].position
      {
        assert rest[k] in tasks[1..];
      }
    }
  }

  // ---------------------------------------------------------------------------
  // Loading and creating

  /**
   * `fetchData`: when both fetches succeed, columns and tasks are replaced by
   * copies sorted on `position`; when either fails, nothing changes.
   */
  function Load(b: BoardState, fetched: Option<(seq<Column>, seq<Todo>)>): (r: BoardState)
    ensures fetched.None? ==> r == b
    ensures fetched.Some? ==>
      && SortedBy(r.columns, ColumnPosition)
      && SortedBy(r.tasks, TodoPosition)
      && multiset(r.columns) == multiset(fetched.value.0)
      && multiset(r.tasks) == multiset(fetched.value.1)
      && r.active == b.active
  {
    match fetched
    case None => b
    case Some((cols, todos)) =>
      b.(columns := SortBy(cols, ColumnPosition), tasks := SortBy(todos, TodoPosition))
  }

  /**
   * After a load, every column renders its tasks in position order, and tasks
   * with equal positions keep the order in which the server listed them.
   */
  lemma LoadColumns(b: BoardState, cols: seq<Column>, todos: seq<Todo>, c: Id, p: int)
    ensures SortedBy(ColumnView(Load(b, Some((cols, todos))).tasks, c), TodoPosition)
    ensures WithKey(Load(b, Some((cols, todos))).tasks, TodoPosition, p) == WithKey(todos, TodoPosition, p)
    ensures WithKey(Load(b, Some((cols, todos))).columns, ColumnPosition, p) == WithKey(cols, ColumnPosition, p)
  {
    ColumnViewSorted(Load(b, Some((cols, todos))).tasks, c);
    SortByStable(todos, TodoPosition, p);
    SortByStable(cols, ColumnPosition, p);
  }

  /** The position `handleCreateTask` gives a new task: how many tasks its column holds now. */
  function NewTaskPosition(tasks: seq<Todo>, c: Id): (r: nat)
    ensures r == multiset(MapSeq(TodoColumn, tasks))[c]
  {
    ColumnViewCount(tasks, c);
    |ColumnView(tasks, c)|
  }

  /** The body `handleCreateTask` posts for a dialog submission. */
  function CreateRequest(tasks: seq<Todo>, input: TaskInput): (r: CreateBody)
    ensures r.title == Some(input.title) && r.columnId == Some(input.columnId)
    ensures r.description == Some(input.description)
    ensures r.position.Some? && r.position.value == multiset(MapSeq(TodoColumn, tasks))[input.columnId]
  {
    CreateBody(Some(input.title), Some(input.description), Some(input.columnId),
               Some(NewTaskPosition(tasks, input.columnId)))
  }

  // ---------------------------------------------------------------------------
  // Drag start

  /** `handleDragStart`: the overlay shows the dragged task when the list holds it. */
  function DragStart(b: BoardState, activeId: Id): (r: BoardState)
    ensures r.columns == b.columns && r.tasks == b.tasks
    ensures Contains(b.tasks, activeId) ==>
      && r.active.Some? && r.active.value.id == activeId
      && exists k :: 0 <= k < |b.tasks| && b.tasks[k] == r.active.value
    ensures !Contains(b.tasks, activeId) ==> r.active == b.active
  {
    match Find(b.tasks, activeId)
    case Some(t) => b.(active := Some(t))
    case None => b
  }

  // ---------------------------------------------------------------------------
  // Drag over

  /**
   * The hover over another task: the dragged task first takes the hovered
   * task's column when they differ, then `arrayMove` puts it at the hovered
   * task's index. Every other task keeps its fields and relative order.
   */
  function OverTask(tasks: seq<Todo>, activeId: Id, overId: Id): (r: seq<Todo>)
    requires Contains(tasks, activeId) && Contains(tasks, overId)
    ensures |r| == |tasks|
    ensures Ids(r) == ArrayMove(Ids(tasks), FindIndex(tasks, activeId), FindIndex(tasks, overId))
    ensures var ai, oi := FindIndex(tasks, activeId), FindIndex(tasks, overId);
      && r[oi] == tasks[ai].(columnId := tasks[oi].columnId)
      && RemoveAt(r, oi) == RemoveAt(tasks, ai)
  {
    var ai := FindIndex(tasks, activeId);
    var oi := FindIndex(tasks, overId);
    if tasks[ai].columnId != tasks[oi].columnId then
      var moved := tasks[ai := tasks[ai].(columnId := tasks[oi].columnId)];
      MoveRewritten(tasks, ai, oi, moved[ai]);
      ArrayMove(moved, ai, oi)
    else
      assert tasks[ai := tasks[ai]] == tasks;
      MoveRewritten(tasks, ai, oi, tasks[ai]);
      ArrayMove(tasks, ai, oi)
  }

  /** Rewriting the dragged task, keeping its id, and then moving it. */
  lemma MoveRewritten(tasks: seq<Todo>, ai: nat, oi: nat, t: Todo)
    requires ai < |tasks| && oi < |tasks| && t.id == tasks[ai].id
    ensures var r := ArrayMove(tasks[ai := t], ai, oi);
      && Ids(r) == ArrayMove(Ids(tasks), ai, oi)
      && r[oi] == t
      && RemoveAt(r, oi) == RemoveAt(tasks, ai)
  {
  }

  /**
   * The hover over a column: the dragged task takes the column's id and stays
   * where it is in the list; no other task changes.
   */
  function OverColumn(tasks: seq<Todo>, activeId: Id, columnId: Id): (r: seq<Todo>)
    requires Contains(tasks, activeId)
    ensures |r| == |tasks|
    ensures Ids(r) == Ids(tasks)
    ensures var ai := FindIndex(tasks, activeId);
      && r[ai] == tasks[ai].(columnId := columnId)
      && forall k :: 0 <= k < |tasks| && k != ai ==> r[k] == tasks[k]
  {
    var ai := FindIndex(tasks, activeId);
    if tasks[ai].columnId != columnId then
      var moved := tasks[ai := tasks[ai].(columnId := columnId)];
      ArrayMoveSelf(moved, ai);
      ArrayMove(moved, ai, ai)
    else
      tasks
  }

  /** A drag-over event that reaches one of the two reordering branches. */
  predicate Reorders(active: Item, over: Option<Item>)
  {
    && over.Some?
    && over.value.id != active.id
    && active.kind == TaskKind
    && over.value.kind != Untagged
  }

  /**
   * `handleDragOver`. The ids it looks up must be in the list (the source
   * would read a field of `tasks[-1]` otherwise). It returns the list
   * unchanged when nothing is under the pointer, when the item is over itself
   * or when the dragged item is not a task; otherwise it rearranges the same
   * ids.
   */
  function DragOver(tasks: seq<Todo>, active: Item, over: Option<Item>): (r: seq<Todo>)
    requires Reorders(active, over) ==> Contains(tasks, active.id)
    requires Reorders(active, over) && over.value.kind == TaskKind ==> Contains(tasks, over.value.id)
    ensures over.None? || over.value.id == active.id || active.kind != TaskKind ==> r == tasks
    ensures |r| == |tasks|
    ensures multiset(Ids(r)) == multiset(Ids(tasks))
  {
    if over.None? then tasks
    else if active.id == over.value.id then tasks
    else if active.kind != TaskKind then tasks
    else if over.value.kind == TaskKind then
      OverTask(tasks, active.id, over.value.id)
    else if over.value.kind == ColumnKind then
      OverColumn(tasks, active.id, over.value.id)
    else tasks
  }

  /** Hovering over a column a second time changes nothing more. */
  lemma DragOverColumnIdempotent(tasks: seq<Todo>, active: Item, over: Option<Item>)
    requires over.Some? && over.value.kind == ColumnKind
    requires Reorders(active, over) ==> Contains(tasks, active.id)
    ensures Reorders(active, over) ==> Contains(DragOver(tasks, active, over), active.id)
    ensures DragOver(DragOver(tasks, active, over), active, over) == DragOver(tasks, active, over)
  {
  }

  /** Distinct ids: the table's primary key. */
  predicate DistinctIds(tasks: seq<Todo>)
  {
    forall i, j :: 0 <= i < j < |tasks| ==> tasks[i].id != tasks[j].id
  }

  /** After `arrayMove`, the dragged task is found at its target index. */
  lemma FindMoved(tasks: seq<Todo>, from: nat, to: nat, r: seq<Todo>)
    requires DistinctIds(tasks) && from < |tasks| && to < |tasks|
    requires Ids(r) == ArrayMove(Ids(tasks), from, to)
    ensures FindIndex(r, tasks[from].id) == to
  {
  }

  /** A hover over an adjacent task of the same column swaps the two, and each is then found at the other's index. */
  lemma HoverAdjacentSwaps(tasks: seq<Todo>, active: Item, over: Item)
    requires DistinctIds(tasks)
    requires active.kind == TaskKind && over.kind == TaskKind && active.id != over.id
    requires Contains(tasks, active.id) && Contains(tasks, over.id)
    requires FindIndex(tasks, active.id) + 1 == FindIndex(tasks, over.id)
          || FindIndex(tasks, over.id) + 1 == FindIndex(tasks, active.id)
    requires tasks[FindIndex(tasks, active.id)].columnId == tasks[FindIndex(tasks, over.id)].columnId
    ensures var ai, oi := FindIndex(tasks, active.id), FindIndex(tasks, over.id);
      && DragOver(tasks, active, Some(over)) == ArrayMove(tasks, ai, oi)
      && FindIndex(ArrayMove(tasks, ai, oi), active.id) == oi
      && FindIndex(ArrayMove(tasks, ai, oi), over.id) == ai
  {
    var ai, oi := FindIndex(tasks, active.id), FindIndex(tasks, over.id);
    var once := ArrayMove(tasks, ai, oi);
    MapArrayMove(TodoId, tasks, ai, oi);
    FindMoved(tasks, ai, oi, once);
    IndexOfSwapped(Ids(tasks), ai, oi, over.id);
  }

  /**
   * Hovering over a task is not idempotent: hovering twice over an adjacent
   * task of the same column swaps the two and then swaps them back.
   */
  lemma HoverTaskToggles(tasks: seq<Todo>, active: Item, over: Item)
    requires DistinctIds(tasks)
    requires active.kind == TaskKind && over.kind == TaskKind && active.id != over.id
    requires Contains(tasks, active.id) && Contains(tasks, over.id)
    requires FindIndex(tasks, active.id) + 1 == FindIndex(tasks, over.id)
          || FindIndex(tasks, over.id) + 1 == FindIndex(tasks, active.id)
    requires tasks[FindIndex(tasks, active.id)].columnId == tasks[FindIndex(tasks, over.id)].columnId
    ensures DragOver(tasks, active, Some(over)) != tasks
    ensures Contains(DragOver(tasks, active, Some(over)), active.id)
    ensures Contains(DragOver(tasks, active, Some(over)), over.id)
    ensures DragOver(DragOver(tasks, active, Some(over)), active, Some(over)) == tasks
  {
    var ai, oi := FindIndex(tasks, active.id), FindIndex(tasks, over.id);
    HoverAdjacentSwaps(tasks, active, over);
    var once := ArrayMove(tasks, ai, oi);
    assert once[oi] != tasks[oi];
    ArrayMoveInverse(tasks, ai, oi);
    assert OverTask(once, active.id, over.id) == ArrayMove(once, oi, ai);
  }

  // ---------------------------------------------------------------------------
  // Drag end

  /** The one `updateTodo` call a drop can issue. */
  function DropUpdate(id: Id, columnId: Id, position: int): Update
  {
    Update(id, Fields(None, None, Some(columnId), Some(position)))
  }

  /** The drops that persist something. */
  predicate Persists(tasks: seq<Todo>, activeId: Id, over: Option<Item>)
  {
    && over.Some?
    && Contains(tasks, activeId)
    && match over.value.kind
       case ColumnKind => tasks[FindIndex(tasks, activeId)].columnId != over.value.id
       case TaskKind => Contains(tasks, over.value.id)
       case Untagged => false
  }

  /**
   * `handleDragEnd`: clears the overlay first, whatever happens; then issues
   * at most one update. The update carries the target column and, as
   * `position`, the task's index in the whole flat list.
   */
  function DragEnd(b: BoardState, activeId: Id, over: Option<Item>): (r: (BoardState, Option<Update>))
    ensures r.0 == b.(active := None)
    ensures r.1.Some? <==> Persists(b.tasks, activeId, over)
    ensures r.1.Some? ==>
      var u, p := r.1.value, r.1.value.fields.position;
      && u.id == activeId
      && u.fields.title.None? && u.fields.description.None?
      && p.Some? && 0 <= p.value < |b.tasks|
      && b.tasks[p.value].id == activeId
      && (forall j :: 0 <= j < p.value ==> b.tasks[j].id != activeId)
    ensures r.1.Some? && over.value.kind == ColumnKind ==>
      r.1.value.fields.columnId == Some(over.value.id)
    ensures r.1.Some? && over.value.kind == TaskKind ==>
      r.1.value.fields.columnId == Some(b.tasks[FindIndex(b.tasks, over.value.id)].columnId)
  {
    var cleared := b.(active := None);
    if over.None? then (cleared, None)
    else
      match Find(b.tasks, activeId)
      case None => (cleared, None)
      case Some(t) =>
        var position := FindIndex(b.tasks, activeId);
        match over.value.kind
        case ColumnKind =>
          if t.columnId != over.value.id then (cleared, Some(DropUpdate(t.id, over.value.id, position)))
          else (cleared, None)
        case TaskKind =>
          (match Find(b.tasks, over.value.id)
           case Some(o) => (cleared, Some(DropUpdate(t.id, o.columnId, position)))
           case None => (cleared, None))
        case Untagged => (cleared, None)
  }

  /**
   * The persisted `position` is the task's index in the whole flat list, not
   * its place in the column the update names: it equals the number of that
   * column's tasks ahead of it only when every earlier task already sits in
   * that column. On a column drop the task is not among the tasks the
   * destination shows at all.
   */
  lemma DropPositionIsFlatIndex(b: BoardState, activeId: Id, over: Option<Item>)
    requires DragEnd(b, activeId, over).1.Some?
    ensures var u := DragEnd(b, activeId, over).1.value;
      var p, c := u.fields.position.value, u.fields.columnId.value;
      && p == FindIndex(b.tasks, activeId)
      && |ColumnView(b.tasks[..p], c)| <= p
      && (|ColumnView(b.tasks[..p], c)| == p <==> forall j :: 0 <= j < p ==> b.tasks[j].columnId == c)
      && (over.value.kind == ColumnKind ==> b.tasks[p] !in ColumnView(b.tasks, c))
  {
    var u := DragEnd(b, activeId, over).1.value;
    var p, c := u.fields.position.value, u.fields.columnId.value;
    ColumnPrefixCount(b.tasks, p, c);
  }

  /**
   * The column the dragged task had when the drag started. The overlay holds
   * the task as it was then; without it, the task's current column.
   */
  function StartColumn(b: BoardState, t: Todo): (r: Id)
    ensures b.active.Some? && b.active.value.id == t.id ==> r == b.active.value.columnId
    ensures b.active.None? ==> r == t.columnId
  {
    if b.active.Some? && b.active.value.id == t.id then b.active.value.columnId else t.columnId
  }

  /** The drops the corrected handler persists: a column drop counts when the column differs from the drag-start column. */
  predicate PersistsIntended(b: BoardState, activeId: Id, over: Option<Item>)
  {
    && over.Some?
    && Contains(b.tasks, activeId)
    && match over.value.kind
       case ColumnKind => StartColumn(b, b.tasks[FindIndex(b.tasks, activeId)]) != over.value.id
       case TaskKind => Contains(b.tasks, over.value.id)
       case Untagged => false
  }

  /**
   * `handleDragEnd` as evidently intended. By the time of a column drop the
   * drag-over has already given the task the column's id, so the code's
   * comparison with the task's current column never fires after a hover.
   * This version compares with the column the task had when the drag
   * started. It agrees with `DragEnd` on every other drop, and on any drop
   * whose task still sits in its drag-start column.
   */
  function DragEndIntended(b: BoardState, activeId: Id, over: Option<Item>): (r: (BoardState, Option<Update>))
    ensures r.0 == b.(active := None)
    ensures r.1.Some? <==> PersistsIntended(b, activeId, over)
    ensures r.1.Some? ==>
      var u, p := r.1.value, r.1.value.fields.position;
      && u.id == activeId
      && u.fields.title.None? && u.fields.description.None?
      && p == Some(FindIndex(b.tasks, activeId))
    ensures r.1.Some? && over.value.kind == ColumnKind ==>
      r.1.value.fields.columnId == Some(over.value.id)
    ensures over.Some? && over.value.kind != ColumnKind ==> r == DragEnd(b, activeId, over)
    ensures Contains(b.tasks, activeId) && StartColumn(b, b.tasks[FindIndex(b.tasks, activeId)]) == b.tasks[FindIndex(b.tasks, activeId)].columnId ==>
      r == DragEnd(b, activeId, over)
  {
    if over.Some? && over.value.kind == ColumnKind && Contains(b.tasks, activeId) then
      var ai := FindIndex(b.tasks, activeId);
      if StartColumn(b, b.tasks[ai]) != over.value.id then
        (b.(active := None), Some(DropUpdate(activeId, over.value.id, ai)))
      else (b.(active := None), None)
    else DragEnd(b, activeId, over)
  }

  // ---------------------------------------------------------------------------
  // A whole gesture

  /** The board after a drag-start and one drag-over event. */
  function Hovered(b: BoardState, active: Item, over: Option<Item>): (r: BoardState)
    requires Reorders(active, over) ==> Contains(b.tasks, active.id)
    requires Reorders(active, over) && over.value.kind == TaskKind ==> Contains(b.tasks, over.value.id)
    ensures r.columns == b.columns
    ensures r.active == (if Contains(b.tasks, active.id) then Find(b.tasks, active.id) else b.active)
    ensures multiset(Ids(r.tasks)) == multiset(Ids(b.tasks))
  {
    var started := DragStart(b, active.id);
    started.(tasks := DragOver(started.tasks, active, over))
  }

  /**
   * A drop on the background of the column just hovered sends nothing: the
   * hover has already rewritten the task's column, so the drop on that same
   * column finds nothing to change, although the board now shows the task in
   * the new column.
   */
  lemma ColumnDropAfterHoverIsLost(b: BoardState, active: Item, c: Id)
    requires active.kind == TaskKind && active.id != c
    requires Contains(b.tasks, active.id)
    ensures var over := Some(Item(c, ColumnKind));
      var h := Hovered(b, active, over);
      var ai := FindIndex(b.tasks, active.id);
      && FindIndex(h.tasks, active.id) == ai
      && h.tasks[ai] == b.tasks[ai].(columnId := c)
      && DragEnd(h, active.id, over).1.None?
  {
    var over := Some(Item(c, ColumnKind));
    var h := Hovered(b, active, over);
    FindIndexByIds(h.tasks, b.tasks, active.id);
  }

  /**
   * With the corrected drop, the same gesture persists the move exactly when
   * the column differs from the one the task started in.
   */
  lemma ColumnDropAfterHoverPersists(b: BoardState, active: Item, c: Id)
    requires active.kind == TaskKind && active.id != c
    requires Contains(b.tasks, active.id)
    ensures var over := Some(Item(c, ColumnKind));
      var ai := FindIndex(b.tasks, active.id);
      DragEndIntended(Hovered(b, active, over), active.id, over).1
        == if b.tasks[ai].columnId != c then Some(DropUpdate(active.id, c, ai)) else None
  {
    var over := Some(Item(c, ColumnKind));
    var h := Hovered(b, active, over);
    FindIndexByIds(h.tasks, b.tasks, active.id);
  }

  /** With distinct ids, a hover over a task leaves the hovered task's record as it was, now found elsewhere. */
  lemma OverTaskKeepsHovered(tasks: seq<Todo>, activeId: Id, overId: Id)
    requires DistinctIds(tasks) && activeId != overId
    requires Contains(tasks, activeId) && Contains(tasks, overId)
    ensures var r := OverTask(tasks, activeId, overId);
      && Contains(r, overId)
      && r[FindIndex(r, overId)] == tasks[FindIndex(tasks, overId)]
  {
    var ai, oi := FindIndex(tasks, activeId), FindIndex(tasks, overId);
    var r := OverTask(tasks, activeId, overId);
    assert overId in Ids(r) by {
      assert multiset(Ids(r)) == multiset(Ids(tasks));
      assert overId in multiset(Ids(tasks));
    }
    var k := FindIndex(r, overId);
    var j := RemainderKept(tasks, r, ai, oi, k);
    assert tasks[j].id == overId;
  }

  /**
   * A hover over task `o` followed by a drop on `o` persists the dragged
   * task at `o`'s former index, in `o`'s column.
   */
  lemma TaskDropAfterHover(b: BoardState, active: Item, o: Item)
    requires DistinctIds(b.tasks)
    requires active.kind == TaskKind && o.kind == TaskKind && active.id != o.id
    requires Contains(b.tasks, active.id) && Contains(b.tasks, o.id)
    ensures var oi := FindIndex(b.tasks, o.id);
      && DragEnd(Hovered(b, active, Some(o)), active.id, Some(o)).1
           == Some(DropUpdate(active.id, b.tasks[oi].columnId, oi))
      && DragEndIntended(Hovered(b, active, Some(o)), active.id, Some(o))
           == DragEnd(Hovered(b, active, Some(o)), active.id, Some(o))
  {
    var ai, oi := FindIndex(b.tasks, active.id), FindIndex(b.tasks, o.id);
    var h := Hovered(b, active, Some(o));
    assert h.tasks == OverTask(b.tasks, active.id, o.id);
    FindMoved(b.tasks, ai, oi, h.tasks);
    OverTaskKeepsHovered(b.tasks, active.id, o.id);
    DropOnFoundTask(h, active.id, o);
  }

  /** A drop on a found task sends the dragged task's first index and the hovered task's column. */
  lemma DropOnFoundTask(b: BoardState, activeId: Id, o: Item)
    requires o.kind == TaskKind
    requires Contains(b.tasks, activeId) && Contains(b.tasks, o.id)
    ensures DragEnd(b, activeId, Some(o)).1
         == Some(DropUpdate(activeId, b.tasks[FindIndex(b.tasks, o.id)].columnId, FindIndex(b.tasks, activeId)))
  {
  }
}
