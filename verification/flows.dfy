/**
 * How the client's requests meet the server's handlers: what the dialog
 * submits always passes the create validation, and a drop's update moves a
 * task without touching its title or description.
 */
module Flows {
  import opened Wrappers
  import opened Types
  import Board
  import Server
  import TaskDialog

  /**
   * A submission that gets past the dialog's guard is never refused with a
   * 400 by the create handler, and a created task's position is the number
   * of tasks the board shows in its column.
   */
  lemma SubmittedCreateIsValid(d: TaskDialog.Dialog, settled: TaskDialog.Settled,
                               tasks: seq<Todo>, s: Server.Store, newId: Id, now: Stamp)
    requires TaskDialog.Submit(d, settled).1.Some?
    ensures var input := TaskDialog.Submit(d, settled).1.value;
      var r := Server.Create(s, Board.CreateRequest(tasks, input), newId, now);
      && !r.reply.BadRequest?
      && (r.reply.Created? ==>
            && r.reply.task.columnId == d.columnId
            && r.reply.task.title == d.title
            && r.reply.task.position == |Board.ColumnView(tasks, d.columnId)|)
  {
  }

  /**
   * The update a drop sends rewrites only the task's column and position:
   * when the server accepts it, title, description and creation time stay.
   */
  lemma DropPatchMovesOnly(b: Board.BoardState, activeId: Id, over: Option<Board.Item>,
                           s: Server.Store, now: Stamp)
    requires Server.Valid(s)
    requires Board.DragEndIntended(b, activeId, over).1.Some?
    ensures var u := Board.DragEndIntended(b, activeId, over).1.value;
      var r := Server.Patch(s, u.id, u.fields, now);
      r.reply.Updated? ==>
        && u.id in s.todos
        && r.reply.task.id == activeId
        && r.reply.task.title == s.todos[u.id].title
        && r.reply.task.description == s.todos[u.id].description
        && r.reply.task.createdAt == s.todos[u.id].createdAt
        && r.reply.task.columnId == u.fields.columnId.value
        && r.reply.task.position == u.fields.position.value
        && r.reply.task.position < |b.tasks|
  {
  }
}
