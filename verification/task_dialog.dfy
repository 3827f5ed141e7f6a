/**
 * The task dialog: the defaults its fields take when it opens, and the
 * guard and outcome of a submit.
 */
module TaskDialog {
  import opened Wrappers
  import opened Types

  /** The dialog's local state; `open` mirrors the parent's `isDialogOpen`. */
  datatype Dialog = Dialog(open: bool, title: string, description: string, columnId: Id, loading: bool)

  /** How the awaited `onSubmit` promise settles. */
  datatype Settled = Resolved | Rejected

  /** `a || b` on an optional string: `a` unless it is missing or empty. */
  function Or(a: Option<string>, b: string): (r: string)
    ensures Truthy(a) ==> r == a.value
    ensures !Truthy(a) ==> r == b
  {
    if Truthy(a) then a.value else b
  }

  /** `initialData?.columnId || defaultColumnId || columns[0]?.id || ""`. */
  function DefaultColumn(initial: Option<Todo>, defaultColumnId: Option<Id>, columns: seq<Column>): Id
  {
    var fromTask := if initial.Some? then Some(initial.value.columnId) else None;
    var first := if |columns| > 0 then Some(columns[0].id) else None;
    Or(fromTask, Or(defaultColumnId, Or(first, "")))
  }

  /**
   * The effect run when the dialog opens: the fields take the initial task's
   * values, empty strings when there is none, and the column falls back from
   * the task's column to the default column to the first column to "".
   * While the dialog is closed the effect does nothing.
   */
  function OnOpen(d: Dialog, initial: Option<Todo>, defaultColumnId: Option<Id>, columns: seq<Column>): (r: Dialog)
    ensures !d.open ==> r == d
    ensures r.open == d.open && r.loading == d.loading
    ensures d.open && initial.None? ==> r.title == "" && r.description == ""
    ensures d.open && initial.Some? ==> r.title == initial.value.title
    ensures d.open && initial.Some? && initial.value.description.Some? ==>
      r.description == initial.value.description.value
    ensures d.open && initial.Some? && initial.value.description.None? ==> r.description == ""
    ensures d.open && initial.Some? && initial.value.columnId != "" ==>
      r.columnId == initial.value.columnId
    ensures d.open && (initial.None? || initial.value.columnId == "") && Truthy(defaultColumnId) ==>
      r.columnId == defaultColumnId.value
    ensures d.open && (initial.None? || initial.value.columnId == "") && !Truthy(defaultColumnId) ==>
      r.columnId == (if |columns| > 0 then columns[0].id else "")
  {
    if !d.open then d
    else
      var title := if initial.Some? then Some(initial.value.title) else None;
      var description := if initial.Some? then initial.value.description else None;
      d.(title := Or(title, ""),
         description := Or(description, ""),
         columnId := DefaultColumn(initial, defaultColumnId, columns))
  }

  /** The column chosen on open is one of the candidates, and "" only when none of them is usable. */
  lemma DefaultColumnChoice(initial: Option<Todo>, defaultColumnId: Option<Id>, columns: seq<Column>)
    ensures var c := DefaultColumn(initial, defaultColumnId, columns);
      && (c == "" <==>
            && (initial.None? || initial.value.columnId == "")
            && !Truthy(defaultColumnId)
            && (|columns| == 0 || columns[0].id == ""))
      && (c == "" || (initial.Some? && c == initial.value.columnId)
                  || (defaultColumnId.Some? && c == defaultColumnId.value)
                  || (|columns| > 0 && c == columns[0].id))
  {
  }

  /**
   * `handleSubmit`: with an empty title or column nothing happens and nothing
   * is submitted. Otherwise the fields are handed to `onSubmit`; the dialog
   * closes if that resolves and stays as it was if it rejects, and loading
   * ends false either way.
   */
  function Submit(d: Dialog, settled: Settled): (r: (Dialog, Option<TaskInput>))
    ensures d.title == "" || d.columnId == "" <==> r.1.None?
    ensures r.1.None? ==> r.0 == d
    ensures r.1.Some? ==>
      && r.1.value == TaskInput(d.title, d.description, d.columnId)
      && !r.0.loading
      && r.0.title == d.title && r.0.description == d.description && r.0.columnId == d.columnId
      && (settled == Resolved ==> !r.0.open)
      && (settled == Rejected ==> r.0.open == d.open)
  {
    if d.title == "" || d.columnId == "" then (d, None)
    else
      var submitted := TaskInput(d.title, d.description, d.columnId);
      var closed := if settled == Resolved then false else d.open;
      (d.(open := closed, loading := false), Some(submitted))
  }
}
