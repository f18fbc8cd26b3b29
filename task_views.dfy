/**
  The view transitions of task/views.py that change stored tasks. The task
  table is a `TaskStore` holding the task objects; a view looks its task up
  among the requesting user's tasks (a failed lookup is a 404), validates the
  posted form, then changes and saves the task. Request parsing, messages,
  redirects and rendering are not modelled.
 */
module TaskViews {
  import opened Wrappers
  import opened TaskModels
  import opened TaskForms

  /** What a view did. */
  datatype Outcome =
    | NotFound                 // no such task among the user's (404)
    | InvalidStatus            // the posted status is not a STATUS_CHOICES key
    | FormInvalid(error: FormError)
    | Saved
    | Deleted

  /** The stored rows of a sequence of task objects. */
  function Rows(ts: seq<Task>): (r: seq<TaskRow>)
    reads ts
    ensures |r| == |ts|
    ensures forall i :: 0 <= i < |ts| ==> r[i] == ts[i].Row()
  {
    if ts == [] then [] else [ts[0].Row()] + Rows(ts[1..])
  }

  /**
    With the same accepted form, `mark_as_not_done` keeps a stored custom
    reason that the form leaves empty, while `add_missed_reason` clears it.
   */
  lemma ReasonUpdatesDiffer(t: TaskRow, reason: MissedTaskReason, now: int)
    requires t.customMissedReason != ""
    ensures t.MarkedNotDone(Some(reason), "", now).customMissedReason == t.customMissedReason
    ensures t.WithReasons(Some(reason), "", now).customMissedReason == ""
    ensures t.MarkedNotDone(Some(reason), "", now).HasMissedReason() && t.WithReasons(Some(reason), "", now).HasMissedReason()
  {
  }

  /** Rows of a table where only the task at position `i` was changed, to `row`. */
  lemma RowsAfterUpdate(ts: seq<Task>, before: seq<TaskRow>, i: nat, row: TaskRow)
    requires |before| == |ts| && i < |ts| && ts[i].Row() == row
    requires forall j :: 0 <= j < |ts| && j != i ==> ts[j].Row() == before[j]
    ensures Rows(ts) == before[i := row]
  {
  }

  class TaskStore {
    var tasks: seq<Task>

    /** Task ids are primary keys: no two stored tasks share one. */
    ghost predicate Valid()
      reads this
    {
      forall i, j :: 0 <= i < j < |tasks| ==> tasks[i].id != tasks[j].id
    }

    /** The table as a query sees it. */
    function Table(): seq<TaskRow>
      reads this, tasks
    {
      Rows(tasks)
    }

    constructor ()
      ensures Valid() && tasks == []
    {
      tasks := [];
    }

    /** `get_object_or_404(Task, id=taskId, user=userId)`: the position of that task, if stored. */
    function Find(taskId: nat, userId: nat): (r: Option<nat>)
      reads this
      ensures r.Some? ==> r.value < |tasks| && tasks[r.value].id == taskId && tasks[r.value].owner == userId
      ensures r.None? ==> forall i :: 0 <= i < |tasks| ==> tasks[i].id != taskId || tasks[i].owner != userId
    {
      FindFrom(taskId, userId, 0)
    }

    function FindFrom(taskId: nat, userId: nat, k: nat): (r: Option<nat>)
      reads this
      requires k <= |tasks|
      ensures r.Some? ==> k <= r.value < |tasks| && tasks[r.value].id == taskId && tasks[r.value].owner == userId
      ensures r.None? ==> forall i :: k <= i < |tasks| ==> tasks[i].id != taskId || tasks[i].owner != userId
      decreases |tasks| - k
    {
      if k == |tasks| then None
      else if tasks[k].id == taskId && tasks[k].owner == userId then Some(k)
      else FindFrom(taskId, userId, k + 1)
    }

    /**
      `update_task_status`: a posted value that is one of the four status keys
      becomes the task's status, with no restriction on the transition; any
      other value changes nothing.
     */
    method UpdateTaskStatus(taskId: nat, userId: nat, posted: string, now: int) returns (o: Outcome)
      requires Valid()
      modifies tasks
      ensures Valid()
      ensures Find(taskId, userId).None? ==> o == NotFound && Table() == old(Table())
      ensures Find(taskId, userId).Some? && ParseStatus(posted).None? ==>
                o == InvalidStatus && Table() == old(Table())
      ensures Find(taskId, userId).Some? && ParseStatus(posted).Some? ==>
                var at := Find(taskId, userId).value;
                o == Saved && Table() == old(Table())[at := old(Table())[at].WithStatus(ParseStatus(posted).value, now)]
    {
      var found := Find(taskId, userId);
      if found.None? {
        return NotFound;
      }
      var i := found.value;
      var parsed := ParseStatus(posted);
      if parsed.None? {
        return InvalidStatus;
      }
      ghost var before := Table();
      var t := tasks[i];
      t.status := parsed.value;
      t.updatedAt := now;
      forall j | 0 <= j < |tasks| && j != i ensures tasks[j].Row() == before[j] {
        assert tasks[j].id != tasks[i].id;
      }
      RowsAfterUpdate(tasks, before, i, before[i].WithStatus(parsed.value, now));
      o := Saved;
    }

    /**
      `mark_task_not_done`: an accepted `MarkAsNotDoneForm` marks the task not
      done through `Task.mark_as_not_done`.
     */
    method MarkTaskNotDone(taskId: nat, userId: nat, catalog: seq<MissedTaskReason>,
                           reasonId: Option<nat>, customReason: string, now: int) returns (o: Outcome)
      requires Valid()
      modifies tasks
      ensures Valid()
      ensures Find(taskId, userId).None? ==> o == NotFound && Table() == old(Table())
      ensures Find(taskId, userId).Some? ==>
                match CleanMarkAsNotDone(catalog, reasonId, customReason)
                case Err(e) => o == FormInvalid(e) && Table() == old(Table())
                case Ok(c) =>
                  var at := Find(taskId, userId).value;
                  o == Saved &&
                  Table() == old(Table())[at := old(Table())[at].MarkedNotDone(c.reason, c.customReason, now)]
    {
      var found := Find(taskId, userId);
      if found.None? {
        return NotFound;
      }
      var i := found.value;
      var form := CleanMarkAsNotDone(catalog, reasonId, customReason);
      if form.Err? {
        return FormInvalid(form.error);
      }
      ghost var before := Table();
      tasks[i].MarkAsNotDone(form.value.reason, form.value.customReason, now);
      forall j | 0 <= j < |tasks| && j != i ensures tasks[j].Row() == before[j] {
        assert tasks[j].id != tasks[i].id;
      }
      RowsAfterUpdate(tasks, before, i, before[i].MarkedNotDone(form.value.reason, form.value.customReason, now));
      o := Saved;
    }

    /**
      `add_missed_reason`: only for a task of the user that is not done; an
      accepted form replaces both reason fields, empty ones included.
     */
    method AddMissedReason(taskId: nat, userId: nat, catalog: seq<MissedTaskReason>,
                           reasonId: Option<nat>, customReason: string, now: int) returns (o: Outcome)
      requires Valid()
      modifies tasks
      ensures Valid()
      ensures (Find(taskId, userId).None? || old(tasks[Find(taskId, userId).value].status) != NotDone) ==>
                o == NotFound && Table() == old(Table())
      ensures Find(taskId, userId).Some? && old(tasks[Find(taskId, userId).value].status) == NotDone ==>
                match CleanMarkAsNotDone(catalog, reasonId, customReason)
                case Err(e) => o == FormInvalid(e) && Table() == old(Table())
                case Ok(c) =>
                  var at := Find(taskId, userId).value;
                  o == Saved && Table()[at].HasMissedReason() &&
                  Table() == old(Table())[at := old(Table())[at].WithReasons(c.reason, c.customReason, now)]
    {
      var found := Find(taskId, userId);
      if found.None? || tasks[found.value].status != NotDone {
        return NotFound;
      }
      var i := found.value;
      var form := CleanMarkAsNotDone(catalog, reasonId, customReason);
      if form.Err? {
        return FormInvalid(form.error);
      }
      ghost var before := Table();
      var t := tasks[i];
      t.missedReason := form.value.reason;
      t.customMissedReason := form.value.customReason;
      t.updatedAt := now;
      forall j | 0 <= j < |tasks| && j != i ensures tasks[j].Row() == before[j] {
        assert tasks[j].id != tasks[i].id;
      }
      RowsAfterUpdate(tasks, before, i, before[i].WithReasons(form.value.reason, form.value.customReason, now));
      o := Saved;
    }

    /**
      `create_task`: an accepted `TaskForm` creates a task of the user. The
      form has no status field, so the new task is pending. `newId` is the
      primary key the database assigns.
     */
    method CreateTask(userId: nat, data: TaskFormData, newId: nat, now: int) returns (o: Outcome)
      requires Valid()
      requires forall i :: 0 <= i < |tasks| ==> tasks[i].id != newId
      modifies this
      ensures Valid()
      ensures match ValidateTaskForm(data, now)
              case Err(e) => o == FormInvalid(e) && tasks == old(tasks)
              case Ok(f) =>
                o == Saved && |tasks| == |old(tasks)| + 1 && tasks[..|old(tasks)|] == old(tasks) &&
                fresh(tasks[|old(tasks)|]) &&
                tasks[|old(tasks)|].Row() ==
                  TaskRow(newId, userId, f.title, f.description, f.startTime, f.endTime, Pending,
                          f.reminderMinutes, None, "", None, now, now)
    {
      var form := ValidateTaskForm(data, now);
      if form.Err? {
        return FormInvalid(form.error);
      }
      var f := form.value;
      var t := new Task(newId, userId, f.title, f.description, f.startTime, f.endTime,
                        Some(f.reminderMinutes), now);
      tasks := tasks + [t];
      o := Saved;
    }

    /**
      `edit_task`: an accepted `TaskForm` replaces the five form fields of the
      user's task; status and reasons stay as they were.
     */
    method EditTask(taskId: nat, userId: nat, data: TaskFormData, now: int) returns (o: Outcome)
      requires Valid()
      modifies tasks
      ensures Valid()
      ensures Find(taskId, userId).None? ==> o == NotFound && Table() == old(Table())
      ensures Find(taskId, userId).Some? && ValidateTaskForm(data, now).Err? ==>
                o == FormInvalid(ValidateTaskForm(data, now).error) && Table() == old(Table())
      ensures Find(taskId, userId).Some? && ValidateTaskForm(data, now).Ok? ==>
                var at, f := Find(taskId, userId).value, ValidateTaskForm(data, now).value;
                o == Saved &&
                Table() == old(Table())[at := old(Table())[at].WithFormFields(
                  f.title, f.description, f.startTime, f.endTime, f.reminderMinutes, now)]
    {
      var found := Find(taskId, userId);
      if found.None? {
        return NotFound;
      }
      var i := found.value;
      var form := ValidateTaskForm(data, now);
      if form.Err? {
        return FormInvalid(form.error);
      }
      ghost var before := Table();
      var f := form.value;
      tasks[i].ApplyForm(f.title, f.description, f.startTime, f.endTime, f.reminderMinutes, now);
      ghost var edited := before[i].WithFormFields(f.title, f.description, f.startTime, f.endTime, f.reminderMinutes, now);
      forall j | 0 <= j < |tasks| && j != i ensures tasks[j].Row() == before[j] {
        assert tasks[j].id != tasks[i].id;
      }
      RowsAfterUpdate(tasks, before, i, edited);
      o := Saved;
    }

    /** `delete_task`: removes the user's task from the table. */
    method DeleteTask(taskId: nat, userId: nat) returns (o: Outcome)
      requires Valid()
      modifies this
      ensures Valid()
      ensures old(Find(taskId, userId)).None? ==> o == NotFound && tasks == old(tasks)
      ensures old(Find(taskId, userId)).Some? ==>
                var i := old(Find(taskId, userId)).value;
                o == Deleted && tasks == old(tasks[..i] + tasks[i + 1..])
    {
      var found := Find(taskId, userId);
      if found.None? {
        return NotFound;
      }
      var i := found.value;
      tasks := tasks[..i] + tasks[i + 1..];
      o := Deleted;
    }
  }
}
