/**
  The task record (task/models.py): its status choices, the shared catalog of
  missed-task reasons, and the `Task` object with its derived properties and
  the `mark_as_not_done` transition.

  Datetimes are integers (seconds); `now` is always passed in.
 */
module TaskModels {
  import opened Wrappers

  /** Seconds in a day; `DateOf` truncates a timestamp to its day number. */
  const SecondsPerDay: int := 86400

  function DateOf(t: int): (d: int)
    ensures d * SecondsPerDay <= t < (d + 1) * SecondsPerDay
  {
    t / SecondsPerDay
  }

  /** The four STATUS_CHOICES of a task. */
  datatype Status = Pending | InProgress | Completed | NotDone

  /** The key under which each choice is stored and posted. */
  function StatusKey(s: Status): string {
    match s
    case Pending => "pending"
    case InProgress => "in_progress"
    case Completed => "completed"
    case NotDone => "not_done"
  }

  /** Membership of a posted value in `dict(STATUS_CHOICES)`. */
  function ParseStatus(key: string): (r: Option<Status>)
    ensures r.Some? ==> StatusKey(r.value) == key
    ensures r.None? ==> forall s: Status :: StatusKey(s) != key
  {
    if key == "pending" then Some(Pending)
    else if key == "in_progress" then Some(InProgress)
    else if key == "completed" then Some(Completed)
    else if key == "not_done" then Some(NotDone)
    else None
  }

  lemma ParseStatusKey(s: Status)
    ensures ParseStatus(StatusKey(s)) == Some(s)
  {
  }

  const DefaultStatus: Status := Pending
  const DefaultReminderMinutes: int := 10
  const NoReasonText: string := "No reason provided"

  /** An entry of the shared catalog of reasons for missing a task. */
  datatype MissedTaskReason = MissedTaskReason(id: nat, name: string, description: string, isActive: bool)

  /**
    The stored values of one task, as a query reads them. The derived
    properties of a task are defined here, once.
   */
  datatype TaskRow = TaskRow(
    id: nat, owner: nat, title: string, description: string,
    startTime: int, endTime: int, status: Status, reminderMinutes: int,
    missedReason: Option<MissedTaskReason>, customMissedReason: string,
    missedAt: Option<int>, createdAt: int, updatedAt: int)
  {
    /** The task's deadline has passed and it was not completed. */
    predicate IsOverdue(now: int) {
      endTime < now && status != Completed
    }

    /** A catalog reason is set or the custom reason is not empty. */
    predicate HasMissedReason() {
      missedReason.Some? || customMissedReason != ""
    }

    /**
      The text shown for the missed reason: the custom reason takes precedence
      over the catalog reason, and a fixed text stands in for neither.
     */
    function MissedReasonDisplay(): (r: string)
      ensures HasMissedReason() ==>
                (r == customMissedReason != "") || (missedReason.Some? && r == missedReason.value.name)
      ensures !HasMissedReason() ==> r == NoReasonText
      ensures customMissedReason != "" ==> r == customMissedReason
    {
      if customMissedReason != "" then customMissedReason
      else if missedReason.Some? then missedReason.value.name
      else NoReasonText
    }

    /** Identity, owner, title, description, times, reminder and creation stamp agree. */
    predicate SameContent(other: TaskRow) {
      id == other.id && owner == other.owner && title == other.title &&
      description == other.description && startTime == other.startTime &&
      endTime == other.endTime && reminderMinutes == other.reminderMinutes &&
      createdAt == other.createdAt
    }

    /**
      The row `mark_as_not_done` saves: status not done and `missedAt` stamped
      whatever the prior status, each reason replaced only by a non-empty one.
     */
    function MarkedNotDone(reason: Option<MissedTaskReason>, customReason: string, now: int): (r: TaskRow)
      ensures r.status == NotDone && r.missedAt == Some(now) && r.updatedAt == now
      ensures r.SameContent(this)
      ensures reason.None? ==> r.missedReason == missedReason
      ensures customReason == "" ==> r.customMissedReason == customMissedReason
      ensures reason.Some? ==> r.missedReason == reason
      ensures customReason != "" ==> r.customMissedReason == customReason
      ensures r.HasMissedReason() <==> reason.Some? || customReason != "" || HasMissedReason()
      ensures endTime < now ==> r.IsOverdue(now)
    {
      this.(status := NotDone, missedAt := Some(now), updatedAt := now,
            missedReason := if reason.Some? then reason else missedReason,
            customMissedReason := if customReason != "" then customReason else customMissedReason)
    }

    /** The row `update_task_status` saves: the new status, reasons and `missedAt` untouched. */
    function WithStatus(s: Status, now: int): (r: TaskRow)
      ensures r.status == s && r.updatedAt == now && r.SameContent(this)
      ensures r.missedReason == missedReason && r.customMissedReason == customMissedReason
      ensures r.missedAt == missedAt
    {
      this.(status := s, updatedAt := now)
    }

    /**
      The row `add_missed_reason` saves: both reason fields replaced by the
      given values, empty ones included; status and `missedAt` untouched.
     */
    function WithReasons(reason: Option<MissedTaskReason>, customReason: string, now: int): (r: TaskRow)
      ensures r.missedReason == reason && r.customMissedReason == customReason
      ensures r.status == status && r.missedAt == missedAt && r.updatedAt == now && r.SameContent(this)
      ensures r.HasMissedReason() <==> reason.Some? || customReason != ""
    {
      this.(missedReason := reason, customMissedReason := customReason, updatedAt := now)
    }

    /** The row an accepted task form saves over this one: its five fields replaced. */
    function WithFormFields(title: string, description: string, startTime: int, endTime: int,
                            reminderMinutes: int, now: int): (r: TaskRow)
      ensures r.title == title && r.description == description && r.startTime == startTime
      ensures r.endTime == endTime && r.reminderMinutes == reminderMinutes && r.updatedAt == now
      ensures r.id == id && r.owner == owner && r.status == status && r.createdAt == createdAt
      ensures r.missedReason == missedReason && r.customMissedReason == customMissedReason
      ensures r.missedAt == missedAt
    {
      this.(title := title, description := description, startTime := startTime,
            endTime := endTime, reminderMinutes := reminderMinutes, updatedAt := now)
    }
  }

  /** Marking a task not done twice with the same reasons stores the same row as once, up to the stamps. */
  lemma MarkedNotDoneIdempotent(t: TaskRow, reason: Option<MissedTaskReason>, customReason: string, now: int, later: int)
    ensures t.MarkedNotDone(reason, customReason, now).MarkedNotDone(reason, customReason, later) ==
            t.MarkedNotDone(reason, customReason, later)
  {
  }

  /** Completed tasks are never overdue; any other task is overdue exactly once its end has passed. */
  lemma OverdueByStatus(t: TaskRow, now: int)
    ensures t.status == Completed ==> !t.IsOverdue(now)
    ensures t.status != Completed ==> (t.IsOverdue(now) <==> t.endTime < now)
  {
  }

  /** Once overdue, a task stays overdue as time passes while its status is unchanged. */
  lemma OverdueStaysOverdue(t: TaskRow, now: int, later: int)
    requires now <= later
    ensures t.IsOverdue(now) ==> t.IsOverdue(later)
  {
  }

  /**
    A task object: the instance the views load, change and save. `id` and
    `owner` never change once the task exists; `Row()` is what a save stores.
   */
  class Task {
    const id: nat
    const owner: nat
    var title: string
    var description: string
    var startTime: int
    var endTime: int
    var status: Status
    var reminderMinutes: int
    var missedReason: Option<MissedTaskReason>
    var customMissedReason: string
    var missedAt: Option<int>
    var createdAt: int
    var updatedAt: int

    function Row(): (r: TaskRow)
      reads this
      ensures r.id == id && r.owner == owner
    {
      TaskRow(id, owner, title, description, startTime, endTime, status, reminderMinutes,
              missedReason, customMissedReason, missedAt, createdAt, updatedAt)
    }

    /** A new task: every field the caller does not give takes its declared default. */
    constructor (id: nat, owner: nat, title: string, description: string,
                 startTime: int, endTime: int, reminderMinutes: Option<int>, now: int)
      ensures Row() == TaskRow(id, owner, title, description, startTime, endTime, Pending,
                               reminderMinutes.GetOr(DefaultReminderMinutes), None, "", None, now, now)
      ensures !Row().HasMissedReason()
    {
      this.id := id;
      this.owner := owner;
      this.title := title;
      this.description := description;
      this.startTime := startTime;
      this.endTime := endTime;
      this.status := DefaultStatus;
      this.reminderMinutes := reminderMinutes.GetOr(DefaultReminderMinutes);
      this.missedReason := None;
      this.customMissedReason := "";
      this.missedAt := None;
      this.createdAt := now;
      this.updatedAt := now;
    }

    /**
      Marks the task as not done, whatever its status, stamps `missedAt`, and
      overwrites each reason only when a non-empty one is given. Saving stamps
      `updatedAt`; no other field changes.
     */
    method MarkAsNotDone(reason: Option<MissedTaskReason>, customReason: string, now: int)
      modifies this
      ensures Row() == old(Row()).MarkedNotDone(reason, customReason, now)
    {
      status := NotDone;
      missedAt := Some(now);
      if reason.Some? {
        missedReason := reason;
      }
      if customReason != "" {
        customMissedReason := customReason;
      }
      updatedAt := now;
    }

    /**
      Copies an accepted form's fields onto the task, as saving a `TaskForm`
      bound to this instance does, and stamps `updatedAt`.
     */
    method ApplyForm(title: string, description: string, startTime: int, endTime: int,
                     reminderMinutes: int, now: int)
      modifies this
      ensures Row() == old(Row()).WithFormFields(title, description, startTime, endTime, reminderMinutes, now)
    {
      this.title, this.description := title, description;
      this.startTime, this.endTime := startTime, endTime;
      this.reminderMinutes, updatedAt := reminderMinutes, now;
    }
  }
}
