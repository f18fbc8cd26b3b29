/**
  The two task forms (task/forms.py) as accept/reject functions over the
  values a request posts. A form either yields its cleaned data or the first
  validation error it raises.
 */
module TaskForms {
  import opened Wrappers
  import opened TaskModels

  datatype FormError =
    | FieldRequired(field: string)   // a required field was left empty
    | InvalidChoice                  // the chosen reason is not an active catalog entry
    | EndNotAfterStart               // "End time must be after start time"
    | StartInPast                    // "Start time cannot be in the past"
    | ReasonRequired                 // neither a catalog reason nor a custom reason

  /** What a task form posts; an absent datetime is `None`. */
  datatype TaskFormData = TaskFormData(
    title: string, description: string,
    startTime: Option<int>, endTime: Option<int>, reminderMinutes: int)

  /** The cleaned fields of an accepted task form. */
  datatype TaskFields = TaskFields(
    title: string, description: string, startTime: int, endTime: int, reminderMinutes: int)

  /**
    `TaskForm.clean`: when both times are present, the end must come after the
    start (checked first) and the start must not lie in the past.
   */
  function CleanTaskTimes(start: Option<int>, end: Option<int>, now: int): (r: Option<FormError>)
    ensures r == None <==> start.None? || end.None? || (start.value < end.value && now <= start.value)
    ensures r == Some(EndNotAfterStart) <==> start.Some? && end.Some? && start.value >= end.value
    ensures r == Some(StartInPast) <==> start.Some? && end.Some? && start.value < end.value && start.value < now
  {
    if start.Some? && end.Some? then
      if start.value >= end.value then Some(EndNotAfterStart)
      else if start.value < now then Some(StartInPast)
      else None
    else None
  }

  /**
    The whole task form: both datetimes are required fields, and then `clean`
    checks the time range.
   */
  function ValidateTaskForm(data: TaskFormData, now: int): (r: Result<TaskFields, FormError>)
    ensures r.Ok? ==> r.value.startTime < r.value.endTime && now <= r.value.startTime
    ensures r.Ok? <==> data.startTime.Some? && data.endTime.Some? &&
                       data.startTime.value < data.endTime.value && now <= data.startTime.value
    ensures r.Ok? ==> r.value == TaskFields(data.title, data.description, data.startTime.value,
                                            data.endTime.value, data.reminderMinutes)
    ensures data.startTime.None? ==> r == Err(FieldRequired("start_time"))
    ensures data.startTime.Some? && data.endTime.None? ==> r == Err(FieldRequired("end_time"))
    ensures data.startTime.Some? && data.endTime.Some? && r.Err? ==>
              CleanTaskTimes(data.startTime, data.endTime, now) == Some(r.error)
  {
    if data.startTime.None? then Err(FieldRequired("start_time"))
    else if data.endTime.None? then Err(FieldRequired("end_time"))
    else
      match CleanTaskTimes(data.startTime, data.endTime, now)
      case Some(e) => Err(e)
      case None =>
        Ok(TaskFields(data.title, data.description, data.startTime.value,
                      data.endTime.value, data.reminderMinutes))
  }

  /** The reasons `MarkAsNotDoneForm` offers: the active catalog entries. */
  function ActiveReasons(catalog: seq<MissedTaskReason>): (r: seq<MissedTaskReason>)
    ensures forall x :: x in r <==> x in catalog && x.isActive
    ensures |r| <= |catalog|
  {
    if catalog == [] then []
    else if catalog[0].isActive then [catalog[0]] + ActiveReasons(catalog[1..])
    else ActiveReasons(catalog[1..])
  }

  /** The first active catalog entry with the posted id, if any. */
  function FindActiveReason(catalog: seq<MissedTaskReason>, id: nat): (r: Option<MissedTaskReason>)
    ensures r.Some? ==> r.value in catalog && r.value.isActive && r.value.id == id
    ensures r.None? ==> forall x :: x in catalog && x.isActive ==> x.id != id
  {
    if catalog == [] then None
    else if catalog[0].isActive && catalog[0].id == id then Some(catalog[0])
    else FindActiveReason(catalog[1..], id)
  }

  /** The cleaned data of an accepted `MarkAsNotDoneForm`. */
  datatype ReasonChoice = ReasonChoice(reason: Option<MissedTaskReason>, customReason: string)

  /**
    `MarkAsNotDoneForm`: both fields are optional; a posted reason id must name
    an active catalog entry; `clean` then rejects the form when neither a
    reason nor a non-empty custom reason is given.
   */
  function CleanMarkAsNotDone(catalog: seq<MissedTaskReason>, reasonId: Option<nat>, customReason: string)
    : (r: Result<ReasonChoice, FormError>)
    ensures r.Ok? <==> (reasonId.Some? ==> FindActiveReason(catalog, reasonId.value).Some?) &&
                       (reasonId.Some? || customReason != "")
    ensures r.Ok? ==> r.value.customReason == customReason
    ensures r.Ok? ==> r.value.reason == (if reasonId.Some? then FindActiveReason(catalog, reasonId.value) else None)
    ensures r.Ok? ==> r.value.reason.Some? || r.value.customReason != ""
    ensures r.Ok? && r.value.reason.Some? ==> r.value.reason.value in ActiveReasons(catalog)
    ensures r == Err(ReasonRequired) <==> reasonId.None? && customReason == ""
    ensures r == Err(InvalidChoice) <==> reasonId.Some? && FindActiveReason(catalog, reasonId.value).None?
  {
    match reasonId
    case Some(id) =>
      (match FindActiveReason(catalog, id)
       case None => Err(InvalidChoice)
       case Some(x) => Ok(ReasonChoice(Some(x), customReason)))
    case None =>
      if customReason == "" then Err(ReasonRequired) else Ok(ReasonChoice(None, customReason))
  }
}
