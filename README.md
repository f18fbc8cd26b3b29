# SelfLog task tracker: a Dafny model

This project models the core of a small personal task tracker. Users sign in
with an email address or a phone number. They create time-boxed tasks and move
them through four statuses: pending, in progress, completed and not done. When
a task is missed, they record why, either with a reason from a shared catalog
or with their own text. The dashboard and the missed-task analysis count and
list the user's tasks.

The model has seven modules:

- `TaskModels` (`task_models.dfy`) holds the task record.
  - `TaskRow` is the value a query reads. Its derived properties are defined
    on it: overdue, has a missed reason, and the reason display text.
  - `TaskRow` also defines the row each saving operation produces.
  - `Task` is the object the views load, change and save. Its methods are
    proved against the `TaskRow` functions.
- `TaskForms` (`task_forms.dfy`) holds `TaskForm` and `MarkAsNotDoneForm` as
  functions. Each one accepts the posted values or returns the first error.
- `TaskViews` (`task_views.dfy`) holds `TaskStore`, the task table as a
  sequence of task objects. It has one method per view that changes tasks.
  Each method states the whole new table in terms of the old one.
- `TaskSelections` (`task_selections.dfy`) holds the read-only queries: the
  task list, the dashboard counts and lists, and the missed-task analysis.
  - A query is modelled as a conjunction of field lookups over the rows of
    the table, followed by `order_by` and slicing.
- `Grouping` (`grouping.dfy`) models `values(k).annotate(count=Count('id')).order_by('-count')[:n]`
  over a list of keys.
- `AuthModels` (`auth_models.dfy`) holds the user model, the phone-number
  pattern and `CustomUserManager`.
- `Wrappers` (`wrappers.dfy`) holds `Option` and `Result`.

Datetimes are integer seconds. The date of a datetime is its day number,
`t / 86400`. The current time is always a parameter.

task/views.py defines `task_list` twice, at lines 61-78 and 83-98. The second
definition is the one the module binds. The two bodies behave identically, so
the model cites the second.

## Model

| member | source | states |
|---|---|---|
| TaskModels.DateOf | task/views.py:36-37 | the date of a datetime is the day whose 86400 seconds contain it |
| TaskModels.ParseStatus | task/views.py:146 | a posted value is accepted exactly when it is one of the four STATUS_CHOICES keys, and then it names the status stored under that key |
| TaskModels.ParseStatusKey | task/models.py:22-27 | each status's key parses back to that status |
| TaskModels.TaskRow.MissedReasonDisplay | task/models.py:65-71 | a non-empty custom reason takes precedence over the catalog reason's name; "No reason provided" is shown when the task has neither |
| TaskModels.TaskRow.MarkedNotDone | task/models.py:73-83 | status becomes not done and `missed_at` is stamped whatever the prior status; each reason is replaced only by a non-empty one and kept otherwise; identity, times and content are untouched; the task then has a reason iff one was given or it had one; it is overdue once its end has passed |
| TaskModels.TaskRow.WithStatus | task/views.py:146-148 | only the status and the save stamp change; reasons and `missed_at` are kept |
| TaskModels.TaskRow.WithReasons | task/views.py:189-191 | both reason fields are overwritten, empty ones included; status and `missed_at` are kept; the task has a reason iff a catalog or non-empty custom reason was given |
| TaskModels.TaskRow.WithFormFields | task/views.py:120-122 | the five form fields are replaced; status, reasons, `missed_at`, owner and creation stamp are kept |
| TaskModels.MarkedNotDoneIdempotent | task/models.py:73-83 | marking a task not done twice with the same reasons equals marking it once at the later time |
| TaskModels.OverdueByStatus | task/models.py:57-59 | a completed task is never overdue; any other task is overdue exactly when its end time has passed |
| TaskModels.OverdueStaysOverdue | task/models.py:57-59 | an overdue task remains overdue at every later time |
| TaskModels.Task.Row | task/models.py:29-52 | the stored row carries the object's id and owner |
| TaskModels.Task.constructor | task/models.py:29-52 | a new task is pending, reminds 10 minutes ahead unless told otherwise, has no reasons and no `missed_at`, and has both stamps set to the creation time |
| TaskModels.Task.MarkAsNotDone | task/models.py:73-83 | the object's new row is exactly `MarkedNotDone` of its old row |
| TaskModels.Task.ApplyForm | task/views.py:120-122 | the object's new row is exactly `WithFormFields` of its old row |
| TaskForms.CleanTaskTimes | task/forms.py:34-46 | with both times present, the form is rejected iff the end is not after the start (reported first) or the start is in the past, each with its own error; with either time missing, `clean` adds nothing |
| TaskForms.ValidateTaskForm | task/forms.py:5-46 | the form is accepted iff both datetimes are present, the start precedes the end and the start is not in the past; it then yields exactly the posted fields; a missing start, then a missing end, is reported as that required field, and otherwise the error is the one `clean` raises |
| TaskForms.ActiveReasons | task/forms.py:71-76 | the choices are exactly the active catalog entries |
| TaskForms.FindActiveReason | task/forms.py:71-76 | a posted id resolves to an active entry with that id, or to none when no active entry has it |
| TaskForms.CleanMarkAsNotDone | task/forms.py:68-97 | the form is accepted iff any posted reason id names an active entry, and a reason or a non-empty custom reason is given; "reason required" is raised exactly when neither is posted, and "invalid choice" exactly when the posted id names no active entry; an accepted choice carries the active entry with the posted id (none when no id was posted) and the posted custom text, so it always carries a reason |
| Grouping.GroupCounts | task/views.py:227-231 | one group per distinct key, each with the number of occurrences of that key, and every key grouped |
| Grouping.OccurrencesAppend | task/views.py:227-231 | the count of a key in two concatenated lists is the sum of its counts in each |
| Grouping.InsertByCountPermutes | task/views.py:231 | inserting a group adds exactly that group |
| Grouping.InsertByCountSorted | task/views.py:231 | insertion keeps a list ordered by descending count |
| Grouping.SortByCountDescSpec | task/views.py:231 | `order_by('-count')` yields a permutation ordered by descending count |
| Grouping.TopGroupsSpec | task/views.py:240-248 | exactly `n` groups, or one per distinct key when there are fewer, ordered by descending count, with true counts and distinct keys; no key left out occurs more often than any kept |
| Grouping.AllGroupsKept | task/views.py:227-231 | when `n` is at least the number of distinct keys, every key appears with its count |
| TaskSelections.Filter | task/views.py:86-89 | a row is in the result iff it is in the table and meets every lookup; the result is a sub-multiset of the table |
| TaskSelections.FilterKeepsMultiplicity | task/views.py:86-89 | a row that meets every lookup occurs in the result as often as in the table |
| TaskSelections.FilterFilter | task/views.py:219-237 | filtering a filtered query is one filter with both sets of lookups |
| TaskSelections.SortByStartSpec | task/views.py:91 | `order_by('start_time')` yields a permutation in ascending start time |
| TaskSelections.Take | task/views.py:44 | `[:n]` is the first `n` rows, exactly `n` of them, or all of them when there are fewer |
| TaskSelections.TakeSubMultiset | task/views.py:44 | `[:n]` holds no row more often than the query it slices |
| TaskSelections.TaskListSpec | task/views.py:84-91 | the list holds exactly the user's tasks, narrowed to the posted status unless it is `all` (the default), each as often as it is stored, in ascending start time |
| TaskSelections.StatusCountsSum | task/views.py:24-28 | the four status counts add up to the total |
| TaskSelections.WithoutReasonsMatch | task/views.py:33 | a task counts as missed without reasons iff it is not done and has no missed reason |
| TaskSelections.MissedWithoutReasonsSplit | task/views.py:28-33 | the not-done count is the missed-without-reasons count plus the number of not-done tasks that have a reason |
| TaskSelections.HaveReasonSpec | task/models.py:61-63 | exactly the rows for which `has_missed_reason` holds |
| TaskSelections.WithCatalogReasonMatch | task/views.py:31 | a task counts as missed with reasons iff it is not done and has a catalog reason |
| TaskSelections.WithCustomReasonMatch | task/views.py:32 | a task counts as missed with custom reasons iff it is not done and has a non-empty custom reason |
| TaskSelections.DashboardSpec | task/views.py:20-33 | the total is the number of the user's tasks and the four status counts add up to it; the not-done count is the missed-without-reasons count plus the not-done tasks that have a reason; those are each counted by the catalog or the custom count, and neither count exceeds them |
| TaskSelections.TodayTasksSpec | task/views.py:36-38 | today's tasks are exactly the user's tasks starting today, each as often as it is stored, in ascending start time |
| TaskSelections.UpcomingLookupsMatch | task/views.py:41-44 | a task is a candidate iff it starts on a day from today to today + 7 and is not completed |
| TaskSelections.UpcomingCandidatesSpec | task/views.py:41-43 | the candidates are exactly the user's tasks starting from today to today + 7 that are not completed, each as often as it is stored |
| TaskSelections.UpcomingTasksSpec | task/views.py:41-44 | five of the user's candidates, or all of them when there are fewer, none repeated more often than among the candidates, in ascending start time, and no candidate left out starts before a listed one |
| TaskSelections.RangeDays | task/views.py:206-213 | `7days` gives 7, `90days` gives 90, and anything else, or nothing, gives 30 |
| TaskSelections.MissedLookupsMatch | task/views.py:219-224 | the lookups hold iff the task is the user's, not done, and ended on a day in the range |
| TaskSelections.MissedTasksSpec | task/views.py:215-224 | the missed tasks are exactly the user's not-done tasks that ended in the last `days` days, each as often as it is stored, in the model's default start-time order |
| TaskSelections.ReasonNames | task/views.py:227-228 | a name is listed iff some missed task has a catalog reason with that name |
| TaskSelections.CustomReasons | task/views.py:240-245 | a text is listed iff some missed task has it as a non-empty custom reason |
| TaskSelections.ReasonNamesCount | task/views.py:227-231 | a name is listed once for each missed task whose catalog reason has that name |
| TaskSelections.CustomReasonsCount | task/views.py:240-248 | a non-empty text is listed once for each missed task with that custom reason, and the empty text never |
| TaskSelections.ReasonStatsSpec | task/views.py:227-231 | one row per catalog reason name, whose count is the number of missed tasks whose reason has that name, by descending count; every name carried by a missed task is present |
| TaskSelections.CommonCustomReasonsSpec | task/views.py:240-248 | ten distinct non-empty custom reasons, or all of them when there are fewer, each with the number of missed tasks that carry it, by descending count; no custom reason left out is more common than one kept |
| TaskSelections.TasksWithoutReasonsSpec | task/views.py:234-237 | exactly the missed tasks with no catalog reason and an empty custom reason, each as often as among the missed tasks |
| TaskViews.ReasonUpdatesDiffer | task/views.py:186-191 | given the same form, `mark_as_not_done` keeps a stored custom reason that the form leaves empty, while `add_missed_reason` erases it |
| TaskViews.TaskStore.Find | task/views.py:117 | finds the position of the task with that id owned by that user, or reports that no such task exists |
| TaskViews.TaskStore.UpdateTaskStatus | task/views.py:140-153 | a missing task is a 404 and an unknown status changes nothing; otherwise exactly that task's row becomes `WithStatus` of the parsed status; any transition is allowed |
| TaskViews.TaskStore.MarkTaskNotDone | task/views.py:155-176 | a missing task is a 404 and a rejected form changes nothing; otherwise exactly that task's row becomes `MarkedNotDone` with the cleaned reasons |
| TaskViews.TaskStore.AddMissedReason | task/views.py:178-201 | a task that is missing or not in the not-done status is a 404 and a rejected form changes nothing; otherwise exactly that row becomes `WithReasons` with the cleaned reasons, and the task then has a reason |
| TaskViews.TaskStore.CreateTask | task/views.py:100-113 | a rejected form stores nothing; an accepted one appends one fresh task of the user, which is pending, has no reasons and has the posted fields |
| TaskViews.TaskStore.EditTask | task/views.py:115-128 | a missing task is a 404 and a rejected form changes nothing; otherwise exactly that task's row becomes `WithFormFields` with the cleaned fields |
| TaskViews.TaskStore.DeleteTask | task/views.py:130-138 | a missing task is a 404; otherwise exactly that task is removed and the others keep their order |
| AuthModels.User.GetUsername | auth_app/models.py:91-93 | the email when given, otherwise the phone number |
| AuthModels.User.Display | auth_app/models.py:88-89 | never empty: the email, else the phone number, else `User <id>` |
| AuthModels.User.Clean | auth_app/models.py:95-99 | an error exactly when neither email nor phone number is given |
| AuthModels.CleanUserDisplay | auth_app/models.py:88-99 | a user that passes `clean` has a username and is shown by it |
| AuthModels.IdText | auth_app/models.py:89 | the rendered id is never empty |
| AuthModels.DecimalText | auth_app/models.py:89 | the id is rendered as decimal digits with no leading zero |
| AuthModels.DecimalRoundTrip | auth_app/models.py:89 | the rendered digits read back as the id |
| AuthModels.PhoneBodyIsGrammar | auth_app/models.py:49-52 | the matcher accepts exactly an optional `+`, an optional `1`, then 9 to 15 digits |
| AuthModels.PhoneBodyLength | auth_app/models.py:60-67 | a matched number has 9 to 17 characters, so `max_length=17` only rejects a match followed by a newline |
| AuthModels.ValidPhoneNumberCases | auth_app/models.py:49-67 | a valid phone number is a matched number, or a matched number of at most 16 characters followed by a final newline, which `$` lets through |
| AuthModels.PhoneExamples | auth_app/models.py:49-52 | `+15551234567` and `+123456789` followed by a newline are accepted; `12345678` is too short |
| AuthModels.Matching | auth_app/models.py:35-40 | exactly the users whose email or phone number equals the key |
| AuthModels.MatchingLength | auth_app/models.py:35-40 | one user matches per stored position whose user holds the key |
| AuthModels.MatchingTwo | auth_app/models.py:35-40 | at least two users match iff two different stored positions hold the key |
| AuthModels.GetByNaturalKey | auth_app/models.py:35-40 | a found user holds the key and is the only one that does; "does not exist" is returned iff nobody holds it; "multiple objects returned" is returned iff two stored users hold it |
| AuthModels.NaturalKeyUnique | auth_app/models.py:54-67 | with unique emails and phone numbers, and no email equal to a phone number, the lookup never matches two users |
| AuthModels.MatchingAtMostOne | auth_app/models.py:54-67 | under the same conditions, at most one user matches a key |
| AuthModels.UserManager.CreateUser | auth_app/models.py:9-20 | refuses exactly when neither identifier is given; otherwise it stores one new user with the normalised email, the phone number as supplied and the flags (staff and superuser default to false, active to true), unless the email or phone number is already stored, which is reported as an integrity error exactly then |
| AuthModels.UserManager.CreateSuperuser | auth_app/models.py:22-33 | the flags default to true; an explicit false staff or superuser flag is refused before anything is stored; with both flags true, no email is refused as a missing identifier, and a given email succeeds iff its normalised form is not already stored, failing with an integrity error otherwise; a created superuser is staff and superuser, has the normalised email, the given password, the next id and no phone number |
| AuthModels.CreatedUserIsClean | auth_app/models.py:9-20 | every user that `create_user` stores passes `clean`, when normalising keeps an email non-empty |

## Left out

- HTTP handling is not modelled: requests, `login_required`, messages, redirects, template rendering and the GET branches of the views.
- Time zones are not modelled. A datetime is integer seconds and its date is `t / 86400`, with no local-time conversion.
- `normalize_email` is framework code and is taken as a function parameter.
- Password hashing (`set_password`) is not modelled. The user record keeps the password it was given.
- `\d` is modelled as the ASCII digits; Python also accepts other Unicode decimal digits.
- `extra_fields` is modelled only for `is_staff`, `is_superuser` and `is_active`. A phone number passed to `create_superuser` through `extra_fields` is not modelled.
- Database writes are not concurrent. A new task's id is handed in by the caller (`newId` in `CreateTask`); `UserManager` models the auto-increment key with its own counter, `nextId`.
- Django collects every form error. The model reports the first one.
- Form fields are not stripped of surrounding whitespace, and `title`'s `max_length` and required-ness are not checked. Only the two datetimes are checked as required.
- A task row holds a copy of its catalog reason. Renaming or deleting a catalog entry (`on_delete=SET_NULL`) does not reach stored tasks.
- `manage_missed_reasons`, `MissedTaskReasonForm`, the admin, URL routing and the user fields that the core does not read are not modelled.
- Automatic reclassification of overdue tasks (pending to not done, in progress to completed) does not appear in task/models.py or task/views.py. It is not modelled.
- The filter `custom_missed_reason__isnull=False` of `missed_with_custom_reasons` and of `common_custom_reasons` always holds for a non-null text column, so it is not modelled as a lookup.
- The analysis querysets without an explicit `order_by` are modelled in the task's default ordering, by start time.
- TaskViews.TaskStore.CreateTask: the ensures does not restate that the rows of the existing tasks are unchanged. This follows from its `modifies this`, which does not include the existing task objects.
