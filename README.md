# Workflow management server: scheduling, conflicts, creation, access and history in Dafny

This project models the core of a Django backend that runs company workflows:
a workflow is a linear chain of tasks, each assigned to an employee of the
company, each starting a fixed delay (`start_delta`) after its parent finishes
(after the workflow's start for the chain head). The model covers:

- **Time model and conflict detector** (`TimeModel`, time_model.dfy):
  - `get_parent_start_time` walks the parent chain as a loop with its invariant.
  - The interval-overlap test.
  - `is_task_conflicting` runs over the employee's tasks, with its per-employee cache held in a `ConflictCache` object that the method updates in place.
- **Scheduler** (`Scheduler`, scheduler.dfy):
  - The Celery jobs `start_workflow`, `start_task`, `start_workflows_periodic`, `schedule_tasks_helper` and `start_tasks_periodic`, as methods on a mutable `Database` and an append-only `JobQueue`.
  - The mail-kind decisions of `send_mail_for_workflow` and `send_mail_for_task`.
- **Workflow creation and validation** (`Serializers`, serializers.dfy):
  - The `validate` methods of the workflow, task-update and accessor serializers.
  - `WorkflowCreateSerializer.create`: the workflow row, the task chain in input order, the accessor rows without the creator, and the per-person notification record.
- **Access rules** (`Permissions`, permissions.dfy): the DRF permission predicates.
- **Tables** (`WorkflowModels`, models.dfy):
  - Workflow, Task and WorkflowAccess rows, with the defaults declared on the models: status UPCOMING, permission READ, zero `start_delta` and `duration`.
  - The foreign-key invariant, the `unique_together` constraint, and the CASCADE / SET_NULL / PROTECT delete rules.
- **Audit history** (`History`, history.dfy):
  - The helpers that append History rows, including the UnicodeEncodeError that Python 2 `str()` raises partway through on non-ASCII text, after the earlier rows are written.
  - The three signal receivers.
  - How a stored value is displayed.
- **Reports** (`Report`, report.dfy):
  - The time-spent formulas with SQL NULL semantics.
  - `get_workflows_time`'s merge, listing and sort.
  - `insert_workflow`'s index pairing, and the totals of the employee and workflow reports.

Timestamps and durations are whole seconds (`int`). The clock is a `now`
parameter. Celery dispatch is an appended `Job` in a `JobQueue`. The lookahead
thresholds are fields of a `Settings` parameter. `Numerals` models `str()` and
`int()` on integers.

Where the project's documentation and the code disagree, the model follows
the code:
- `create` is not wrapped in a transaction. The `post_save` history receiver raises UnicodeEncodeError on a workflow name or task title or description that is not ASCII, after that row is inserted; a duplicate accessor stops it with an IntegrityError after the workflow, the tasks and the earlier access rows are written; `Serializers.Create` keeps the rows written before either stop.
- A `start_at` equal to now is accepted (only a strictly earlier one is refused).
- `schedule_tasks_helper` marks every task of its queryset SCHEDULED, not only the dispatched ones: the `exclude` result is discarded.
- `start_task` sets ONGOING whatever the task's current status.
- The conflict cache is filled only by a database scan that found no conflict. A scan stopped by a conflict leaves a partial entry that later calls trust (`TimeModel.PartialCacheMissesConflict`).
- Uniqueness of WorkflowAccess is unconditional (there is no `is_active` column).
- apps/common/constant.py:15-18 declares `TASK_STATUS` with the members `UPCOMMING` (spelled so), `ONGOING` and `COMPLETE`; it has no `SCHEDULED` member and there is no `WORKFLOW_STATUS` at all, yet the scheduling and mail code read `TASK_STATUS.SCHEDULED`, `TASK_STATUS.UPCOMING` and `WORKFLOW_STATUS.{SCHEDULED, INPROGRESS, COMPLETE}`. apps/workflow/models.py declares no `Workflow.status` and no `Task.duration`, and names the completion time `complete_at` (models.py:25) where that code reads `completed_at`. Other names the code uses are not defined in any of the files cited here: `common_constant.HISTORY_ACTION` (read at apps/history/models.py:22-23 and apps/history/helpers.py:31, 47 and 60, so apps/history/models.py fails on import); the `tracker` attribute of a tracked instance (apps/history/helpers.py:37); `_history_representation` (apps/history/models.py:42 and 73); `company_permissions.IsActiveCompanyEmployee` (apps/workflow/permissions.py:38, 65 and 92; apps/company/permissions.py defines only IsInactiveEmployee, IsActiveEmployee and IsCompanyAdmin); `user.active_employee` (apps/auth/models.py has no such member); and `send_mail` on Workflow and Task (so `create` would raise AttributeError at apps/workflow/serializers.py:202, after all its rows are written). The model takes every one of these members as the code uses them; as written, Python would raise ImportError or AttributeError at each such use.

## Model

| member | source | states |
|---|---|---|
| Common.TimedeltaSeconds | apps/workflow/tasks.py:96 | `.seconds` of a timedelta lies in [0, 86400), equals the delta when that lies in a day, and differs from it by whole days |
| Numerals.IntToString | apps/history/helpers.py:13-20 | `str()` of an int is non-empty and starts with a minus sign exactly for a negative number |
| Numerals.IntRoundTrip | apps/history/models.py:46-50 | `int()` applied to `str()` of any integer, with any whitespace around it, gives that integer back |
| Numerals.IntParse | apps/history/models.py:47 | `int(str(i)) == i` for every integer |
| Numerals.PaddedParse | apps/history/models.py:47 | whitespace around a text that begins and ends with other characters does not change what `int()` reads |
| Numerals.TrimLeftSplits | apps/history/models.py:47 | what `int()` skips at the front is all whitespace, and what remains starts with a non-space |
| Numerals.TrimRightSplits | apps/history/models.py:47 | what `int()` skips at the end is all whitespace, and what remains ends with a non-space |
| Numerals.ParseInt | apps/history/models.py:47 | Python 2 `int()` of a unicode string succeeds exactly for surrounding ASCII whitespace (including U+001C to U+001F) around an optional sign, optional whitespace and a non-empty run of ASCII digits, else raises ValueError |
| WorkflowModels.InsertAccess | apps/workflow/models.py:93-94 | an access row is refused with IntegrityError exactly when the (employee, workflow) pair already has a row or a foreign key dangles |
| WorkflowModels.InsertAccessKeepsInvariants | apps/workflow/models.py:79-94 | an accepted insert keeps the foreign keys valid and the pairs unique, and the employee then holds a READ_WRITE grant iff the row's permission is READ_WRITE |
| WorkflowModels.DeleteTask | apps/workflow/models.py:48-53 | deleting a task removes exactly that row and leaves no task pointing at it as parent |
| WorkflowModels.DeleteTaskKeepsRefsValid | apps/workflow/models.py:48-53 | deleting a task keeps the foreign keys valid, sets its children's parent to NULL and leaves every other task unchanged |
| WorkflowModels.DeleteWorkflow | apps/workflow/models.py:45-84 | deleting a workflow removes it together with its tasks and access rows |
| WorkflowModels.DeleteWorkflowKeepsRefsValid | apps/workflow/models.py:45-84 | the cascade keeps the foreign keys valid and keeps every task and access row of other workflows |
| WorkflowModels.DeleteEmployee | apps/workflow/models.py:54-58 | deleting an employee is refused exactly when a workflow they created or a task assigned to them protects it; otherwise their access rows cascade away |
| WorkflowModels.DeleteEmployeeKeepsRefsValid | apps/workflow/models.py:83 | an accepted employee delete keeps the foreign keys valid |
| Permissions.HasWorkflowWrite | apps/workflow/permissions.py:27-35 | write is denied across companies; within the company it is granted iff the employee is admin or holds a READ_WRITE grant on the workflow |
| Permissions.AdminWritesExactlyOwnCompany | apps/workflow/permissions.py:29-32 | an admin can write exactly the workflows of their own company |
| Permissions.WorkflowViewAllowed | apps/workflow/permissions.py:43-55 | `create` needs the base check and admin; every other action returns the base check unchanged |
| Permissions.WorkflowObjectAllowed | apps/workflow/permissions.py:57-62 | `update`/`partial_update` need write permission; every other action is allowed |
| Permissions.TaskObjectAllowed | apps/workflow/permissions.py:81-89 | a task update is allowed iff the employee is its assignee or can write its workflow; other actions are allowed |
| Permissions.AccessorViewAllowed | apps/workflow/permissions.py:97-108 | a missing workflow is a 404; otherwise access is the base check and write permission on the URL's workflow |
| Permissions.AccessorObjectAllowed | apps/workflow/permissions.py:110-116 | `update`/`partial_update`/`destroy` re-check write on the row's workflow; other actions are allowed |
| Permissions.AccessorChecksAgree | apps/workflow/permissions.py:97-116 | a request that passed the view check on a row's workflow always passes the object check |
| Permissions.CreatedWriters | apps/workflow/permissions.py:32-35 | after a successful create, a non-admin colleague can write the new workflow iff they are not the creator and their last accessor entry is READ_WRITE |
| Permissions.TaskUpdateNeedsWrite | apps/workflow/serializers.py:39-45 | within the company, the object permission and the validation as written together let a task update through iff the requester can write the workflow, so being the assignee never suffices |
| Permissions.AssigneeEditRefused | apps/workflow/serializers.py:39-45 | a concrete assignee whom the object permission lets in is refused by the validation as written, and accepted by the corrected one |
| Permissions.TaskUpdateCorrected | apps/workflow/serializers.py:33-45 | with the corrected validation, the permission and the validation together accept an update that keeps the assignee iff the requester is the assignee or can write the workflow |
| Serializers.ValidateStart | apps/workflow/serializers.py:113-120 | a start strictly before now is refused, a start at or after now accepted |
| Serializers.AssigneesIn | apps/workflow/serializers.py:138-143 | true iff every task assignee is in the creator's company |
| Serializers.AccessorsIn | apps/workflow/serializers.py:145-150 | true iff every accessor's employee is in the creator's company |
| Serializers.ValidateCreate | apps/workflow/serializers.py:130-152 | creation passes iff the start is not past and all assignees and accessors share the creator's company; the start is checked first, then assignees, then accessors |
| Serializers.ValidateTaskUpdate | apps/workflow/serializers.py:31-50 | refused for a non-admin assignee without a READ_WRITE grant; otherwise refused iff a new assignee is given from another company |
| Serializers.ValidateTaskUpdateCorrected | apps/workflow/serializers.py:31-50 | refuses a pure assignee only when they change the assignee; an update without a new assignee always passes |
| Serializers.ValidateAccessCreate | apps/workflow/serializers.py:71-80 | a missing workflow raises DoesNotExist; otherwise the grant passes iff the employee shares the creator's company |
| Serializers.ChainRowsContent | apps/workflow/serializers.py:174-177 | the task rows take consecutive ids in input order, the first with no parent and each later one parented on the previous |
| Serializers.WriteAccessorsKeeps | apps/workflow/serializers.py:187-193 | writing the accessors keeps the foreign keys and uniqueness, keeps every earlier row and can only stop with IntegrityError |
| Serializers.WriteAccessorsFailsIff | apps/workflow/serializers.py:187-193 | the accessor loop stops iff some non-creator entry collides with an existing or an earlier entry's row |
| Serializers.WriteAccessorsRows | apps/workflow/serializers.py:187-193 | every new row comes from a non-creator entry, and on success every non-creator entry has its grant |
| Serializers.LastGrant | apps/workflow/serializers.py:195-200 | the permission of the last entry naming the employee, None iff no entry names them |
| Serializers.AddTaskOwnersEffect | apps/workflow/serializers.py:174-185 | the task loop adds exactly the assignees and appends to each person the titles of their tasks in input order |
| Serializers.AddAccessorsEffect | apps/workflow/serializers.py:187-200 | the accessor loop adds each non-creator accessor as shared, with write permission iff their last entry is READ_WRITE, and leaves everyone else as they were |
| Serializers.PeopleRecord | apps/workflow/serializers.py:166-200 | the notification record: the creator with is_creator, and for each other person their task titles in order, is_shared iff they are an accessor, write_permission iff READ_WRITE |
| Serializers.InsertChain | apps/workflow/serializers.py:172-185 | the method writes the workflow row and the task rows in order up to and including the first row whose text the `post_save` history receiver cannot `str()` (apps/history/signals.py:12-25), then stops with UnicodeEncodeError; when none raises, it writes the whole chain and builds the task part of the person record |
| Serializers.ChainStop | apps/workflow/serializers.py:172-177 | `create` stops at the workflow row iff its name is not ASCII; otherwise at the first task whose title or description is not ASCII, every earlier task being ASCII; or nowhere |
| Serializers.FirstNonAscii | apps/workflow/serializers.py:174-177 | the first task from the given index whose title or description is not ASCII, every task before it from that index being ASCII |
| Serializers.TasksWritten | apps/workflow/serializers.py:174-177 | `create` inserts every task row when nothing stops it, and otherwise the rows up to and including the one that raised |
| Serializers.StopsAtTask | apps/workflow/serializers.py:174-177 | the first non-ASCII task, with an ASCII workflow name, is where `create` stops, after writing that task's row |
| Serializers.WithTasksIsChain | apps/workflow/serializers.py:172-177 | the rows written up to task `n` are the whole chain of the request cut to its first `n` tasks |
| Serializers.Create | apps/workflow/serializers.py:154-204 | `create` writes the rows of the chain and the accessors, returns the new workflow and the person record on success, and otherwise reports the UnicodeEncodeError of the history receiver or the IntegrityError of an access row, keeping the rows written so far |
| Serializers.WithChainTables | apps/workflow/serializers.py:172-177 | the workflow and task rows written by `create`: one new workflow, the chain added to the tasks, the other tables unchanged |
| Serializers.WithChainValid | apps/workflow/serializers.py:172-177 | writing the workflow and its chain keeps the foreign keys valid and the access pairs unique |
| Serializers.WithChainTasksValid | apps/workflow/serializers.py:174-177 | every task row after the chain is written has its workflow, assignee and an earlier parent of the same workflow |
| Serializers.ChainTasksValid | apps/workflow/serializers.py:174-177 | a chain for a new workflow added to valid tables keeps every task's references valid |
| Serializers.WithChainRows | apps/workflow/serializers.py:172-177 | the new workflow owns exactly the chain's ids, each row is its input task with the previous row as parent, and older tasks are untouched |
| Serializers.WithChainOwnTasks | apps/workflow/serializers.py:174-177 | the tasks of the new workflow are exactly the chain's ids, with the input rows in order |
| Serializers.WithChainKeepsTasks | apps/workflow/serializers.py:174-177 | every earlier task keeps its row |
| Serializers.WithChainHead | apps/workflow/serializers.py:174-177 | the new workflow has a single head, the first input task (none when there are no tasks) |
| Serializers.CreatedChain | apps/workflow/serializers.py:172-193 | after `create`, whether it stopped or not, the tables are valid, the new workflow row is the request's, the workflow owns exactly the task rows written (all of them unless the history receiver stopped it), each the input task parented on the row before, and the first one, if any, is the single head |
| Serializers.InsertedValid | apps/workflow/serializers.py:172-177 | the workflow row and any prefix of the task rows keep the foreign keys valid and the grants unique |
| Serializers.InsertedRows | apps/workflow/serializers.py:172-177 | after the workflow row and the first `n` task rows, the new workflow owns exactly those rows, each the input task at its position parented on the row before |
| Serializers.InsertedOwner | apps/workflow/serializers.py:174-177 | a task row belongs to the new workflow iff it is one of the `n` rows written |
| Serializers.InsertedHead | apps/workflow/serializers.py:174-177 | the first of the `n` rows written is the new workflow's single head, and there is none when `n` is zero |
| Serializers.PrefixRows | apps/workflow/serializers.py:174-177 | task row `first + i` of the first `n` exists and is the `i`-th input task, parented on the row before it |
| Serializers.FreshWorkflowUnshared | apps/workflow/serializers.py:172-193 | no access row exists for the new workflow before the accessor loop |
| Serializers.CreateFailsIff | apps/workflow/serializers.py:172-193 | `create` fails iff a workflow name or task text is not ASCII (then with UnicodeEncodeError, before any access row) or two non-creator accessor entries name the same employee (then with IntegrityError) |
| Serializers.CreatedGrants | apps/workflow/serializers.py:187-193 | the creator never gets an access row, whether or not `create` stopped; on success exactly the other accessors get one, READ_WRITE iff their last entry says so |
| Serializers.WrittenFromEntries | apps/workflow/serializers.py:187-193 | on a workflow that had no grant, every access row written comes from a non-creator entry, so the creator gets none |
| Serializers.WrittenShared | apps/workflow/serializers.py:187-200 | when every entry is written, an employee holds a grant iff a non-creator entry names them |
| Serializers.WrittenReadWrite | apps/workflow/serializers.py:187-200 | when every entry is written and no two name the same employee, an employee holds READ_WRITE iff their last entry asks for it |
| TimeModel.FirstCompleted | apps/workflow/helpers.py:19-22 | the chain walk stops at a completed ancestor at or above the given task, and at once iff that task is completed |
| TimeModel.GetParentStartTime | apps/workflow/helpers.py:17-25 | the loop returns the chain's start time; a completed parent gives its `completed_at` with nothing added |
| TimeModel.ParentStartTimeIsChainEnd | apps/workflow/helpers.py:17-25 | the walk's result is the completion of the first completed ancestor, or the workflow start, plus `start_delta + duration` of every uncompleted ancestor visited |
| TimeModel.IsTimeConflicting | apps/workflow/helpers.py:42-46 | for well-formed intervals, a conflict holds iff each starts before the other ends |
| TimeModel.ConflictSymmetricAndEndExclusive | apps/workflow/helpers.py:42-46 | the test is symmetric, touching endpoints never conflict, and a proper overlap always does |
| TimeModel.ExpectedInterval | apps/workflow/helpers.py:84-90 | a task's expected end is its start plus its duration; a head starts `start_delta` after the workflow start |
| TimeModel.ChildStartsAfterParent | apps/workflow/helpers.py:84-90 | a child starts `start_delta` after the parent's completion, or after its expected end when the parent is not completed |
| TimeModel.ExpectedTimes | apps/workflow/helpers.py:84-90 | the loop body's start and end are the task's expected interval |
| TimeModel.CachedConflict | apps/workflow/helpers.py:68-75 | the cached path answers true iff some cached interval conflicts with the candidate |
| TimeModel.ScanConflictIff | apps/workflow/helpers.py:79-99 | the scan reports a conflict iff some row considered (the employee's, not ignored, UPCOMING or ONGOING) conflicts |
| TimeModel.ScanMatchesEmployeeTasks | apps/workflow/helpers.py:79-99 | over the employee's rows, the scan's answer is whether any considered task of the employee conflicts |
| TimeModel.CompleteCacheIsExact | apps/workflow/helpers.py:68-99 | a scan without conflict caches every considered interval, and that cache answers later candidates as a new scan would |
| TimeModel.IsTaskConflicting | apps/workflow/helpers.py:49-99 | a non-empty cache entry is used alone, unchanged; a non-empty cache without the employee raises KeyError; otherwise the scan's answer is returned, the cache entry set to its recorded intervals |
| TimeModel.PartialCacheMissesConflict | apps/workflow/helpers.py:91-97 | a scan stopped by a conflict leaves a partial cache entry that misses a conflict a new scan finds |
| Scheduler.SetWorkflowStatus | apps/workflow/tasks.py:28-30 | only the status of the one workflow changes |
| Scheduler.SetTaskStatus | apps/workflow/tasks.py:52-54 | only the status of the one task changes |
| Scheduler.MarkWorkflowsScheduled | apps/workflow/tasks.py:74 | exactly the selected workflows become SCHEDULED, everything else unchanged |
| Scheduler.MarkTasksScheduled | apps/workflow/tasks.py:100 | exactly the selected tasks become SCHEDULED, everything else unchanged |
| Scheduler.MarkTasksKeepsRefs | apps/workflow/tasks.py:100 | the bulk status update keeps the foreign keys valid |
| Scheduler.StartedWorkflow | apps/workflow/tasks.py:28-39 | the workflow becomes INPROGRESS and the head becomes SCHEDULED iff its `start_delta` is below the threshold; nothing else changes |
| Scheduler.HeadJobs | apps/workflow/tasks.py:32-39 | one `start_task` job for the head, with `start_delta.seconds` as countdown, iff its `start_delta` is below the threshold |
| Scheduler.StartWorkflow | apps/workflow/tasks.py:19-39 | a missing workflow raises DoesNotExist and one without a head IndexError, changing nothing; otherwise the new state and queue are those of starting it with a head |
| Scheduler.StartTask | apps/workflow/tasks.py:44-54 | a missing task raises DoesNotExist; otherwise the task becomes ONGOING whatever its status and nothing else changes |
| Scheduler.Eta | apps/workflow/tasks.py:70-71 | the ETA is the start when that is still ahead, and otherwise 10 seconds after now; it is always after now and not before the start |
| Scheduler.WorkflowJobsContent | apps/workflow/tasks.py:69-72 | one `start_workflow` job per selected workflow, in visiting order, with its ETA |
| Scheduler.StartWorkflowsPeriodic | apps/workflow/tasks.py:59-74 | exactly the INITIATED workflows starting within the threshold are dispatched, once each in some order, then all marked SCHEDULED |
| Scheduler.WorkflowScanIdempotent | apps/workflow/tasks.py:63-74 | a second scan at the same clock selects nothing |
| Scheduler.TaskDelay | apps/workflow/tasks.py:88-91 | a head's delay is its workflow's start plus `start_delta` minus now; a child's is defined iff its parent has `completed_at`, and is then the parent's `completed_at` plus `start_delta` minus now |
| Scheduler.Countdown | apps/workflow/tasks.py:94-96 | a negative delay becomes 10 seconds; a delay within a day is kept; the countdown lies in [0, 86400) |
| Scheduler.TaskJobsSnoc | apps/workflow/tasks.py:87-96 | visiting one more task appends its job exactly when it is due |
| Scheduler.TaskJobsContent | apps/workflow/tasks.py:87-98 | the jobs are exactly one `start_task` job, with its countdown, per due task visited |
| Scheduler.DispatchTask | apps/workflow/tasks.py:88-96 | a parent without `completed_at` raises TypeError and dispatches nothing; otherwise the task's job is appended iff it is due |
| Scheduler.DispatchAll | apps/workflow/tasks.py:86-98 | the loop fails iff some task has no defined delay; it visits distinct tasks of the queryset, all of them on success, and appends their jobs |
| Scheduler.ScheduleTasksHelper | apps/workflow/tasks.py:78-100 | on TypeError the database is rolled back but the jobs already dispatched stay; on success every task of the queryset is marked SCHEDULED |
| Scheduler.FirstPassKeepsSecond | apps/workflow/tasks.py:109-119 | marking the first selection does not change the second |
| Scheduler.TaskDelayAfterMark | apps/workflow/tasks.py:88-100 | marking tasks SCHEDULED does not change any task's delay |
| Scheduler.TaskJobsAfterMark | apps/workflow/tasks.py:109-119 | the second pass dispatches the same jobs on the marked database as on the original |
| Scheduler.StartTasksPeriodic | apps/workflow/tasks.py:104-119 | on success, both selections are marked SCHEDULED and their due tasks dispatched; a failure keeps the first pass's update or none, and the queue only grows |
| Scheduler.TaskScanIdempotent | apps/workflow/tasks.py:104-119 | after a successful run, both selections are empty |
| Scheduler.WorkflowMail | apps/workflow/tasks.py:130-145 | completed mail iff COMPLETE; started mail iff INPROGRESS with 'status' updated; update mail iff not COMPLETE and no update fields |
| Scheduler.TaskMail | apps/workflow/tasks.py:149-162 | completed mail iff COMPLETE; started mail iff ONGOING with 'status' updated; update mail iff not COMPLETE and no update fields |
| Scheduler.StatusSavesMail | apps/workflow/tasks.py:130-162 | a save that reached `send_mail_for_*` would choose: for `start_workflow`'s save with `update_fields=['status']` the started mail, for its full `save()` of the SCHEDULED head the updated mail, for `start_task`'s status save the started mail |
| History.Str | apps/history/helpers.py:13-20 | Python 2 `str()` raises UnicodeEncodeError exactly on text with a non-ASCII character; otherwise None gives 'None', an int its decimal digits and text itself |
| History.FindField | apps/history/helpers.py:12 | `get_field` finds a field with the name iff one exists |
| History.GetValue | apps/history/helpers.py:11-21 | `get_value` raises FieldDoesNotExist for an unknown field, and otherwise UnicodeEncodeError exactly when the attribute it reads is non-ASCII text |
| History.GetValueOfField | apps/history/helpers.py:11-21 | a foreign key is read as `str(<field>_id)`, any other field as `str(<field>)`, failing exactly on non-ASCII text |
| History.StoredCount | apps/history/helpers.py:25-32 | the writers store the fields before the first whose value raises, or all of them |
| History.CreateDeleteMirror | apps/history/helpers.py:24-62 | one CREATE and one DELETE record per field in field order, up to the first field whose value raises, with UnicodeEncodeError iff there is one; the delete record is the create record with prev and next swapped |
| History.NonAsciiTitleStops | apps/history/helpers.py:24-33 | a task whose title holds a non-ASCII character gets the records of the fields Task declares before its title (`id`, and `workflow` stored as `workflow_id`) and then `create_history` raises UnicodeEncodeError |
| History.ChangeRow | apps/history/helpers.py:41-49 | one change's UPDATE record, or the error of `str()` of the old value (first) or of `get_value` |
| History.UpdateRowsShape | apps/history/helpers.py:36-50 | one UPDATE record per change in order, each the change's record; the writing stops exactly at the first change that raises, with FieldDoesNotExist or UnicodeEncodeError; no changes give no records |
| History.UpdateRowsPrefix | apps/history/helpers.py:41-50 | the records written are those of a prefix of the changes, and the change after them is the one that raised |
| History.CreateHistory | apps/history/helpers.py:24-33 | the table gains the create records written before any failure, and the outcome says whether a value raised |
| History.DeleteHistory | apps/history/helpers.py:53-62 | the table gains the delete records written before any failure, and the outcome says whether a value raised |
| History.WriteChange | apps/history/helpers.py:42-49 | one loop step adds the change's record, or raises and adds nothing |
| History.UpdateHistory | apps/history/helpers.py:36-50 | the table gains the update records written before any failure, and the outcome is the failure or success |
| History.Receiver | apps/history/signals.py:12-32 | only the three workflow models are tracked: creates on `post_save` with `created`, updates on `pre_save` of a record not being added, deletes on `pre_delete` |
| History.OnSignal | apps/history/signals.py:12-32 | the table gains the records of the receiver the signal reaches |
| History.SaveRows | apps/history/signals.py:12-25 | a save of a new tracked record writes exactly its create records and one of an existing record exactly its update records; an untracked model writes nothing |
| History.SaveWritesOneKind | apps/history/signals.py:12-25 | a save of a new record writes only CREATE records, one per field unless a value raises; a save of an existing one only UPDATE records |
| History.DeleteWritesDeletes | apps/history/signals.py:28-32 | a delete of a tracked record writes only DELETE records |
| History.RelatedDisplay | apps/history/models.py:38-44 | a foreign key shows the related row's representation; a non-numeric value raises ValueError and a missing row DoesNotExist |
| History.ChoiceDisplay | apps/history/models.py:46-50 | a choice value is converted with `int()` and looked up; a non-numeric value raises ValueError, an unknown key KeyError |
| History.DisplayValue | apps/history/models.py:52-63 | None and 'None' are shown unchanged; an unknown field raises; foreign keys and non-empty choices are converted; anything else is shown unchanged |
| History.PrevDisplay | apps/history/models.py:65-66 | a stored 'None' displays as 'None'; any other value of an unknown field raises FieldDoesNotExist; a display that succeeds is a string |
| History.NextDisplay | apps/history/models.py:68-69 | a stored 'None' displays as 'None'; any other value of an unknown field raises FieldDoesNotExist; a display that succeeds is a string |
| History.ContentObjectDisplay | apps/history/models.py:71-74 | the object's representation, or 'None' when it no longer exists |
| History.StoredValueDisplays | apps/history/models.py:65-69 | a create record that was written has a prev that displays as 'None', and a next that displays as the choice label, the related representation or the text itself |
| Report.TimeSpent | apps/report/views.py:27-34 | a task's time spent is defined iff it and its parent, if any, have `completed_at` |
| Report.TimeSpentSinceDue | apps/report/views.py:27-34 | a defined time spent is the completion minus the task's expected start |
| Report.SqlSum | apps/report/views.py:184-185 | SQL SUM is NULL iff every value is NULL |
| Report.SqlMax | apps/report/views.py:188 | SQL MAX is NULL iff every value is NULL, else a value that bounds every non-NULL one from above |
| Report.SqlMin | apps/report/views.py:187 | SQL MIN is NULL iff every value is NULL, else a value that bounds every non-NULL one from below |
| Report.CompletedTimes | apps/report/views.py:103-116 | every entry of the union is the time spent of a COMPLETE task of the queryset |
| Report.TasksTotal | apps/report/views.py:184-185 | `total_time_spent_on_tasks` is the plain sum of the defined completed-task times |
| Report.SqlSumCoalesced | apps/report/views.py:184-185 | SQL SUM with NULL read as zero equals the sum of the non-NULL values |
| Report.TasksMax | apps/report/views.py:188 | `max_time_spent_on_tasks` is zero when no time is defined, else a defined time that bounds all others from above |
| Report.TasksMin | apps/report/views.py:187 | `min_time_spent_on_tasks` is zero when no time is defined, else a defined time that bounds all others from below |
| Report.CompletedTimesHas | apps/report/views.py:103-116 | every completed task contributes its time spent |
| Report.TaskTimesBounds | apps/report/views.py:187-188 | the reported min and max bound every defined completed-task time and are attained |
| Report.TasksTotalStep | apps/report/views.py:103-111 | a task not COMPLETE adds nothing to the total; a completed one adds its time spent |
| Report.GroupSums | apps/report/views.py:132-139 | the per-workflow SUM over the counted tasks (its contract is stated by GroupKeys and GroupSumsValues) |
| Report.GroupSumsValues | apps/report/views.py:132-139 | a workflow has an entry iff its group of counted tasks is not empty, and the entry is the SQL SUM of that group |
| Report.GroupKeys | apps/report/views.py:132-139 | the per-workflow sums have an entry exactly for each workflow with a counted task |
| Report.Merge | apps/report/views.py:141-148 | the merge has every workflow of either side; a one-sided workflow keeps its sum, a two-sided one gets the total; a NULL sum added raises TypeError |
| Report.Insert | apps/report/views.py:157 | inserting into an ascending listing keeps it ascending and adds exactly the entry |
| Report.SortByWorkflow | apps/report/views.py:157 | the listing comes out ascending by workflow with the same entries |
| Report.AscendingUnique | apps/report/views.py:157 | two ascending listings with the same entries are equal |
| Report.GetWorkflowsTime | apps/report/views.py:131-158 | fails with TypeError iff the merge does; otherwise lists each workflow once with its merged total, ascending by workflow |
| Report.MergedIsMerge | apps/report/views.py:141-148 | the dictionary built by the two loops is the merge |
| Report.SortedIsListed | apps/report/views.py:150-157 | the sorted list of the dictionary's items is its ascending listing |
| Report.InsertWorkflow | apps/report/views.py:124-129 | each entry is paired with the workflow row at its index; fewer rows than entries raise IndexError |
| Report.InsertWorkflowPairs | apps/report/views.py:124-129 | because the listing is sorted by workflow, the index pairing gives every entry its own workflow |
| Report.MaxOf | apps/report/views.py:193 | the maximum is an element and bounds every element |
| Report.MinOf | apps/report/views.py:194 | the minimum is an element and is bounded by every element |
| Report.WorkflowTotals | apps/report/views.py:189-194 | a NULL sum raises TypeError; otherwise the total is the sum of the listed sums, and max and min are attained bounds, all zero for an empty listing |
| Report.TotalsSnoc | apps/report/views.py:189-191 | one step of the `reduce` adds the next sum to the total, and a NULL sum fails it |
| Report.SumOfSplits | apps/report/views.py:189-191 | the total of a concatenated listing is the sum of the totals |
| Report.DeltaSum | apps/report/views.py:220-222 | the sum of start deltas is NULL iff no task is COMPLETE |
| Report.TotalTimeSpend | apps/report/views.py:234-235 | given exactly the workflow's tasks, an INITIATED workflow has spent zero time |
| Report.ChainTelescopes | apps/report/views.py:27-34 | over a completed chain, the tasks' times spent add up to the last completion minus the workflow start minus the summed start deltas |
| Report.WorkflowTimeIsTaskTime | apps/report/views.py:234-239 | for a workflow all of whose tasks lie on one completed chain and which completed with its last task, `total_time_spend` equals the sum of its tasks' times spent |

## Left out

- Celery (`shared_task`, `apply_async`), `atomic` and `timezone.now()`: jobs are appended to a `JobQueue`, the clock is a parameter, and `atomic` is modelled as rolling back the database on failure (in the scheduler).
- Datetimes and timedeltas are whole seconds; sub-second precision and time zones are not modelled.
- Mail sending (`send_mail`, `email_user`, the templates): only which kind of mail is chosen is modelled.
- The `IsActiveCompanyEmployee` base check and authentication: the base check is a boolean parameter of the view-level predicates.
- `TaskAccessPermission.has_permission` returns the base check unchanged for every action, so it has no member of its own.
- Queryset order: the order of rows from a filter is unspecified, so loops choose any remaining row, and results are stated for every visiting order.
- Scheduler.StartWorkflow: its `save(update_fields=['status'])` of the workflow and its `save()` of the head task each fire the `pre_save` history receiver, which writes UPDATE History rows (or raises UnicodeEncodeError on non-ASCII text); those rows and that error are not modelled, since the scheduler's database holds no History table.
- Scheduler.StartTask: its status save fires the same `pre_save` history receiver; its History rows and any UnicodeEncodeError are not modelled, for the same reason.
- Scheduler.Eta: for a start already past, the source reads `timezone.now()` again; the model takes that reading to equal the scan's `current_time`, so the real ETA can be later by the time the loop has taken.
- Numerals.ParseInt: Python 2 `int()` of a unicode string also accepts non-ASCII decimal digits and non-ASCII whitespace; the model accepts ASCII digits and the ten ASCII whitespace characters only (tab, line feed, vertical tab, form feed, carriage return, the separators U+001C to U+001F, and space). The values the history writers store never contain either.
- A task's parent is always an earlier task of the same workflow: the API sets `parent_task` only in `create` and keeps it read-only. The Django admin's task form (apps/workflow/admin.py) can set any parent, even a cycle, on which `get_parent_start_time` would loop forever; the admin is not part of this model.
- Scheduler.StartWorkflow: `filter(parent_task__isnull=True)[0]` picks an unspecified head, so the contract holds for some head of the workflow.
- Scheduler.StatusSavesMail: no code in this repository enqueues `send_mail_for_workflow` or `send_mail_for_task`, so the lemma states which mail their rules would choose for the scheduler's saves, not that any mail is sent.
- The history receivers on the row-level deletes: `delete_history` runs on `pre_delete` and would raise UnicodeEncodeError on a row whose text is not ASCII, aborting the delete. WorkflowModels.DeleteTask, WorkflowModels.DeleteWorkflow and WorkflowModels.DeleteEmployee do not compose it, so they model such a delete as succeeding.
- Serializers.Create: the serializer's database does not hold the History rows that the `post_save` receiver writes; only the receiver's UnicodeEncodeError on a non-ASCII workflow name or task title or description is modelled, as a stop after the row that raised it has been inserted.
- The history tracker's `changed()` dictionary is a sequence of (field, old value) pairs in its iteration order.
- Field values in history are integers, unicode text or None; `str()` of datetimes and other types is not modelled. Text is taken to be unicode, as Django returns it from the database, so Python 2 `str()` encodes it as ASCII.
- `print` and `logger.debug` calls are left out.
- The averages of the reports are left out: they need timedelta division and rounding.
- Also left out of the reports: the counts, the latest task and workflow, the monthly counts, the earliest/latest assignee queries, and the IJLEmployeeCount and TopEmployeesReport views.
- Report.TotalTimeSpend: the contract states only the INITIATED case. The running or completed case is stated through WorkflowTimeIsTaskTime for a workflow whose chain is complete.
- Creation-time conflict validation and immediate scheduling at creation appear only in the project's documentation, not in the serializer code; they are not part of this model.
- The bulk accessor reconciler described in the project's documentation is not in the code; it is not part of this model.
- `WorkflowUpdateSerializer`, `WorkflowAccessUpdateSerializer` and the views, URLs, admin and migrations are not part of this model.

## Findings

| source | as written | input that shows it | evidently intended | confidence | as-written member | corrected member |
|---|---|---|---|---|---|---|
| apps/workflow/serializers.py:39-45 | the validation refuses every update by an assignee who is not admin and has no READ_WRITE grant, whatever the update changes | the assignee of a task, a non-admin with no grant, updates only its description (no new assignee) | per its docstring, such an assignee is refused only when changing the assignee; the object permission (permissions.py:84-87) lets the assignee update | not executed | Permissions.AssigneeEditRefused | Permissions.TaskUpdateCorrected |
