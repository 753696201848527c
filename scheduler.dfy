/** The status transitions and deferred jobs of the scheduler
    (apps/workflow/tasks.py): a workflow goes INITIATED -> SCHEDULED ->
    INPROGRESS and a task UPCOMING -> SCHEDULED -> ONGOING. Celery dispatch is
    an append to a job log; the clock is the parameter `now`. */
module Scheduler {
  import opened Common
  import opened WorkflowModels

  /** A deferred call: `start_workflow` at an absolute time, or `start_task`
      after a countdown in seconds. */
  datatype Job = StartWorkflowJob(workflow: Id, eta: int) | StartTaskJob(task: Id, countdown: int)

  /** The broker's queue, to which `apply_async` appends. */
  class JobQueue {
    var jobs: seq<Job>

    constructor ()
      ensures jobs == []
    {
      jobs := [];
    }
  }

  /** The deployment constants the scheduling code reads: the period of the
      periodic task in seconds and the two look-ahead thresholds in hours. */
  datatype Settings = Settings(
    taskPeriodicScheduleSeconds: int,
    workflowStartThresholdHours: int,
    taskStartThresholdHours: int)

  // ---------------------------------------------------------------------
  // Status writes
  // ---------------------------------------------------------------------

  /** `save(update_fields=['status'])` on a workflow. */
  function SetWorkflowStatus(db: Db, w: Id, status: WorkflowStatus): (r: Db)
    requires w in db.workflows
    ensures r.workflows.Keys == db.workflows.Keys
    ensures r.workflows[w] == db.workflows[w].(status := status)
    ensures forall x :: x in db.workflows && x != w ==> r.workflows[x] == db.workflows[x]
    ensures r.tasks == db.tasks && r.accesses == db.accesses && r.employees == db.employees
    ensures RefsValid(db) ==> RefsValid(r)
  {
    db.(workflows := db.workflows[w := db.workflows[w].(status := status)])
  }

  /** Saving a task whose only changed field is `status`. */
  function SetTaskStatus(db: Db, t: Id, status: TaskStatus): (r: Db)
    requires t in db.tasks
    ensures r.tasks.Keys == db.tasks.Keys
    ensures r.tasks[t] == db.tasks[t].(status := status)
    ensures forall x :: x in db.tasks && x != t ==> r.tasks[x] == db.tasks[x]
    ensures r.workflows == db.workflows && r.accesses == db.accesses && r.employees == db.employees
    ensures RefsValid(db) ==> RefsValid(r)
  {
    db.(tasks := db.tasks[t := db.tasks[t].(status := status)])
  }

  /** The bulk `update(status=SCHEDULED)` on a workflow queryset. */
  function MarkWorkflowsScheduled(db: Db, ws: set<Id>): (r: Db)
    ensures r.workflows.Keys == db.workflows.Keys
    ensures forall w :: w in db.workflows ==>
      r.workflows[w] == if w in ws then db.workflows[w].(status := WorkflowStatus.Scheduled) else db.workflows[w]
    ensures r.tasks == db.tasks && r.accesses == db.accesses && r.employees == db.employees
    ensures RefsValid(db) ==> RefsValid(r)
  {
    db.(workflows := map w | w in db.workflows ::
          if w in ws then db.workflows[w].(status := WorkflowStatus.Scheduled) else db.workflows[w])
  }

  /** The bulk `update(status=SCHEDULED)` on a task queryset. */
  function MarkTasksScheduled(db: Db, ts: set<Id>): (r: Db)
    ensures r.tasks.Keys == db.tasks.Keys
    ensures forall t :: t in db.tasks ==>
      r.tasks[t] == if t in ts then db.tasks[t].(status := TaskStatus.Scheduled) else db.tasks[t]
    ensures r.workflows == db.workflows && r.accesses == db.accesses && r.employees == db.employees
  {
    db.(tasks := map t | t in db.tasks ::
          if t in ts then db.tasks[t].(status := TaskStatus.Scheduled) else db.tasks[t])
  }

  /** The bulk status update keeps every reference valid. */
  lemma MarkTasksKeepsRefs(db: Db, ts: set<Id>)
    requires RefsValid(db)
    ensures RefsValid(MarkTasksScheduled(db, ts))
  {
  }

  // ---------------------------------------------------------------------
  // start_workflow and start_task
  // ---------------------------------------------------------------------

  /** Whether `start_workflow` schedules the head task itself: its start delta
      is shorter than one period of the periodic task. */
  predicate HeadStartsNow(db: Db, s: Settings, h: Id)
    requires h in db.tasks
  {
    db.tasks[h].startDelta < s.taskPeriodicScheduleSeconds
  }

  /** The database after `start_workflow(w)` picked head `h`: the workflow is
      INPROGRESS, and the head is SCHEDULED when it starts within one period;
      nothing else changes. */
  function StartedWorkflow(db: Db, s: Settings, w: Id, h: Id): (r: Db)
    requires w in db.workflows && h in Heads(db, w)
    ensures r.workflows.Keys == db.workflows.Keys && r.tasks.Keys == db.tasks.Keys
    ensures r.workflows[w] == db.workflows[w].(status := InProgress)
    ensures forall x :: x in db.workflows && x != w ==> r.workflows[x] == db.workflows[x]
    ensures r.tasks[h] == if HeadStartsNow(db, s, h) then db.tasks[h].(status := TaskStatus.Scheduled) else db.tasks[h]
    ensures forall t :: t in db.tasks && t != h ==> r.tasks[t] == db.tasks[t]
    ensures r.accesses == db.accesses && r.employees == db.employees
    ensures RefsValid(db) ==> RefsValid(r)
  {
    var db1 := SetWorkflowStatus(db, w, InProgress);
    if HeadStartsNow(db, s, h) then SetTaskStatus(db1, h, TaskStatus.Scheduled) else db1
  }

  /** The job `start_workflow` dispatches for head `h`, if any: `start_task`
      after the `.seconds` of the head's start delta. */
  function HeadJobs(db: Db, s: Settings, h: Id): (jobs: seq<Job>)
    requires h in db.tasks
    ensures |jobs| <= 1
    ensures jobs != [] <==> HeadStartsNow(db, s, h)
    ensures jobs != [] ==> jobs[0] == StartTaskJob(h, TimedeltaSeconds(db.tasks[h].startDelta))
  {
    if HeadStartsNow(db, s, h) then [StartTaskJob(h, TimedeltaSeconds(db.tasks[h].startDelta))] else []
  }

  /** `start_workflow`, an atomic transaction: a missing workflow raises
      DoesNotExist, a workflow without a head task raises IndexError and the
      status write is rolled back; otherwise some head (the queryset has no
      order) is taken. */
  method StartWorkflow(d: Database, q: JobQueue, s: Settings, workflowId: Id) returns (out: Outcome)
    modifies d, q
    ensures workflowId !in old(d.db).workflows ==>
      out == Fail(DoesNotExist) && d.db == old(d.db) && q.jobs == old(q.jobs)
    ensures workflowId in old(d.db).workflows && Heads(old(d.db), workflowId) == {} ==>
      out == Fail(IndexError) && d.db == old(d.db) && q.jobs == old(q.jobs)
    ensures workflowId in old(d.db).workflows && Heads(old(d.db), workflowId) != {} ==>
      && out == Pass
      && exists h :: h in Heads(old(d.db), workflowId) &&
           d.db == StartedWorkflow(old(d.db), s, workflowId, h) &&
           q.jobs == old(q.jobs) + HeadJobs(old(d.db), s, h)
  {
    if workflowId !in d.db.workflows {
      return Fail(DoesNotExist);
    }
    var before := d.db;
    d.db := SetWorkflowStatus(d.db, workflowId, InProgress);
    var heads := Heads(d.db, workflowId);
    assert heads == Heads(before, workflowId);
    if heads == {} {
      d.db := before;
      return Fail(IndexError);
    }
    var firstTask :| firstTask in heads;
    if d.db.tasks[firstTask].startDelta < s.taskPeriodicScheduleSeconds {
      d.db := SetTaskStatus(d.db, firstTask, TaskStatus.Scheduled);
      q.jobs := q.jobs + [StartTaskJob(firstTask, TimedeltaSeconds(d.db.tasks[firstTask].startDelta))];
    }
    assert d.db == StartedWorkflow(before, s, workflowId, firstTask);
    out := Pass;
  }

  /** `start_task`: the task becomes ONGOING whatever its status was; only
      `status` is written. */
  method StartTask(d: Database, taskId: Id) returns (out: Outcome)
    modifies d
    ensures taskId !in old(d.db).tasks ==> out == Fail(DoesNotExist) && d.db == old(d.db)
    ensures taskId in old(d.db).tasks ==>
      out == Pass && d.db == SetTaskStatus(old(d.db), taskId, Ongoing)
  {
    if taskId !in d.db.tasks {
      return Fail(DoesNotExist);
    }
    d.db := SetTaskStatus(d.db, taskId, Ongoing);
    out := Pass;
  }

  // ---------------------------------------------------------------------
  // start_workflows_periodic
  // ---------------------------------------------------------------------

  /** The workflows the periodic scan selects: INITIATED ones starting before
      `now` plus the look-ahead. */
  function WorkflowsDue(db: Db, s: Settings, now: int): set<Id> {
    set w | w in db.workflows && db.workflows[w].status == Initiated &&
            db.workflows[w].startAt < now + Hours(s.workflowStartThresholdHours)
  }

  /** The time a selected workflow is started: its own start when that is
      still ahead, otherwise ten seconds from now. */
  function Eta(startAt: int, now: int): (eta: int)
    ensures eta > now && eta >= startAt
    ensures eta == startAt <==> startAt > now
    ensures startAt <= now ==> eta == now + 10
  {
    if startAt > now then startAt else now + 10
  }

  /** `order` lists each element of `xs` exactly once: an iteration order of a
      queryset. */
  ghost predicate Enumerates(order: seq<Id>, xs: set<Id>) {
    && (forall i, j :: 0 <= i < j < |order| ==> order[i] != order[j])
    && (forall x :: x in order <==> x in xs)
  }

  /** Visiting one more element extends the enumeration. */
  lemma EnumeratesSnoc(order: seq<Id>, xs: set<Id>, x: Id)
    requires Enumerates(order, xs) && x !in xs
    ensures Enumerates(order + [x], xs + {x})
  {
  }

  /** Taking one more element out of `remaining` extends the enumeration of
      what has been visited, and shrinks what is left. */
  lemma VisitNext(order: seq<Id>, xs: set<Id>, remaining: set<Id>, x: Id)
    requires Enumerates(order, xs - remaining) && x in remaining && remaining <= xs
    ensures Enumerates(order + [x], xs - (remaining - {x}))
    ensures |remaining - {x}| < |remaining|
  {
    EnumeratesSnoc(order, xs - remaining, x);
    assert xs - (remaining - {x}) == (xs - remaining) + {x};
  }

  /** The jobs dispatched while visiting the workflows of `order`. */
  function WorkflowJobs(db: Db, now: int, order: seq<Id>): seq<Job>
    requires forall x :: x in order ==> x in db.workflows
  {
    if order == [] then []
    else
      var w := order[|order| - 1];
      WorkflowJobs(db, now, order[..|order| - 1]) + [StartWorkflowJob(w, Eta(db.workflows[w].startAt, now))]
  }

  /** The log holds, in visiting order, one `start_workflow` job per visited
      workflow, with that workflow's ETA. */
  lemma {:induction false} WorkflowJobsContent(db: Db, now: int, order: seq<Id>)
    requires forall x :: x in order ==> x in db.workflows
    ensures |WorkflowJobs(db, now, order)| == |order|
    ensures forall i :: 0 <= i < |order| ==>
      WorkflowJobs(db, now, order)[i] == StartWorkflowJob(order[i], Eta(db.workflows[order[i]].startAt, now))
  {
    if order != [] {
      var init := order[..|order| - 1];
      assert forall x :: x in init ==> x in order;
      WorkflowJobsContent(db, now, init);
    }
  }

  /** `start_workflows_periodic`: each selected workflow is dispatched once, in
      the queryset's (unspecified) order, then all of them become SCHEDULED. */
  method StartWorkflowsPeriodic(d: Database, q: JobQueue, s: Settings, now: int)
    modifies d, q
    ensures d.db == MarkWorkflowsScheduled(old(d.db), WorkflowsDue(old(d.db), s, now))
    ensures exists order ::
      && Enumerates(order, WorkflowsDue(old(d.db), s, now))
      && q.jobs == old(q.jobs) + WorkflowJobs(old(d.db), now, order)
  {
    var db := d.db;
    var due := WorkflowsDue(db, s, now);
    var remaining := due;
    ghost var order: seq<Id> := [];
    while remaining != {}
      invariant remaining <= due
      invariant Enumerates(order, due - remaining)
      invariant q.jobs == old(q.jobs) + WorkflowJobs(db, now, order)
      decreases |remaining|
    {
      var w :| w in remaining;
      var workflow := db.workflows[w];
      var eta := if workflow.startAt > now then workflow.startAt else now + 10;
      q.jobs := q.jobs + [StartWorkflowJob(w, eta)];
      EnumeratesSnoc(order, due - remaining, w);
      assert due - (remaining - {w}) == (due - remaining) + {w};
      order := order + [w];
      remaining := remaining - {w};
    }
    d.db := MarkWorkflowsScheduled(db, due);
  }

  /** A second scan at the same clock selects nothing: every selected workflow
      left INITIATED, and no other workflow changed. */
  lemma WorkflowScanIdempotent(db: Db, s: Settings, now: int)
    ensures WorkflowsDue(MarkWorkflowsScheduled(db, WorkflowsDue(db, s, now)), s, now) == {}
  {
    var r := MarkWorkflowsScheduled(db, WorkflowsDue(db, s, now));
    forall w | w in r.workflows
      ensures w !in WorkflowsDue(r, s, now)
    {
      if w in WorkflowsDue(db, s, now) {
        assert r.workflows[w].status == WorkflowStatus.Scheduled;
      }
    }
  }

  // ---------------------------------------------------------------------
  // schedule_tasks_helper and start_tasks_periodic
  // ---------------------------------------------------------------------

  /** The time left until a task should start: its parent's completion (the
      workflow's start for a head) plus its start delta, minus now. None when
      the parent has no `completed_at`, where adding to None raises a
      TypeError. */
  function TaskDelay(db: Db, t: Id, now: int): (delay: Option<int>)
    requires RefsValid(db) && t in db.tasks
    ensures db.tasks[t].parent.None? ==>
      delay == Some(db.workflows[db.tasks[t].workflow].startAt + db.tasks[t].startDelta - now)
    ensures db.tasks[t].parent.Some? ==>
      (delay.Some? <==> db.tasks[db.tasks[t].parent.value].completedAt.Some?)
    ensures db.tasks[t].parent.Some? && db.tasks[db.tasks[t].parent.value].completedAt.Some? ==>
      delay == Some(db.tasks[db.tasks[t].parent.value].completedAt.value + db.tasks[t].startDelta - now)
  {
    var task := db.tasks[t];
    if task.parent.Some? then
      var parent := db.tasks[task.parent.value];
      if parent.completedAt.Some? then Some(parent.completedAt.value + task.startDelta - now)
      else None
    else Some(db.workflows[task.workflow].startAt + task.startDelta - now)
  }

  /** The countdown handed to `start_task`: a delay already past becomes ten
      seconds, and `.seconds` keeps only the part below one day. */
  function Countdown(delay: int): (c: int)
    ensures 0 <= c < SecondsPerDay
    ensures delay < 0 ==> c == 10
    ensures 0 <= delay < SecondsPerDay ==> c == delay
  {
    TimedeltaSeconds(if delay < 0 then 10 else delay)
  }

  /** Every task of `order` exists and its delay is defined. */
  ghost predicate Delayed(db: Db, now: int, order: seq<Id>)
    requires RefsValid(db)
  {
    forall x :: x in order ==> x in db.tasks && TaskDelay(db, x, now).Some?
  }

  /** A task whose delay is below the look-ahead threshold gets a job. */
  predicate TaskDue(db: Db, s: Settings, now: int, t: Id)
    requires RefsValid(db) && t in db.tasks && TaskDelay(db, t, now).Some?
  {
    TaskDelay(db, t, now).value < Hours(s.taskStartThresholdHours)
  }

  /** The jobs dispatched while visiting the tasks of `order`. */
  function TaskJobs(db: Db, s: Settings, now: int, order: seq<Id>): seq<Job>
    requires RefsValid(db) && Delayed(db, now, order)
  {
    if order == [] then []
    else
      var t := order[|order| - 1];
      TaskJobs(db, s, now, order[..|order| - 1]) +
        (if TaskDue(db, s, now, t) then [StartTaskJob(t, Countdown(TaskDelay(db, t, now).value))] else [])
  }

  /** Visiting one more task appends its job when it is due. */
  lemma TaskJobsSnoc(db: Db, s: Settings, now: int, order: seq<Id>, t: Id)
    requires RefsValid(db) && Delayed(db, now, order)
    requires t in db.tasks && TaskDelay(db, t, now).Some?
    ensures Delayed(db, now, order + [t])
    ensures TaskJobs(db, s, now, order + [t]) == TaskJobs(db, s, now, order) + VisitJobs(db, s, now, t)
  {
    assert (order + [t])[..|order|] == order;
  }

  /** The log holds a `start_task` job, with its countdown, for exactly the
      due tasks of the visiting order, and for each of them once. */
  lemma {:induction false} TaskJobsContent(db: Db, s: Settings, now: int, order: seq<Id>)
    requires RefsValid(db) && Delayed(db, now, order)
    requires forall i, j :: 0 <= i < j < |order| ==> order[i] != order[j]
    ensures forall j :: j in TaskJobs(db, s, now, order) ==>
      && j.StartTaskJob? && j.task in order && TaskDue(db, s, now, j.task)
      && j.countdown == Countdown(TaskDelay(db, j.task, now).value)
    ensures forall x :: x in order && TaskDue(db, s, now, x) ==>
      StartTaskJob(x, Countdown(TaskDelay(db, x, now).value)) in TaskJobs(db, s, now, order)
    ensures forall i, k :: 0 <= i < k < |TaskJobs(db, s, now, order)| ==>
      TaskJobs(db, s, now, order)[i].task != TaskJobs(db, s, now, order)[k].task
  {
    if order != [] {
      var init := order[..|order| - 1];
      var t := order[|order| - 1];
      assert forall x :: x in init ==> x in order;
      assert forall x :: x in order ==> x in init || x == t;
      assert t !in init;
      TaskJobsContent(db, s, now, init);
    }
  }

  /** The job one visit dispatches: a `start_task` job when the task is due. */
  function VisitJobs(db: Db, s: Settings, now: int, t: Id): seq<Job>
    requires RefsValid(db) && t in db.tasks && TaskDelay(db, t, now).Some?
  {
    if TaskDue(db, s, now, t) then [StartTaskJob(t, Countdown(TaskDelay(db, t, now).value))] else []
  }

  /** One visit of `schedule_tasks_helper`'s loop: the task's delay from its
      parent's completion (the workflow's start for a head); a due task gets a
      `start_task` job. A parent without `completed_at` raises TypeError
      before anything is dispatched. */
  method DispatchTask(q: JobQueue, db: Db, s: Settings, now: int, t: Id) returns (out: Outcome)
    requires RefsValid(db) && t in db.tasks
    modifies q
    ensures out.Fail? <==> TaskDelay(db, t, now).None?
    ensures out.Fail? ==> out.error == TypeError && q.jobs == old(q.jobs)
    ensures out == Pass ==> q.jobs == old(q.jobs) + VisitJobs(db, s, now, t)
  {
    var task := db.tasks[t];
    var deltaTime;
    if task.parent.Some? {
      var parent := db.tasks[task.parent.value];
      if parent.completedAt.None? {
        return Fail(TypeError);
      }
      deltaTime := parent.completedAt.value + task.startDelta - now;
    } else {
      deltaTime := db.workflows[task.workflow].startAt + task.startDelta - now;
    }
    if deltaTime < Hours(s.taskStartThresholdHours) {
      if deltaTime < 0 {
        deltaTime := 10;
      }
      q.jobs := q.jobs + [StartTaskJob(t, TimedeltaSeconds(deltaTime))];
    }
    return Pass;
  }

  /** `schedule_tasks_helper`, an atomic transaction: every task of the
      queryset is visited in unspecified order and a job dispatched for each
      due one; then EVERY task of the queryset is marked SCHEDULED, the
      not-due ones included (the `exclude` result is discarded). A task whose
      parent lacks `completed_at` raises TypeError: the database write is
      rolled back, but the jobs dispatched before it stay queued. */
  method ScheduleTasksHelper(d: Database, q: JobQueue, s: Settings, now: int, tasks: set<Id>)
    returns (out: Outcome, ghost order: seq<Id>)
    requires RefsValid(d.db) && tasks <= d.db.tasks.Keys
    modifies d, q
    ensures out.Fail? <==> exists t :: t in tasks && TaskDelay(old(d.db), t, now).None?
    ensures out.Fail? ==> out.error == TypeError && d.db == old(d.db)
    ensures out == Pass ==> d.db == MarkTasksScheduled(old(d.db), tasks)
    ensures Delayed(old(d.db), now, order)
    ensures forall i, j :: 0 <= i < j < |order| ==> order[i] != order[j]
    ensures forall x :: x in order ==> x in tasks
    ensures out == Pass ==> Enumerates(order, tasks)
    ensures q.jobs == old(q.jobs) + TaskJobs(old(d.db), s, now, order)
  {
    out, order := DispatchAll(q, d.db, s, now, tasks);
    if out == Pass {
      d.db := MarkTasksScheduled(d.db, tasks);
    }
  }

  /** The loop of `schedule_tasks_helper`: each task of the queryset visited
      once, in unspecified order, until one raises. */
  method DispatchAll(q: JobQueue, db: Db, s: Settings, now: int, tasks: set<Id>)
    returns (out: Outcome, ghost order: seq<Id>)
    requires RefsValid(db) && tasks <= db.tasks.Keys
    modifies q
    ensures out.Fail? <==> exists t :: t in tasks && TaskDelay(db, t, now).None?
    ensures out.Fail? ==> out.error == TypeError
    ensures Delayed(db, now, order)
    ensures forall i, j :: 0 <= i < j < |order| ==> order[i] != order[j]
    ensures forall x :: x in order ==> x in tasks
    ensures out == Pass ==> Enumerates(order, tasks)
    ensures q.jobs == old(q.jobs) + TaskJobs(db, s, now, order)
  {
    var remaining := tasks;
    order := [];
    while remaining != {}
      invariant remaining <= tasks
      invariant Enumerates(order, tasks - remaining) && Delayed(db, now, order)
      invariant q.jobs == old(q.jobs) + TaskJobs(db, s, now, order)
      decreases |remaining|
    {
      var t :| t in remaining;
      ghost var before := TaskJobs(db, s, now, order);
      var visit := DispatchTask(q, db, s, now, t);
      if visit.Fail? {
        return visit, order;
      }
      TaskJobsSnoc(db, s, now, order, t);
      assert q.jobs == old(q.jobs) + (before + VisitJobs(db, s, now, t));
      VisitNext(order, tasks, remaining, t);
      order := order + [t];
      remaining := remaining - {t};
    }
    assert tasks - remaining == tasks;
    out := Pass;
  }

  /** The first selection of `start_tasks_periodic`: UPCOMING tasks whose
      parent is COMPLETE. */
  function ChildrenReady(db: Db): (r: set<Id>)
    ensures r <= db.tasks.Keys
  {
    set t | t in db.tasks && db.tasks[t].status == Upcoming && db.tasks[t].parent.Some? &&
            db.tasks[t].parent.value in db.tasks &&
            db.tasks[db.tasks[t].parent.value].status == TaskStatus.Complete
  }

  /** The second selection: UPCOMING head tasks whose workflow is INPROGRESS. */
  function HeadsReady(db: Db): (r: set<Id>)
    ensures r <= db.tasks.Keys
  {
    set t | t in db.tasks && db.tasks[t].status == Upcoming && db.tasks[t].parent.None? &&
            db.tasks[t].workflow in db.workflows &&
            db.workflows[db.tasks[t].workflow].status == InProgress
  }

  /** Marking the first selection leaves the second selection as it was. */
  lemma FirstPassKeepsSecond(db: Db)
    requires RefsValid(db)
    ensures HeadsReady(MarkTasksScheduled(db, ChildrenReady(db))) == HeadsReady(db)
  {
  }

  /** A delay reads completion times, starts and start deltas, which the bulk
      status update leaves alone. */
  lemma TaskDelayAfterMark(db: Db, marked: set<Id>, now: int, t: Id)
    requires RefsValid(db) && RefsValid(MarkTasksScheduled(db, marked)) && t in db.tasks
    ensures TaskDelay(MarkTasksScheduled(db, marked), t, now) == TaskDelay(db, t, now)
  {
  }

  /** Delays depend on completion times and starts, not on statuses, so
      marking tasks SCHEDULED does not change the jobs a visit dispatches. */
  lemma {:induction false} TaskJobsAfterMark(db: Db, marked: set<Id>, s: Settings, now: int, order: seq<Id>)
    requires RefsValid(db) && RefsValid(MarkTasksScheduled(db, marked))
    requires Delayed(MarkTasksScheduled(db, marked), now, order)
    ensures Delayed(db, now, order)
    ensures TaskJobs(MarkTasksScheduled(db, marked), s, now, order) == TaskJobs(db, s, now, order)
  {
    var db1 := MarkTasksScheduled(db, marked);
    forall x | x in order
      ensures x in db.tasks && TaskDelay(db, x, now).Some?
    {
      TaskDelayAfterMark(db, marked, now, x);
    }
    if order != [] {
      var init := order[..|order| - 1];
      var t := order[|order| - 1];
      assert order == init + [t];
      assert forall x :: x in init ==> x in order;
      TaskJobsAfterMark(db, marked, s, now, init);
      TaskDelayAfterMark(db, marked, now, t);
      TaskJobsSnoc(db1, s, now, init, t);
      TaskJobsSnoc(db, s, now, init, t);
    }
  }

  /** `start_tasks_periodic`: the two selections, each handed to the helper.
      It is not itself atomic, so when the second helper fails the first
      one's marking stays. */
  method StartTasksPeriodic(d: Database, q: JobQueue, s: Settings, now: int) returns (out: Outcome)
    requires RefsValid(d.db)
    modifies d, q
    ensures out.Fail? ==>
      && out.error == TypeError
      && (d.db == old(d.db) || d.db == MarkTasksScheduled(old(d.db), ChildrenReady(old(d.db))))
    ensures out == Pass ==>
      d.db == MarkTasksScheduled(MarkTasksScheduled(old(d.db), ChildrenReady(old(d.db))), HeadsReady(old(d.db)))
    ensures |old(q.jobs)| <= |q.jobs| && q.jobs[..|old(q.jobs)|] == old(q.jobs)
    ensures out == Pass ==>
      exists first, second ::
        && Enumerates(first, ChildrenReady(old(d.db))) && Delayed(old(d.db), now, first)
        && Enumerates(second, HeadsReady(old(d.db))) && Delayed(old(d.db), now, second)
        && q.jobs == old(q.jobs) + TaskJobs(old(d.db), s, now, first) + TaskJobs(old(d.db), s, now, second)
  {
    ghost var db0 := d.db;
    var children := ChildrenReady(d.db);
    ghost var first;
    out, first := ScheduleTasksHelper(d, q, s, now, children);
    if out.Fail? {
      return;
    }
    ghost var db1 := d.db;
    assert db1 == MarkTasksScheduled(db0, children);
    FirstPassKeepsSecond(db0);
    MarkTasksKeepsRefs(db0, children);
    var heads := HeadsReady(d.db);
    ghost var jobs1 := q.jobs;
    ghost var second;
    out, second := ScheduleTasksHelper(d, q, s, now, heads);
    TaskJobsAfterMark(db0, children, s, now, second);
  }

  /** After a successful run, a second run at the same clock selects nothing:
      every selected task left UPCOMING, and no parent's or workflow's status
      changed from COMPLETE or INPROGRESS. */
  lemma TaskScanIdempotent(db: Db)
    requires RefsValid(db)
    ensures var r := MarkTasksScheduled(MarkTasksScheduled(db, ChildrenReady(db)), HeadsReady(db));
      ChildrenReady(r) == {} && HeadsReady(r) == {}
  {
    var db1 := MarkTasksScheduled(db, ChildrenReady(db));
    var r := MarkTasksScheduled(db1, HeadsReady(db));
    forall t | t in r.tasks
      ensures t !in ChildrenReady(r) && t !in HeadsReady(r)
    {
      if r.tasks[t].status == Upcoming {
        assert db.tasks[t].status == Upcoming && t !in ChildrenReady(db) && t !in HeadsReady(db);
      }
    }
  }

  // ---------------------------------------------------------------------
  // Notification decisions
  // ---------------------------------------------------------------------

  /** Which notification an update sends. */
  datatype Mail = CompletedMail | StartedMail | UpdatedMail | NoMail

  /** `update_fields` is None or a set of field names; Python treats None and
      the empty set as false. */
  predicate Truthy(updateFields: Option<set<string>>) {
    updateFields.Some? && updateFields.value != {}
  }

  /** `send_mail_for_workflow` after its instance is loaded. */
  function WorkflowMail(status: WorkflowStatus, updateFields: Option<set<string>>): (m: Mail)
    ensures m == CompletedMail <==> status == WorkflowStatus.Complete
    ensures m == StartedMail <==>
      status == InProgress && Truthy(updateFields) && "status" in updateFields.value
    ensures m == UpdatedMail <==> status != WorkflowStatus.Complete && !Truthy(updateFields)
  {
    if status == WorkflowStatus.Complete then CompletedMail
    else if Truthy(updateFields) then
      if "status" in updateFields.value && status == InProgress then StartedMail
      else if "status" in updateFields.value && status == WorkflowStatus.Scheduled then NoMail
      else NoMail
    else UpdatedMail
  }

  /** `send_mail_for_task` after its instance is loaded. */
  function TaskMail(status: TaskStatus, updateFields: Option<set<string>>): (m: Mail)
    ensures m == CompletedMail <==> status == TaskStatus.Complete
    ensures m == StartedMail <==>
      status == Ongoing && Truthy(updateFields) && "status" in updateFields.value
    ensures m == UpdatedMail <==> status != TaskStatus.Complete && !Truthy(updateFields)
  {
    if status == TaskStatus.Complete then CompletedMail
    else if Truthy(updateFields) then
      if "status" in updateFields.value && status == Ongoing then StartedMail
      else if "status" in updateFields.value && status == TaskStatus.Scheduled then NoMail
      else NoMail
    else UpdatedMail
  }

  /** The mail a save by the scheduler would choose, if that save reached
      `send_mail_for_workflow` / `send_mail_for_task`. `start_workflow` saves
      the workflow with `update_fields=['status']`, which would choose the
      started mail; it saves the head task SCHEDULED with a full `save()`,
      which would choose the "updated" mail; `start_task` saves with
      `update_fields=['status']`, which would choose the started mail. No
      code in this repository enqueues the two mail jobs, so these choices
      are what the mail rules give, not mail that is sent. */
  lemma StatusSavesMail()
    ensures WorkflowMail(InProgress, Some({"status"})) == StartedMail
    ensures TaskMail(TaskStatus.Scheduled, None) == UpdatedMail
    ensures TaskMail(Ongoing, Some({"status"})) == StartedMail
  {
  }
}
