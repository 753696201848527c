/** Validation and creation of workflows, tasks and access grants
    (apps/workflow/serializers.py): the start-time and same-company checks,
    the nested create that links the tasks into one chain in input order,
    and the per-person notification record it accumulates. */
module Serializers {
  import opened Common
  import opened WorkflowModels

  /** One entry of the nested `tasks` list of a create request. */
  datatype TaskInput = TaskInput(
    title: string,
    assignee: Id,
    duration: int,
    description: string := "",
    startDelta: int := 0)

  /** One entry of the nested `accessors` list; `permission` defaults to READ. */
  datatype AccessorInput = AccessorInput(employee: Id, permission: Permission := Read)

  /** The validated data of a workflow create request. */
  datatype WorkflowInput = WorkflowInput(
    template: Id,
    name: string,
    startAt: int,
    tasks: seq<TaskInput>,
    accessors: seq<AccessorInput>)

  /** Every employee the request names exists (the field-level lookups that
      run before `validate`). */
  ghost predicate Resolved(db: Db, input: WorkflowInput) {
    && (forall i :: 0 <= i < |input.tasks| ==> input.tasks[i].assignee in db.employees)
    && (forall i :: 0 <= i < |input.accessors| ==> input.accessors[i].employee in db.employees)
  }

  // ---------------------------------------------------------------------
  // validate
  // ---------------------------------------------------------------------

  /** `WorkflowBaseSerializer.validate`: a start strictly before now is refused. */
  function ValidateStart(startAt: int, now: int): (r: Outcome)
    ensures r == Pass <==> startAt >= now
    ensures r != Pass ==> r == Fail(ValidationError(StartInPast))
  {
    if startAt < now then Fail(ValidationError(StartInPast)) else Pass
  }

  /** Whether every task's assignee belongs to `company`, checked in order. */
  function AssigneesIn(db: Db, company: Id, tasks: seq<TaskInput>): (ok: bool)
    requires forall i :: 0 <= i < |tasks| ==> tasks[i].assignee in db.employees
    ensures ok <==> forall i :: 0 <= i < |tasks| ==> db.employees[tasks[i].assignee].company == company
  {
    if tasks == [] then true
    else if db.employees[tasks[0].assignee].company != company then false
    else
      assert forall i :: 1 <= i < |tasks| ==> tasks[1..][i - 1] == tasks[i];
      AssigneesIn(db, company, tasks[1..])
  }

  /** Whether every accessor's employee belongs to `company`, checked in order. */
  function AccessorsIn(db: Db, company: Id, accessors: seq<AccessorInput>): (ok: bool)
    requires forall i :: 0 <= i < |accessors| ==> accessors[i].employee in db.employees
    ensures ok <==> forall i :: 0 <= i < |accessors| ==> db.employees[accessors[i].employee].company == company
  {
    if accessors == [] then true
    else if db.employees[accessors[0].employee].company != company then false
    else
      assert forall i :: 1 <= i < |accessors| ==> accessors[1..][i - 1] == accessors[i];
      AccessorsIn(db, company, accessors[1..])
  }

  /** `WorkflowCreateSerializer.validate`: the start check first, then every
      assignee, then every accessor must be in the requesting employee's
      company; the first failing check names the error. */
  function ValidateCreate(db: Db, employee: Id, input: WorkflowInput, now: int): (r: Outcome)
    requires employee in db.employees && Resolved(db, input)
    ensures r == Pass <==>
      && input.startAt >= now
      && (forall i :: 0 <= i < |input.tasks| ==>
            db.employees[input.tasks[i].assignee].company == db.employees[employee].company)
      && (forall i :: 0 <= i < |input.accessors| ==>
            db.employees[input.accessors[i].employee].company == db.employees[employee].company)
    ensures input.startAt < now ==> r == Fail(ValidationError(StartInPast))
    ensures input.startAt >= now && r != Pass && r != Fail(ValidationError(AccessorOtherCompany)) ==>
      r == Fail(ValidationError(AssigneeOtherCompany))
    ensures r == Fail(ValidationError(AccessorOtherCompany)) ==>
      forall i :: 0 <= i < |input.tasks| ==>
        db.employees[input.tasks[i].assignee].company == db.employees[employee].company
  {
    var company := db.employees[employee].company;
    if ValidateStart(input.startAt, now) != Pass then ValidateStart(input.startAt, now)
    else if !AssigneesIn(db, company, input.tasks) then Fail(ValidationError(AssigneeOtherCompany))
    else if !AccessorsIn(db, company, input.accessors) then Fail(ValidationError(AccessorOtherCompany))
    else Pass
  }

  /** The requester is the task's assignee and nothing more: not an admin and
      without a READ_WRITE grant on the task's workflow. */
  predicate IsOnlyAssignee(db: Db, requester: Id, t: Id)
    requires requester in db.employees && t in db.tasks
  {
    && db.tasks[t].assignee == requester
    && !db.employees[requester].isAdmin
    && !HasReadWriteGrant(db, requester, db.tasks[t].workflow)
  }

  /** `TaskUpdateSerializer.validate`. An update by the task's assignee alone
      is refused whatever fields it changes; a new assignee must be in the
      requester's company. */
  function ValidateTaskUpdate(db: Db, requester: Id, t: Id, newAssignee: Option<Id>): (r: Outcome)
    requires requester in db.employees && t in db.tasks
    requires newAssignee.Some? ==> newAssignee.value in db.employees
    ensures r == Fail(ValidationError(AssigneeLacksPermission)) <==>
      && db.tasks[t].assignee == requester
      && !db.employees[requester].isAdmin
      && !HasReadWriteGrant(db, requester, db.tasks[t].workflow)
    ensures r == Fail(ValidationError(NewAssigneeOtherCompany)) <==>
      && !IsOnlyAssignee(db, requester, t)
      && newAssignee.Some?
      && db.employees[newAssignee.value].company != db.employees[requester].company
    ensures r == Pass || r == Fail(ValidationError(AssigneeLacksPermission)) ||
            r == Fail(ValidationError(NewAssigneeOtherCompany))
  {
    if IsOnlyAssignee(db, requester, t) then Fail(ValidationError(AssigneeLacksPermission))
    else if newAssignee.Some? &&
            db.employees[newAssignee.value].company != db.employees[requester].company
    then Fail(ValidationError(NewAssigneeOtherCompany))
    else Pass
  }

  /** The task-update check as its description and message state it: an
      assignee without admin rights or a READ_WRITE grant may not change the
      assignee; updates that leave the assignee alone pass. */
  function ValidateTaskUpdateCorrected(db: Db, requester: Id, t: Id, newAssignee: Option<Id>): (r: Outcome)
    requires requester in db.employees && t in db.tasks
    requires newAssignee.Some? ==> newAssignee.value in db.employees
    ensures r == Fail(ValidationError(AssigneeLacksPermission)) <==>
      IsOnlyAssignee(db, requester, t) && newAssignee.Some?
    ensures r == Fail(ValidationError(NewAssigneeOtherCompany)) <==>
      && !IsOnlyAssignee(db, requester, t)
      && newAssignee.Some?
      && db.employees[newAssignee.value].company != db.employees[requester].company
    ensures newAssignee.None? ==> r == Pass
  {
    if newAssignee.None? then Pass
    else if IsOnlyAssignee(db, requester, t) then Fail(ValidationError(AssigneeLacksPermission))
    else if db.employees[newAssignee.value].company != db.employees[requester].company
    then Fail(ValidationError(NewAssigneeOtherCompany))
    else Pass
  }

  /** `WorkflowAccessCreateSerializer.validate`: the workflow of the URL must
      exist, and the employee must be in the company of its creator. */
  function ValidateAccessCreate(db: Db, workflowId: Id, employee: Id): (r: Outcome)
    requires WorkflowsValid(db) && employee in db.employees
    ensures r == Fail(DoesNotExist) <==> workflowId !in db.workflows
    ensures r == Pass <==>
      workflowId in db.workflows &&
      db.employees[employee].company == db.employees[db.workflows[workflowId].creator].company
    ensures r == Pass || r == Fail(DoesNotExist) || r == Fail(ValidationError(EmployeeOtherCompany))
  {
    if workflowId !in db.workflows then Fail(DoesNotExist)
    else if db.employees[employee].company != db.employees[db.workflows[workflowId].creator].company
    then Fail(ValidationError(EmployeeOtherCompany))
    else Pass
  }

  // ---------------------------------------------------------------------
  // create: the rows
  // ---------------------------------------------------------------------

  function NewWorkflow(creator: Id, input: WorkflowInput): Workflow {
    Workflow(input.template, input.name, creator, input.startAt)
  }

  function TaskRow(w: Id, input: TaskInput, parent: Option<Id>): Task {
    Task(w, input.title, parent, input.assignee, input.duration, input.description, None, input.startDelta)
  }

  /** The task rows `create` inserts, numbered from `first`, one per input
      task, each parented on the one inserted before it. */
  function ChainRows(w: Id, first: Id, tasks: seq<TaskInput>): map<Id, Task>
    decreases |tasks|
  {
    if tasks == [] then map[]
    else
      var n := |tasks| - 1;
      ChainRows(w, first, tasks[..n])[first + n := TaskRow(w, tasks[n], if n == 0 then None else Some(first + n - 1))]
  }

  /** The chain occupies the ids `first` .. `first + |tasks| - 1`; the first
      row has no parent and every later one has the previous id as parent. */
  lemma {:induction false} ChainRowsContent(w: Id, first: Id, tasks: seq<TaskInput>)
    ensures forall i :: i in ChainRows(w, first, tasks) <==> first <= i < first + |tasks|
    ensures forall t :: first <= t < first + |tasks| ==>
      ChainRows(w, first, tasks)[t] == TaskRow(w, tasks[t - first], if t == first then None else Some(t - 1))
    decreases |tasks|
  {
    if tasks != [] {
      var n := |tasks| - 1;
      ChainRowsContent(w, first, tasks[..n]);
      assert forall i :: 0 <= i < n ==> tasks[..n][i] == tasks[i];
    }
  }

  /** The access rows inserted one by one, skipping the creator, until the
      first refused insert: the database reached and whether it stopped at an
      IntegrityError. */
  function WriteAccessors(db: Db, w: Id, creator: Id, accessors: seq<AccessorInput>): (Db, Outcome)
    decreases |accessors|
  {
    if accessors == [] then (db, Pass)
    else if accessors[0].employee == creator then WriteAccessors(db, w, creator, accessors[1..])
    else match InsertAccess(db, WorkflowAccess(accessors[0].employee, w, accessors[0].permission))
      case Err(e) => (db, Fail(e))
      case Ok(next) => WriteAccessors(next, w, creator, accessors[1..])
  }

  /** An accessor entry that `create` turns into a row: not the creator's own. */
  predicate Grants(accessors: seq<AccessorInput>, creator: Id, i: int) {
    0 <= i < |accessors| && accessors[i].employee != creator
  }

  /** Entry `i` cannot be inserted: its employee already has a row on `w`, or
      an earlier entry named the same employee. */
  predicate Collides(db: Db, w: Id, creator: Id, accessors: seq<AccessorInput>, i: int) {
    && Grants(accessors, creator, i)
    && (AccessExists(db, accessors[i].employee, w) ||
        exists j :: 0 <= j < i && accessors[j].employee == accessors[i].employee)
  }

  /** `row` is the grant some entry of `accessors` asks for on `w`. */
  ghost predicate FromEntry(accessors: seq<AccessorInput>, creator: Id, w: Id, row: WorkflowAccess) {
    exists i :: Grants(accessors, creator, i) &&
      row == WorkflowAccess(accessors[i].employee, w, accessors[i].permission)
  }

  /** The employee holds exactly this grant on the workflow. */
  predicate HasGrant(db: Db, employee: Id, w: Id, permission: Permission) {
    exists a :: a in db.accesses && db.accesses[a] == WorkflowAccess(employee, w, permission)
  }

  /** Writing the accessors keeps the foreign keys and the uniqueness of
      grants, keeps every earlier row, touches no other table, and can only
      be stopped by an IntegrityError. */
  lemma {:induction false} WriteAccessorsKeeps(db: Db, w: Id, creator: Id, accessors: seq<AccessorInput>)
    requires RefsValid(db) && AccessesUnique(db)
    ensures var (r, out) := WriteAccessors(db, w, creator, accessors);
      && RefsValid(r) && AccessesUnique(r)
      && r.employees == db.employees && r.workflows == db.workflows && r.tasks == db.tasks
      && r.nextWorkflowId == db.nextWorkflowId && r.nextTaskId == db.nextTaskId
      && (forall a :: a in db.accesses ==> a in r.accesses && r.accesses[a] == db.accesses[a])
      && (out.Fail? ==> out.error == IntegrityError)
    decreases |accessors|
  {
    if accessors != [] {
      if accessors[0].employee == creator {
        WriteAccessorsKeeps(db, w, creator, accessors[1..]);
      } else {
        var row := WorkflowAccess(accessors[0].employee, w, accessors[0].permission);
        if InsertAccess(db, row).Ok? {
          InsertAccessKeepsInvariants(db, row);
          WriteAccessorsKeeps(InsertAccess(db, row).value, w, creator, accessors[1..]);
        }
      }
    }
  }

  /** Writing the accessors of an existing workflow fails exactly when some
      entry collides with an existing row or an earlier entry. */
  lemma {:induction false} WriteAccessorsFailsIff(db: Db, w: Id, creator: Id, accessors: seq<AccessorInput>)
    requires RefsValid(db) && AccessesUnique(db) && w in db.workflows
    requires forall i :: 0 <= i < |accessors| ==> accessors[i].employee in db.employees
    ensures WriteAccessors(db, w, creator, accessors).1.Fail? <==>
      exists i :: Collides(db, w, creator, accessors, i)
    decreases |accessors|
  {
    if accessors != [] {
      var rest := accessors[1..];
      assert forall i :: 1 <= i < |accessors| ==> rest[i - 1] == accessors[i];
      if accessors[0].employee == creator {
        WriteAccessorsFailsIff(db, w, creator, rest);
        SkippedShift(db, w, creator, accessors);
      } else {
        var row := WorkflowAccess(accessors[0].employee, w, accessors[0].permission);
        if InsertAccess(db, row).Ok? {
          var next := InsertAccess(db, row).value;
          InsertAccessKeepsInvariants(db, row);
          WriteAccessorsFailsIff(next, w, creator, rest);
          InsertedShift(db, next, w, creator, accessors);
        } else {
          assert Collides(db, w, creator, accessors, 0);
        }
      }
    }
  }

  /** Every row the accessors add is one an entry asks for; on success every
      entry's grant is present. */
  lemma {:induction false} WriteAccessorsRows(db: Db, w: Id, creator: Id, accessors: seq<AccessorInput>)
    requires RefsValid(db) && AccessesUnique(db)
    ensures var (r, out) := WriteAccessors(db, w, creator, accessors);
      && (forall a :: a in r.accesses && a !in db.accesses ==> FromEntry(accessors, creator, w, r.accesses[a]))
      && (out == Pass ==> forall i :: Grants(accessors, creator, i) ==>
            HasGrant(r, accessors[i].employee, w, accessors[i].permission))
    decreases |accessors|
  {
    if accessors != [] {
      var rest := accessors[1..];
      var (r, out) := WriteAccessors(db, w, creator, accessors);
      assert forall i :: Grants(rest, creator, i) ==> Grants(accessors, creator, i + 1) && rest[i] == accessors[i + 1];
      if accessors[0].employee == creator {
        WriteAccessorsRows(db, w, creator, rest);
        forall i | Grants(accessors, creator, i)
          ensures Grants(rest, creator, i - 1) && rest[i - 1] == accessors[i]
        {
        }
      } else {
        var row := WorkflowAccess(accessors[0].employee, w, accessors[0].permission);
        if InsertAccess(db, row).Ok? {
          var next := InsertAccess(db, row).value;
          InsertAccessKeepsInvariants(db, row);
          WriteAccessorsRows(next, w, creator, rest);
          WriteAccessorsKeeps(next, w, creator, rest);
          assert next.accesses[db.nextAccessId] == row;
          assert FromEntry(accessors, creator, w, row) by {
            assert Grants(accessors, creator, 0);
          }
          if out == Pass {
            assert HasGrant(r, row.employee, w, row.permission) by {
              assert r.accesses[db.nextAccessId] == row;
            }
            forall i | Grants(accessors, creator, i) && i > 0
              ensures HasGrant(r, accessors[i].employee, w, accessors[i].permission)
            {
              assert Grants(rest, creator, i - 1) && rest[i - 1] == accessors[i];
            }
          }
        }
      }
    }
  }

  /** Collisions when the head entry is the creator's and is skipped. */
  lemma SkippedShift(db: Db, w: Id, creator: Id, accessors: seq<AccessorInput>)
    requires accessors != [] && accessors[0].employee == creator
    ensures (exists i :: Collides(db, w, creator, accessors, i)) <==>
            (exists i :: Collides(db, w, creator, accessors[1..], i))
  {
    var rest := accessors[1..];
    if exists i :: Collides(db, w, creator, accessors, i) {
      var i :| Collides(db, w, creator, accessors, i);
      assert i > 0 && rest[i - 1] == accessors[i];
      if !AccessExists(db, accessors[i].employee, w) {
        var j :| 0 <= j < i && accessors[j].employee == accessors[i].employee;
        assert j > 0;
        assert rest[j - 1].employee == rest[i - 1].employee;
      }
      assert Collides(db, w, creator, rest, i - 1);
    }
    if exists i :: Collides(db, w, creator, rest, i) {
      var i :| Collides(db, w, creator, rest, i);
      assert accessors[i + 1] == rest[i];
      if !AccessExists(db, rest[i].employee, w) {
        var j :| 0 <= j < i && rest[j].employee == rest[i].employee;
        assert accessors[j + 1].employee == accessors[i + 1].employee;
      }
      assert Collides(db, w, creator, accessors, i + 1);
    }
  }

  /** Collisions when the head entry's row was inserted into `db`, giving
      `next`: the head's employee now has a row, so a later entry naming it
      collides with that row instead of with the head. */
  lemma InsertedShift(db: Db, next: Db, w: Id, creator: Id, accessors: seq<AccessorInput>)
    requires AccessesValid(db)
    requires accessors != [] && accessors[0].employee != creator
    requires InsertAccess(db, WorkflowAccess(accessors[0].employee, w, accessors[0].permission)) == Ok(next)
    ensures (exists i :: Collides(db, w, creator, accessors, i)) <==>
            (exists i :: Collides(next, w, creator, accessors[1..], i))
  {
    var rest := accessors[1..];
    var e0 := accessors[0].employee;
    assert next.accesses[db.nextAccessId] == WorkflowAccess(e0, w, accessors[0].permission);
    assert AccessExists(next, e0, w);
    assert !AccessExists(db, e0, w);
    forall e | AccessExists(next, e, w) && e != e0
      ensures AccessExists(db, e, w)
    {
      var a :| a in next.accesses && next.accesses[a].employee == e && next.accesses[a].workflow == w;
      assert a in db.accesses && db.accesses[a] == next.accesses[a];
    }
    forall e | AccessExists(db, e, w)
      ensures AccessExists(next, e, w)
    {
      var a :| a in db.accesses && db.accesses[a].employee == e && db.accesses[a].workflow == w;
      assert a != db.nextAccessId;
      assert a in next.accesses && next.accesses[a] == db.accesses[a];
    }
    if exists i :: Collides(db, w, creator, accessors, i) {
      var i :| Collides(db, w, creator, accessors, i);
      assert i > 0 && rest[i - 1] == accessors[i];
      if !AccessExists(db, accessors[i].employee, w) {
        var j :| 0 <= j < i && accessors[j].employee == accessors[i].employee;
        if j > 0 {
          assert rest[j - 1].employee == rest[i - 1].employee;
        } else {
          assert AccessExists(next, rest[i - 1].employee, w);
        }
      }
      assert Collides(next, w, creator, rest, i - 1);
    }
    if exists i :: Collides(next, w, creator, rest, i) {
      var i :| Collides(next, w, creator, rest, i);
      assert accessors[i + 1] == rest[i];
      if AccessExists(next, rest[i].employee, w) {
        if !AccessExists(db, rest[i].employee, w) {
          assert accessors[0].employee == accessors[i + 1].employee;
        }
      } else {
        var j :| 0 <= j < i && rest[j].employee == rest[i].employee;
        assert accessors[j + 1].employee == accessors[i + 1].employee;
      }
      assert Collides(db, w, creator, accessors, i + 1);
    }
  }

  // ---------------------------------------------------------------------
  // create: the notification record
  // ---------------------------------------------------------------------

  /** What `create` gathers about one person for the notification step; a
      key that was never set reads as false or empty. */
  datatype Person = Person(isCreator: bool, taskList: seq<string>, isShared: bool, writePermission: bool)

  const Blank := Person(false, [], false, false)

  /** The record of `e` so far, or a fresh one. */
  function Base(people: map<Id, Person>, e: Id): Person {
    if e in people then people[e] else Blank
  }

  /** The titles of `e`'s tasks, in input order. */
  function TitlesFor(tasks: seq<TaskInput>, e: Id): seq<string>
    decreases |tasks|
  {
    if tasks == [] then []
    else (if tasks[0].assignee == e then [tasks[0].title] else []) + TitlesFor(tasks[1..], e)
  }

  /** The permission of the last accessor entry naming `e`, if any. */
  function LastGrant(accessors: seq<AccessorInput>, e: Id): (g: Option<Permission>)
    ensures g.None? <==> forall i :: 0 <= i < |accessors| ==> accessors[i].employee != e
    ensures g.Some? ==> exists i :: (0 <= i < |accessors| && accessors[i] == AccessorInput(e, g.value) &&
      forall j :: i < j < |accessors| ==> accessors[j].employee != e)
    decreases |accessors|
  {
    if accessors == [] then None
    else
      var n := |accessors| - 1;
      assert forall i :: 0 <= i < n ==> accessors[..n][i] == accessors[i];
      if accessors[n].employee == e then Some(accessors[n].permission)
      else LastGrant(accessors[..n], e)
  }

  /** The task loop of `create`: each task's title is appended to its
      assignee's record, which is created on first sight. */
  function AddTaskOwners(people: map<Id, Person>, tasks: seq<TaskInput>): map<Id, Person>
    decreases |tasks|
  {
    if tasks == [] then people
    else AddTaskOwners(NoteTask(people, tasks[0]), tasks[1..])
  }

  /** One pass of the task loop: the title is appended to the assignee's
      record, created on first sight. */
  function NoteTask(people: map<Id, Person>, task: TaskInput): map<Id, Person> {
    var p := Base(people, task.assignee);
    people[task.assignee := p.(taskList := p.taskList + [task.title])]
  }

  /** The accessor loop of `create`: every entry but the creator's marks its
      employee as shared with, with write permission for READ_WRITE. */
  function AddAccessors(people: map<Id, Person>, creator: Id, accessors: seq<AccessorInput>): map<Id, Person>
    decreases |accessors|
  {
    if accessors == [] then people
    else if accessors[0].employee == creator then AddAccessors(people, creator, accessors[1..])
    else
      var e := accessors[0].employee;
      AddAccessors(people[e := Base(people, e).(isShared := true, writePermission := accessors[0].permission == ReadWrite)],
                   creator, accessors[1..])
  }

  /** One step of the task loop, read from position `i`. */
  lemma AddTaskOwnersStep(people: map<Id, Person>, tasks: seq<TaskInput>, i: nat)
    requires i < |tasks|
    ensures AddTaskOwners(people, tasks[i..]) == AddTaskOwners(NoteTask(people, tasks[i]), tasks[i + 1..])
  {
    assert tasks[i..][1..] == tasks[i + 1..];
  }

  /** The record `create` passes to the notification step. */
  function People(creator: Id, input: WorkflowInput): map<Id, Person> {
    AddAccessors(AddTaskOwners(map[creator := Person(true, [], false, false)], input.tasks), creator, input.accessors)
  }

  /** The task loop adds exactly the assignees and appends to each record the
      titles of that person's tasks in input order. */
  lemma {:induction false} AddTaskOwnersEffect(people: map<Id, Person>, tasks: seq<TaskInput>)
    ensures forall e :: e in AddTaskOwners(people, tasks) <==>
      e in people || exists i :: 0 <= i < |tasks| && tasks[i].assignee == e
    ensures forall e :: e in AddTaskOwners(people, tasks) ==>
      AddTaskOwners(people, tasks)[e] == Base(people, e).(taskList := Base(people, e).taskList + TitlesFor(tasks, e))
    decreases |tasks|
  {
    if tasks != [] {
      var rest := tasks[1..];
      var next := NoteTask(people, tasks[0]);
      AddTaskOwnersEffect(next, rest);
      AddTaskOwnersKeysStep(people, tasks);
      forall e | e in AddTaskOwners(people, tasks)
        ensures AddTaskOwners(people, tasks)[e] ==
          Base(people, e).(taskList := Base(people, e).taskList + TitlesFor(tasks, e))
      {
        NoteTaskRecord(people, tasks, e);
      }
    }
  }

  /** The keys of the task loop, one step at a time. */
  lemma AddTaskOwnersKeysStep(people: map<Id, Person>, tasks: seq<TaskInput>)
    requires tasks != []
    ensures forall e :: e in NoteTask(people, tasks[0]) || (exists i :: 0 <= i < |tasks[1..]| && tasks[1..][i].assignee == e) <==>
      e in people || exists i :: 0 <= i < |tasks| && tasks[i].assignee == e
  {
    var rest := tasks[1..];
    forall e ensures e in NoteTask(people, tasks[0]) || (exists i :: 0 <= i < |rest| && rest[i].assignee == e) <==>
      e in people || exists i :: 0 <= i < |tasks| && tasks[i].assignee == e
    {
      if exists i :: 0 <= i < |tasks| && tasks[i].assignee == e {
        var i :| 0 <= i < |tasks| && tasks[i].assignee == e;
        if i > 0 { assert rest[i - 1].assignee == e; }
      }
      if exists i :: 0 <= i < |rest| && rest[i].assignee == e {
        var i :| 0 <= i < |rest| && rest[i].assignee == e;
        assert tasks[i + 1].assignee == e;
      }
    }
  }

  /** The record of `e` after the head task is noted, followed by the titles
      of the remaining tasks, is `e`'s record followed by all its titles. */
  lemma NoteTaskRecord(people: map<Id, Person>, tasks: seq<TaskInput>, e: Id)
    requires tasks != []
    ensures Base(NoteTask(people, tasks[0]), e).(taskList := Base(NoteTask(people, tasks[0]), e).taskList + TitlesFor(tasks[1..], e)) ==
      Base(people, e).(taskList := Base(people, e).taskList + TitlesFor(tasks, e))
  {
    if e == tasks[0].assignee {
      NoteOwnTask(people, tasks, e);
    } else {
      NoteOtherTask(people, tasks, e);
    }
  }

  /** `NoteTaskRecord` for the head task's assignee. */
  lemma NoteOwnTask(people: map<Id, Person>, tasks: seq<TaskInput>, e: Id)
    requires tasks != [] && e == tasks[0].assignee
    ensures Base(NoteTask(people, tasks[0]), e).(taskList := Base(NoteTask(people, tasks[0]), e).taskList + TitlesFor(tasks[1..], e)) ==
      Base(people, e).(taskList := Base(people, e).taskList + TitlesFor(tasks, e))
  {
    var p := Base(people, e);
    var later := TitlesFor(tasks[1..], e);
    var title := tasks[0].title;
    assert Base(NoteTask(people, tasks[0]), e) == p.(taskList := p.taskList + [title]);
    assert TitlesFor(tasks, e) == [title] + later;
    assert p.taskList + [title] + later == p.taskList + ([title] + later);
  }

  /** `NoteTaskRecord` for anyone else: the head task leaves them as they were. */
  lemma NoteOtherTask(people: map<Id, Person>, tasks: seq<TaskInput>, e: Id)
    requires tasks != [] && e != tasks[0].assignee
    ensures Base(NoteTask(people, tasks[0]), e).(taskList := Base(NoteTask(people, tasks[0]), e).taskList + TitlesFor(tasks[1..], e)) ==
      Base(people, e).(taskList := Base(people, e).taskList + TitlesFor(tasks, e))
  {
    assert Base(NoteTask(people, tasks[0]), e) == Base(people, e);
    assert TitlesFor(tasks, e) == TitlesFor(tasks[1..], e);
  }

  /** Two entries for `e` with none after either are the same entry, so the
      last entry determines `LastGrant`. */
  lemma LastGrantAt(accessors: seq<AccessorInput>, e: Id, i: int)
    requires 0 <= i < |accessors| && accessors[i].employee == e
    requires forall j :: i < j < |accessors| ==> accessors[j].employee != e
    ensures LastGrant(accessors, e) == Some(accessors[i].permission)
  {
    var k :| 0 <= k < |accessors| && accessors[k] == AccessorInput(e, LastGrant(accessors, e).value) &&
      forall j :: k < j < |accessors| ==> accessors[j].employee != e;
  }

  /** `LastGrant` read from the front: a later entry wins over the head. */
  lemma LastGrantCons(accessors: seq<AccessorInput>, e: Id)
    requires accessors != []
    ensures LastGrant(accessors, e) ==
      if LastGrant(accessors[1..], e).Some? then LastGrant(accessors[1..], e)
      else if accessors[0].employee == e then Some(accessors[0].permission)
      else None
  {
    var rest := accessors[1..];
    var g := LastGrant(rest, e);
    if g.Some? {
      var i :| 0 <= i < |rest| && rest[i] == AccessorInput(e, g.value) &&
        forall j :: i < j < |rest| ==> rest[j].employee != e;
      assert forall j :: i + 1 < j < |accessors| ==> accessors[j] == rest[j - 1];
      LastGrantAt(accessors, e, i + 1);
    } else if accessors[0].employee == e {
      assert forall j :: 0 < j < |accessors| ==> accessors[j] == rest[j - 1];
      LastGrantAt(accessors, e, 0);
    } else {
      assert forall j :: 0 < j < |accessors| ==> accessors[j] == rest[j - 1];
    }
  }

  /** The accessor loop adds exactly the employees named by a non-creator
      entry, marks them shared, and gives them write permission exactly when
      their last entry asks for READ_WRITE; other records are untouched. */
  lemma {:induction false} AddAccessorsEffect(people: map<Id, Person>, creator: Id, accessors: seq<AccessorInput>)
    ensures forall e :: e in AddAccessors(people, creator, accessors) <==>
      e in people || (e != creator && LastGrant(accessors, e).Some?)
    ensures forall e :: e in AddAccessors(people, creator, accessors) ==>
      AddAccessors(people, creator, accessors)[e] ==
        if e != creator && LastGrant(accessors, e).Some?
        then Base(people, e).(isShared := true, writePermission := LastGrant(accessors, e) == Some(ReadWrite))
        else people[e]
    decreases |accessors|
  {
    if accessors != [] {
      var rest := accessors[1..];
      var e0 := accessors[0].employee;
      forall e ensures LastGrant(accessors, e) ==
        if LastGrant(rest, e).Some? then LastGrant(rest, e)
        else if e0 == e then Some(accessors[0].permission)
        else None
      {
        LastGrantCons(accessors, e);
      }
      if e0 == creator {
        AddAccessorsEffect(people, creator, rest);
      } else {
        var next := people[e0 := Base(people, e0).(isShared := true, writePermission := accessors[0].permission == ReadWrite)];
        AddAccessorsEffect(next, creator, rest);
      }
    }
  }

  /** What the notification step receives: the creator marked as creator and
      never as shared; every other person named by a task or an accessor
      entry with the titles of their tasks in input order, shared exactly
      when an entry names them, and with write permission exactly when their
      last entry asks for READ_WRITE; and nobody else. */
  lemma PeopleRecord(creator: Id, input: WorkflowInput)
    ensures var people := People(creator, input);
      && creator in people
      && people[creator] == Person(true, TitlesFor(input.tasks, creator), false, false)
      && (forall e :: e in people <==>
            || e == creator
            || (exists i :: 0 <= i < |input.tasks| && input.tasks[i].assignee == e)
            || LastGrant(input.accessors, e).Some?)
      && (forall e :: e in people && e != creator ==>
            people[e] == Person(false, TitlesFor(input.tasks, e),
                                LastGrant(input.accessors, e).Some?,
                                LastGrant(input.accessors, e) == Some(ReadWrite)))
  {
    var start := map[creator := Person(true, [], false, false)];
    var owners := AddTaskOwners(start, input.tasks);
    var people := AddAccessors(owners, creator, input.accessors);
    assert people == People(creator, input);
    AddTaskOwnersEffect(start, input.tasks);
    AddAccessorsEffect(owners, creator, input.accessors);
    assert owners[creator] == Person(true, TitlesFor(input.tasks, creator), false, false);
    forall e | e != creator
      ensures e in owners <==> exists i :: 0 <= i < |input.tasks| && input.tasks[i].assignee == e
      ensures e in owners ==> owners[e] == Person(false, TitlesFor(input.tasks, e), false, false)
      ensures Base(owners, e) == Person(false, TitlesFor(input.tasks, e), false, false)
    {
      if e !in owners {
        assert TitlesFor(input.tasks, e) == [] by {
          TitlesForAbsent(input.tasks, e);
        }
      }
    }
  }

  /** Nobody gets titles from a task list that does not name them. */
  lemma {:induction false} TitlesForAbsent(tasks: seq<TaskInput>, e: Id)
    requires forall i :: 0 <= i < |tasks| ==> tasks[i].assignee != e
    ensures TitlesFor(tasks, e) == []
    decreases |tasks|
  {
    if tasks != [] {
      assert forall i :: 0 <= i < |tasks[1..]| ==> tasks[1..][i] == tasks[i + 1];
      TitlesForAbsent(tasks[1..], e);
    }
  }

  // ---------------------------------------------------------------------
  // create: the rows and the method
  // ---------------------------------------------------------------------

  /** The database after the workflow row and the first `n` task rows. */
  function WithTasks(db: Db, creator: Id, input: WorkflowInput, n: nat): Db
    requires n <= |input.tasks|
  {
    var w := db.nextWorkflowId;
    db.(workflows := db.workflows[w := NewWorkflow(creator, input)],
        nextWorkflowId := w + 1,
        tasks := db.tasks + ChainRows(w, db.nextTaskId, input.tasks[..n]),
        nextTaskId := db.nextTaskId + n)
  }

  /** The database after the workflow row and its whole chain of task rows. */
  function WithChain(db: Db, creator: Id, input: WorkflowInput): Db {
    WithTasks(db, creator, input, |input.tasks|)
  }

  /** One more task row: the next id, parented on the previous row. */
  lemma WithTasksStep(db: Db, creator: Id, input: WorkflowInput, n: nat, before: Db, prev: Option<Id>)
    requires n < |input.tasks| && before == WithTasks(db, creator, input, n)
    requires prev == if n == 0 then None else Some(before.nextTaskId - 1)
    ensures WithTasks(db, creator, input, n + 1) ==
      before.(tasks := before.tasks[before.nextTaskId := TaskRow(db.nextWorkflowId, input.tasks[n], prev)],
              nextTaskId := before.nextTaskId + 1)
  {
    var w := db.nextWorkflowId;
    var first := db.nextTaskId;
    var prefix := input.tasks[..n + 1];
    assert prefix[..n] == input.tasks[..n];
    var row := TaskRow(w, input.tasks[n], prev);
    assert ChainRows(w, first, prefix) == ChainRows(w, first, input.tasks[..n])[first + n := row];
    assert db.tasks + ChainRows(w, first, prefix) == (db.tasks + ChainRows(w, first, input.tasks[..n]))[first + n := row];
  }

  /** Both text columns of a task row are ASCII, so the history receiver's
      `str()` of each field succeeds. */
  predicate TaskAscii(task: TaskInput) {
    IsAscii(task.title) && IsAscii(task.description)
  }

  /** The first task from index `from` on whose text is not ASCII. */
  function FirstNonAscii(tasks: seq<TaskInput>, from: nat): (k: Option<nat>)
    requires from <= |tasks|
    ensures k.Some? ==> from <= k.value < |tasks| && !TaskAscii(tasks[k.value])
    ensures forall i :: from <= i < |tasks| && (k.None? || i < k.value) ==> TaskAscii(tasks[i])
    decreases |tasks| - from
  {
    if from == |tasks| then None
    else if !TaskAscii(tasks[from]) then Some(from)
    else FirstNonAscii(tasks, from + 1)
  }

  /** Where the `post_save` history receiver stops `create`: it calls `str()`
      on every field of each new row, which raises UnicodeEncodeError on the
      workflow's name or a task's title or description when it holds a
      non-ASCII character. The row itself is already inserted by then. */
  datatype Stop = NoStop | AtWorkflow | AtTask(index: nat)

  function ChainStop(input: WorkflowInput): (s: Stop)
    ensures s == AtWorkflow <==> !IsAscii(input.name)
    ensures s.AtTask? ==> s.index < |input.tasks| && !TaskAscii(input.tasks[s.index])
    ensures s != AtWorkflow ==>
      forall i :: 0 <= i < |input.tasks| && (s == NoStop || i < s.index) ==> TaskAscii(input.tasks[i])
  {
    if !IsAscii(input.name) then AtWorkflow
    else match FirstNonAscii(input.tasks, 0)
      case None => NoStop
      case Some(k) => AtTask(k)
  }

  /** How many task rows `create` inserts before it stops: all of them when
      nothing stops it, and otherwise up to and including the raising one. */
  function TasksWritten(input: WorkflowInput): (n: nat)
    ensures n <= |input.tasks|
    ensures n == |input.tasks| <== ChainStop(input) == NoStop
    ensures ChainStop(input).AtTask? ==> n == ChainStop(input).index + 1
  {
    match ChainStop(input)
    case NoStop => |input.tasks|
    case AtWorkflow => 0
    case AtTask(k) => k + 1
  }

  /** The workflow and task rows `create` inserts, and whether the history
      receiver raised on one of them. */
  function InsertedChain(db: Db, creator: Id, input: WorkflowInput): (Db, Outcome) {
    (WithTasks(db, creator, input, TasksWritten(input)),
     if ChainStop(input) == NoStop then Pass else Fail(UnicodeEncodeError))
  }

  /** All the rows `create` writes, and whether it raised: the history
      receiver on a non-ASCII row, or the database on a refused access row. */
  function CreateRows(db: Db, creator: Id, input: WorkflowInput): (Db, Outcome) {
    var (c, out) := InsertedChain(db, creator, input);
    if out.Fail? then (c, out)
    else WriteAccessors(c, db.nextWorkflowId, creator, input.accessors)
  }

  /** The request with its task list cut to the first `n` entries. */
  function FirstTasks(input: WorkflowInput, n: nat): WorkflowInput
    requires n <= |input.tasks|
  {
    input.(tasks := input.tasks[..n])
  }

  /** The rows written up to task `n` are the whole chain of the cut request. */
  lemma WithTasksIsChain(db: Db, creator: Id, input: WorkflowInput, n: nat)
    requires n <= |input.tasks|
    ensures WithTasks(db, creator, input, n) == WithChain(db, creator, FirstTasks(input, n))
  {
    var cut := FirstTasks(input, n);
    assert cut.tasks[..|cut.tasks|] == input.tasks[..n];
  }

  /** The first non-ASCII task, when every earlier one is ASCII, is where
      `create` stops. */
  lemma StopsAtTask(input: WorkflowInput, i: nat)
    requires IsAscii(input.name) && i < |input.tasks| && !TaskAscii(input.tasks[i])
    requires FirstNonAscii(input.tasks, i) == FirstNonAscii(input.tasks, 0)
    ensures ChainStop(input) == AtTask(i) && TasksWritten(input) == i + 1
  {
  }

  /** What a successful `create` returns: the new workflow and the record for
      the notification step. */
  datatype Created = Created(workflow: Id, people: map<Id, Person>)

  /** The first half of `create`: the workflow row, then one task row per
      input task, each parented on the one before, while each task's title is
      noted for its assignee. The history receiver runs after each insert and
      stops the loop on a non-ASCII row, which stays written. */
  method InsertChain(d: Database, creator: Id, input: WorkflowInput) returns (people: map<Id, Person>, out: Outcome)
    modifies d
    ensures d.db == InsertedChain(old(d.db), creator, input).0
    ensures out == InsertedChain(old(d.db), creator, input).1
    ensures out == Pass ==> people == AddTaskOwners(map[creator := Person(true, [], false, false)], input.tasks)
  {
    var db0 := d.db;
    var w := db0.nextWorkflowId;
    var db := db0.(workflows := db0.workflows[w := NewWorkflow(creator, input)], nextWorkflowId := w + 1);
    assert db.tasks == db0.tasks + ChainRows(w, db0.nextTaskId, input.tasks[..0]);
    people := map[creator := Person(true, [], false, false)];
    if !IsAscii(input.name) {
      assert db == WithTasks(db0, creator, input, 0);
      d.db := db;
      return people, Fail(UnicodeEncodeError);
    }

    var prev: Option<Id> := None;
    for i := 0 to |input.tasks|
      invariant db == WithTasks(db0, creator, input, i)
      invariant prev == if i == 0 then None else Some(db.nextTaskId - 1)
      invariant FirstNonAscii(input.tasks, i) == FirstNonAscii(input.tasks, 0)
      invariant AddTaskOwners(people, input.tasks[i..]) == AddTaskOwners(map[creator := Person(true, [], false, false)], input.tasks)
    {
      var task := input.tasks[i];
      var id := db.nextTaskId;
      WithTasksStep(db0, creator, input, i, db, prev);
      db := db.(tasks := db.tasks[id := TaskRow(w, task, prev)], nextTaskId := id + 1);
      if !TaskAscii(task) {
        StopsAtTask(input, i);
        d.db := db;
        return people, Fail(UnicodeEncodeError);
      }
      prev := Some(id);
      AddTaskOwnersStep(people, input.tasks, i);
      people := NoteTask(people, task);
    }
    assert input.tasks[|input.tasks|..] == [];
    assert ChainStop(input) == NoStop;
    d.db := db;
    out := Pass;
  }

  /** `WorkflowCreateSerializer.create`. No transaction is opened: when the
      history receiver raises or an access row is refused, the rows written
      before stay. */
  method Create(d: Database, creator: Id, input: WorkflowInput) returns (out: Result<Created>)
    modifies d
    ensures d.db == CreateRows(old(d.db), creator, input).0
    ensures out.Ok? <==> CreateRows(old(d.db), creator, input).1 == Pass
    ensures out.Ok? ==> out.value == Created(old(d.db).nextWorkflowId, People(creator, input))
    ensures out.Err? ==> CreateRows(old(d.db), creator, input).1 == Fail(out.error)
  {
    var w := d.db.nextWorkflowId;
    ghost var target := CreateRows(d.db, creator, input);
    var people: map<Id, Person>, inserted: Outcome := InsertChain(d, creator, input);
    if inserted.Fail? {
      return Err(inserted.error);
    }

    var accessors := input.accessors;
    for i := 0 to |accessors|
      invariant WriteAccessors(d.db, w, creator, accessors[i..]) == target
      invariant AddAccessors(people, creator, accessors[i..]) == People(creator, input)
    {
      assert accessors[i..][1..] == accessors[i + 1..];
      if accessors[i].employee == creator {
        continue;
      }
      var row := WorkflowAccess(accessors[i].employee, w, accessors[i].permission);
      var inserted := InsertAccess(d.db, row);
      if inserted.Err? {
        return Err(inserted.error);
      }
      d.db := inserted.value;
      var e: Id := accessors[i].employee;
      people := people[e := Base(people, e).(isShared := true, writePermission := accessors[i].permission == ReadWrite)];
    }
    return Ok(Created(w, people));
  }

  /** The chain database adds the workflow row and the chain's task rows. */
  lemma WithChainTables(db: Db, creator: Id, input: WorkflowInput)
    ensures var c := WithChain(db, creator, input);
      && c.workflows == db.workflows[db.nextWorkflowId := NewWorkflow(creator, input)]
      && c.tasks == db.tasks + ChainRows(db.nextWorkflowId, db.nextTaskId, input.tasks)
      && c.employees == db.employees && c.accesses == db.accesses
      && c.nextWorkflowId == db.nextWorkflowId + 1 && c.nextTaskId == db.nextTaskId + |input.tasks|
      && c.nextAccessId == db.nextAccessId
  {
    assert input.tasks[..|input.tasks|] == input.tasks;
  }

  /** The workflow and task rows of `create` keep the foreign keys valid. */
  lemma WithChainValid(db: Db, creator: Id, input: WorkflowInput)
    requires RefsValid(db) && AccessesUnique(db) && creator in db.employees && Resolved(db, input)
    ensures RefsValid(WithChain(db, creator, input)) && AccessesUnique(WithChain(db, creator, input))
  {
    WithChainTables(db, creator, input);
    WithChainTasksValid(db, creator, input);
  }

  /** Every task row after `create` points at rows that exist. */
  lemma WithChainTasksValid(db: Db, creator: Id, input: WorkflowInput)
    requires RefsValid(db) && creator in db.employees && Resolved(db, input)
    ensures TasksValid(WithChain(db, creator, input))
  {
    WithChainTables(db, creator, input);
    ChainTasksValid(db, WithChain(db, creator, input), input.tasks);
  }

  /** A chain of rows for a new workflow, added to valid tables, keeps every
      task's workflow, assignee and parent present. */
  lemma ChainTasksValid(db: Db, r: Db, tasks: seq<TaskInput>)
    requires RefsValid(db)
    requires forall i :: 0 <= i < |tasks| ==> tasks[i].assignee in db.employees
    requires db.nextWorkflowId in r.workflows && db.workflows.Keys <= r.workflows.Keys
    requires r.tasks == db.tasks + ChainRows(db.nextWorkflowId, db.nextTaskId, tasks)
    requires r.employees == db.employees && r.nextTaskId == db.nextTaskId + |tasks|
    ensures TasksValid(r)
  {
    forall t | t in r.tasks
      ensures r.tasks[t].workflow in r.workflows && r.tasks[t].assignee in r.employees && t < r.nextTaskId
      ensures r.tasks[t].parent.Some? ==>
        && r.tasks[t].parent.value in r.tasks
        && r.tasks[t].parent.value < t
        && r.tasks[r.tasks[t].parent.value].workflow == r.tasks[t].workflow
    {
      if t in ChainRows(db.nextWorkflowId, db.nextTaskId, tasks) {
        ChainTaskValid(db, r, tasks, t);
      } else {
        EarlierTaskValid(db, r, tasks, t);
      }
    }
  }

  /** A row of the new chain points at its workflow, an existing assignee
      and the row before it. */
  lemma ChainTaskValid(db: Db, r: Db, tasks: seq<TaskInput>, t: Id)
    requires forall i :: 0 <= i < |tasks| ==> tasks[i].assignee in db.employees
    requires db.nextWorkflowId in r.workflows
    requires r.tasks == db.tasks + ChainRows(db.nextWorkflowId, db.nextTaskId, tasks)
    requires r.employees == db.employees && r.nextTaskId == db.nextTaskId + |tasks|
    requires t in ChainRows(db.nextWorkflowId, db.nextTaskId, tasks)
    ensures r.tasks[t].workflow in r.workflows && r.tasks[t].assignee in r.employees && t < r.nextTaskId
    ensures r.tasks[t].parent.Some? ==>
      && r.tasks[t].parent.value in r.tasks
      && r.tasks[t].parent.value < t
      && r.tasks[r.tasks[t].parent.value].workflow == r.tasks[t].workflow
  {
    var first := db.nextTaskId;
    var chain := ChainRows(db.nextWorkflowId, first, tasks);
    ChainRowsContent(db.nextWorkflowId, first, tasks);
    assert r.tasks[t] == chain[t];
    if t > first {
      assert r.tasks[t - 1] == chain[t - 1];
    }
  }

  /** A row that was there before the chain is unchanged and still valid. */
  lemma EarlierTaskValid(db: Db, r: Db, tasks: seq<TaskInput>, t: Id)
    requires RefsValid(db)
    requires db.workflows.Keys <= r.workflows.Keys
    requires r.tasks == db.tasks + ChainRows(db.nextWorkflowId, db.nextTaskId, tasks)
    requires r.employees == db.employees && r.nextTaskId == db.nextTaskId + |tasks|
    requires t in r.tasks && t !in ChainRows(db.nextWorkflowId, db.nextTaskId, tasks)
    ensures r.tasks[t].workflow in r.workflows && r.tasks[t].assignee in r.employees && t < r.nextTaskId
    ensures r.tasks[t].parent.Some? ==>
      && r.tasks[t].parent.value in r.tasks
      && r.tasks[t].parent.value < t
      && r.tasks[r.tasks[t].parent.value].workflow == r.tasks[t].workflow
  {
    var chain := ChainRows(db.nextWorkflowId, db.nextTaskId, tasks);
    ChainRowsContent(db.nextWorkflowId, db.nextTaskId, tasks);
    assert t in db.tasks && r.tasks[t] == db.tasks[t];
    if db.tasks[t].parent.Some? {
      var p := db.tasks[t].parent.value;
      assert p in db.tasks && p !in chain;
      assert r.tasks[p] == db.tasks[p];
    }
  }

  /** The workflow row and the chain of task rows: the new workflow gets
      exactly the chain, in input order, with the first task its single head;
      earlier tasks are untouched. */
  lemma WithChainRows(db: Db, creator: Id, input: WorkflowInput)
    requires RefsValid(db)
    ensures var c := WithChain(db, creator, input);
      var w := db.nextWorkflowId;
      var first := db.nextTaskId;
      && w !in db.workflows
      && c.workflows == db.workflows[w := NewWorkflow(creator, input)]
      && (forall t :: t in c.tasks && c.tasks[t].workflow == w <==> first <= t < first + |input.tasks|)
      && (forall t :: first <= t < first + |input.tasks| ==>
            c.tasks[t] == TaskRow(w, input.tasks[t - first], if t == first then None else Some(t - 1)))
      && (forall t :: t in db.tasks ==> t in c.tasks && c.tasks[t] == db.tasks[t])
  {
    WithChainTables(db, creator, input);
    WithChainOwnTasks(db, creator, input);
    WithChainKeepsTasks(db, creator, input);
  }

  /** The tasks of the new workflow are exactly the chain, row by row. */
  lemma WithChainOwnTasks(db: Db, creator: Id, input: WorkflowInput)
    requires RefsValid(db)
    ensures var tasks := db.tasks + ChainRows(db.nextWorkflowId, db.nextTaskId, input.tasks);
      var w := db.nextWorkflowId;
      var first := db.nextTaskId;
      && (forall t :: t in tasks && tasks[t].workflow == w <==> first <= t < first + |input.tasks|)
      && (forall t :: first <= t < first + |input.tasks| ==>
            tasks[t] == TaskRow(w, input.tasks[t - first], if t == first then None else Some(t - 1)))
  {
    var w := db.nextWorkflowId;
    var first := db.nextTaskId;
    var chain := ChainRows(w, first, input.tasks);
    ChainRowsContent(w, first, input.tasks);
    forall t | t in db.tasks
      ensures t !in chain && db.tasks[t].workflow != w
    {
    }
  }

  /** The chain leaves the earlier tasks as they were. */
  lemma WithChainKeepsTasks(db: Db, creator: Id, input: WorkflowInput)
    requires RefsValid(db)
    ensures var tasks := db.tasks + ChainRows(db.nextWorkflowId, db.nextTaskId, input.tasks);
      forall t :: t in db.tasks ==> t in tasks && tasks[t] == db.tasks[t]
  {
    var chain := ChainRows(db.nextWorkflowId, db.nextTaskId, input.tasks);
    ChainRowsContent(db.nextWorkflowId, db.nextTaskId, input.tasks);
    forall t | t in db.tasks
      ensures t !in chain
    {
    }
  }

  /** The first task of the chain is the new workflow's single head. */
  lemma WithChainHead(db: Db, creator: Id, input: WorkflowInput)
    requires RefsValid(db)
    ensures Heads(WithChain(db, creator, input), db.nextWorkflowId) ==
      (if input.tasks == [] then {} else {db.nextTaskId})
  {
    var w := db.nextWorkflowId;
    var first := db.nextTaskId;
    var c := WithChain(db, creator, input);
    WithChainRows(db, creator, input);
    if input.tasks == [] {
      assert Heads(c, w) == {};
    } else {
      assert c.tasks[first].parent.None?;
    }
  }

  /** The rows of `create`: the workflow row and the chain of task rows up
      to where the history receiver stopped it (the whole chain when nothing
      did), numbered from the next task id; the access rows leave them as they
      are, and foreign keys and grants stay consistent throughout. */
  lemma CreatedChain(db: Db, creator: Id, input: WorkflowInput)
    requires RefsValid(db) && AccessesUnique(db) && creator in db.employees && Resolved(db, input)
    ensures var (r, _) := CreateRows(db, creator, input);
      var w := db.nextWorkflowId;
      var first := db.nextTaskId;
      var n := TasksWritten(input);
      && RefsValid(r) && AccessesUnique(r)
      && r.workflows == db.workflows[w := NewWorkflow(creator, input)]
      && (forall t :: t in r.tasks && r.tasks[t].workflow == w <==> first <= t < first + n)
      && (forall t :: first <= t < first + n ==>
            r.tasks[t] == TaskRow(w, input.tasks[t - first], if t == first then None else Some(t - 1)))
      && Heads(r, w) == (if n == 0 then {} else {first})
  {
    var w := db.nextWorkflowId;
    var c := InsertedChain(db, creator, input).0;
    InsertedValid(db, creator, input, TasksWritten(input));
    InsertedRows(db, creator, input, TasksWritten(input));
    InsertedHead(db, creator, input, TasksWritten(input));
    if ChainStop(input) == NoStop {
      WriteAccessorsKeeps(c, w, creator, input.accessors);
      var r := CreateRows(db, creator, input).0;
      assert r.tasks == c.tasks && r.workflows == c.workflows;
      assert Heads(r, w) == Heads(c, w);
    }
  }

  /** The workflow row and the first `n` task rows keep the foreign keys
      valid and the grants unique. */
  lemma InsertedValid(db: Db, creator: Id, input: WorkflowInput, n: nat)
    requires RefsValid(db) && AccessesUnique(db) && creator in db.employees && Resolved(db, input)
    requires n <= |input.tasks|
    ensures RefsValid(WithTasks(db, creator, input, n)) && AccessesUnique(WithTasks(db, creator, input, n))
  {
    var cut := FirstTasks(input, n);
    WithTasksIsChain(db, creator, input, n);
    assert Resolved(db, cut);
    WithChainValid(db, creator, cut);
  }

  /** The workflow row and the first `n` task rows: the new workflow owns
      exactly those `n` rows, each the input task at its position and
      parented on the row before it. */
  lemma InsertedRows(db: Db, creator: Id, input: WorkflowInput, n: nat)
    requires RefsValid(db)
    requires n <= |input.tasks|
    ensures var c := WithTasks(db, creator, input, n);
      var w := db.nextWorkflowId;
      var first := db.nextTaskId;
      && c.workflows == db.workflows[w := NewWorkflow(creator, input)]
      && (forall t :: t in c.tasks && c.tasks[t].workflow == w <==> first <= t < first + n)
      && (forall t :: first <= t < first + n ==>
            c.tasks[t] == TaskRow(w, input.tasks[t - first], if t == first then None else Some(t - 1)))
  {
    var c := WithTasks(db, creator, input, n);
    var w := db.nextWorkflowId;
    var first := db.nextTaskId;
    PrefixRows(db, creator, input, n);
    forall t ensures t in c.tasks && c.tasks[t].workflow == w <==> first <= t < first + n {
      if t >= 0 {
        InsertedOwner(db, creator, input, n, t);
      }
    }
  }

  /** A task row belongs to the new workflow exactly when it is one of the
      `n` new rows. */
  lemma InsertedOwner(db: Db, creator: Id, input: WorkflowInput, n: nat, t: Id)
    requires RefsValid(db)
    requires n <= |input.tasks|
    ensures var c := WithTasks(db, creator, input, n);
      t in c.tasks && c.tasks[t].workflow == db.nextWorkflowId <==> db.nextTaskId <= t < db.nextTaskId + n
  {
    var c := WithTasks(db, creator, input, n);
    var w := db.nextWorkflowId;
    var first := db.nextTaskId;
    var tasks := input.tasks[..n];
    var chain := ChainRows(w, first, tasks);
    ChainRowsContent(w, first, tasks);
    assert c.tasks == db.tasks + chain;
    if t in chain {
      assert c.tasks[t] == chain[t];
    } else if t in db.tasks {
      assert db.tasks[t].workflow != w;
    }
  }

  /** The first of the `n` task rows is the new workflow's single head. */
  lemma InsertedHead(db: Db, creator: Id, input: WorkflowInput, n: nat)
    requires RefsValid(db)
    requires n <= |input.tasks|
    ensures Heads(WithTasks(db, creator, input, n), db.nextWorkflowId) == (if n == 0 then {} else {db.nextTaskId})
  {
    var c := WithTasks(db, creator, input, n);
    InsertedRows(db, creator, input, n);
    if n > 0 {
      assert c.tasks[db.nextTaskId].parent.None?;
    }
  }

  /** Task row `first + i` of the first `n` is the `i`-th input task,
      parented on the row before it. */
  lemma PrefixRows(db: Db, creator: Id, input: WorkflowInput, n: nat)
    requires n <= |input.tasks|
    ensures var c := WithTasks(db, creator, input, n);
      forall t :: db.nextTaskId <= t < db.nextTaskId + n ==>
        t in c.tasks && c.tasks[t] == TaskRow(db.nextWorkflowId, input.tasks[t - db.nextTaskId],
                              if t == db.nextTaskId then None else Some(t - 1))
  {
    var w := db.nextWorkflowId;
    var first := db.nextTaskId;
    var tasks := input.tasks[..n];
    var chain := ChainRows(w, first, tasks);
    ChainRowsContent(w, first, tasks);
    forall t | first <= t < first + n
      ensures t in db.tasks + chain && (db.tasks + chain)[t] == TaskRow(w, input.tasks[t - first], if t == first then None else Some(t - 1))
    {
      assert tasks[t - first] == input.tasks[t - first];
    }
  }

  /** Two entries that `create` turns into rows name the same employee. */
  ghost predicate HasDuplicateGrant(accessors: seq<AccessorInput>, creator: Id) {
    exists i, j :: Grants(accessors, creator, i) && 0 <= j < i && accessors[j].employee == accessors[i].employee
  }

  /** The fresh workflow has no access row before `create` writes one. */
  lemma FreshWorkflowUnshared(db: Db, creator: Id, input: WorkflowInput)
    requires RefsValid(db)
    ensures forall e :: !AccessExists(WithChain(db, creator, input), e, db.nextWorkflowId)
  {
    var c := WithChain(db, creator, input);
    assert c.accesses == db.accesses;
  }

  /** `create` stops with an IntegrityError exactly when two non-creator
      accessor entries name the same employee (the `unique_together`
      constraint on a workflow that had no grants), or, before any access row,
      with a UnicodeEncodeError when the workflow's name or a task's text is
      not ASCII. */
  lemma CreateFailsIff(db: Db, creator: Id, input: WorkflowInput)
    requires RefsValid(db) && AccessesUnique(db) && creator in db.employees && Resolved(db, input)
    ensures var out := CreateRows(db, creator, input).1;
      && (out.Fail? <==> ChainStop(input) != NoStop || HasDuplicateGrant(input.accessors, creator))
      && (ChainStop(input) != NoStop ==> out == Fail(UnicodeEncodeError))
      && (ChainStop(input) == NoStop && out.Fail? ==> out.error == IntegrityError)
  {
    if ChainStop(input) != NoStop {
      return;
    }
    var c := WithChain(db, creator, input);
    var w := db.nextWorkflowId;
    WithChainValid(db, creator, input);
    WithChainRows(db, creator, input);
    FreshWorkflowUnshared(db, creator, input);
    WriteAccessorsKeeps(c, w, creator, input.accessors);
    WriteAccessorsFailsIff(c, w, creator, input.accessors);
    if HasDuplicateGrant(input.accessors, creator) {
      var i, j :| Grants(input.accessors, creator, i) && 0 <= j < i &&
        input.accessors[j].employee == input.accessors[i].employee;
      assert Collides(c, w, creator, input.accessors, i);
    }
  }

  /** After a successful `create`, an employee holds a grant on the new
      workflow exactly when a non-creator entry names them, and a READ_WRITE
      grant exactly when that entry asks for READ_WRITE: the same facts the
      notification record reports as `isShared` and `writePermission`. The
      creator never holds a grant on it. */
  lemma CreatedGrants(db: Db, creator: Id, input: WorkflowInput)
    requires RefsValid(db) && AccessesUnique(db) && creator in db.employees && Resolved(db, input)
    ensures var (r, out) := CreateRows(db, creator, input);
      var w := db.nextWorkflowId;
      && !AccessExists(r, creator, w)
      && (out == Pass ==> forall e :: AccessExists(r, e, w) <==> e != creator && LastGrant(input.accessors, e).Some?)
      && (out == Pass ==> forall e :: HasReadWriteGrant(r, e, w) <==>
            e != creator && LastGrant(input.accessors, e) == Some(ReadWrite))
  {
    if ChainStop(input) != NoStop {
      var cut := FirstTasks(input, TasksWritten(input));
      WithTasksIsChain(db, creator, input, TasksWritten(input));
      FreshWorkflowUnshared(db, creator, cut);
      return;
    }
    var c := WithChain(db, creator, input);
    var w := db.nextWorkflowId;
    WithChainValid(db, creator, input);
    FreshWorkflowUnshared(db, creator, input);
    CreateFailsIff(db, creator, input);
    WrittenFromEntries(c, w, creator, input.accessors);
    if CreateRows(db, creator, input).1 == Pass {
      WrittenShared(c, w, creator, input.accessors);
      WrittenReadWrite(c, w, creator, input.accessors);
    }
  }

  /** On a workflow that had no grant, every access row the entries write
      comes from a non-creator entry, so the creator gets none. */
  lemma WrittenFromEntries(c: Db, w: Id, creator: Id, accessors: seq<AccessorInput>)
    requires RefsValid(c) && AccessesUnique(c)
    requires forall e :: !AccessExists(c, e, w)
    ensures var r := WriteAccessors(c, w, creator, accessors).0;
      && (forall a :: a in r.accesses && r.accesses[a].workflow == w ==> FromEntry(accessors, creator, w, r.accesses[a]))
      && !AccessExists(r, creator, w)
  {
    WriteAccessorsKeeps(c, w, creator, accessors);
    WriteAccessorsRows(c, w, creator, accessors);
    var r := WriteAccessors(c, w, creator, accessors).0;
    forall a | a in r.accesses && r.accesses[a].workflow == w
      ensures FromEntry(accessors, creator, w, r.accesses[a])
    {
      assert !AccessExists(c, r.accesses[a].employee, w);
    }
  }

  /** When every entry is written, exactly the employees a non-creator entry
      names hold a grant on the workflow. */
  lemma WrittenShared(c: Db, w: Id, creator: Id, accessors: seq<AccessorInput>)
    requires RefsValid(c) && AccessesUnique(c)
    requires forall e :: !AccessExists(c, e, w)
    requires WriteAccessors(c, w, creator, accessors).1 == Pass
    ensures var r := WriteAccessors(c, w, creator, accessors).0;
      forall e :: AccessExists(r, e, w) <==> e != creator && LastGrant(accessors, e).Some?
  {
    WrittenFromEntries(c, w, creator, accessors);
    WriteAccessorsRows(c, w, creator, accessors);
    var r := WriteAccessors(c, w, creator, accessors).0;
    forall e ensures AccessExists(r, e, w) <==> e != creator && LastGrant(accessors, e).Some? {
      if AccessExists(r, e, w) {
        var a :| a in r.accesses && r.accesses[a].employee == e && r.accesses[a].workflow == w;
        var i :| Grants(accessors, creator, i) &&
          r.accesses[a] == WorkflowAccess(accessors[i].employee, w, accessors[i].permission);
      }
      if e != creator && LastGrant(accessors, e).Some? {
        var i :| 0 <= i < |accessors| && accessors[i] == AccessorInput(e, LastGrant(accessors, e).value);
        assert Grants(accessors, creator, i);
        var a :| a in r.accesses && r.accesses[a] == WorkflowAccess(e, w, accessors[i].permission);
      }
    }
  }

  /** When every entry is written and no two name the same employee, the
      READ_WRITE grants are exactly those the last entry for each employee
      asks for. */
  lemma WrittenReadWrite(c: Db, w: Id, creator: Id, accessors: seq<AccessorInput>)
    requires RefsValid(c) && AccessesUnique(c)
    requires forall e :: !AccessExists(c, e, w)
    requires WriteAccessors(c, w, creator, accessors).1 == Pass
    requires !HasDuplicateGrant(accessors, creator)
    ensures var r := WriteAccessors(c, w, creator, accessors).0;
      forall e :: HasReadWriteGrant(r, e, w) <==> e != creator && LastGrant(accessors, e) == Some(ReadWrite)
  {
    WrittenFromEntries(c, w, creator, accessors);
    WriteAccessorsRows(c, w, creator, accessors);
    var r := WriteAccessors(c, w, creator, accessors).0;
    forall e ensures HasReadWriteGrant(r, e, w) <==> e != creator && LastGrant(accessors, e) == Some(ReadWrite) {
      if HasReadWriteGrant(r, e, w) {
        var a :| a in r.accesses && r.accesses[a] == WorkflowAccess(e, w, ReadWrite);
        var i :| Grants(accessors, creator, i) &&
          r.accesses[a] == WorkflowAccess(accessors[i].employee, w, accessors[i].permission);
        forall j | i < j < |accessors| ensures accessors[j].employee != e {
          if accessors[j].employee == e {
            assert Grants(accessors, creator, j);
          }
        }
        LastGrantAt(accessors, e, i);
      }
      if e != creator && LastGrant(accessors, e) == Some(ReadWrite) {
        var i :| 0 <= i < |accessors| && accessors[i] == AccessorInput(e, ReadWrite);
        assert Grants(accessors, creator, i);
        assert HasGrant(r, e, w, ReadWrite);
      }
    }
  }

}
