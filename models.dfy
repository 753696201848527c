/** The three workflow tables (Workflow, Task, WorkflowAccess) as values, the
    database snapshot that holds them, the referential-integrity invariant the
    foreign keys guarantee, and the on-delete and uniqueness rules declared on
    the models. */
module WorkflowModels {
  import opened Common

  /** A workflow row. `duration` defaults to zero; `status` defaults to
      INITIATED, the state in which the periodic scan picks a workflow up.
      `template` is a reference to a template row outside this model. */
  datatype Workflow = Workflow(
    template: Id,
    name: string,
    creator: Id,
    startAt: int,
    completedAt: Option<int> := None,
    duration: int := 0,
    status: WorkflowStatus := Initiated)

  /** A task row: one link of its workflow's chain. `startDelta` is the delay
      after the parent's completion (after the workflow's start for the head);
      it defaults to zero, and `status` defaults to UPCOMING. */
  datatype Task = Task(
    workflow: Id,
    title: string,
    parent: Option<Id>,
    assignee: Id,
    duration: int,
    description: string := "",
    completedAt: Option<int> := None,
    startDelta: int := 0,
    status: TaskStatus := Upcoming)

  /** A grant of read or read-write access; `permission` defaults to READ. */
  datatype WorkflowAccess = WorkflowAccess(
    employee: Id,
    workflow: Id,
    permission: Permission := Read)

  /** A snapshot of the database: each table keyed by primary key, and the
      next value of each table's id sequence. */
  datatype Db = Db(
    employees: map<Id, Employee>,
    workflows: map<Id, Workflow>,
    tasks: map<Id, Task>,
    accesses: map<Id, WorkflowAccess>,
    nextWorkflowId: Id,
    nextTaskId: Id,
    nextAccessId: Id)

  /** The mutable database that the scheduler and the serializers write to. */
  class Database {
    var db: Db

    constructor (initial: Db)
      ensures db == initial
    {
      db := initial;
    }
  }

  // ---------------------------------------------------------------------
  // Referential integrity (what the foreign keys and sequences guarantee)
  // ---------------------------------------------------------------------

  ghost predicate WorkflowsValid(db: Db) {
    forall w :: w in db.workflows ==>
      db.workflows[w].creator in db.employees && w < db.nextWorkflowId
  }

  /** Each task's workflow and assignee exist; a parent exists, belongs to the
      same workflow and was created earlier (smaller id), so every chain of
      parent pointers is finite. */
  ghost predicate TasksValid(db: Db) {
    forall t :: t in db.tasks ==>
      && db.tasks[t].workflow in db.workflows
      && db.tasks[t].assignee in db.employees
      && t < db.nextTaskId
      && (db.tasks[t].parent.Some? ==>
            && db.tasks[t].parent.value in db.tasks
            && db.tasks[t].parent.value < t
            && db.tasks[db.tasks[t].parent.value].workflow == db.tasks[t].workflow)
  }

  ghost predicate AccessesValid(db: Db) {
    forall a :: a in db.accesses ==>
      && db.accesses[a].employee in db.employees
      && db.accesses[a].workflow in db.workflows
      && a < db.nextAccessId
  }

  ghost predicate RefsValid(db: Db) {
    WorkflowsValid(db) && TasksValid(db) && AccessesValid(db)
  }

  /** `unique_together = ('employee', 'workflow')`. */
  ghost predicate AccessesUnique(db: Db) {
    forall a, b ::
      (a in db.accesses && b in db.accesses &&
       db.accesses[a].employee == db.accesses[b].employee &&
       db.accesses[a].workflow == db.accesses[b].workflow) ==> a == b
  }

  /** The chain heads of a workflow: its tasks without a parent. */
  function Heads(db: Db, w: Id): set<Id> {
    set t | t in db.tasks && db.tasks[t].workflow == w && db.tasks[t].parent.None?
  }

  /** Whether the employee holds a READ_WRITE grant on the workflow. */
  predicate HasReadWriteGrant(db: Db, employee: Id, w: Id) {
    exists a :: a in db.accesses && db.accesses[a] == WorkflowAccess(employee, w, ReadWrite)
  }

  // ---------------------------------------------------------------------
  // Inserting an access row: the unique_together constraint
  // ---------------------------------------------------------------------

  predicate AccessExists(db: Db, employee: Id, w: Id) {
    exists a :: a in db.accesses && db.accesses[a].employee == employee && db.accesses[a].workflow == w
  }

  /** INSERT of a WorkflowAccess row: refused with an IntegrityError when the
      (employee, workflow) pair already has a row or a foreign key dangles. */
  function InsertAccess(db: Db, row: WorkflowAccess): (r: Result<Db>)
    ensures r.Err? <==>
      AccessExists(db, row.employee, row.workflow) ||
      row.employee !in db.employees || row.workflow !in db.workflows
    ensures r.Err? ==> r.error == IntegrityError
    ensures r.Ok? ==>
      && r.value.accesses == db.accesses[db.nextAccessId := row]
      && r.value.nextAccessId == db.nextAccessId + 1
      && r.value == db.(accesses := r.value.accesses, nextAccessId := r.value.nextAccessId)
  {
    if AccessExists(db, row.employee, row.workflow) ||
       row.employee !in db.employees || row.workflow !in db.workflows
    then Err(IntegrityError)
    else Ok(db.(accesses := db.accesses[db.nextAccessId := row],
                nextAccessId := db.nextAccessId + 1))
  }

  /** Whatever rows are inserted, at most one grant per (employee, workflow)
      pair exists afterwards, and the foreign keys stay valid. */
  lemma InsertAccessKeepsInvariants(db: Db, row: WorkflowAccess)
    requires RefsValid(db) && AccessesUnique(db)
    requires InsertAccess(db, row).Ok?
    ensures RefsValid(InsertAccess(db, row).value)
    ensures AccessesUnique(InsertAccess(db, row).value)
    ensures HasReadWriteGrant(InsertAccess(db, row).value, row.employee, row.workflow) <==>
      row.permission == ReadWrite
  {
    var db' := InsertAccess(db, row).value;
    forall a, b | a in db'.accesses && b in db'.accesses &&
      db'.accesses[a].employee == db'.accesses[b].employee &&
      db'.accesses[a].workflow == db'.accesses[b].workflow
      ensures a == b
    {
      if a != b {
        if a == db.nextAccessId {
          assert db.accesses[b].employee == row.employee && db.accesses[b].workflow == row.workflow;
          assert AccessExists(db, row.employee, row.workflow);
        } else if b == db.nextAccessId {
          assert db.accesses[a].employee == row.employee && db.accesses[a].workflow == row.workflow;
          assert AccessExists(db, row.employee, row.workflow);
        }
      }
    }
    if row.permission == ReadWrite {
      assert db'.accesses[db.nextAccessId] == WorkflowAccess(row.employee, row.workflow, ReadWrite);
    }
  }

  // ---------------------------------------------------------------------
  // on_delete behaviour
  // ---------------------------------------------------------------------

  /** Deleting a task: `parent_task` is SET_NULL, so its child loses its
      parent; nothing else changes. */
  function DeleteTask(db: Db, id: Id): (r: Db)
    requires id in db.tasks
    ensures r.tasks.Keys == db.tasks.Keys - {id}
    ensures forall t :: t in r.tasks ==> r.tasks[t].parent != Some(id)
    ensures r.workflows == db.workflows && r.accesses == db.accesses && r.employees == db.employees
  {
    db.(tasks := map t | t in db.tasks && t != id ::
          if db.tasks[t].parent == Some(id) then db.tasks[t].(parent := None) else db.tasks[t])
  }

  /** Deleting a parent task keeps the database consistent, turns its child
      into a chain head, and leaves every other task as it was. */
  lemma DeleteTaskKeepsRefsValid(db: Db, id: Id)
    requires RefsValid(db) && id in db.tasks
    ensures RefsValid(DeleteTask(db, id))
    ensures forall t :: t in db.tasks && db.tasks[t].parent == Some(id) ==>
      t in DeleteTask(db, id).tasks && DeleteTask(db, id).tasks[t].parent.None?
    ensures forall t :: t in db.tasks && t != id && db.tasks[t].parent != Some(id) ==>
      DeleteTask(db, id).tasks[t] == db.tasks[t]
  {
  }

  /** Deleting a workflow: its tasks and its access rows are CASCADE-deleted;
      a task elsewhere whose parent was removed gets a null parent. */
  function DeleteWorkflow(db: Db, w: Id): (r: Db)
    requires w in db.workflows
    ensures w !in r.workflows && r.workflows.Keys == db.workflows.Keys - {w}
    ensures forall t :: t in r.tasks ==> r.tasks[t].workflow != w
    ensures forall a :: a in r.accesses ==> r.accesses[a].workflow != w
    ensures forall x :: x in r.workflows ==> r.workflows[x] == db.workflows[x]
    ensures r.employees == db.employees
  {
    var gone := set t | t in db.tasks && db.tasks[t].workflow == w;
    db.(workflows := map x | x in db.workflows && x != w :: db.workflows[x],
        tasks := map t | t in db.tasks && t !in gone ::
          if db.tasks[t].parent.Some? && db.tasks[t].parent.value in gone
          then db.tasks[t].(parent := None) else db.tasks[t],
        accesses := map a | a in db.accesses && db.accesses[a].workflow != w :: db.accesses[a])
  }

  /** A cascade delete leaves no row referring to the deleted workflow, keeps
      the foreign keys valid and keeps the other workflows' rows. */
  lemma DeleteWorkflowKeepsRefsValid(db: Db, w: Id)
    requires RefsValid(db) && w in db.workflows
    ensures RefsValid(DeleteWorkflow(db, w))
    ensures forall t :: t in db.tasks && db.tasks[t].workflow != w ==>
      t in DeleteWorkflow(db, w).tasks && DeleteWorkflow(db, w).tasks[t] == db.tasks[t]
    ensures forall a :: a in db.accesses && db.accesses[a].workflow != w ==>
      a in DeleteWorkflow(db, w).accesses && DeleteWorkflow(db, w).accesses[a] == db.accesses[a]
  {
    var r := DeleteWorkflow(db, w);
    forall t | t in db.tasks && db.tasks[t].workflow != w
      ensures t in r.tasks && r.tasks[t] == db.tasks[t]
    {
      if db.tasks[t].parent.Some? {
        var p := db.tasks[t].parent.value;
        assert db.tasks[p].workflow == db.tasks[t].workflow;
      }
    }
  }

  /** Deleting an employee (a UserCompany row): refused while a workflow
      names them as creator or a task as assignee (PROTECT); otherwise their
      access rows are CASCADE-deleted with them. */
  function DeleteEmployee(db: Db, e: Id): (r: Result<Db>)
    requires e in db.employees
    ensures r.Err? <==>
      (exists w :: w in db.workflows && db.workflows[w].creator == e) ||
      (exists t :: t in db.tasks && db.tasks[t].assignee == e)
    ensures r.Err? ==> r.error == ProtectedError
    ensures r.Ok? ==>
      && e !in r.value.employees
      && (forall a :: a in r.value.accesses ==> r.value.accesses[a].employee != e)
      && r.value.workflows == db.workflows && r.value.tasks == db.tasks
      && r.value.employees.Keys == db.employees.Keys - {e}
      && (forall x :: x in r.value.employees ==> r.value.employees[x] == db.employees[x])
      && (forall a :: a in r.value.accesses <==> a in db.accesses && db.accesses[a].employee != e)
      && (forall a :: a in r.value.accesses ==> r.value.accesses[a] == db.accesses[a])
  {
    if (exists w :: w in db.workflows && db.workflows[w].creator == e) ||
       (exists t :: t in db.tasks && db.tasks[t].assignee == e)
    then Err(ProtectedError)
    else Ok(db.(employees := map x | x in db.employees && x != e :: db.employees[x],
                accesses := map a | a in db.accesses && db.accesses[a].employee != e :: db.accesses[a]))
  }

  /** A permitted employee deletion keeps every foreign key valid. */
  lemma DeleteEmployeeKeepsRefsValid(db: Db, e: Id)
    requires RefsValid(db) && e in db.employees
    requires DeleteEmployee(db, e).Ok?
    ensures RefsValid(DeleteEmployee(db, e).value)
  {
  }
}
