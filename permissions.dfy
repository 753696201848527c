/** The access rules of apps/workflow/permissions.py: write permission on a
    workflow, and the view-level and object-level checks of the workflow,
    task and accessor endpoints. The base check these classes inherit from
    the company permissions (an authenticated, active company employee) is
    a parameter. */
module Permissions {
  import opened Common
  import opened WorkflowModels
  import opened Serializers

  /** The view action a request is routed to. */
  datatype Action = Create | List | Retrieve | Update | PartialUpdate | Destroy

  predicate IsUpdate(action: Action) {
    action == Update || action == PartialUpdate
  }

  /** The company of a workflow: its creator's. */
  function WorkflowCompany(db: Db, w: Id): Id
    requires WorkflowsValid(db) && w in db.workflows
  {
    db.employees[db.workflows[w].creator].company
  }

  /** `hasWorkflowWritePermission.has_object_permission`: nobody outside the
      workflow's company may write; inside it, admins and holders of a
      READ_WRITE grant may. */
  function HasWorkflowWrite(db: Db, employee: Id, w: Id): (r: bool)
    requires WorkflowsValid(db) && employee in db.employees && w in db.workflows
    ensures WorkflowCompany(db, w) != db.employees[employee].company ==> !r
    ensures WorkflowCompany(db, w) == db.employees[employee].company ==>
      (r <==> db.employees[employee].isAdmin || HasReadWriteGrant(db, employee, w))
  {
    if WorkflowCompany(db, w) != db.employees[employee].company then false
    else db.employees[employee].isAdmin || exists a :: a in db.accesses && db.accesses[a] == WorkflowAccess(employee, w, ReadWrite)
  }

  /** `WorkflowAccessPermission.has_permission`: creating a workflow also
      needs an admin; every other action is the base check. */
  function WorkflowViewAllowed(base: bool, action: Action, isAdmin: bool): (r: bool)
    ensures action == Create ==> (r <==> base && isAdmin)
    ensures action != Create ==> (r <==> base)
    ensures r ==> base
  {
    if action == Create then base && isAdmin else base
  }

  /** `WorkflowAccessPermission.has_object_permission`: updates need write
      permission; every other action is allowed. */
  function WorkflowObjectAllowed(db: Db, employee: Id, action: Action, w: Id): (r: bool)
    requires WorkflowsValid(db) && employee in db.employees && w in db.workflows
    ensures IsUpdate(action) ==> (r <==> HasWorkflowWrite(db, employee, w))
    ensures !IsUpdate(action) ==> r
  {
    if IsUpdate(action) then HasWorkflowWrite(db, employee, w) else true
  }

  /** `TaskAccessPermission.has_object_permission`: the assignee, or anyone
      with write permission on the task's workflow, may update a task; every
      other action is allowed. */
  function TaskObjectAllowed(db: Db, employee: Id, action: Action, t: Id): (r: bool)
    requires RefsValid(db) && employee in db.employees && t in db.tasks
    ensures IsUpdate(action) ==>
      (r <==> db.tasks[t].assignee == employee || HasWorkflowWrite(db, employee, db.tasks[t].workflow))
    ensures !IsUpdate(action) ==> r
  {
    if IsUpdate(action) then
      var write := HasWorkflowWrite(db, employee, db.tasks[t].workflow);
      db.tasks[t].assignee == employee || write
    else true
  }

  /** `AccessorAccessPermission.has_permission`: the workflow named in the
      URL is looked up first (a 404 when it is missing); then the base check
      and write permission on it are both needed. */
  function AccessorViewAllowed(db: Db, base: bool, employee: Id, workflowId: Id): (r: Result<bool>)
    requires WorkflowsValid(db) && employee in db.employees
    ensures workflowId !in db.workflows <==> r == Err(NotFound)
    ensures workflowId in db.workflows ==> r.Ok? && (r.value <==> base && HasWorkflowWrite(db, employee, workflowId))
  {
    if workflowId !in db.workflows then Err(NotFound)
    else Ok(base && HasWorkflowWrite(db, employee, workflowId))
  }

  /** `AccessorAccessPermission.has_object_permission`: changing or deleting
      a grant needs write permission on the grant's workflow; every other
      action is allowed. */
  function AccessorObjectAllowed(db: Db, employee: Id, action: Action, a: Id): (r: bool)
    requires RefsValid(db) && employee in db.employees && a in db.accesses
    ensures IsUpdate(action) || action == Destroy ==>
      (r <==> HasWorkflowWrite(db, employee, db.accesses[a].workflow))
    ensures !IsUpdate(action) && action != Destroy ==> r
  {
    if IsUpdate(action) || action == Destroy then HasWorkflowWrite(db, employee, db.accesses[a].workflow)
    else true
  }

  // ---------------------------------------------------------------------
  // How the rules combine
  // ---------------------------------------------------------------------

  /** Admin rights reach every workflow of the admin's own company and none
      of another company's. */
  lemma AdminWritesExactlyOwnCompany(db: Db, employee: Id, w: Id)
    requires WorkflowsValid(db) && employee in db.employees && w in db.workflows
    requires db.employees[employee].isAdmin
    ensures HasWorkflowWrite(db, employee, w) <==> WorkflowCompany(db, w) == db.employees[employee].company
  {
  }

  /** On a grant of the URL's workflow, the object-level re-check of the
      accessor endpoints never refuses what the view-level check allowed. */
  lemma AccessorChecksAgree(db: Db, base: bool, employee: Id, action: Action, a: Id)
    requires RefsValid(db) && employee in db.employees && a in db.accesses
    requires AccessorViewAllowed(db, base, employee, db.accesses[a].workflow) == Ok(true)
    ensures AccessorObjectAllowed(db, employee, action, a)
  {
  }

  /** After a successful create, a non-admin employee of the creator's
      company may write to the new workflow exactly when a non-creator
      accessor entry named them last with READ_WRITE. */
  lemma CreatedWriters(db: Db, creator: Id, input: WorkflowInput, e: Id)
    requires RefsValid(db) && AccessesUnique(db) && creator in db.employees && Resolved(db, input)
    requires CreateRows(db, creator, input).1 == Pass
    requires e in db.employees && !db.employees[e].isAdmin
    requires db.employees[e].company == db.employees[creator].company
    ensures var r := CreateRows(db, creator, input).0;
      && RefsValid(r) && e in r.employees && db.nextWorkflowId in r.workflows
      && (HasWorkflowWrite(r, e, db.nextWorkflowId) <==>
            e != creator && LastGrant(input.accessors, e) == Some(ReadWrite))
  {
    var w := db.nextWorkflowId;
    var c := WithChain(db, creator, input);
    var r := CreateRows(db, creator, input).0;
    CreatedChain(db, creator, input);
    WithChainRows(db, creator, input);
    WithChainValid(db, creator, input);
    WriteAccessorsKeeps(c, w, creator, input.accessors);
    assert r.employees == db.employees;
    assert r.workflows[w].creator == creator;
    assert WorkflowCompany(r, w) == db.employees[e].company;
    CreatedGrants(db, creator, input);
  }

  /** A task update as written: the permission check and the validation
      together. */
  predicate TaskUpdateAccepted(db: Db, requester: Id, t: Id, newAssignee: Option<Id>)
    requires RefsValid(db) && requester in db.employees && t in db.tasks
    requires newAssignee.Some? ==> newAssignee.value in db.employees
  {
    TaskObjectAllowed(db, requester, Update, t) && ValidateTaskUpdate(db, requester, t, newAssignee) == Pass
  }

  /** A task update with the corrected validation. */
  predicate TaskUpdateAcceptedCorrected(db: Db, requester: Id, t: Id, newAssignee: Option<Id>)
    requires RefsValid(db) && requester in db.employees && t in db.tasks
    requires newAssignee.Some? ==> newAssignee.value in db.employees
  {
    TaskObjectAllowed(db, requester, Update, t) && ValidateTaskUpdateCorrected(db, requester, t, newAssignee) == Pass
  }

  /** As written, a requester of the workflow's company gets a task update
      through exactly when they have write permission on the workflow: the
      assignee clause of the permission never lets anyone further. */
  lemma TaskUpdateNeedsWrite(db: Db, requester: Id, t: Id)
    requires RefsValid(db) && requester in db.employees && t in db.tasks
    requires WorkflowCompany(db, db.tasks[t].workflow) == db.employees[requester].company
    ensures TaskUpdateAccepted(db, requester, t, None) <==> HasWorkflowWrite(db, requester, db.tasks[t].workflow)
  {
  }

  /** With the corrected validation, an update that keeps the assignee goes
      through exactly when the requester is the assignee or may write to the
      workflow, as the permission class intends. */
  lemma TaskUpdateCorrected(db: Db, requester: Id, t: Id)
    requires RefsValid(db) && requester in db.employees && t in db.tasks
    ensures TaskUpdateAcceptedCorrected(db, requester, t, None) <==>
      db.tasks[t].assignee == requester || HasWorkflowWrite(db, requester, db.tasks[t].workflow)
  {
  }

  /** An assignee who is not an admin and has no grant, editing only the
      description of their own task: the permission class allows it, the
      validation as written refuses it, the corrected one accepts it. */
  lemma AssigneeEditRefused()
    ensures var db := Db(map[0 := Employee(7, false), 1 := Employee(7, true)],
                         map[0 := Workflow(0, "onboarding", 1, 100)],
                         map[0 := Task(0, "write report", None, 0, 60)],
                         map[], 1, 1, 0);
      && RefsValid(db)
      && TaskObjectAllowed(db, 0, PartialUpdate, 0)
      && ValidateTaskUpdate(db, 0, 0, None) == Fail(ValidationError(AssigneeLacksPermission))
      && ValidateTaskUpdateCorrected(db, 0, 0, None) == Pass
  {
    var db := Db(map[0 := Employee(7, false), 1 := Employee(7, true)],
                 map[0 := Workflow(0, "onboarding", 1, 100)],
                 map[0 := Task(0, "write report", None, 0, 60)],
                 map[], 1, 1, 0);
    assert !HasReadWriteGrant(db, 0, 0);
  }
}
