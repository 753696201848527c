/** Expected task times along a parent chain, the interval-overlap test, and
    the per-employee conflict check with its cache (apps/workflow/helpers.py). */
module TimeModel {
  import opened Common
  import opened WorkflowModels

  // ---------------------------------------------------------------------
  // get_parent_start_time
  // ---------------------------------------------------------------------

  /** The sum of `start_delta + duration` over the tasks the walk from `p`
      visits: `p` and its ancestors up to, not including, the first completed
      one. */
  function UncompletedSum(db: Db, p: Id): int
    requires TasksValid(db) && p in db.tasks
    decreases p
  {
    var t := db.tasks[p];
    if t.completedAt.Some? then 0
    else t.startDelta + t.duration + (if t.parent.Some? then UncompletedSum(db, t.parent.value) else 0)
  }

  /** The first completed task on the chain that starts at `p` (`p` included),
      if there is one. */
  function FirstCompleted(db: Db, p: Id): (c: Option<Id>)
    requires TasksValid(db) && p in db.tasks
    ensures c.Some? ==> c.value in db.tasks && db.tasks[c.value].completedAt.Some? && c.value <= p
    ensures c.Some? && c.value == p <==> db.tasks[p].completedAt.Some?
    decreases p
  {
    var t := db.tasks[p];
    if t.completedAt.Some? then Some(p)
    else if t.parent.Some? then FirstCompleted(db, t.parent.value)
    else None
  }

  /** The value `get_parent_start_time(p)` returns: the first completed
      ancestor's completion time plus the visited sum, or, when no task on
      the chain is completed, the start of `p`'s workflow plus that sum. */
  function ParentStartTime(db: Db, p: Id): int
    requires RefsValid(db) && p in db.tasks
  {
    match FirstCompleted(db, p)
    case Some(c) => db.tasks[c].completedAt.value + UncompletedSum(db, p)
    case None => db.workflows[db.tasks[p].workflow].startAt + UncompletedSum(db, p)
  }

  /** The walk up the parent chain, with its accumulator and its pointer. */
  method GetParentStartTime(db: Db, taskParent: Id) returns (r: int)
    requires RefsValid(db) && taskParent in db.tasks
    ensures r == ParentStartTime(db, taskParent)
    ensures db.tasks[taskParent].completedAt.Some? ==> r == db.tasks[taskParent].completedAt.value
  {
    var initialTask := taskParent;
    var taskStartTime := 0;
    var cur: Option<Id> := Some(taskParent);
    while cur.Some? && db.tasks[cur.value].completedAt.None?
      invariant cur.Some? ==> cur.value in db.tasks
      invariant cur.Some? ==> taskStartTime + UncompletedSum(db, cur.value) == UncompletedSum(db, taskParent)
      invariant cur.Some? ==> FirstCompleted(db, cur.value) == FirstCompleted(db, taskParent)
      invariant cur.None? ==>
        taskStartTime == UncompletedSum(db, taskParent) && FirstCompleted(db, taskParent).None?
      decreases if cur.Some? then cur.value + 1 else 0
    {
      var t := db.tasks[cur.value];
      taskStartTime := taskStartTime + t.startDelta + t.duration;
      cur := t.parent;
    }
    if cur.Some? {
      r := db.tasks[cur.value].completedAt.value + taskStartTime;
    } else {
      r := db.workflows[db.tasks[initialTask].workflow].startAt + taskStartTime;
    }
  }

  /** Reference reading of the chain: the time at which task `p` ends, its
      completion time if it is completed, otherwise the end of whatever
      precedes it (its parent, or its workflow's start) plus its own
      `start_delta + duration`. */
  function ChainEnd(db: Db, p: Id): int
    requires RefsValid(db) && p in db.tasks
    decreases p
  {
    var t := db.tasks[p];
    if t.completedAt.Some? then t.completedAt.value
    else
      (if t.parent.Some? then ChainEnd(db, t.parent.value) else db.workflows[t.workflow].startAt)
      + t.startDelta + t.duration
  }

  /** The loop's accumulate-then-add result is the recursive chain end. */
  lemma {:induction false} ParentStartTimeIsChainEnd(db: Db, p: Id)
    requires RefsValid(db) && p in db.tasks
    ensures ParentStartTime(db, p) == ChainEnd(db, p)
    decreases p
  {
    var t := db.tasks[p];
    if t.completedAt.None? && t.parent.Some? {
      ParentStartTimeIsChainEnd(db, t.parent.value);
    }
  }

  // ---------------------------------------------------------------------
  // is_time_conflicting
  // ---------------------------------------------------------------------

  /** Interval 2 conflicts with interval 1 unless it lies wholly at or before
      interval 1's start, or wholly at or after its end. */
  function IsTimeConflicting(t1Start: int, t1End: int, t2Start: int, t2End: int): (r: bool)
    ensures t1Start <= t1End && t2Start <= t2End ==> (r <==> t1Start < t2End && t2Start < t1End)
  {
    !((t2Start <= t1Start && t2End <= t1Start) || (t2Start >= t1End && t2End >= t1End))
  }

  /** For well-formed intervals the test does not depend on the argument order,
      and intervals that only touch do not conflict. */
  lemma ConflictSymmetricAndEndExclusive(s1: int, e1: int, s2: int, e2: int)
    requires s1 <= e1 && s2 <= e2
    ensures IsTimeConflicting(s1, e1, s2, e2) == IsTimeConflicting(s2, e2, s1, e1)
    ensures e1 == s2 ==> !IsTimeConflicting(s1, e1, s2, e2) && !IsTimeConflicting(s2, e2, s1, e1)
    ensures s1 < e1 && s2 < e2 && s1 <= s2 < e1 ==> IsTimeConflicting(s1, e1, s2, e2)
  {
  }

  // ---------------------------------------------------------------------
  // is_task_conflicting
  // ---------------------------------------------------------------------

  datatype Interval = Interval(start: int, end: int)

  /** The expected [start, end) of a task: `start_delta` after the parent-chain
      time (after the workflow start for a head), lasting `duration`. */
  function ExpectedInterval(db: Db, t: Id): (iv: Interval)
    requires RefsValid(db) && t in db.tasks
    ensures iv.end == iv.start + db.tasks[t].duration
    ensures db.tasks[t].parent.None? ==>
      iv.start == db.workflows[db.tasks[t].workflow].startAt + db.tasks[t].startDelta
  {
    var task := db.tasks[t];
    var start := task.startDelta +
      (if task.parent.Some? then ParentStartTime(db, task.parent.value)
       else db.workflows[task.workflow].startAt);
    Interval(start, start + task.duration)
  }

  /** A task starts `start_delta` after its parent's completion when the parent
      is completed, and `start_delta` after its parent's expected end when it
      is not. */
  lemma ChildStartsAfterParent(db: Db, t: Id)
    requires RefsValid(db) && t in db.tasks && db.tasks[t].parent.Some?
    ensures var p := db.tasks[t].parent.value;
      ExpectedInterval(db, t).start == db.tasks[t].startDelta +
        (if db.tasks[p].completedAt.Some? then db.tasks[p].completedAt.value
         else ExpectedInterval(db, p).end)
  {
    var p := db.tasks[t].parent.value;
    ParentStartTimeIsChainEnd(db, p);
    if db.tasks[p].parent.Some? {
      ParentStartTimeIsChainEnd(db, db.tasks[p].parent.value);
    }
  }

  /** The tasks `is_task_conflicting` compares against: the employee's tasks
      that are UPCOMING or ONGOING and not in `ignore`. */
  predicate Considered(db: Db, employee: Id, ignore: set<Id>, t: Id) {
    && t in db.tasks
    && db.tasks[t].assignee == employee
    && t !in ignore
    && db.tasks[t].status in {Upcoming, Ongoing}
  }

  predicate ConflictsWith(db: Db, start: int, end: int, t: Id)
    requires RefsValid(db) && t in db.tasks
  {
    IsTimeConflicting(start, end, ExpectedInterval(db, t).start, ExpectedInterval(db, t).end)
  }

  /** `rows` are the rows of `employee.tasks`: exactly the employee's tasks. */
  ghost predicate EmployeeRows(db: Db, employee: Id, rows: seq<Id>) {
    && (forall i :: 0 <= i < |rows| ==> rows[i] in db.tasks && db.tasks[rows[i]].assignee == employee)
    && (forall t :: t in db.tasks && db.tasks[t].assignee == employee ==> t in rows)
  }

  /** The database scan of `is_task_conflicting` over `rows` in order: whether
      it stops at a conflict, and the intervals it records in the cache on
      the way (those of the considered tasks before the first conflict). */
  function Scan(db: Db, employee: Id, ignore: set<Id>, rows: seq<Id>, start: int, end: int)
    : (bool, seq<Interval>)
    requires RefsValid(db)
  {
    if rows == [] then (false, [])
    else if !Considered(db, employee, ignore, rows[0]) then
      Scan(db, employee, ignore, rows[1..], start, end)
    else if ConflictsWith(db, start, end, rows[0]) then (true, [])
    else
      var rest := Scan(db, employee, ignore, rows[1..], start, end);
      (rest.0, [ExpectedInterval(db, rows[0])] + rest.1)
  }

  /** The scan reports a conflict exactly when some considered row conflicts. */
  lemma {:induction false} ScanConflictIff(db: Db, employee: Id, ignore: set<Id>, rows: seq<Id>,
                                           start: int, end: int)
    requires RefsValid(db)
    ensures Scan(db, employee, ignore, rows, start, end).0 <==>
      exists i :: 0 <= i < |rows| && Considered(db, employee, ignore, rows[i]) &&
        ConflictsWith(db, start, end, rows[i])
  {
    if rows != [] {
      ScanConflictIff(db, employee, ignore, rows[1..], start, end);
      if exists i :: 0 <= i < |rows| && Considered(db, employee, ignore, rows[i]) &&
                     ConflictsWith(db, start, end, rows[i]) {
        var i :| 0 <= i < |rows| && Considered(db, employee, ignore, rows[i]) &&
                 ConflictsWith(db, start, end, rows[i]);
        if i > 0 {
          assert rows[1..][i - 1] == rows[i];
        }
      }
      if exists j :: 0 <= j < |rows[1..]| && Considered(db, employee, ignore, rows[1..][j]) &&
                     ConflictsWith(db, start, end, rows[1..][j]) {
        var j :| 0 <= j < |rows[1..]| && Considered(db, employee, ignore, rows[1..][j]) &&
                 ConflictsWith(db, start, end, rows[1..][j]);
        assert rows[j + 1] == rows[1..][j];
      }
    }
  }

  /** Over the rows of `employee.tasks`, the scan reports a conflict exactly when
      one of the employee's UPCOMING or ONGOING tasks outside `ignore` has an
      expected interval that conflicts with the candidate. */
  lemma ScanMatchesEmployeeTasks(db: Db, employee: Id, ignore: set<Id>, rows: seq<Id>,
                                 start: int, end: int)
    requires RefsValid(db) && EmployeeRows(db, employee, rows)
    ensures Scan(db, employee, ignore, rows, start, end).0 <==>
      exists t :: Considered(db, employee, ignore, t) && ConflictsWith(db, start, end, t)
  {
    ScanConflictIff(db, employee, ignore, rows, start, end);
    if exists t :: Considered(db, employee, ignore, t) && ConflictsWith(db, start, end, t) {
      var t :| Considered(db, employee, ignore, t) && ConflictsWith(db, start, end, t);
      var i :| 0 <= i < |rows| && rows[i] == t;
      assert Considered(db, employee, ignore, rows[i]) && ConflictsWith(db, start, end, rows[i]);
    }
  }

  /** The intervals of all considered rows, in row order. */
  function ConsideredIntervals(db: Db, employee: Id, ignore: set<Id>, rows: seq<Id>): seq<Interval>
    requires RefsValid(db)
  {
    if rows == [] then []
    else if Considered(db, employee, ignore, rows[0]) then
      [ExpectedInterval(db, rows[0])] + ConsideredIntervals(db, employee, ignore, rows[1..])
    else ConsideredIntervals(db, employee, ignore, rows[1..])
  }

  predicate AnyConflict(ivs: seq<Interval>, start: int, end: int) {
    exists k :: 0 <= k < |ivs| && IsTimeConflicting(start, end, ivs[k].start, ivs[k].end)
  }

  /** A scan that found no conflict records every considered interval; a
      cache filled that way answers any later candidate exactly as a new
      database scan would. */
  lemma {:induction false} CompleteCacheIsExact(db: Db, employee: Id, ignore: set<Id>, rows: seq<Id>,
                                                s1: int, e1: int, s2: int, e2: int)
    requires RefsValid(db)
    requires !Scan(db, employee, ignore, rows, s1, e1).0
    ensures Scan(db, employee, ignore, rows, s1, e1).1 == ConsideredIntervals(db, employee, ignore, rows)
    ensures AnyConflict(Scan(db, employee, ignore, rows, s1, e1).1, s2, e2) <==>
      Scan(db, employee, ignore, rows, s2, e2).0
  {
    if rows != [] {
      CompleteCacheIsExact(db, employee, ignore, rows[1..], s1, e1, s2, e2);
      var tail := ConsideredIntervals(db, employee, ignore, rows[1..]);
      if Considered(db, employee, ignore, rows[0]) {
        var ivs := [ExpectedInterval(db, rows[0])] + tail;
        if AnyConflict(tail, s2, e2) {
          var k :| 0 <= k < |tail| && IsTimeConflicting(s2, e2, tail[k].start, tail[k].end);
          assert ivs[k + 1] == tail[k];
        }
        if AnyConflict(ivs, s2, e2) && !ConflictsWith(db, s2, e2, rows[0]) {
          var k :| 0 <= k < |ivs| && IsTimeConflicting(s2, e2, ivs[k].start, ivs[k].end);
          assert k > 0;
          assert tail[k - 1] == ivs[k];
        }
        if ConflictsWith(db, s2, e2, rows[0]) {
          assert IsTimeConflicting(s2, e2, ivs[0].start, ivs[0].end);
        }
      }
    }
  }

  /** The per-employee cache (`visited`): a dict that the check reads and
      extends in place. */
  class ConflictCache {
    var entries: map<Id, seq<Interval>>

    constructor (initial: map<Id, seq<Interval>>)
      ensures entries == initial
    {
      entries := initial;
    }
  }

  /** The cached path of `is_task_conflicting`: the candidate against each
      cached interval in turn. */
  method CachedConflict(otherTasks: seq<Interval>, taskStart: int, taskEnd: int) returns (r: bool)
    ensures r == AnyConflict(otherTasks, taskStart, taskEnd)
  {
    var i := 0;
    while i < |otherTasks|
      invariant 0 <= i <= |otherTasks|
      invariant forall k :: 0 <= k < i ==>
        !IsTimeConflicting(taskStart, taskEnd, otherTasks[k].start, otherTasks[k].end)
    {
      if IsTimeConflicting(taskStart, taskEnd, otherTasks[i].start, otherTasks[i].end) {
        return true;
      }
      i := i + 1;
    }
    return false;
  }

  /** The expected start and end `is_task_conflicting` computes for a task it
      considers: its start delta after the parent-chain time (after the
      workflow start for a head), lasting its duration. */
  method ExpectedTimes(db: Db, t: Id) returns (expectedStartTime: int, expectedEndTime: int)
    requires RefsValid(db) && t in db.tasks
    ensures Interval(expectedStartTime, expectedEndTime) == ExpectedInterval(db, t)
  {
    var task := db.tasks[t];
    expectedStartTime := task.startDelta;
    if task.parent.Some? {
      var parentStart := GetParentStartTime(db, task.parent.value);
      expectedStartTime := expectedStartTime + parentStart;
    } else {
      expectedStartTime := expectedStartTime + db.workflows[task.workflow].startAt;
    }
    expectedEndTime := expectedStartTime + task.duration;
  }

  /** `visited` is truthy when it is a non-empty dict. A truthy cache whose
      entry for the employee is missing raises KeyError; a non-empty entry is
      used alone; otherwise the employee's tasks are scanned, and the entry is
      reset and filled only if the cache was truthy. */
  method IsTaskConflicting(db: Db, employee: Id, taskStart: int, taskEnd: int,
                           visited: ConflictCache?, ignoreTaskIds: set<Id>, rows: seq<Id>)
    returns (r: Result<bool>)
    requires RefsValid(db) && EmployeeRows(db, employee, rows)
    modifies visited
    ensures visited != null && |old(visited.entries)| > 0 && employee !in old(visited.entries) ==>
      r == Err(KeyError) && visited.entries == old(visited.entries)
    ensures visited != null && employee in old(visited.entries) && old(visited.entries)[employee] != [] ==>
      && r == Ok(AnyConflict(old(visited.entries)[employee], taskStart, taskEnd))
      && visited.entries == old(visited.entries)
    ensures visited == null || |old(visited.entries)| == 0 ||
            (employee in old(visited.entries) && old(visited.entries)[employee] == []) ==>
      && r == Ok(Scan(db, employee, ignoreTaskIds, rows, taskStart, taskEnd).0)
      && (r.value <==> exists t :: Considered(db, employee, ignoreTaskIds, t) &&
                                   ConflictsWith(db, taskStart, taskEnd, t))
      && (visited != null ==>
            visited.entries ==
              if |old(visited.entries)| == 0 then old(visited.entries)
              else old(visited.entries)[employee := Scan(db, employee, ignoreTaskIds, rows, taskStart, taskEnd).1])
  {
    if visited != null && |visited.entries| > 0 {
      if employee !in visited.entries {
        return Err(KeyError);
      }
      if visited.entries[employee] != [] {
        var hit := CachedConflict(visited.entries[employee], taskStart, taskEnd);
        return Ok(hit);
      }
    }

    ScanMatchesEmployeeTasks(db, employee, ignoreTaskIds, rows, taskStart, taskEnd);
    ghost var full := Scan(db, employee, ignoreTaskIds, rows, taskStart, taskEnd);
    var caching := visited != null && |visited.entries| > 0;
    if caching {
      visited.entries := visited.entries[employee := []];
    }
    ghost var filled: seq<Interval> := [];
    var i := 0;
    assert rows[i..] == rows;
    assert filled + full.1 == full.1;
    while i < |rows|
      invariant 0 <= i <= |rows|
      invariant full == (Scan(db, employee, ignoreTaskIds, rows[i..], taskStart, taskEnd).0,
                         filled + Scan(db, employee, ignoreTaskIds, rows[i..], taskStart, taskEnd).1)
      invariant caching ==> visited != null && visited.entries == old(visited.entries)[employee := filled]
      invariant !caching && visited != null ==> visited.entries == old(visited.entries)
    {
      assert rows[i..][1..] == rows[i + 1..];
      var t := rows[i];
      assert rows[i..] != [] && rows[i..][0] == t;
      if Considered(db, employee, ignoreTaskIds, t) {
        var expectedStartTime, expectedEndTime := ExpectedTimes(db, t);
        if IsTimeConflicting(taskStart, taskEnd, expectedStartTime, expectedEndTime) {
          assert full == (true, filled + []) && filled + [] == filled;
          return Ok(true);
        }
        if caching {
          visited.entries := visited.entries[employee := visited.entries[employee] +
                                                       [Interval(expectedStartTime, expectedEndTime)]];
        }
        ghost var rest := Scan(db, employee, ignoreTaskIds, rows[i + 1..], taskStart, taskEnd).1;
        assert filled + ([ExpectedInterval(db, t)] + rest) == (filled + [ExpectedInterval(db, t)]) + rest;
        filled := filled + [Interval(expectedStartTime, expectedEndTime)];
      }
      i := i + 1;
    }
    assert rows[i..] == [] && filled + [] == filled;
    return Ok(false);
  }

  /** The cache keeps only what the scan saw before it stopped: after a check
      that found a conflict at the second task, the cache holds the first
      task's interval alone, and a later candidate that overlaps only the
      second task is answered "no conflict" from the cache although the
      database scan says "conflict". */
  lemma PartialCacheMissesConflict()
    ensures var db := Db(map[1 := Employee(1, false)],
                         map[1 := Workflow(0, "w1", 1, 0), 2 := Workflow(0, "w2", 1, 20)],
                         map[1 := Task(1, "a", None, 1, 10), 2 := Task(2, "b", None, 1, 10)],
                         map[], 3, 3, 0);
      && RefsValid(db)
      && Scan(db, 1, {}, [1, 2], 25, 26) == (true, [Interval(0, 10)])
      && !AnyConflict([Interval(0, 10)], 21, 22)
      && Scan(db, 1, {}, [1, 2], 21, 22).0
  {
    var db := Db(map[1 := Employee(1, false)],
                 map[1 := Workflow(0, "w1", 1, 0), 2 := Workflow(0, "w2", 1, 20)],
                 map[1 := Task(1, "a", None, 1, 10), 2 := Task(2, "b", None, 1, 10)],
                 map[], 3, 3, 0);
    assert RefsValid(db);
    assert ExpectedInterval(db, 1) == Interval(0, 10);
    assert ExpectedInterval(db, 2) == Interval(20, 30);
    assert [1, 2][1..] == [2];
    assert [2][1..] == [];
    assert Considered(db, 1, {}, 1) && Considered(db, 1, {}, 2);
    assert !ConflictsWith(db, 25, 26, 1) && ConflictsWith(db, 25, 26, 2);
    assert Scan(db, 1, {}, [2], 25, 26) == (true, []);
    assert Scan(db, 1, {}, [1, 2], 25, 26) ==
      (Scan(db, 1, {}, [2], 25, 26).0, [ExpectedInterval(db, 1)] + Scan(db, 1, {}, [2], 25, 26).1);
    assert [ExpectedInterval(db, 1)] + [] == [Interval(0, 10)];
    assert ConflictsWith(db, 21, 22, 2);
    assert Scan(db, 1, {}, [2], 21, 22).0;
  }
}
