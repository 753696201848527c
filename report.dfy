/** The time accounting of the employee and workflow reports: the time a
    completed task took, its per-workflow sums, their ordered listing and
    totals, and a workflow's overall time. Durations are whole seconds; a
    SQL NULL is `None`. */
module Report {
  import opened Common
  import opened WorkflowModels
  import opened TimeModel

  // ---------------------------------------------------------------------
  // Time spent on one task (DIFF_EXPR_NO_PARENT, DIFF_EXPR_HAS_PARENT)
  // ---------------------------------------------------------------------

  /** A completed head task took `completed_at - workflow.start_at -
      start_delta`; any other completed task took `completed_at -
      parent.completed_at - start_delta`. A NULL operand makes it NULL. */
  function TimeSpent(db: Db, t: Id): (r: Option<int>)
    requires RefsValid(db) && t in db.tasks
    ensures r.Some? <==>
      db.tasks[t].completedAt.Some? &&
      (db.tasks[t].parent.Some? ==> db.tasks[db.tasks[t].parent.value].completedAt.Some?)
  {
    var task := db.tasks[t];
    if task.completedAt.None? then None
    else if task.parent.None? then
      Some(task.completedAt.value - db.workflows[task.workflow].startAt - task.startDelta)
    else
      var parent := db.tasks[task.parent.value];
      if parent.completedAt.None? then None
      else Some(task.completedAt.value - parent.completedAt.value - task.startDelta)
  }

  /** The time spent is measured from the moment the task was due to start,
      the same start the conflict check uses: the workflow's start (or the
      parent's completion) plus the start delta. */
  lemma TimeSpentSinceDue(db: Db, t: Id)
    requires RefsValid(db) && t in db.tasks && TimeSpent(db, t).Some?
    ensures TimeSpent(db, t) == Some(db.tasks[t].completedAt.value - ExpectedInterval(db, t).start)
  {
    if db.tasks[t].parent.Some? {
      ChildStartsAfterParent(db, t);
    }
  }

  /** A task the report counts: COMPLETE, and a head exactly when `heads`. */
  predicate Counted(task: Task, heads: bool) {
    task.status == TaskStatus.Complete && (task.parent.None? == heads)
  }

  /** The rows of a task queryset: existing tasks, each once. */
  ghost predicate Rows(db: Db, tasks: seq<Id>) {
    && (forall i :: 0 <= i < |tasks| ==> tasks[i] in db.tasks)
    && (forall i, j :: 0 <= i < j < |tasks| ==> tasks[i] != tasks[j])
  }

  // ---------------------------------------------------------------------
  // SQL aggregates
  // ---------------------------------------------------------------------

  /** One step of SQL's SUM: NULLs are skipped. */
  function SqlAdd(a: Option<int>, b: Option<int>): Option<int> {
    if a.None? then b else if b.None? then a else Some(a.value + b.value)
  }

  /** SQL's SUM: the sum of the non-NULL values, NULL when there are none. */
  function SqlSum(xs: seq<Option<int>>): (r: Option<int>)
    ensures r.None? <==> forall i :: 0 <= i < |xs| ==> xs[i].None?
    decreases |xs|
  {
    if xs == [] then None
    else
      var prefix := xs[..|xs| - 1];
      assert forall i :: 0 <= i < |xs| - 1 ==> prefix[i] == xs[i];
      SqlAdd(SqlSum(prefix), xs[|xs| - 1])
  }

  /** The time spent of each completed task of `tasks`
      (`calculate_completed_tasks_time_spent`: heads and others together). */
  function CompletedTimes(db: Db, tasks: seq<Id>): (r: seq<Option<int>>)
    requires RefsValid(db) && Rows(db, tasks)
    ensures |r| <= |tasks|
    ensures forall x :: x in r ==>
      exists i :: 0 <= i < |tasks| && db.tasks[tasks[i]].status == TaskStatus.Complete && x == TimeSpent(db, tasks[i])
    decreases |tasks|
  {
    if tasks == [] then []
    else
      var prefix := tasks[..|tasks| - 1];
      var t := tasks[|tasks| - 1];
      assert forall i :: 0 <= i < |prefix| ==> prefix[i] == tasks[i];
      CompletedTimes(db, prefix) + (if db.tasks[t].status == TaskStatus.Complete then [TimeSpent(db, t)] else [])
  }

  /** `total_time_spent_on_tasks`: the SQL sum of the completed tasks' times,
      or zero when it is NULL; that is, the plain sum of the defined times. */
  function TasksTotal(db: Db, tasks: seq<Id>): (r: int)
    requires RefsValid(db) && Rows(db, tasks)
    ensures r == SumDefined(CompletedTimes(db, tasks))
  {
    var s := SqlSum(CompletedTimes(db, tasks));
    SqlSumCoalesced(CompletedTimes(db, tasks));
    if s.Some? then s.value else 0
  }

  /** The sum of the values that are not NULL (zero for none). */
  function SumDefined(xs: seq<Option<int>>): int
    decreases |xs|
  {
    if xs == [] then 0 else (if xs[0].Some? then xs[0].value else 0) + SumDefined(xs[1..])
  }

  /** SUM coalesced to zero is the sum of the defined values. */
  lemma {:induction false} SqlSumCoalesced(xs: seq<Option<int>>)
    ensures SqlSum(xs).GetOr(0) == SumDefined(xs)
    decreases |xs|
  {
    if xs != [] {
      var prefix := xs[..|xs| - 1];
      SqlSumCoalesced(prefix);
      SumDefinedSnoc(prefix, xs[|xs| - 1]);
      assert prefix + [xs[|xs| - 1]] == xs;
    }
  }

  /** Adding one value at the end of the list adds it to the sum. */
  lemma {:induction false} SumDefinedSnoc(xs: seq<Option<int>>, x: Option<int>)
    ensures SumDefined(xs + [x]) == SumDefined(xs) + (if x.Some? then x.value else 0)
    decreases |xs|
  {
    if xs != [] {
      assert (xs + [x])[1..] == xs[1..] + [x];
      SumDefinedSnoc(xs[1..], x);
    } else {
      assert ([] + [x])[1..] == [];
    }
  }

  /** SQL's MAX: the largest non-NULL value, NULL when there are none. */
  function SqlMax(xs: seq<Option<int>>): (r: Option<int>)
    ensures r.None? <==> forall i :: 0 <= i < |xs| ==> xs[i].None?
    ensures r.Some? ==> r in xs && forall i :: 0 <= i < |xs| && xs[i].Some? ==> xs[i].value <= r.value
    decreases |xs|
  {
    if xs == [] then None
    else
      var prefix := xs[..|xs| - 1];
      assert forall i :: 0 <= i < |xs| - 1 ==> prefix[i] == xs[i];
      var m := SqlMax(prefix);
      var x := xs[|xs| - 1];
      if m.None? || (x.Some? && x.value > m.value) then x else m
  }

  /** SQL's MIN: the smallest non-NULL value, NULL when there are none. */
  function SqlMin(xs: seq<Option<int>>): (r: Option<int>)
    ensures r.None? <==> forall i :: 0 <= i < |xs| ==> xs[i].None?
    ensures r.Some? ==> r in xs && forall i :: 0 <= i < |xs| && xs[i].Some? ==> r.value <= xs[i].value
    decreases |xs|
  {
    if xs == [] then None
    else
      var prefix := xs[..|xs| - 1];
      assert forall i :: 0 <= i < |xs| - 1 ==> prefix[i] == xs[i];
      var m := SqlMin(prefix);
      var x := xs[|xs| - 1];
      if m.None? || (x.Some? && x.value < m.value) then x else m
  }

  /** `max_time_spent_on_tasks` and `min_time_spent_on_tasks`: the SQL
      aggregate, or zero when it is NULL. */
  function TasksMax(db: Db, tasks: seq<Id>): (r: int)
    requires RefsValid(db) && Rows(db, tasks)
    ensures var times := CompletedTimes(db, tasks);
      && ((forall i :: 0 <= i < |times| ==> times[i].None?) ==> r == 0)
      && (forall i :: 0 <= i < |times| && times[i].Some? ==> times[i].value <= r && Some(r) in times)
  {
    var m := SqlMax(CompletedTimes(db, tasks));
    if m.None? then 0 else m.value
  }

  function TasksMin(db: Db, tasks: seq<Id>): (r: int)
    requires RefsValid(db) && Rows(db, tasks)
    ensures var times := CompletedTimes(db, tasks);
      && ((forall i :: 0 <= i < |times| ==> times[i].None?) ==> r == 0)
      && (forall i :: 0 <= i < |times| && times[i].Some? ==> r <= times[i].value && Some(r) in times)
  {
    var m := SqlMin(CompletedTimes(db, tasks));
    if m.None? then 0 else m.value
  }

  /** Every completed task of the queryset contributes its time spent. */
  lemma {:induction false} CompletedTimesHas(db: Db, tasks: seq<Id>, t: Id)
    requires RefsValid(db) && Rows(db, tasks)
    requires t in tasks && db.tasks[t].status == TaskStatus.Complete
    ensures TimeSpent(db, t) in CompletedTimes(db, tasks)
    decreases |tasks|
  {
    var prefix := tasks[..|tasks| - 1];
    if tasks[|tasks| - 1] != t {
      assert t in prefix by {
        var i :| 0 <= i < |tasks| && tasks[i] == t;
        assert prefix[i] == t;
      }
      CompletedTimesHas(db, prefix, t);
    }
  }

  /** The reported extremes bound the time spent on each completed task whose
      time is defined, and are attained when any is defined. */
  lemma TaskTimesBounds(db: Db, tasks: seq<Id>, t: Id)
    requires RefsValid(db) && Rows(db, tasks)
    requires t in tasks && db.tasks[t].status == TaskStatus.Complete && TimeSpent(db, t).Some?
    ensures TasksMin(db, tasks) <= TimeSpent(db, t).value <= TasksMax(db, tasks)
    ensures Some(TasksMax(db, tasks)) in CompletedTimes(db, tasks)
    ensures Some(TasksMin(db, tasks)) in CompletedTimes(db, tasks)
  {
    var times := CompletedTimes(db, tasks);
    CompletedTimesHas(db, tasks, t);
    var i :| 0 <= i < |times| && times[i] == TimeSpent(db, t);
    assert times[i].Some?;
  }

  /** Only COMPLETE tasks count: a task of any other status adds nothing, and
      a completed one adds its time spent. */
  lemma TasksTotalStep(db: Db, tasks: seq<Id>, t: Id)
    requires RefsValid(db) && Rows(db, tasks) && t in db.tasks && t !in tasks
    ensures var prev := SqlSum(CompletedTimes(db, tasks));
      && (db.tasks[t].status != TaskStatus.Complete ==> TasksTotal(db, tasks + [t]) == TasksTotal(db, tasks))
      && (db.tasks[t].status == TaskStatus.Complete ==>
            SqlSum(CompletedTimes(db, tasks + [t])) == SqlAdd(prev, TimeSpent(db, t)))
  {
    var all := tasks + [t];
    assert all[..|all| - 1] == tasks;
    assert Rows(db, all);
    var times := CompletedTimes(db, tasks);
    if db.tasks[t].status == TaskStatus.Complete {
      var next := times + [TimeSpent(db, t)];
      assert next[..|next| - 1] == times;
    } else {
      assert CompletedTimes(db, all) == times;
    }
  }

  // ---------------------------------------------------------------------
  // get_workflows_time
  // ---------------------------------------------------------------------

  /** The times of the counted tasks of workflow `w`: one SQL group. */
  function GroupTimes(db: Db, tasks: seq<Id>, heads: bool, w: Id): seq<Option<int>>
    requires RefsValid(db) && Rows(db, tasks)
    decreases |tasks|
  {
    if tasks == [] then []
    else
      var t := tasks[|tasks| - 1];
      GroupTimes(db, tasks[..|tasks| - 1], heads, w) +
        (if Counted(db.tasks[t], heads) && db.tasks[t].workflow == w then [TimeSpent(db, t)] else [])
  }

  /** `.values('workflow').annotate(total_time_spent=Sum(...))` over the
      counted tasks: one entry per workflow with at least one counted task
      (GroupKeys), holding the SQL sum of that workflow's group
      (GroupSumsValues). */
  function GroupSums(db: Db, tasks: seq<Id>, heads: bool): map<Id, Option<int>>
    requires RefsValid(db) && Rows(db, tasks)
    decreases |tasks|
  {
    if tasks == [] then map[]
    else
      var m := GroupSums(db, tasks[..|tasks| - 1], heads);
      var task := db.tasks[tasks[|tasks| - 1]];
      if Counted(task, heads) then
        m[task.workflow := SqlAdd(if task.workflow in m then m[task.workflow] else None,
                                  TimeSpent(db, tasks[|tasks| - 1]))]
      else m
  }

  /** Each workflow's entry is the SQL sum over its own group of counted
      tasks, and a workflow has an entry exactly when its group is not
      empty. */
  lemma GroupSumsValues(db: Db, tasks: seq<Id>, heads: bool)
    requires RefsValid(db) && Rows(db, tasks)
    ensures forall w :: w in GroupSums(db, tasks, heads) <==> |GroupTimes(db, tasks, heads, w)| > 0
    ensures forall w :: w in GroupSums(db, tasks, heads) ==>
      GroupSums(db, tasks, heads)[w] == SqlSum(GroupTimes(db, tasks, heads, w))
  {
    forall w: Id
      ensures w in GroupSums(db, tasks, heads) <==> |GroupTimes(db, tasks, heads, w)| > 0
      ensures w in GroupSums(db, tasks, heads) ==>
        GroupSums(db, tasks, heads)[w] == SqlSum(GroupTimes(db, tasks, heads, w))
    {
      GroupSumValue(db, tasks, heads, w);
    }
  }

  /** The entry of one workflow, by induction over the tasks. */
  lemma {:induction false} GroupSumValue(db: Db, tasks: seq<Id>, heads: bool, w: Id)
    requires RefsValid(db) && Rows(db, tasks)
    ensures w in GroupSums(db, tasks, heads) <==> |GroupTimes(db, tasks, heads, w)| > 0
    ensures w in GroupSums(db, tasks, heads) ==>
      GroupSums(db, tasks, heads)[w] == SqlSum(GroupTimes(db, tasks, heads, w))
    decreases |tasks|
  {
    if tasks != [] {
      var prefix := tasks[..|tasks| - 1];
      assert Rows(db, prefix) by {
        assert forall i :: 0 <= i < |prefix| ==> prefix[i] == tasks[i];
      }
      GroupSumValue(db, prefix, heads, w);
      var t := tasks[|tasks| - 1];
      var group := GroupTimes(db, prefix, heads, w);
      if Counted(db.tasks[t], heads) && db.tasks[t].workflow == w {
        GroupTimesSnoc(db, tasks, heads, w);
        if w !in GroupSums(db, prefix, heads) {
          assert group == [];
          assert SqlSum(group) == None;
        }
      } else {
        assert GroupTimes(db, tasks, heads, w) == group + [];
        assert group + [] == group;
      }
    }
  }

  /** The last task, when counted, ends its workflow's group. */
  lemma GroupTimesSnoc(db: Db, tasks: seq<Id>, heads: bool, w: Id)
    requires RefsValid(db) && Rows(db, tasks) && |tasks| > 0
    requires Counted(db.tasks[tasks[|tasks| - 1]], heads) && db.tasks[tasks[|tasks| - 1]].workflow == w
    ensures var prefix := tasks[..|tasks| - 1];
      var group := GroupTimes(db, prefix, heads, w);
      && GroupTimes(db, tasks, heads, w) == group + [TimeSpent(db, tasks[|tasks| - 1])]
      && SqlSum(GroupTimes(db, tasks, heads, w)) == SqlAdd(SqlSum(group), TimeSpent(db, tasks[|tasks| - 1]))
  {
    var prefix := tasks[..|tasks| - 1];
    var group := GroupTimes(db, prefix, heads, w);
    var all := group + [TimeSpent(db, tasks[|tasks| - 1])];
    assert all[..|all| - 1] == group;
  }

  /** A workflow is grouped exactly when one of its tasks is counted. */
  lemma {:induction false} GroupKeys(db: Db, tasks: seq<Id>, heads: bool)
    requires RefsValid(db) && Rows(db, tasks)
    ensures forall w :: w in GroupSums(db, tasks, heads) <==>
      exists i :: 0 <= i < |tasks| && db.tasks[tasks[i]].workflow == w && Counted(db.tasks[tasks[i]], heads)
    decreases |tasks|
  {
    if tasks != [] {
      var prefix := tasks[..|tasks| - 1];
      assert forall i :: 0 <= i < |prefix| ==> prefix[i] == tasks[i];
      GroupKeys(db, prefix, heads);
    }
  }

  /** Whether merging the two groups adds to a Python None (a TypeError). */
  predicate AddsNone(first: map<Id, Option<int>>, others: map<Id, Option<int>>) {
    exists w :: w in others && (others[w].None? || (w in first && first[w].None?))
  }

  /** The `workflows_time` dictionary: the head-task sums, then each other-task
      sum added to the head-task sum of the same workflow (zero when there is
      none). */
  function Merge(first: map<Id, Option<int>>, others: map<Id, Option<int>>): (r: Result<map<Id, Option<int>>>)
    ensures r.Err? <==> AddsNone(first, others)
    ensures r.Err? ==> r.error == TypeError
    ensures r.Ok? ==> r.value.Keys == first.Keys + others.Keys
    ensures r.Ok? ==> forall w :: w in first && w !in others ==> r.value[w] == first[w]
    ensures r.Ok? ==> forall w :: w in others && w !in first ==> r.value[w] == others[w]
    ensures r.Ok? ==> forall w :: w in others && w in first ==>
      r.value[w] == Some(first[w].value + others[w].value)
  {
    if AddsNone(first, others) then Err(TypeError)
    else Ok(map w | w in first.Keys + others.Keys ::
              if w in others then Some(others[w].value + (if w in first then first[w].value else 0))
              else first[w])
  }

  /** `data` lists the dictionary's entries, each once, by ascending workflow. */
  ghost predicate Listed(m: map<Id, Option<int>>, data: seq<(Id, Option<int>)>) {
    && Ascending(data)
    && (forall e :: e in data ==> e.0 in m && m[e.0] == e.1)
    && (forall w :: w in m ==> (w, m[w]) in data)
  }

  predicate Ascending(data: seq<(Id, Option<int>)>) {
    forall i, j :: 0 <= i < j < |data| ==> data[i].0 < data[j].0
  }

  predicate DistinctIds(data: seq<(Id, Option<int>)>) {
    forall i, j :: 0 <= i < j < |data| ==> data[i].0 != data[j].0
  }

  /** Inserting an entry into an ascending list. */
  function Insert(data: seq<(Id, Option<int>)>, e: (Id, Option<int>)): (r: seq<(Id, Option<int>)>)
    requires Ascending(data) && forall x :: x in data ==> x.0 != e.0
    ensures Ascending(r)
    ensures forall x :: x in r <==> x in data || x == e
    decreases |data|
  {
    if data == [] || e.0 < data[0].0 then [e] + data
    else
      assert forall k :: 0 <= k < |data| - 1 ==> data[1..][k] == data[k + 1];
      var rest := Insert(data[1..], e);
      assert forall x :: x in rest ==> data[0].0 < x.0;
      [data[0]] + rest
  }

  /** `sorted(data, key=lambda k: k['workflow'])` for distinct workflows. */
  function SortByWorkflow(data: seq<(Id, Option<int>)>): (r: seq<(Id, Option<int>)>)
    requires DistinctIds(data)
    ensures Ascending(r)
    ensures forall x :: x in r <==> x in data
    decreases |data|
  {
    if data == [] then []
    else
      var prefix := data[..|data| - 1];
      var last := data[|data| - 1];
      assert forall x :: x in prefix ==> x.0 != last.0;
      Insert(SortByWorkflow(prefix), last)
  }

  /** Two ascending lists of the same entries are the same list, so the
      listing does not depend on the dictionary's iteration order. */
  lemma {:induction false} AscendingUnique(a: seq<(Id, Option<int>)>, b: seq<(Id, Option<int>)>)
    requires Ascending(a) && Ascending(b)
    requires forall x :: x in a <==> x in b
    ensures a == b
    decreases |a|
  {
    if a != [] {
      assert a[0] in a;
    }
    if b != [] {
      assert b[0] in b;
    }
    if a != [] && b != [] {
      var i :| 0 <= i < |a| && a[i] == b[0];
      var j :| 0 <= j < |b| && b[j] == a[0];
      assert a[0].0 <= b[0].0;
      assert b[0].0 <= a[0].0;
      assert a[0] == b[0];
      forall x | x in a[1..]
        ensures x in b[1..]
      {
        var k :| 1 <= k < |a| && a[k] == x;
        assert x in a;
        var l :| 0 <= l < |b| && b[l] == x;
        assert a[0].0 < a[k].0;
        assert l != 0;
      }
      forall x | x in b[1..]
        ensures x in a[1..]
      {
        var k :| 1 <= k < |b| && b[k] == x;
        assert x in b;
        var l :| 0 <= l < |a| && a[l] == x;
        assert b[0].0 < b[k].0;
        assert l != 0;
      }
      AscendingUnique(a[1..], b[1..]);
    }
  }

  /** `get_workflows_time`: the head-task and other-task groups merged into
      `workflows_time`, listed, and sorted by workflow. Adding to a None sum
      raises a TypeError. */
  method GetWorkflowsTime(db: Db, tasks: seq<Id>) returns (r: Result<seq<(Id, Option<int>)>>)
    requires RefsValid(db) && Rows(db, tasks)
    ensures var merged := Merge(GroupSums(db, tasks, true), GroupSums(db, tasks, false));
      && (r.Err? <==> merged.Err?)
      && (r.Err? ==> r.error == TypeError)
      && (r.Ok? ==> Listed(merged.value, r.value))
  {
    var first := GroupSums(db, tasks, true);
    var others := GroupSums(db, tasks, false);
    var times: map<Id, Option<int>> := map[];
    var left := first.Keys;
    while left != {}
      invariant left <= first.Keys
      invariant times.Keys == first.Keys - left
      invariant forall w :: w in times ==> times[w] == first[w]
      decreases left
    {
      var w :| w in left;
      times := times[w := first[w]];
      left := left - {w};
    }
    left := others.Keys;
    while left != {}
      invariant left <= others.Keys
      invariant times.Keys == first.Keys + (others.Keys - left)
      invariant forall w :: w in others && w !in left ==> others[w].Some? && (w in first ==> first[w].Some?)
      invariant forall w :: w in times && (w !in others || w in left) ==> times[w] == first[w]
      invariant forall w :: w in times && w in others && w !in left ==>
        times[w] == Some(others[w].value + (if w in first then first[w].value else 0))
      decreases left
    {
      var w :| w in left;
      if others[w].None? || (w in times && times[w].None?) {
        return Err(TypeError);
      }
      times := times[w := Some(others[w].value + (if w in times then times[w].value else 0))];
      left := left - {w};
    }
    MergedIsMerge(first, others, times);
    var data: seq<(Id, Option<int>)> := [];
    left := times.Keys;
    while left != {}
      invariant left <= times.Keys
      invariant forall e :: e in data ==> e.0 in times && e.0 !in left && times[e.0] == e.1
      invariant forall w :: w in times && w !in left ==> (w, times[w]) in data
      invariant DistinctIds(data)
      decreases left
    {
      var w :| w in left;
      data := data + [(w, times[w])];
      left := left - {w};
    }
    SortedIsListed(times, data);
    return Ok(SortByWorkflow(data));
  }

  /** What the merge loops leave in `workflows_time` is `Merge`'s dictionary. */
  lemma MergedIsMerge(first: map<Id, Option<int>>, others: map<Id, Option<int>>, times: map<Id, Option<int>>)
    requires times.Keys == first.Keys + others.Keys
    requires forall w :: w in others ==> others[w].Some? && (w in first ==> first[w].Some?)
    requires forall w :: w in times && w !in others ==> times[w] == first[w]
    requires forall w :: w in times && w in others ==>
      times[w] == Some(others[w].value + (if w in first then first[w].value else 0))
    ensures Merge(first, others) == Ok(times)
  {
    assert !AddsNone(first, others);
    var m := Merge(first, others).value;
    forall w | w in m
      ensures m[w] == times[w]
    {
    }
    assert m == times;
  }

  /** Sorting the listed entries of a dictionary gives its listing. */
  lemma SortedIsListed(times: map<Id, Option<int>>, data: seq<(Id, Option<int>)>)
    requires DistinctIds(data)
    requires forall e :: e in data ==> e.0 in times && times[e.0] == e.1
    requires forall w :: w in times ==> (w, times[w]) in data
    ensures Listed(times, SortByWorkflow(data))
  {
  }

  /** `insert_workflow`: the i-th entry is given the i-th of its workflows
      ordered by id; `rows` is that ordered queryset. Too few rows raise an
      IndexError. */
  function InsertWorkflow(db: Db, data: seq<(Id, Option<int>)>, rows: seq<Id>): (r: Result<seq<(Workflow, Option<int>)>>)
    requires forall i :: 0 <= i < |rows| ==> rows[i] in db.workflows
    ensures r.Err? <==> |rows| < |data|
    ensures r.Err? ==> r.error == IndexError
    ensures r.Ok? ==> (|r.value| == |data| &&
      forall i :: 0 <= i < |data| ==> r.value[i] == (db.workflows[rows[i]], data[i].1))
  {
    if |rows| < |data| then Err(IndexError)
    else Ok(seq(|data|, i requires 0 <= i < |data| => (db.workflows[rows[i]], data[i].1)))
  }

  /** `Workflow.objects.filter(id__in=ids).order_by('id')`: the existing
      workflows among `ids`, ascending. */
  ghost predicate OrderedWorkflows(db: Db, ids: set<Id>, rows: seq<Id>) {
    && (forall i, j :: 0 <= i < j < |rows| ==> rows[i] < rows[j])
    && (forall w :: w in rows <==> w in ids && w in db.workflows)
  }

  /** Because the listing is sorted by workflow, the index pairing of
      `insert_workflow` gives every entry its own workflow. */
  lemma InsertWorkflowPairs(db: Db, m: map<Id, Option<int>>, data: seq<(Id, Option<int>)>, rows: seq<Id>)
    requires Listed(m, data) && (forall w :: w in m ==> w in db.workflows)
    requires OrderedWorkflows(db, m.Keys, rows)
    ensures InsertWorkflow(db, data, rows) ==
      Ok(seq(|data|, i requires 0 <= i < |data| => (db.workflows[data[i].0], data[i].1)))
  {
    var keyed := seq(|rows|, i requires 0 <= i < |rows| => (rows[i], m[rows[i]]));
    forall x | x in keyed
      ensures x in data
    {
      var i :| 0 <= i < |rows| && keyed[i] == x;
    }
    forall x | x in data
      ensures x in keyed
    {
      assert x.0 in rows;
      var i :| 0 <= i < |rows| && rows[i] == x.0;
      assert keyed[i] == x;
    }
    AscendingUnique(keyed, data);
    assert |rows| == |data|;
    var paired := InsertWorkflow(db, data, rows);
    var expected := seq(|data|, i requires 0 <= i < |data| => (db.workflows[data[i].0], data[i].1));
    forall i | 0 <= i < |data|
      ensures paired.value[i] == expected[i]
    {
      assert rows[i] == keyed[i].0 == data[i].0;
    }
    assert paired.value == expected;
  }

  // ---------------------------------------------------------------------
  // The employee report's workflow totals
  // ---------------------------------------------------------------------

  datatype Totals = Totals(total: int, max: int, min: int)

  function SumOf(xs: seq<int>): int
    decreases |xs|
  {
    if xs == [] then 0 else SumOf(xs[..|xs| - 1]) + xs[|xs| - 1]
  }

  function MaxOf(xs: seq<int>): (m: int)
    requires |xs| >= 1
    ensures m in xs && forall i :: 0 <= i < |xs| ==> xs[i] <= m
    decreases |xs|
  {
    if |xs| == 1 then xs[0]
    else
      var prefix := xs[..|xs| - 1];
      assert forall i :: 0 <= i < |xs| - 1 ==> prefix[i] == xs[i];
      var m := MaxOf(prefix);
      if xs[|xs| - 1] > m then xs[|xs| - 1] else m
  }

  function MinOf(xs: seq<int>): (m: int)
    requires |xs| >= 1
    ensures m in xs && forall i :: 0 <= i < |xs| ==> m <= xs[i]
    decreases |xs|
  {
    if |xs| == 1 then xs[0]
    else
      var prefix := xs[..|xs| - 1];
      assert forall i :: 0 <= i < |xs| - 1 ==> prefix[i] == xs[i];
      var m := MinOf(prefix);
      if xs[|xs| - 1] < m then xs[|xs| - 1] else m
  }

  /** The listed sums as numbers, when none is None. */
  function Values(data: seq<(Id, Option<int>)>): (vs: seq<int>)
    requires forall i :: 0 <= i < |data| ==> data[i].1.Some?
    ensures |vs| == |data| && forall i :: 0 <= i < |data| ==> vs[i] == data[i].1.value
  {
    seq(|data|, i requires 0 <= i < |data| => data[i].1.value)
  }

  /** `total_time_spent_on_workflows` (a `reduce` from zero) and the largest
      and smallest sums (of `[timedelta(0)]` when there are none); adding a
      None sum raises a TypeError. */
  function WorkflowTotals(data: seq<(Id, Option<int>)>): (r: Result<Totals>)
    ensures r.Err? <==> exists i :: 0 <= i < |data| && data[i].1.None?
    ensures r.Err? ==> r.error == TypeError
    ensures r.Ok? ==> r.value.total == SumOf(Values(data))
    ensures r.Ok? && data == [] ==> r.value == Totals(0, 0, 0)
    ensures r.Ok? && data != [] ==>
      && (exists i :: 0 <= i < |data| && data[i].1.value == r.value.max)
      && (exists i :: 0 <= i < |data| && data[i].1.value == r.value.min)
      && (forall i :: 0 <= i < |data| ==> r.value.min <= data[i].1.value <= r.value.max)
  {
    if exists i :: 0 <= i < |data| && data[i].1.None? then Err(TypeError)
    else
      var vs := Values(data);
      var spread := if vs == [] then [0] else vs;
      Ok(Totals(SumOf(vs), MaxOf(spread), MinOf(spread)))
  }

  /** One step of the `reduce`: a further listed sum is added to the total, and
      a None sum makes the whole reduction fail. */
  lemma TotalsSnoc(data: seq<(Id, Option<int>)>, e: (Id, Option<int>))
    ensures e.1.None? ==> WorkflowTotals(data + [e]) == Err(TypeError)
    ensures e.1.Some? && WorkflowTotals(data).Ok? ==>
      WorkflowTotals(data + [e]).Ok? &&
      WorkflowTotals(data + [e]).value.total == WorkflowTotals(data).value.total + e.1.value
  {
    var all := data + [e];
    assert all[|data|] == e;
    if e.1.Some? && WorkflowTotals(data).Ok? {
      assert forall i :: 0 <= i < |data| ==> all[i] == data[i];
      assert Values(all)[..|all| - 1] == Values(data);
    }
  }

  /** The workflow total is the sum of the listed sums: splitting the listing
      splits the total. */
  lemma {:induction false} SumOfSplits(xs: seq<int>, ys: seq<int>)
    ensures SumOf(xs + ys) == SumOf(xs) + SumOf(ys)
    decreases |ys|
  {
    if ys != [] {
      var all := xs + ys;
      assert all[..|all| - 1] == xs + ys[..|ys| - 1];
      assert all[|all| - 1] == ys[|ys| - 1];
      SumOfSplits(xs, ys[..|ys| - 1]);
      assert SumOf(all) == SumOf(xs + ys[..|ys| - 1]) + ys[|ys| - 1];
      assert SumOf(ys) == SumOf(ys[..|ys| - 1]) + ys[|ys| - 1];
    } else {
      assert xs + ys == xs;
    }
  }

  // ---------------------------------------------------------------------
  // The workflow report's total_time_spend
  // ---------------------------------------------------------------------

  /** `Sum('start_delta')` over the completed tasks of `tasks`. */
  function DeltaSum(db: Db, tasks: seq<Id>): (r: Option<int>)
    requires Rows(db, tasks)
    ensures r.None? <==> forall i :: 0 <= i < |tasks| ==> db.tasks[tasks[i]].status != TaskStatus.Complete
    decreases |tasks|
  {
    if tasks == [] then None
    else
      var prefix := tasks[..|tasks| - 1];
      assert forall i :: 0 <= i < |prefix| ==> prefix[i] == tasks[i];
      var task := db.tasks[tasks[|tasks| - 1]];
      SqlAdd(DeltaSum(db, prefix), if task.status == TaskStatus.Complete then Some(task.startDelta) else None)
  }

  /** `total_time_spend`: zero for an INITIATED workflow; otherwise from its
      start to its completion (to now while it runs), less the start delays
      of its completed tasks. `tasks` lists exactly the workflow's tasks. */
  function TotalTimeSpend(db: Db, w: Id, tasks: seq<Id>, now: int): (r: int)
    requires w in db.workflows && Rows(db, tasks)
    requires forall t :: t in db.tasks && db.tasks[t].workflow == w <==> t in tasks
    ensures db.workflows[w].status == WorkflowStatus.Initiated ==> r == 0
  {
    var wf := db.workflows[w];
    if wf.status == WorkflowStatus.Initiated then 0
    else
      var end := if wf.completedAt.Some? then wf.completedAt.value else now;
      var delta := DeltaSum(db, tasks);
      end - wf.startAt - (if delta.Some? then delta.value else 0)
  }

  /** `chain` is the workflow's task chain from its head, every task
      completed. */
  ghost predicate CompletedChain(db: Db, w: Id, chain: seq<Id>) {
    && |chain| >= 1
    && Rows(db, chain)
    && db.tasks[chain[0]].parent.None?
    && (forall i :: 0 <= i < |chain| ==>
          && db.tasks[chain[i]].workflow == w
          && db.tasks[chain[i]].status == TaskStatus.Complete
          && db.tasks[chain[i]].completedAt.Some?)
    && (forall i :: 1 <= i < |chain| ==> db.tasks[chain[i]].parent == Some(chain[i - 1]))
  }

  /** The time spent on each task of a completed chain. */
  function ChainSpent(db: Db, w: Id, chain: seq<Id>): seq<int>
    requires RefsValid(db) && CompletedChain(db, w, chain)
  {
    seq(|chain|, i requires 0 <= i < |chain| =>
      assert i == 0 || db.tasks[chain[i - 1]].completedAt.Some?;
      TimeSpent(db, chain[i]).value)
  }

  /** Over a completed chain the task times telescope: they add up to the
      last completion less the workflow's start and the start delays. */
  lemma {:induction false} ChainTelescopes(db: Db, w: Id, chain: seq<Id>)
    requires RefsValid(db) && w in db.workflows && CompletedChain(db, w, chain)
    ensures SumOf(ChainSpent(db, w, chain)) ==
      db.tasks[chain[|chain| - 1]].completedAt.value - db.workflows[w].startAt - DeltaSum(db, chain).value
    decreases |chain|
  {
    var spent := ChainSpent(db, w, chain);
    var last := chain[|chain| - 1];
    if |chain| > 1 {
      var prefix := chain[..|chain| - 1];
      assert CompletedChain(db, w, prefix);
      assert ChainSpent(db, w, prefix) == spent[..|spent| - 1];
      ChainTelescopes(db, w, prefix);
    }
  }

  /** For a finished workflow whose tasks all lie on one completed chain and
      which finished with its last task, `total_time_spend` is the sum of the
      tasks' time spent. */
  lemma WorkflowTimeIsTaskTime(db: Db, w: Id, chain: seq<Id>, now: int)
    requires RefsValid(db) && w in db.workflows && CompletedChain(db, w, chain)
    requires forall t :: t in db.tasks && db.tasks[t].workflow == w ==> t in chain
    requires db.workflows[w].status != WorkflowStatus.Initiated
    requires db.workflows[w].completedAt == db.tasks[chain[|chain| - 1]].completedAt
    ensures TotalTimeSpend(db, w, chain, now) == SumOf(ChainSpent(db, w, chain))
  {
    ChainTelescopes(db, w, chain);
  }
}
