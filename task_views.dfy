/** The HTML task views (tasks/views.py): the visibility filter and the
    conjunctive list filters, the edit and delete permissions, and the two
    AJAX endpoints that change a task's status and re-order tasks. */
module TaskViews {
  import opened Common
  import opened Users
  import opened TaskModels
  import opened ProjectModels
  import ApiViews

  // ----- Visibility and list filters -----

  /** The visibility filter of the task list: admins (by profile role) see
      every task, others the tasks of projects they belong to, and those
      they are assigned to or created. */
  predicate WebTaskVisible(r: Requester, t: Task, projects: seq<Project>)
  {
    IsAdmin(r.profile) || IsProjectMember(projects, t.project, r.id) || t.assignee == r.id || t.creator == r.id
  }

  /** The filter form's cleaned data: an empty status or priority and an
      absent project or assignee mean "no filter". */
  datatype TaskFilter = TaskFilter(formValid: bool, status: string, priority: string, project: Option<nat>, assignee: Option<UserId>)

  const NoFilter: TaskFilter := TaskFilter(true, "", "", None, None)

  /** The filters are applied only when the form is valid, and then each
      non-empty one further restricts the list. */
  predicate MatchesFilter(f: TaskFilter, t: Task)
  {
    !f.formValid ||
    ((f.status == "" || t.status == f.status) &&
     (f.priority == "" || t.priority == f.priority) &&
     (f.project.None? || t.project == f.project.value) &&
     (f.assignee.None? || t.assignee == f.assignee.value))
  }

  function Listed(r: Requester, projects: seq<Project>, f: TaskFilter): Task -> bool
  {
    (t: Task) => WebTaskVisible(r, t, projects) && MatchesFilter(f, t)
  }

  /** `task_list_view` and `TaskListView.get_queryset`: the visible tasks
      passing the filters, each once, in table order. */
  function TaskList(r: Requester, tasks: seq<Task>, projects: seq<Project>, f: TaskFilter): (listed: seq<Task>)
    ensures forall k :: 0 <= k < |listed| ==> listed[k] in tasks && WebTaskVisible(r, listed[k], projects) && MatchesFilter(f, listed[k])
    ensures forall j :: 0 <= j < |tasks| && WebTaskVisible(r, tasks[j], projects) && MatchesFilter(f, tasks[j]) ==> tasks[j] in listed
    ensures IsAdmin(r.profile) && !f.formValid ==> |listed| == |tasks|
  {
    Filter(tasks, Listed(r, projects, f))
  }

  /** One filter refines another when it keeps every non-empty condition of
      the other and is applied. */
  predicate Refines(g: TaskFilter, f: TaskFilter)
  {
    g.formValid &&
    (f.formValid ==>
      (f.status == "" || g.status == f.status) &&
      (f.priority == "" || g.priority == f.priority) &&
      (f.project.None? || g.project == f.project) &&
      (f.assignee.None? || g.assignee == f.assignee))
  }

  /** Setting more filters never lists more: every task listed under the
      narrower filter is listed under the wider one. */
  lemma NarrowerFilterListsFewer(r: Requester, tasks: seq<Task>, projects: seq<Project>, f: TaskFilter, g: TaskFilter)
    requires Refines(g, f)
    ensures |TaskList(r, tasks, projects, g)| <= |TaskList(r, tasks, projects, f)|
    ensures forall k :: 0 <= k < |TaskList(r, tasks, projects, g)| ==> TaskList(r, tasks, projects, g)[k] in TaskList(r, tasks, projects, f)
  {
    CountMonotone(tasks, Listed(r, projects, g), Listed(r, projects, f));
    var narrow := TaskList(r, tasks, projects, g);
    forall k | 0 <= k < |narrow|
      ensures narrow[k] in TaskList(r, tasks, projects, f)
    {
      var j :| 0 <= j < |tasks| && tasks[j] == narrow[k];
    }
  }

  /** An invalid form applies no filter at all, whatever its fields hold. */
  lemma InvalidFormIgnoresFilters(r: Requester, tasks: seq<Task>, projects: seq<Project>, f: TaskFilter)
    requires !f.formValid
    ensures TaskList(r, tasks, projects, f) == TaskList(r, tasks, projects, NoFilter)
  {
    FilterAgree(tasks, Listed(r, projects, f), Listed(r, projects, NoFilter));
  }

  /** For a user who is neither an admin nor staff, the unfiltered HTML list
      and the REST queryset are the same list. An admin who is not staff
      sees every task here but not through the REST API. */
  lemma WebListMatchesApiList(r: Requester, tasks: seq<Task>, projects: seq<Project>)
    requires !IsAdmin(r.profile) && !r.isStaff
    ensures TaskList(r, tasks, projects, NoFilter) == ApiViews.ApiTaskList(r, tasks, projects)
  {
    FilterAgree(tasks, Listed(r, projects, NoFilter), (t: Task) => ApiViews.ApiTaskVisible(r, t, projects));
  }

  /** The list repeats no task (the queryset's `.distinct()`). */
  lemma TaskListDistinct(r: Requester, tasks: seq<Task>, projects: seq<Project>, f: TaskFilter)
    requires UniqueBy(tasks, ApiViews.TaskId)
    ensures UniqueBy(TaskList(r, tasks, projects, f), ApiViews.TaskId)
  {
    FilterKeepsUnique(tasks, Listed(r, projects, f), ApiViews.TaskId);
  }

  // ----- Permissions -----

  /** `TaskUpdateView.test_func`, also the guard of `update_task_status`. */
  predicate CanEditTask(r: Requester, t: Task)
  {
    IsAdmin(r.profile) || t.creator == r.id || t.assignee == r.id
  }

  /** `TaskDeleteView.test_func`. */
  predicate CanDeleteTask(r: Requester, t: Task)
  {
    IsAdmin(r.profile) || t.creator == r.id
  }

  /** Whoever may delete a task may edit it, and an assignee who neither
      created the task nor is an admin may edit it but not delete it. */
  lemma DeleteImpliesEdit(r: Requester, t: Task)
    ensures CanDeleteTask(r, t) ==> CanEditTask(r, t)
    ensures t.assignee == r.id && t.creator != r.id && !IsAdmin(r.profile) ==> CanEditTask(r, t) && !CanDeleteTask(r, t)
  {
  }

  // ----- AJAX endpoints -----

  datatype AjaxOutcome = MethodNotAllowed | NotFound | Forbidden | InvalidStatus | Updated

  /** `update_task_status`: only a POST changes anything; the task is looked
      up among all tasks; the requester must be allowed to edit it; and the
      posted status must be one of the declared choices. The new status is
      the only field that changes. */
  method UpdateTaskStatus(tt: TaskTable, r: Requester, isPost: bool, pk: nat, newStatus: Option<string>)
    returns (outcome: AjaxOutcome)
    requires tt.Valid()
    modifies tt
    ensures tt.Valid()
    ensures !isPost ==> outcome == MethodNotAllowed && tt.rows == old(tt.rows)
    ensures isPost && TaskIndex(old(tt.rows), pk).None? ==> outcome == NotFound && tt.rows == old(tt.rows)
    ensures isPost && TaskIndex(old(tt.rows), pk).Some? ==>
      var k := TaskIndex(old(tt.rows), pk).value;
      if !CanEditTask(r, old(tt.rows)[k]) then
        outcome == Forbidden && tt.rows == old(tt.rows)
      else if newStatus.None? || newStatus.value !in TaskStatusChoices then
        outcome == InvalidStatus && tt.rows == old(tt.rows)
      else
        outcome == Updated && tt.rows == old(tt.rows)[k := old(tt.rows)[k].(status := newStatus.value)]
  {
    if !isPost {
      return MethodNotAllowed;
    }
    var k := TaskIndex(tt.rows, pk);
    if k.None? {
      return NotFound;
    }
    var t := tt.rows[k.value];
    if !CanEditTask(r, t) {
      return Forbidden;
    }
    if newStatus.None? || newStatus.value !in TaskStatusChoices {
      return InvalidStatus;
    }
    tt.rows := tt.rows[k.value := t.(status := newStatus.value)];
    outcome := Updated;
  }

  /** The last position before `n` at which `id` occurs in the posted list. */
  function LastPosition(ids: seq<nat>, id: nat, n: nat): (p: Option<nat>)
    requires n <= |ids|
    ensures p.Some? ==> p.value < n && ids[p.value] == id && forall q :: p.value < q < n ==> ids[q] != id
    ensures p.None? ==> forall q :: 0 <= q < n ==> ids[q] != id
  {
    if n == 0 then None
    else if ids[n - 1] == id then Some(n - 1)
    else LastPosition(ids, id, n - 1)
  }

  /** The table after the loop has handled the first `n` posted ids: a task
      whose id was posted gets, as its order, the last position it was
      posted at; every other task is untouched. */
  function ReorderedUpTo(rows: seq<Task>, ids: seq<nat>, n: nat): (r: seq<Task>)
    requires n <= |ids|
    ensures |r| == |rows|
    ensures forall k :: 0 <= k < |rows| ==> r[k] == rows[k].(order := r[k].order)
    ensures forall k :: 0 <= k < |rows| && LastPosition(ids, rows[k].id, n).None? ==> r[k] == rows[k]
    ensures forall k :: 0 <= k < |rows| && LastPosition(ids, rows[k].id, n).Some? ==>
      r[k].order == LastPosition(ids, rows[k].id, n).value
  {
    seq(|rows|, k requires 0 <= k < |rows| =>
      match LastPosition(ids, rows[k].id, n)
      case None => rows[k]
      case Some(p) => rows[k].(order := p))
  }

  /** Every one of the first `n` posted ids names a task. */
  predicate KnownUpTo(rows: seq<Task>, ids: seq<nat>, n: nat)
    requires n <= |ids|
  {
    forall q :: 0 <= q < n ==> TaskIndex(rows, ids[q]).Some?
  }

  /** The first posted id that names no task, if any. */
  function FirstUnknown(rows: seq<Task>, ids: seq<nat>): (p: Option<nat>)
    ensures p.Some? ==> p.value < |ids| && TaskIndex(rows, ids[p.value]).None?
    ensures p.Some? ==> forall q :: 0 <= q < p.value ==> TaskIndex(rows, ids[q]).Some?
    ensures p.None? <==> forall q :: 0 <= q < |ids| ==> TaskIndex(rows, ids[q]).Some?
  {
    FirstWhere(ids, (id: nat) => TaskIndex(rows, id).None?)
  }

  /** `update_task_order`: only a POST by an admin changes anything. The
      posted ids are handled one at a time, each save being its own write:
      when an id names no task the loop stops there, and the tasks handled
      before it keep their new order. */
  method UpdateTaskOrder(tt: TaskTable, r: Requester, isPost: bool, ids: seq<nat>) returns (outcome: AjaxOutcome)
    requires tt.Valid()
    modifies tt
    ensures tt.Valid()
    ensures !isPost ==> outcome == MethodNotAllowed && tt.rows == old(tt.rows)
    ensures isPost && !IsAdmin(r.profile) ==> outcome == Forbidden && tt.rows == old(tt.rows)
    ensures isPost && IsAdmin(r.profile) && FirstUnknown(old(tt.rows), ids).None? ==>
      outcome == Updated && tt.rows == ReorderedUpTo(old(tt.rows), ids, |ids|)
    ensures isPost && IsAdmin(r.profile) && FirstUnknown(old(tt.rows), ids).Some? ==>
      outcome == NotFound && tt.rows == ReorderedUpTo(old(tt.rows), ids, FirstUnknown(old(tt.rows), ids).value)
  {
    if !isPost {
      return MethodNotAllowed;
    }
    if !IsAdmin(r.profile) {
      return Forbidden;
    }
    ghost var rows0 := tt.rows;
    var i := 0;
    while i < |ids|
      invariant 0 <= i <= |ids|
      invariant tt.rows == ReorderedUpTo(rows0, ids, i)
      invariant KnownUpTo(rows0, ids, i)
      invariant tt.Valid()
    {
      SameIdsSameIndex(rows0, tt.rows, ids[i]);
      var k := TaskIndex(tt.rows, ids[i]);
      if k.None? {
        assert FirstUnknown(rows0, ids) == Some(i);
        return NotFound;
      }
      ReorderStep(rows0, ids, i, k.value);
      tt.rows := tt.rows[k.value := tt.rows[k.value].(order := i)];
      i := i + 1;
    }
    assert FirstUnknown(rows0, ids).None?;
    outcome := Updated;
  }

  /** One turn of the loop: handling the id at position `i` sets the order
      of the one task with that id and of no other. */
  lemma ReorderStep(rows: seq<Task>, ids: seq<nat>, i: nat, k: nat)
    requires i < |ids| && k < |rows| && rows[k].id == ids[i]
    requires forall a, b :: 0 <= a < b < |rows| ==> rows[a].id != rows[b].id
    ensures ReorderedUpTo(rows, ids, i + 1) ==
      ReorderedUpTo(rows, ids, i)[k := ReorderedUpTo(rows, ids, i)[k].(order := i)]
  {
    var before := ReorderedUpTo(rows, ids, i);
    var after := ReorderedUpTo(rows, ids, i + 1);
    forall j | 0 <= j < |rows|
      ensures after[j] == before[k := before[k].(order := i)][j]
    {
      if j != k {
        assert rows[j].id != ids[i];
        assert LastPosition(ids, rows[j].id, i + 1) == LastPosition(ids, rows[j].id, i);
      }
    }
  }

  /** Position lookup only looks at ids, which re-ordering leaves alone. */
  lemma SameIdsSameIndex(a: seq<Task>, b: seq<Task>, id: nat)
    requires |a| == |b|
    requires forall k :: 0 <= k < |a| ==> b[k] == a[k].(order := b[k].order)
    ensures TaskIndex(a, id) == TaskIndex(b, id)
  {
    FirstWhereAgree(a, b, (t: Task) => t.id == id);
  }

  lemma {:induction false} FirstWhereAgree(a: seq<Task>, b: seq<Task>, p: Task -> bool)
    requires |a| == |b|
    requires forall k :: 0 <= k < |a| ==> p(a[k]) == p(b[k])
    ensures FirstWhere(a, p) == FirstWhere(b, p)
    decreases |a|
  {
    if |a| > 0 {
      FirstWhereAgree(a[1..], b[1..], p);
    }
  }

  /** With distinct ids in the posted list, the task posted at position `q`
      ends with order `q`, for every position the loop has reached. */
  lemma {:induction false} PostedPositionIsOrder(ids: seq<nat>, q: nat, n: nat)
    requires q < n <= |ids|
    requires forall a, b :: 0 <= a < b < n ==> ids[a] != ids[b]
    ensures LastPosition(ids, ids[q], n) == Some(q)
    decreases n
  {
    if q < n - 1 {
      assert ids[n - 1] != ids[q];
      PostedPositionIsOrder(ids, q, n - 1);
    }
  }

  /** After a complete run with distinct posted ids, each posted task's order
      is its position in the list. */
  lemma ReorderPlacesEachTask(rows: seq<Task>, ids: seq<nat>, q: nat, k: nat)
    requires q < |ids| && k < |rows| && rows[k].id == ids[q]
    requires forall a, b :: 0 <= a < b < |ids| ==> ids[a] != ids[b]
    ensures ReorderedUpTo(rows, ids, |ids|)[k].order == q
  {
    PostedPositionIsOrder(ids, q, |ids|);
  }

  /** The update is not atomic: when the run stops at an unknown id, each
      task posted before it already carries its new order. */
  lemma StoppedRunKeepsEarlierOrders(rows: seq<Task>, ids: seq<nat>, q: nat, k: nat)
    requires FirstUnknown(rows, ids).Some? && q < FirstUnknown(rows, ids).value
    requires k < |rows| && rows[k].id == ids[q]
    requires forall a, b :: 0 <= a < b < |ids| ==> ids[a] != ids[b]
    ensures ReorderedUpTo(rows, ids, FirstUnknown(rows, ids).value)[k].order == q
  {
    PostedPositionIsOrder(ids, q, FirstUnknown(rows, ids).value);
  }

  /** An id posted twice ends with the later of its positions. */
  lemma RepeatedIdTakesLastPosition(ids: seq<nat>, a: nat, b: nat)
    requires a < b < |ids| && ids[a] == ids[b]
    ensures LastPosition(ids, ids[a], |ids|).Some? && LastPosition(ids, ids[a], |ids|).value >= b
  {
  }
}
