/** Projects and milestones (projects/models.py): dates are day numbers and
    money is kept in hundredths, the two decimal places of the fields. */
module ProjectModels {
  import opened Common
  import opened Users
  import opened TaskModels

  datatype Project = Project(
    id: nat,
    owner: UserId,
    members: set<UserId>,
    isActive: bool,
    status: string,
    endDate: Option<Date>,
    progress: int,
    budget: Option<int>,
    actualCost: Option<int>)

  datatype Milestone = Milestone(project: nat, dueDate: Date, completed: bool)

  /** Project statuses after which a project is never overdue. */
  const ClosedProjectStatuses: set<string> := {"completed", "cancelled"}

  /** A project as created: active, planning, no progress, no dates, no money. */
  function NewProject(id: nat, owner: UserId): (p: Project)
    ensures p.id == id && p.owner == owner && p.members == {}
    ensures p.isActive && p.status == "planning" && p.progress == 0
    ensures p.endDate.None? && p.budget.None? && p.actualCost.None?
  {
    Project(id, owner, {}, true, "planning", None, 0, None, None)
  }

  /** `Project.is_overdue`: today strictly after a set end date, unless the
      project is completed or cancelled. */
  predicate ProjectIsOverdue(p: Project, today: Date)
  {
    p.endDate.Some? && p.status !in ClosedProjectStatuses && today > p.endDate.value
  }

  /** `Project.days_remaining`: signed days to the end date whatever the
      status (unlike approval requests), absent without an end date. */
  function ProjectDaysRemaining(p: Project, today: Date): (d: Option<int>)
    ensures d.None? <==> p.endDate.None?
    ensures d.Some? ==> today + d.value == p.endDate.value
  {
    match p.endDate
    case None => None
    case Some(e) => Some(e - today)
  }

  /** An open project is overdue exactly when its day count is negative; a
      closed one keeps its day count and is never overdue. */
  lemma ProjectOverdueIffNegativeDays(p: Project, today: Date)
    ensures p.status !in ClosedProjectStatuses ==>
      (ProjectIsOverdue(p, today) <==> ProjectDaysRemaining(p, today).Some? && ProjectDaysRemaining(p, today).value < 0)
    ensures p.status in ClosedProjectStatuses ==> !ProjectIsOverdue(p, today)
  {
  }

  /** `Project.cost_variance`: actual cost minus budget, present only when
      both amounts are set and non-zero (a zero decimal is false in Python). */
  function CostVariance(p: Project): (v: Option<int>)
    ensures v.Some? <==> p.budget.Some? && p.budget.value != 0 && p.actualCost.Some? && p.actualCost.value != 0
    ensures v.Some? ==> p.budget.value + v.value == p.actualCost.value
  {
    if p.budget.Some? && p.budget.value != 0 && p.actualCost.Some? && p.actualCost.value != 0 then
      Some(p.actualCost.value - p.budget.value)
    else
      None
  }

  /** The selection behind `project.tasks`. */
  function InProject(pid: nat): Task -> bool
  {
    (t: Task) => t.project == pid
  }

  function CompletedInProject(pid: nat): Task -> bool
  {
    (t: Task) => t.project == pid && t.status == "completed"
  }

  /** `Project.task_count` over the task table `tasks`. */
  function TaskCount(tasks: seq<Task>, pid: nat): nat
  {
    CountWhere(tasks, InProject(pid))
  }

  /** `Project.completed_task_count`. */
  function CompletedTaskCount(tasks: seq<Task>, pid: nat): (n: nat)
    ensures n <= TaskCount(tasks, pid)
  {
    CountMonotone(tasks, CompletedInProject(pid), InProject(pid));
    CountWhere(tasks, CompletedInProject(pid))
  }

  /** `Project.progress_percentage`: 0 for a project without tasks, else the
      completed share in whole percent (computed exactly here). */
  function ProgressPercentage(tasks: seq<Task>, pid: nat): (r: nat)
    ensures TaskCount(tasks, pid) == 0 ==> r == 0
    ensures r <= 100
    ensures 0 < TaskCount(tasks, pid) == CompletedTaskCount(tasks, pid) ==> r == 100
    ensures CompletedTaskCount(tasks, pid) == 0 ==> r == 0
  {
    PercentOf(CompletedTaskCount(tasks, pid), TaskCount(tasks, pid))
  }

  /** `Milestone.is_overdue`: today strictly after the due date, unless completed. */
  predicate MilestoneIsOverdue(m: Milestone, today: Date)
  {
    !m.completed && today > m.dueDate
  }

  /** Completing a milestone clears its overdue flag for good, and an open
      one stays overdue from the day after its due date on. */
  lemma MilestoneOverdueMonotone(m: Milestone, today: Date, later: Date)
    requires today <= later
    ensures !MilestoneIsOverdue(m.(completed := true), later)
    ensures MilestoneIsOverdue(m, today) ==> MilestoneIsOverdue(m, later)
  {
  }

  /** The project table, in query order; ids are distinct. */
  class ProjectTable {
    var rows: seq<Project>
    var nextId: nat

    ghost predicate Valid()
      reads this
    {
      (forall i, j :: 0 <= i < j < |rows| ==> rows[i].id != rows[j].id) &&
      (forall i :: 0 <= i < |rows| ==> rows[i].id < nextId)
    }

    constructor ()
      ensures Valid() && rows == [] && nextId == 0
    {
      rows := [];
      nextId := 0;
    }

    /** Setting the progress of the project at position `k` and saving it:
        no other field and no other row changes. */
    method SaveProgress(k: nat, progress: nat)
      requires Valid() && k < |rows|
      modifies this
      ensures Valid() && nextId == old(nextId)
      ensures rows == old(rows)[k := old(rows)[k].(progress := progress)]
    {
      rows := rows[k := rows[k].(progress := progress)];
    }
  }

  /** Index of the project with id `pid` in `rows`. */
  function ProjectIndex(rows: seq<Project>, pid: nat): (r: Option<nat>)
    ensures r.Some? ==> r.value < |rows| && rows[r.value].id == pid
    ensures r.None? <==> forall j :: 0 <= j < |rows| ==> rows[j].id != pid
  {
    FirstWhere(rows, (p: Project) => p.id == pid)
  }

  /** `user in project.members` for the project with id `pid`. */
  predicate IsProjectMember(rows: seq<Project>, pid: nat, u: UserId)
  {
    exists i :: 0 <= i < |rows| && rows[i].id == pid && u in rows[i].members
  }
}
