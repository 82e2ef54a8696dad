/** Tasks (tasks/models.py): the record, its defaults and the two derived
    properties over the due date. Status and priority are stored strings, as
    in the database, which does not itself enforce the declared choices. */
module TaskModels {
  import opened Common
  import opened Users

  datatype Task = Task(
    id: nat,
    title: string,
    project: nat,
    assignee: UserId,
    creator: UserId,
    priority: string,
    status: string,
    dueDate: Option<Time>,
    order: int)

  /** The keys of `Task.STATUS_CHOICES`. */
  const TaskStatusChoices: set<string> := {"pending", "in_progress", "completed"}

  /** The keys of `Task.PRIORITY_CHOICES`. */
  const TaskPriorityChoices: set<string> := {"low", "medium", "high"}

  /** The statuses the overdue queries of the views and jobs look at. */
  const OpenStatuses: set<string> := {"pending", "in_progress"}

  /** A task as created: pending, of medium priority, at order 0. */
  function NewTask(id: nat, title: string, project: nat, assignee: UserId, creator: UserId, dueDate: Option<Time>): (t: Task)
    ensures t.status == "pending" && t.priority == "medium" && t.order == 0
    ensures t.status in TaskStatusChoices && t.priority in TaskPriorityChoices
    ensures t.id == id && t.title == title && t.project == project && t.assignee == assignee
    ensures t.creator == creator && t.dueDate == dueDate
  {
    Task(id, title, project, assignee, creator, "medium", "pending", dueDate, 0)
  }

  /** `Task.is_overdue`: strictly past a set due date and not completed. */
  predicate TaskIsOverdue(t: Task, now: Time)
  {
    t.dueDate.Some? && t.status != "completed" && now > t.dueDate.value
  }

  /** `Task.days_until_due`: whole days to the due date, floored, whatever
      the status; absent without a due date. */
  function DaysUntilDue(t: Task, now: Time): (d: Option<int>)
    ensures d.None? <==> t.dueDate.None?
    ensures d.Some? ==> d.value * SecondsPerDay <= t.dueDate.value - now < (d.value + 1) * SecondsPerDay
  {
    match t.dueDate
    case None => None
    case Some(due) => Some(WholeDays(due - now))
  }

  /** For a task that is not completed, being overdue and having a negative
      day count coincide; a completed task keeps its (possibly negative) day
      count but is never overdue. */
  lemma OverdueIffNegativeDays(t: Task, now: Time)
    ensures t.status != "completed" ==>
      (TaskIsOverdue(t, now) <==> DaysUntilDue(t, now).Some? && DaysUntilDue(t, now).value < 0)
    ensures t.status == "completed" ==> !TaskIsOverdue(t, now)
  {
  }

  /** The overdue selection used by the dashboard and the overdue job: a due
      date strictly before now and a status of pending or in progress. */
  predicate OpenAndPastDue(t: Task, now: Time)
  {
    t.dueDate.Some? && t.dueDate.value < now && t.status in OpenStatuses
  }

  /** For a task whose status is one of the declared choices, the query's
      selection and `Task.is_overdue` agree. A status outside the choices
      (say "cancelled") is overdue by the property but not by the query. */
  lemma OpenAndPastDueMatchesOverdue(t: Task, now: Time)
    ensures t.status in TaskStatusChoices ==> (OpenAndPastDue(t, now) <==> TaskIsOverdue(t, now))
    ensures t.status == "cancelled" && t.dueDate.Some? && now > t.dueDate.value ==>
      TaskIsOverdue(t, now) && !OpenAndPastDue(t, now)
  {
  }

  /** The task table, in query order; ids are distinct. */
  class TaskTable {
    var rows: seq<Task>

    ghost predicate Valid()
      reads this
    {
      forall i, j :: 0 <= i < j < |rows| ==> rows[i].id != rows[j].id
    }

    constructor ()
      ensures Valid() && rows == []
    {
      rows := [];
    }
  }

  /** `Task.objects.get(id=id)`: the position of the task with that id. */
  function TaskIndex(rows: seq<Task>, id: nat): (r: Option<nat>)
    ensures r.Some? ==> r.value < |rows| && rows[r.value].id == id
    ensures r.None? <==> forall j :: 0 <= j < |rows| ==> rows[j].id != id
  {
    FirstWhere(rows, (t: Task) => t.id == id)
  }
}
