/** The REST view sets (api/views.py): what each user may see, the task
    timer, project membership, meeting attendance, bulk read-marking and the
    dashboard counts. Each request is one sequential step on the tables;
    `get_object` answers "not found" for a row outside the view set's
    queryset. */
module ApiViews {
  import opened Common
  import opened Users
  import opened TaskModels
  import opened ProjectModels
  import opened NotificationModels
  import opened CalendarModels

  // ----- Visibility -----

  /** `ProjectViewSet.get_queryset`: staff see every project, others the
      projects they are members of; `is_active` is not consulted. */
  predicate ApiProjectVisible(r: Requester, p: Project)
  {
    r.isStaff || r.id in p.members
  }

  /** `TaskViewSet.get_queryset`: staff see every task, others the tasks
      they are assigned to, created, or whose project they belong to. */
  predicate ApiTaskVisible(r: Requester, t: Task, projects: seq<Project>)
  {
    r.isStaff || t.assignee == r.id || t.creator == r.id || IsProjectMember(projects, t.project, r.id)
  }

  /** The task queryset in table order: one row per task, however many of
      the three conditions it meets. */
  function ApiTaskList(r: Requester, tasks: seq<Task>, projects: seq<Project>): (listed: seq<Task>)
    ensures forall k :: 0 <= k < |listed| ==> listed[k] in tasks && ApiTaskVisible(r, listed[k], projects)
    ensures forall j :: 0 <= j < |tasks| && ApiTaskVisible(r, tasks[j], projects) ==> tasks[j] in listed
    ensures r.isStaff ==> |listed| == |tasks|
  {
    Filter(tasks, (t: Task) => ApiTaskVisible(r, t, projects))
  }

  function TaskId(t: Task): nat
  {
    t.id
  }

  /** A table without duplicate ids lists each visible task exactly once. */
  lemma ApiTaskListDistinct(r: Requester, tasks: seq<Task>, projects: seq<Project>)
    requires UniqueBy(tasks, TaskId)
    ensures UniqueBy(ApiTaskList(r, tasks, projects), TaskId)
  {
    FilterKeepsUnique(tasks, (t: Task) => ApiTaskVisible(r, t, projects), TaskId);
  }

  /** `get_object` on the task view set: the position of task `id` if the
      requester can see it. */
  function VisibleTaskIndex(r: Requester, tasks: seq<Task>, projects: seq<Project>, id: nat): (k: Option<nat>)
    ensures k.Some? ==> k.value < |tasks| && tasks[k.value].id == id && ApiTaskVisible(r, tasks[k.value], projects)
    ensures k.None? <==> forall j :: 0 <= j < |tasks| ==> !(tasks[j].id == id && ApiTaskVisible(r, tasks[j], projects))
  {
    FirstWhere(tasks, (t: Task) => t.id == id && ApiTaskVisible(r, t, projects))
  }

  // ----- Project membership -----

  datatype AddMemberOutcome = ProjectNotFound | UnknownUser | MemberAdded

  /** `ProjectViewSet.add_member`: the project must be visible to the
      requester; an unknown user id is reported and changes nothing;
      otherwise the user is added to the members (a no-op if already one).
      `users` is the set of existing user ids. */
  method AddMember(pt: ProjectTable, r: Requester, pid: nat, userId: UserId, users: set<UserId>)
    returns (outcome: AddMemberOutcome)
    requires pt.Valid()
    modifies pt
    ensures pt.Valid() && pt.nextId == old(pt.nextId)
    ensures var k := ProjectIndex(old(pt.rows), pid);
      if k.None? || !ApiProjectVisible(r, old(pt.rows)[k.value]) then
        outcome == ProjectNotFound && pt.rows == old(pt.rows)
      else if userId !in users then
        outcome == UnknownUser && pt.rows == old(pt.rows)
      else
        outcome == MemberAdded &&
        pt.rows == old(pt.rows)[k.value := old(pt.rows)[k.value].(members := old(pt.rows)[k.value].members + {userId})]
  {
    var k := ProjectIndex(pt.rows, pid);
    if k.None? || !ApiProjectVisible(r, pt.rows[k.value]) {
      return ProjectNotFound;
    }
    if userId !in users {
      return UnknownUser;
    }
    var p := pt.rows[k.value];
    pt.rows := pt.rows[k.value := p.(members := p.members + {userId})];
    outcome := MemberAdded;
  }

  /** After a successful `add_member` the user is a member and can see the
      project through the API; everyone who was a member still is. */
  lemma AddedMemberSeesProject(p: Project, r: Requester, u: UserId)
    ensures u in p.(members := p.members + {u}).members
    ensures ApiProjectVisible(r, p) ==> ApiProjectVisible(r, p.(members := p.members + {u}))
    ensures ApiProjectVisible(Requester(u, false, NewProfile(u)), p.(members := p.members + {u}))
  {
  }

  // ----- Timers -----

  /** A time entry; it is open while `endTime` is unset. The record's
      definition is not part of this model (the module the view imports it
      from does not define it); its fields are those the view uses. */
  datatype TimeEntry = TimeEntry(id: nat, task: nat, user: UserId, startTime: Time, endTime: Option<Time>)

  /** The open entries of `user` on `task`. */
  function OpenEntryOf(task: nat, user: UserId): TimeEntry -> bool
  {
    (e: TimeEntry) => e.task == task && e.user == user && e.endTime.None?
  }

  /** At most one open entry per (task, user). */
  predicate AtMostOneOpen(entries: seq<TimeEntry>)
  {
    forall i, j :: 0 <= i < j < |entries| && entries[i].endTime.None? && entries[j].endTime.None? ==>
      entries[i].task != entries[j].task || entries[i].user != entries[j].user
  }

  /** The time entry table. */
  class TimeLog {
    var entries: seq<TimeEntry>
    var nextId: nat

    ghost predicate Valid()
      reads this
    {
      (forall i, j :: 0 <= i < j < |entries| ==> entries[i].id != entries[j].id) &&
      (forall i :: 0 <= i < |entries| ==> entries[i].id < nextId) &&
      AtMostOneOpen(entries)
    }

    constructor ()
      ensures Valid() && entries == [] && nextId == 0
    {
      entries := [];
      nextId := 0;
    }
  }

  datatype TimerOutcome = TaskNotFound | TimerAlreadyRunning | NoRunningTimer | TimerStarted(entry: nat) | TimerStopped(entry: nat)

  /** `TaskViewSet.start_timer`: refused when the requester already has an
      open entry on the task; otherwise exactly one open entry starting now
      is appended. */
  method StartTimer(log: TimeLog, r: Requester, taskId: nat, tasks: seq<Task>, projects: seq<Project>, now: Time)
    returns (outcome: TimerOutcome)
    requires log.Valid()
    modifies log
    ensures log.Valid()
    ensures VisibleTaskIndex(r, tasks, projects, taskId).None? ==>
      outcome == TaskNotFound && log.entries == old(log.entries) && log.nextId == old(log.nextId)
    ensures VisibleTaskIndex(r, tasks, projects, taskId).Some? && FirstWhere(old(log.entries), OpenEntryOf(taskId, r.id)).Some? ==>
      outcome == TimerAlreadyRunning && log.entries == old(log.entries) && log.nextId == old(log.nextId)
    ensures VisibleTaskIndex(r, tasks, projects, taskId).Some? && FirstWhere(old(log.entries), OpenEntryOf(taskId, r.id)).None? ==>
      outcome == TimerStarted(old(log.nextId)) && log.nextId == old(log.nextId) + 1 &&
      log.entries == old(log.entries) + [TimeEntry(old(log.nextId), taskId, r.id, now, None)]
  {
    if VisibleTaskIndex(r, tasks, projects, taskId).None? {
      return TaskNotFound;
    }
    if FirstWhere(log.entries, OpenEntryOf(taskId, r.id)).Some? {
      return TimerAlreadyRunning;
    }
    var id := log.nextId;
    log.entries := log.entries + [TimeEntry(id, taskId, r.id, now, None)];
    log.nextId := id + 1;
    outcome := TimerStarted(id);
  }

  /** `TaskViewSet.stop_timer`: refused without an open entry; otherwise that
      entry, and no other, ends now. Afterwards the requester has no open
      entry on the task. */
  method StopTimer(log: TimeLog, r: Requester, taskId: nat, tasks: seq<Task>, projects: seq<Project>, now: Time)
    returns (outcome: TimerOutcome)
    requires log.Valid()
    modifies log
    ensures log.Valid() && log.nextId == old(log.nextId)
    ensures VisibleTaskIndex(r, tasks, projects, taskId).None? ==>
      outcome == TaskNotFound && log.entries == old(log.entries)
    ensures VisibleTaskIndex(r, tasks, projects, taskId).Some? && FirstWhere(old(log.entries), OpenEntryOf(taskId, r.id)).None? ==>
      outcome == NoRunningTimer && log.entries == old(log.entries)
    ensures VisibleTaskIndex(r, tasks, projects, taskId).Some? && FirstWhere(old(log.entries), OpenEntryOf(taskId, r.id)).Some? ==>
      var k := FirstWhere(old(log.entries), OpenEntryOf(taskId, r.id)).value;
      outcome == TimerStopped(old(log.entries)[k].id) &&
      log.entries == old(log.entries)[k := old(log.entries)[k].(endTime := Some(now))]
    ensures outcome.TimerStopped? ==> FirstWhere(log.entries, OpenEntryOf(taskId, r.id)).None?
  {
    if VisibleTaskIndex(r, tasks, projects, taskId).None? {
      return TaskNotFound;
    }
    var open := FirstWhere(log.entries, OpenEntryOf(taskId, r.id));
    if open.None? {
      return NoRunningTimer;
    }
    var k := open.value;
    var e := log.entries[k];
    ghost var before := log.entries;
    log.entries := log.entries[k := e.(endTime := Some(now))];
    forall j | 0 <= j < |log.entries|
      ensures !OpenEntryOf(taskId, r.id)(log.entries[j])
    {
      if k < j {
        assert before[k].endTime.None?;
        assert !before[j].endTime.None? || before[k].task != before[j].task || before[k].user != before[j].user;
      }
    }
    outcome := TimerStopped(e.id);
  }

  /** Starting and then stopping a timer leaves exactly one more entry, closed,
      running from the start time to the stop time. */
  method StartThenStop(log: TimeLog, r: Requester, taskId: nat, tasks: seq<Task>, projects: seq<Project>, t1: Time, t2: Time)
    requires log.Valid()
    requires VisibleTaskIndex(r, tasks, projects, taskId).Some?
    requires FirstWhere(log.entries, OpenEntryOf(taskId, r.id)).None?
    modifies log
    ensures log.Valid()
    ensures log.entries == old(log.entries) + [TimeEntry(old(log.nextId), taskId, r.id, t1, Some(t2))]
  {
    var started := StartTimer(log, r, taskId, tasks, projects, t1);
    var n := |log.entries| - 1;
    assert OpenEntryOf(taskId, r.id)(log.entries[n]);
    assert forall j :: 0 <= j < n ==> log.entries[j] == old(log.entries)[j];
    var stopped := StopTimer(log, r, taskId, tasks, projects, t2);
  }

  // ----- Notifications -----

  /** `NotificationViewSet.mark_read`: only the requester's own notifications
      can be found; the one found is marked as read. */
  method MarkRead(ns: NotificationStore, r: Requester, id: nat, now: Time) returns (found: bool)
    requires ns.Valid()
    modifies ns
    ensures ns.Valid() && ns.nextId == old(ns.nextId)
    ensures var k := FirstWhere(old(ns.items), (n: Notification) => n.id == id && n.recipient == r.id);
      (k.None? ==> !found && ns.items == old(ns.items)) &&
      (k.Some? ==> found && ns.items == old(ns.items)[k.value := MarkedRead(old(ns.items)[k.value], now)])
  {
    var k := FirstWhere(ns.items, (n: Notification) => n.id == id && n.recipient == r.id);
    if k.None? {
      return false;
    }
    ns.MarkAsRead(k.value, now);
    found := true;
  }

  /** The bulk update behind `mark_all_read`: every notification of `u` gets
      `is_read` set, and nothing else changes, in particular not `read_at`. */
  function AllReadFor(items: seq<Notification>, u: UserId): (r: seq<Notification>)
    ensures |r| == |items|
    ensures forall k :: 0 <= k < |items| && items[k].recipient == u ==> r[k] == items[k].(isRead := true)
    ensures forall k :: 0 <= k < |items| && items[k].recipient != u ==> r[k] == items[k]
  {
    seq(|items|, k requires 0 <= k < |items| =>
      if items[k].recipient == u then items[k].(isRead := true) else items[k])
  }

  /** `NotificationViewSet.mark_all_read`. */
  method MarkAllRead(ns: NotificationStore, r: Requester)
    requires ns.Valid()
    modifies ns
    ensures ns.Valid() && ns.nextId == old(ns.nextId)
    ensures ns.items == AllReadFor(old(ns.items), r.id)
  {
    ns.items := AllReadFor(ns.items, r.id);
  }

  function UnreadOf(u: UserId): Notification -> bool
  {
    (n: Notification) => n.recipient == u && !n.isRead
  }

  /** After `mark_all_read` the requester has no unread notification and
      every other user's unread count is what it was. Unlike `mark_as_read`,
      a notification read this way keeps an unset read time. */
  lemma MarkAllReadEffect(items: seq<Notification>, u: UserId, v: UserId)
    requires v != u
    ensures CountWhere(AllReadFor(items, u), UnreadOf(u)) == 0
    ensures CountWhere(AllReadFor(items, u), UnreadOf(v)) == CountWhere(items, UnreadOf(v))
    ensures forall k :: 0 <= k < |items| && items[k].recipient == u && !items[k].isRead ==>
      AllReadFor(items, u)[k].readAt == items[k].readAt
  {
    CountAgreeAcross(items, AllReadFor(items, u), UnreadOf(v));
  }

  /** Counting over a table whose rows changed only where the selection is
      not affected. */
  lemma {:induction false} CountAgreeAcross<T>(s: seq<T>, t: seq<T>, p: T -> bool)
    requires |s| == |t|
    requires forall j :: 0 <= j < |s| ==> p(s[j]) == p(t[j])
    ensures CountWhere(s, p) == CountWhere(t, p)
    decreases |s|
  {
    if |s| > 0 {
      CountAgreeAcross(s[..|s| - 1], t[..|t| - 1], p);
    }
  }

  // ----- Meetings -----

  /** `MeetingViewSet.get_queryset`: the organizer, attendees and required
      attendees see a meeting. */
  predicate MeetingVisible(m: Meeting, u: UserId)
  {
    m.organizer == u || u in m.attendees || u in m.requiredAttendees
  }

  function MeetingIndex(rows: seq<Meeting>, u: UserId, id: nat): (k: Option<nat>)
    ensures k.Some? ==> k.value < |rows| && rows[k.value].id == id && MeetingVisible(rows[k.value], u)
    ensures k.None? <==> forall j :: 0 <= j < |rows| ==> !(rows[j].id == id && MeetingVisible(rows[j], u))
  {
    FirstWhere(rows, (m: Meeting) => m.id == id && MeetingVisible(m, u))
  }

  datatype AttendanceOutcome = MeetingNotFound | Joined | AlreadyAttendee | Left | NotAttendee

  /** `MeetingViewSet.join`: adds the requester to the attendees unless
      already there. Only someone who can see the meeting can join, so a
      user who is neither organizer nor (required) attendee is not found. */
  method Join(mt: MeetingTable, u: UserId, id: nat) returns (outcome: AttendanceOutcome)
    requires mt.Valid()
    modifies mt
    ensures mt.Valid()
    ensures var k := MeetingIndex(old(mt.rows), u, id);
      (k.None? ==> outcome == MeetingNotFound && mt.rows == old(mt.rows)) &&
      (k.Some? && u in old(mt.rows)[k.value].attendees ==> outcome == AlreadyAttendee && mt.rows == old(mt.rows)) &&
      (k.Some? && u !in old(mt.rows)[k.value].attendees ==>
        (outcome == Joined &&
         mt.rows == old(mt.rows)[k.value := old(mt.rows)[k.value].(attendees := old(mt.rows)[k.value].attendees + {u})]))
  {
    var k := MeetingIndex(mt.rows, u, id);
    if k.None? {
      return MeetingNotFound;
    }
    var m := mt.rows[k.value];
    if u in m.attendees {
      return AlreadyAttendee;
    }
    mt.rows := mt.rows[k.value := m.(attendees := m.attendees + {u})];
    outcome := Joined;
  }

  /** `MeetingViewSet.leave`: removes the requester from the attendees if
      there. */
  method Leave(mt: MeetingTable, u: UserId, id: nat) returns (outcome: AttendanceOutcome)
    requires mt.Valid()
    modifies mt
    ensures mt.Valid()
    ensures var k := MeetingIndex(old(mt.rows), u, id);
      (k.None? ==> outcome == MeetingNotFound && mt.rows == old(mt.rows)) &&
      (k.Some? && u !in old(mt.rows)[k.value].attendees ==> outcome == NotAttendee && mt.rows == old(mt.rows)) &&
      (k.Some? && u in old(mt.rows)[k.value].attendees ==>
        (outcome == Left &&
         mt.rows == old(mt.rows)[k.value := old(mt.rows)[k.value].(attendees := old(mt.rows)[k.value].attendees - {u})]))
  {
    var k := MeetingIndex(mt.rows, u, id);
    if k.None? {
      return MeetingNotFound;
    }
    var m := mt.rows[k.value];
    if u !in m.attendees {
      return NotAttendee;
    }
    mt.rows := mt.rows[k.value := m.(attendees := m.attendees - {u})];
    outcome := Left;
  }

  /** Joining and then leaving a meeting one could see but did not attend
      restores the table exactly. */
  method JoinThenLeave(mt: MeetingTable, u: UserId, id: nat)
    requires mt.Valid()
    requires MeetingIndex(mt.rows, u, id).Some?
    requires u !in mt.rows[MeetingIndex(mt.rows, u, id).value].attendees
    modifies mt
    ensures mt.rows == old(mt.rows)
  {
    var k := MeetingIndex(mt.rows, u, id).value;
    var joined := Join(mt, u, id);
    assert mt.rows[k].id == id && MeetingVisible(mt.rows[k], u);
    assert forall j :: 0 <= j < |mt.rows| && j != k ==> mt.rows[j] == old(mt.rows)[j];
    assert MeetingIndex(mt.rows, u, id) == Some(k);
    var left := Leave(mt, u, id);
    assert old(mt.rows)[k].attendees + {u} - {u} == old(mt.rows)[k].attendees;
  }

  // ----- Dashboard -----

  datatype Overview = Overview(
    totalProjects: nat,
    activeProjects: nat,
    totalTasks: nat,
    completedTasks: nat,
    overdueTasks: nat,
    upcomingDeadlines: nat,
    unreadNotifications: nat)

  const UpcomingWindow: int := 7 * SecondsPerDay

  function MemberOf(u: UserId): Project -> bool
  {
    (p: Project) => u in p.members
  }

  function ActiveMemberOf(u: UserId): Project -> bool
  {
    (p: Project) => u in p.members && p.status == "active"
  }

  function AssignedTo(u: UserId): Task -> bool
  {
    (t: Task) => t.assignee == u
  }

  function CompletedFor(u: UserId): Task -> bool
  {
    (t: Task) => t.assignee == u && t.status == "completed"
  }

  /** The overdue count: due strictly before now and still open. */
  function OverdueFor(u: UserId, now: Time): Task -> bool
  {
    (t: Task) => t.assignee == u && OpenAndPastDue(t, now)
  }

  /** The upcoming count: due within the next seven days, both ends
      included, and still open. */
  function UpcomingFor(u: UserId, now: Time): Task -> bool
  {
    (t: Task) => t.assignee == u && t.dueDate.Some? && now <= t.dueDate.value <= now + UpcomingWindow
      && t.status in OpenStatuses
  }

  /** The per-user task counts are nested: the completed, overdue and
      upcoming tasks are pairwise disjoint subsets of the assigned ones. */
  lemma TaskCountsNested(u: UserId, tasks: seq<Task>, now: Time)
    ensures CountWhere(tasks, CompletedFor(u)) + CountWhere(tasks, OverdueFor(u, now)) + CountWhere(tasks, UpcomingFor(u, now))
      <= CountWhere(tasks, AssignedTo(u))
  {
    var open := (t: Task) => OverdueFor(u, now)(t) || UpcomingFor(u, now)(t);
    CountDisjointWithin(tasks, OverdueFor(u, now), UpcomingFor(u, now), open);
    forall j | 0 <= j < |tasks|
      ensures !(CompletedFor(u)(tasks[j]) && open(tasks[j]))
    {
      assert "completed" !in OpenStatuses;
    }
    CountDisjointWithin(tasks, CompletedFor(u), open, AssignedTo(u));
  }

  /** `DashboardViewSet.overview`, with one clock reading for all counts. */
  function DashboardOverview(u: UserId, projects: seq<Project>, tasks: seq<Task>, items: seq<Notification>, now: Time)
    : (o: Overview)
    ensures o.activeProjects <= o.totalProjects
    ensures o.completedTasks + o.overdueTasks + o.upcomingDeadlines <= o.totalTasks
  {
    CountMonotone(projects, ActiveMemberOf(u), MemberOf(u));
    TaskCountsNested(u, tasks, now);
    Overview(
      CountWhere(projects, MemberOf(u)),
      CountWhere(projects, ActiveMemberOf(u)),
      CountWhere(tasks, AssignedTo(u)),
      CountWhere(tasks, CompletedFor(u)),
      CountWhere(tasks, OverdueFor(u, now)),
      CountWhere(tasks, UpcomingFor(u, now)),
      CountWhere(items, UnreadOf(u)))
  }

  /** When every task has a declared status, the overdue count is the number
      of the user's tasks that are overdue by `Task.is_overdue`. */
  lemma OverdueCountMatchesIsOverdue(u: UserId, projects: seq<Project>, tasks: seq<Task>, items: seq<Notification>, now: Time)
    requires forall j :: 0 <= j < |tasks| ==> tasks[j].status in TaskStatusChoices
    ensures DashboardOverview(u, projects, tasks, items, now).overdueTasks ==
      CountWhere(tasks, (t: Task) => t.assignee == u && TaskIsOverdue(t, now))
  {
    forall j | 0 <= j < |tasks|
      ensures OverdueFor(u, now)(tasks[j]) == (tasks[j].assignee == u && TaskIsOverdue(tasks[j], now))
    {
      OpenAndPastDueMatchesOverdue(tasks[j], now);
    }
    CountAgree(tasks, OverdueFor(u, now), (t: Task) => t.assignee == u && TaskIsOverdue(t, now));
  }
}
