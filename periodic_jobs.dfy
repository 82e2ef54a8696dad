/** The scheduled jobs (tasks/tasks.py): the task reminder, the overdue
    notices, the progress refresh, the cleanup of old notifications and the
    daily progress reports. Each job runs as one sequential pass over the
    tables; the clock reading and, for the reminder, whether the mail went
    out are parameters. */
module PeriodicJobs {
  import opened Common
  import opened Users
  import opened TaskModels
  import opened ProjectModels
  import opened NotificationModels
  import opened AnalyticsModels

  const ReminderKind: string := "task_due"
  const ReminderPriority: string := "high"
  const OverdueKind: string := "task_overdue"
  const OverduePriority: string := "urgent"

  /** The statuses the reminder skips. */
  const FinishedStatuses: set<string> := {"completed", "cancelled"}

  /** The overdue notice is of a declared notification type; the reminder's
      type is not among the declared choices. */
  lemma NoticeKinds()
    ensures OverdueKind in NotificationTypes
    ensures ReminderKind !in NotificationTypes
  {
  }

  // ----- send_task_reminder -----

  datatype ReminderOutcome = TaskMissing | Skipped | MailFailed | Reminded(notification: nat)

  /** `send_task_reminder`: nothing for an unknown task or a finished one;
      otherwise the mail is sent first, and only when it goes out is a
      high-priority notice for the assignee created (a mail failure is
      caught and reported). */
  method SendTaskReminder(tasks: seq<Task>, ns: NotificationStore, taskId: nat, mailDelivered: bool, now: Time)
    returns (outcome: ReminderOutcome)
    requires ns.Valid()
    modifies ns
    ensures ns.Valid()
    ensures TaskIndex(tasks, taskId).None? ==>
      outcome == TaskMissing && ns.items == old(ns.items) && ns.nextId == old(ns.nextId)
    ensures TaskIndex(tasks, taskId).Some? && tasks[TaskIndex(tasks, taskId).value].status in FinishedStatuses ==>
      outcome == Skipped && ns.items == old(ns.items) && ns.nextId == old(ns.nextId)
    ensures TaskIndex(tasks, taskId).Some? && tasks[TaskIndex(tasks, taskId).value].status !in FinishedStatuses && !mailDelivered ==>
      outcome == MailFailed && ns.items == old(ns.items) && ns.nextId == old(ns.nextId)
    ensures TaskIndex(tasks, taskId).Some? && tasks[TaskIndex(tasks, taskId).value].status !in FinishedStatuses && mailDelivered ==>
      var t := tasks[TaskIndex(tasks, taskId).value];
      outcome == Reminded(old(ns.nextId)) &&
      ns.items == old(ns.items) + [NewNotification(old(ns.nextId), t.assignee, ReminderKind, t.title, ReminderPriority, now)]
  {
    var k := TaskIndex(tasks, taskId);
    if k.None? {
      return TaskMissing;
    }
    var t := tasks[k.value];
    if t.status in FinishedStatuses {
      return Skipped;
    }
    if !mailDelivered {
      return MailFailed;
    }
    var id := ns.Create(t.assignee, ReminderKind, t.title, ReminderPriority, now);
    outcome := Reminded(id);
  }

  // ----- send_overdue_notifications -----

  function OverdueAt(now: Time): Task -> bool
  {
    (t: Task) => OpenAndPastDue(t, now)
  }

  /** The notices for the tasks `ts`, in order, numbered from `firstId`. */
  function OverdueNotices(ts: seq<Task>, firstId: nat, now: Time): (ns: seq<Notification>)
    ensures |ns| == |ts|
    ensures forall k :: 0 <= k < |ts| ==>
      ns[k] == NewNotification(firstId + k, ts[k].assignee, OverdueKind, ts[k].title, OverduePriority, now)
  {
    seq(|ts|, k requires 0 <= k < |ts| =>
      NewNotification(firstId + k, ts[k].assignee, OverdueKind, ts[k].title, OverduePriority, now))
  }

  /** `send_overdue_notifications`: one urgent notice to the assignee of each
      task due before now and still pending or in progress, in table order;
      returns how many there were. */
  method SendOverdueNotifications(tasks: seq<Task>, ns: NotificationStore, now: Time) returns (count: nat)
    requires ns.Valid()
    modifies ns
    ensures ns.Valid()
    ensures count == CountWhere(tasks, OverdueAt(now)) && ns.nextId == old(ns.nextId) + count
    ensures ns.items == old(ns.items) + OverdueNotices(Filter(tasks, OverdueAt(now)), old(ns.nextId), now)
  {
    var overdue := Filter(tasks, OverdueAt(now));
    ghost var items0, id0 := ns.items, ns.nextId;
    var i := 0;
    while i < |overdue|
      invariant 0 <= i <= |overdue|
      invariant ns.Valid()
      invariant ns.nextId == id0 + i
      invariant ns.items == items0 + OverdueNotices(overdue[..i], id0, now)
    {
      var t := overdue[i];
      OverdueNoticesStep(overdue, i, id0, now);
      ghost var sent := OverdueNotices(overdue[..i], id0, now);
      var id := ns.Create(t.assignee, OverdueKind, t.title, OverduePriority, now);
      AppendAfter(items0, sent, ns.items[|ns.items| - 1]);
      i := i + 1;
    }
    assert overdue[..i] == overdue;
    count := |overdue|;
  }

  /** One turn of the loop: the next task's notice goes at the end. */
  lemma OverdueNoticesStep(ts: seq<Task>, i: nat, firstId: nat, now: Time)
    requires i < |ts|
    ensures OverdueNotices(ts[..i + 1], firstId, now) ==
      OverdueNotices(ts[..i], firstId, now) + [NewNotification(firstId + i, ts[i].assignee, OverdueKind, ts[i].title, OverduePriority, now)]
  {
    var a := OverdueNotices(ts[..i + 1], firstId, now);
    var b := OverdueNotices(ts[..i], firstId, now) + [NewNotification(firstId + i, ts[i].assignee, OverdueKind, ts[i].title, OverduePriority, now)];
    assert |a| == |b|;
    forall k | 0 <= k < |a|
      ensures a[k] == b[k]
    {
      if k < i {
        assert ts[..i + 1][k] == ts[..i][k];
      }
    }
  }

  /** Every notice goes, urgent and of the overdue type, to the assignee of a
      task that is due before now and open; every such task gets one, at its
      position among the overdue tasks. For tasks with a declared status,
      these are exactly the tasks `Task.is_overdue` reports. */
  lemma OverdueNoticesMatchOverdueTasks(tasks: seq<Task>, firstId: nat, now: Time)
    ensures var notices := OverdueNotices(Filter(tasks, OverdueAt(now)), firstId, now);
      forall k :: 0 <= k < |notices| ==>
        notices[k].kind == OverdueKind && notices[k].priority == OverduePriority && !notices[k].isRead &&
        exists j :: 0 <= j < |tasks| && OpenAndPastDue(tasks[j], now) && tasks[j].assignee == notices[k].recipient
    ensures forall j :: 0 <= j < |tasks| && tasks[j].status in TaskStatusChoices ==>
      (tasks[j] in Filter(tasks, OverdueAt(now)) <==> TaskIsOverdue(tasks[j], now))
  {
    NoticesGoToOverdueAssignees(tasks, firstId, now);
    SelectionIsOverdue(tasks, now);
  }

  lemma NoticesGoToOverdueAssignees(tasks: seq<Task>, firstId: nat, now: Time)
    ensures var notices := OverdueNotices(Filter(tasks, OverdueAt(now)), firstId, now);
      forall k :: 0 <= k < |notices| ==>
        exists j :: 0 <= j < |tasks| && OpenAndPastDue(tasks[j], now) && tasks[j].assignee == notices[k].recipient
  {
    var overdue := Filter(tasks, OverdueAt(now));
    var notices := OverdueNotices(overdue, firstId, now);
    forall k | 0 <= k < |notices|
      ensures exists j :: 0 <= j < |tasks| && OpenAndPastDue(tasks[j], now) && tasks[j].assignee == notices[k].recipient
    {
      assert overdue[k] in tasks;
      var j :| 0 <= j < |tasks| && tasks[j] == overdue[k];
    }
  }

  lemma SelectionIsOverdue(tasks: seq<Task>, now: Time)
    ensures forall j :: 0 <= j < |tasks| && tasks[j].status in TaskStatusChoices ==>
      (tasks[j] in Filter(tasks, OverdueAt(now)) <==> TaskIsOverdue(tasks[j], now))
  {
    var overdue := Filter(tasks, OverdueAt(now));
    forall j | 0 <= j < |tasks| && tasks[j].status in TaskStatusChoices
      ensures tasks[j] in overdue <==> TaskIsOverdue(tasks[j], now)
    {
      FilterMembership(tasks, OverdueAt(now), tasks[j]);
      OpenAndPastDueMatchesOverdue(tasks[j], now);
    }
  }

  // ----- update_project_progress -----

  /** A project after the refresh: an active project with tasks takes its
      computed progress; any other project is left as it is. */
  function Refreshed(p: Project, tasks: seq<Task>): (q: Project)
    ensures q == p.(progress := q.progress)
    ensures p.status != "active" ==> q == p
    ensures TaskCount(tasks, p.id) == 0 ==> q == p
    ensures p.status == "active" && TaskCount(tasks, p.id) > 0 ==> q.progress == ProgressPercentage(tasks, p.id)
  {
    if p.status == "active" && TaskCount(tasks, p.id) > 0 then p.(progress := ProgressPercentage(tasks, p.id)) else p
  }

  function IsActiveStatus(p: Project): bool
  {
    p.status == "active"
  }

  /** `update_project_progress`: every project is refreshed in place; the
      result is the number of active projects. */
  method UpdateProjectProgress(pt: ProjectTable, tasks: seq<Task>) returns (count: nat)
    requires pt.Valid()
    modifies pt
    ensures pt.Valid() && pt.nextId == old(pt.nextId) && |pt.rows| == |old(pt.rows)|
    ensures forall k :: 0 <= k < |pt.rows| ==> pt.rows[k] == Refreshed(old(pt.rows)[k], tasks)
    ensures count == CountWhere(old(pt.rows), IsActiveStatus)
  {
    ghost var rows0 := pt.rows;
    var i := 0;
    count := 0;
    while i < |pt.rows|
      invariant 0 <= i <= |pt.rows| == |rows0|
      invariant pt.rows == RefreshedUpTo(rows0, tasks, i)
      invariant count == CountWhere(rows0[..i], IsActiveStatus)
      invariant pt.Valid() && pt.nextId == old(pt.nextId)
    {
      var p := pt.rows[i];
      CountStep(rows0, i, IsActiveStatus);
      RefreshStep(rows0, tasks, i);
      if p.status == "active" {
        count := count + 1;
        if TaskCount(tasks, p.id) > 0 {
          pt.SaveProgress(i, ProgressPercentage(tasks, p.id));
        }
      }
      i := i + 1;
    }
    assert rows0[..i] == rows0;
  }

  /** The table once its first `n` rows are refreshed. */
  function RefreshedUpTo(rows: seq<Project>, tasks: seq<Task>, n: nat): (r: seq<Project>)
    ensures |r| == |rows|
    ensures forall k :: 0 <= k < |rows| ==> r[k] == if k < n then Refreshed(rows[k], tasks) else rows[k]
  {
    seq(|rows|, k requires 0 <= k < |rows| => if k < n then Refreshed(rows[k], tasks) else rows[k])
  }

  /** One turn of the loop: the row at position `i` takes its refreshed
      form, or keeps its own when the refresh leaves it alone. */
  lemma RefreshStep(rows: seq<Project>, tasks: seq<Task>, i: nat)
    requires i < |rows|
    ensures var before := RefreshedUpTo(rows, tasks, i);
      before[i] == rows[i] &&
      RefreshedUpTo(rows, tasks, i + 1) == before[i := Refreshed(rows[i], tasks)] &&
      (Refreshed(rows[i], tasks) == rows[i] ==> RefreshedUpTo(rows, tasks, i + 1) == before)
  {
    var before := RefreshedUpTo(rows, tasks, i);
    assert RefreshedUpTo(rows, tasks, i + 1) == before[i := Refreshed(rows[i], tasks)];
  }

  /** Refreshing is idempotent, and a refreshed project whose progress was a
      percentage still has one. */
  lemma RefreshIdempotent(p: Project, tasks: seq<Task>)
    ensures Refreshed(Refreshed(p, tasks), tasks) == Refreshed(p, tasks)
    ensures 0 <= p.progress <= 100 ==> 0 <= Refreshed(p, tasks).progress <= 100
  {
  }

  // ----- cleanup_old_notifications -----

  const RetentionDays: int := 90

  /** Deleted by the cleanup: read, and created strictly before the cutoff
      ninety days before now. */
  function Expired(now: Time): Notification -> bool
  {
    (n: Notification) => n.isRead && n.createdAt < now - RetentionDays * SecondsPerDay
  }

  function Retained(now: Time): Notification -> bool
  {
    (n: Notification) => !Expired(now)(n)
  }

  /** `cleanup_old_notifications`: deletes exactly the expired notifications
      and returns how many it deleted. */
  method CleanupOldNotifications(ns: NotificationStore, now: Time) returns (deleted: nat)
    requires ns.Valid()
    modifies ns
    ensures ns.Valid() && ns.nextId == old(ns.nextId)
    ensures ns.items == Filter(old(ns.items), Retained(now))
    ensures deleted == CountWhere(old(ns.items), Expired(now))
  {
    var all := ns.items;
    KeepNotificationsValid(all, Retained(now), ns.nextId);
    ns.items := Filter(all, Retained(now));
    CountComplement(all, Expired(now), Retained(now));
    deleted := |all| - |ns.items|;
  }

  function NotificationKey(n: Notification): nat
  {
    n.id
  }

  lemma KeepNotificationsValid(all: seq<Notification>, p: Notification -> bool, nextId: nat)
    requires forall i, j :: 0 <= i < j < |all| ==> all[i].id != all[j].id
    requires forall i :: 0 <= i < |all| ==> all[i].id < nextId
    ensures forall i, j :: 0 <= i < j < |Filter(all, p)| ==> Filter(all, p)[i].id != Filter(all, p)[j].id
    ensures forall i :: 0 <= i < |Filter(all, p)| ==> Filter(all, p)[i].id < nextId
  {
    assert UniqueBy(all, NotificationKey);
    FilterKeepsUnique(all, p, NotificationKey);
    var kept := Filter(all, p);
    forall i | 0 <= i < |kept|
      ensures kept[i].id < nextId
    {
      var j :| 0 <= j < |all| && all[j] == kept[i];
    }
  }

  /** Unread notifications and those created at or after the cutoff survive;
      a second cleanup at the same time deletes nothing more. */
  lemma CleanupKeepsRecentAndUnread(items: seq<Notification>, now: Time)
    ensures forall j :: 0 <= j < |items| && (!items[j].isRead || items[j].createdAt >= now - RetentionDays * SecondsPerDay) ==>
      items[j] in Filter(items, Retained(now))
    ensures Filter(Filter(items, Retained(now)), Retained(now)) == Filter(items, Retained(now))
    ensures CountWhere(Filter(items, Retained(now)), Expired(now)) == 0
  {
    var kept := Filter(items, Retained(now));
    forall j | 0 <= j < |items| && (!items[j].isRead || items[j].createdAt >= now - RetentionDays * SecondsPerDay)
      ensures items[j] in kept
    {
      FilterMembership(items, Retained(now), items[j]);
    }
    FilterIdempotent(items, Retained(now));
    CountComplement(kept, Expired(now), Retained(now));
  }

  // ----- generate_reports -----

  /** A progress report for `today` on project `pid` already exists. */
  predicate HasReport(rows: seq<ProjectReport>, pid: nat, today: Date)
  {
    exists i :: 0 <= i < |rows| && IsDailyProgress(rows[i], pid, today)
  }

  predicate IsDailyProgress(r: ProjectReport, pid: nat, today: Date)
  {
    r.project == pid && r.reportType == "progress" && r.periodStart == today && r.periodEnd == today
  }

  /** The report made for project `p`: the owner as author, a one-day
      period, and the task counts at `now`. */
  function ProgressReport(p: Project, tasks: seq<Task>, today: Date, now: Time): (r: ProjectReport)
    ensures IsDailyProgress(r, p.id, today) && r.generatedBy == p.owner
    ensures r.content.completedTasks <= r.content.totalTasks && r.content.progressPercentage <= 100
    ensures r.content.overdueTasks <= r.content.totalTasks
  {
    CountMonotone(tasks, (t: Task) => t.project == p.id && OpenAndPastDue(t, now), InProject(p.id));
    var content := ReportContent(
      TaskCount(tasks, p.id),
      CompletedTaskCount(tasks, p.id),
      ProgressPercentage(tasks, p.id),
      CountWhere(tasks, (t: Task) => t.project == p.id && OpenAndPastDue(t, now)));
    ProjectReport(p.id, "progress", content, p.owner, today, today)
  }

  /** The report table after the job has handled the first `n` projects of
      `ps` in order: a project without a report for today gets one. */
  function ReportsAfter(rows: seq<ProjectReport>, ps: seq<Project>, n: nat, tasks: seq<Task>, today: Date, now: Time)
    : (r: seq<ProjectReport>)
    requires n <= |ps|
    ensures |rows| <= |r| && r[..|rows|] == rows
    decreases n
  {
    if n == 0 then rows
    else NextReports(ReportsAfter(rows, ps, n - 1, tasks, today, now), ps[n - 1], tasks, today, now)
  }

  /** What the job does with one project: a report unless one exists. */
  function NextReports(before: seq<ProjectReport>, p: Project, tasks: seq<Task>, today: Date, now: Time)
    : (r: seq<ProjectReport>)
    ensures |before| <= |r| && r[..|before|] == before
  {
    if HasReport(before, p.id, today) then before else before + [ProgressReport(p, tasks, today, now)]
  }

  /** `generate_reports`: selects the projects whose status is active, makes
      their reports, and returns the number of active projects (not the
      number of reports made). */
  method GenerateReports(rt: ReportTable, projects: seq<Project>, tasks: seq<Task>, today: Date, now: Time)
    returns (count: nat)
    modifies rt
    ensures var active := Filter(projects, IsActiveStatus);
      rt.rows == ReportsAfter(old(rt.rows), active, |active|, tasks, today, now)
    ensures count == CountWhere(projects, IsActiveStatus)
  {
    var active := Filter(projects, IsActiveStatus);
    ReportEach(rt, active, tasks, today, now);
    count := |active|;
  }

  /** The loop of `generate_reports`: in order, each project gets a progress
      report for today unless one exists. */
  method ReportEach(rt: ReportTable, ps: seq<Project>, tasks: seq<Task>, today: Date, now: Time)
    modifies rt
    ensures rt.rows == ReportsAfter(old(rt.rows), ps, |ps|, tasks, today, now)
  {
    var start := rt.rows;
    var i := 0;
    while i < |ps|
      invariant 0 <= i <= |ps|
      invariant rt.rows == ReportsAfter(start, ps, i, tasks, today, now)
    {
      var p := ps[i];
      if !HasReport(rt.rows, p.id, today) {
        rt.rows := rt.rows + [ProgressReport(p, tasks, today, now)];
      }
      i := i + 1;
    }
  }

  /** No two progress reports for the same project and day. */
  predicate OneReportPerDay(rows: seq<ProjectReport>, today: Date)
  {
    forall i, j :: 0 <= i < j < |rows| && rows[i].reportType == "progress" && rows[i].periodStart == today && rows[i].periodEnd == today ==>
      !IsDailyProgress(rows[j], rows[i].project, today)
  }

  /** The job never makes a second progress report for a project on the same
      day, whether the report came from an earlier run or from this one. */
  lemma {:induction false} AtMostOneReportPerDay(rows: seq<ProjectReport>, ps: seq<Project>, n: nat, tasks: seq<Task>, today: Date, now: Time)
    requires n <= |ps|
    requires OneReportPerDay(rows, today)
    ensures OneReportPerDay(ReportsAfter(rows, ps, n, tasks, today, now), today)
    decreases n
  {
    if n > 0 {
      AtMostOneReportPerDay(rows, ps, n - 1, tasks, today, now);
      var before := ReportsAfter(rows, ps, n - 1, tasks, today, now);
      var p := ps[n - 1];
      if !HasReport(before, p.id, today) {
        var after := before + [ProgressReport(p, tasks, today, now)];
        forall i, j | 0 <= i < j < |after| && after[i].reportType == "progress" && after[i].periodStart == today && after[i].periodEnd == today
          ensures !IsDailyProgress(after[j], after[i].project, today)
        {
          if j == |before| {
            assert !IsDailyProgress(before[i], p.id, today);
          }
        }
      }
    }
  }

  /** After the first `n` projects are handled, each of them has a report
      for today. */
  lemma {:induction false} ReportsCoverHandled(rows: seq<ProjectReport>, ps: seq<Project>, n: nat, tasks: seq<Task>, today: Date, now: Time)
    requires n <= |ps|
    ensures forall k :: 0 <= k < n ==> HasReport(ReportsAfter(rows, ps, n, tasks, today, now), ps[k].id, today)
    decreases n
  {
    if n > 0 {
      ReportsCoverHandled(rows, ps, n - 1, tasks, today, now);
      var before := ReportsAfter(rows, ps, n - 1, tasks, today, now);
      var after := ReportsAfter(rows, ps, n, tasks, today, now);
      forall k | 0 <= k < n
        ensures HasReport(after, ps[k].id, today)
      {
        if k < n - 1 || HasReport(before, ps[k].id, today) {
          var i :| 0 <= i < |before| && IsDailyProgress(before[i], ps[k].id, today);
          assert after[i] == before[i];
        } else {
          assert IsDailyProgress(after[|before|], ps[k].id, today);
        }
      }
    }
  }

  /** After the job every project whose status is active has a report for
      today. */
  lemma ReportsCoverActiveProjects(rows: seq<ProjectReport>, projects: seq<Project>, tasks: seq<Task>, today: Date, now: Time)
    ensures var active := Filter(projects, IsActiveStatus);
      forall j :: 0 <= j < |projects| && projects[j].status == "active" ==>
        HasReport(ReportsAfter(rows, active, |active|, tasks, today, now), projects[j].id, today)
  {
    var active := Filter(projects, IsActiveStatus);
    ReportsCoverHandled(rows, active, |active|, tasks, today, now);
    forall j | 0 <= j < |projects| && projects[j].status == "active"
      ensures HasReport(ReportsAfter(rows, active, |active|, tasks, today, now), projects[j].id, today)
    {
      assert IsActiveStatus(projects[j]);
      var k :| 0 <= k < |active| && active[k] == projects[j];
    }
  }

  /** When every project to handle already has today's report, the job adds
      nothing. */
  lemma {:induction false} CoveredRunAddsNothing(rows: seq<ProjectReport>, ps: seq<Project>, n: nat, tasks: seq<Task>, today: Date, now: Time)
    requires n <= |ps|
    requires forall k :: 0 <= k < |ps| ==> HasReport(rows, ps[k].id, today)
    ensures ReportsAfter(rows, ps, n, tasks, today, now) == rows
    decreases n
  {
    if n > 0 {
      CoveredRunAddsNothing(rows, ps, n - 1, tasks, today, now);
    }
  }

  /** Running the job a second time on the same day creates no report. */
  lemma RerunSameDayAddsNothing(rows: seq<ProjectReport>, ps: seq<Project>, tasks: seq<Task>, today: Date, now: Time, later: Time)
    ensures var once := ReportsAfter(rows, ps, |ps|, tasks, today, now);
      ReportsAfter(once, ps, |ps|, tasks, today, later) == once
  {
    ReportsCoverHandled(rows, ps, |ps|, tasks, today, now);
    CoveredRunAddsNothing(ReportsAfter(rows, ps, |ps|, tasks, today, now), ps, |ps|, tasks, today, later);
  }
}
