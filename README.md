# TaskFlowPro rules, modelled in Dafny

TaskFlowPro is a Django project-management application: projects with members, tasks, threaded comments with likes, notifications, files, calendars and meetings, REST endpoints, workflows, integrations and analytics. It has no algorithmic engine. Its behaviour is a wide layer of small rules, and this project models and proves those rules:

- the deadline, expiry and duration properties of the records;
- the quiet-hours window of the notification settings, which can wrap past midnight;
- who may see, edit or delete what;
- the in-place updates the views make to their tables: timers, meeting attendance, likes, read flags, soft delete, task re-ordering and status changes;
- the periodic jobs that notify, refresh, clean up and report.

Modelling conventions:

- Time is an integer number of seconds and dates are integer day numbers. The clock reading (`now`, `today`) is a parameter.
- Decimal money and hours are integers in hundredths.
- A table that views or jobs change is a class whose `seq`, `set` or `map` fields the methods reassign. A many-to-many field is a `set`.
- Lookups (`objects.get`, `get_object`) are positions found by `FirstWhere`, with an explicit "not found" outcome.
- Each request or job run is one sequential step.

There is one module per source file:

| module | source file |
|---|---|
| `Common` | helpers: time units, counting, filtering, unique keys, guarded rates |
| `Users` | users/models.py |
| `Workflows` | workflows/models.py |
| `TaskModels` | tasks/models.py |
| `ProjectModels` | projects/models.py |
| `CommentModels` | comments/models.py |
| `NotificationModels` | notifications/models.py |
| `FileModels` | files/models.py |
| `CalendarModels` | calendar/models.py |
| `IntegrationModels` | integrations/models.py |
| `ApiModels` | api/models.py |
| `AnalyticsModels` | analytics/models.py |
| `ApiViews` | api/views.py |
| `TaskViews` | tasks/views.py |
| `ProjectViews` | projects/views.py |
| `CommentViews` | comments/views.py |
| `PeriodicJobs` | tasks/tasks.py |

Behaviour of the code that the model keeps on purpose, as written:

- `WorkflowInstance.is_overdue` tests `timeout_hours` for being non-zero (Python truthiness), not for being positive, so with a negative timeout the instance is overdue from the moment its step starts.
- The overdue check measures from the *first* step instance of the current step.
- `mark_all_read` sets `is_read` in bulk but leaves `read_at` unset, unlike `mark_as_read`.
- Who counts as "admin" depends on the layer. The HTML views use the profile's role, the REST views use Django's `is_staff` flag.
- The REST project list ignores `is_active`, so a soft-deleted project stays visible there to staff and to its members.
- The periodic jobs select projects by `status == 'active'`, not by `is_active`.
- An invalid task filter form applies no filter at all.
- `send_task_reminder` sends the mail first. A mail failure is caught, so no notification is created.
- The reminder's notification type `task_due` is not one of the declared notification types.
- `generate_reports` returns the number of active projects, not the number of reports it made.
- `reply_comment` does not check that the parent comment belongs to the same task.
- Deleting a comment cascades to its replies at every depth and to all their likes.
- `update_task_order` is not atomic. The tasks handled before an unknown id keep their new order. An id posted twice ends with its later position.
- Project update and delete look the project up among all projects, active or not.

## Model

| member | source | states |
|---|---|---|
| Users.IsAdmin | users/models.py:30-32 | `UserProfile.is_admin`: the role is admin |
| Users.NewProfile | users/models.py:17-33 | a newly created profile belongs to its user, has role member and is therefore not admin |
| Users.ProfileTable.OnUserSaved | users/models.py:35-44 | creating a user adds exactly one default profile, and a second creation is refused; a later save keeps the table (the role never changes); saving a user without a profile fails |
| Users.CreateThenSave | users/models.py:35-44 | creating a user and saving it again leaves exactly one new profile, a non-admin one, and no other profile changes |
| Workflows.NewInstance | workflows/models.py:100-125 | a new instance is running, started now, has no current step, no completion time and no result |
| Workflows.NewStepInstance | workflows/models.py:167-186 | a new step instance is pending, not started, not completed and has no result |
| Workflows.NewApprovalRequest | workflows/models.py:232-260 | a new request is a draft of normal priority, neither submitted nor completed |
| Workflows.InstanceDuration | workflows/models.py:137-141 | the duration runs from the start to completion when completed, otherwise to now |
| Workflows.StepDuration | workflows/models.py:198-204 | absent exactly when not started; completion minus start once completed; now minus start while running |
| Workflows.InstanceIsOverdue | workflows/models.py:144-151 | never overdue without a current step, with a zero timeout, or without a step instance for the step; otherwise overdue iff now is strictly after the first such step instance's start plus the timeout in hours |
| Workflows.NewInstanceNotOverdue | workflows/models.py:144-151 | a newly triggered instance is never overdue |
| Workflows.RequestIsOverdue | workflows/models.py:277-282 | `ApprovalRequest.is_overdue`: a deadline is set, the status is not approved, rejected or cancelled, and now is strictly after the deadline |
| Workflows.RequestDaysRemaining | workflows/models.py:284-290 | absent iff there is no deadline or the request is approved, rejected or cancelled; otherwise the floored number of whole days to the deadline |
| Workflows.RequestOverdueIffNegativeDays | workflows/models.py:277-290 | a request is overdue iff it has a day count and the count is negative; one second past the deadline already gives -1 days |
| Workflows.ApprovedRequestNeverOverdue | workflows/models.py:277-282 | a submitted request past its deadline is overdue; the same request once approved is not and has no day count |
| Workflows.AddStep | workflows/models.py:81-82 | adding a step is refused iff its template already has a step with that order; otherwise the step is appended and the `(workflow, order)` key stays unique |
| Workflows.StepsOfTemplate | workflows/models.py:81-82 | selects exactly the template's steps; under the uniqueness constraint their orders are pairwise different |
| Workflows.InsertByOrder | workflows/models.py:81 | inserting into an order-sorted list gives a sorted permutation of the list plus the step |
| Workflows.SortByOrder | workflows/models.py:81 | the result is sorted by order and is a permutation of the input |
| Workflows.OrderedSteps | workflows/models.py:81-82 | the template's steps, exactly, in ascending order |
| Workflows.OrderedStepsStrictlyIncrease | workflows/models.py:81-82 | under the `(workflow, order)` constraint a template's steps are enumerated in strictly increasing order |
| Workflows.SortKeepsDistinct | workflows/models.py:81-82 | sorting keeps pairwise different orders pairwise different |
| TaskModels.NewTask | tasks/models.py:22-32 | a new task is pending, of medium priority, at order 0, both declared choices, with the given fields |
| TaskModels.TaskIsOverdue | tasks/models.py:42-47 | `Task.is_overdue`: a due date is set, the task is not completed, and now is strictly after the due date |
| TaskModels.OpenAndPastDue | api/views.py:271-274 | the overdue query of the dashboard and the overdue job: due strictly before now and pending or in progress |
| TaskModels.DaysUntilDue | tasks/models.py:49-55 | absent iff there is no due date; otherwise the floored whole days to the due date, whatever the status |
| TaskModels.OverdueIffNegativeDays | tasks/models.py:42-55 | an uncompleted task is overdue iff its day count is negative; a completed task is never overdue |
| TaskModels.OpenAndPastDueMatchesOverdue | tasks/models.py:42-47 | for a declared status the views' and jobs' overdue selection (due before now, pending or in progress) coincides with `is_overdue`; a "cancelled" task past its due date is overdue by the property but not selected |
| TaskModels.TaskIndex | tasks/views.py:187 | finds the position of the task with the id, and is absent iff no task has it |
| ProjectModels.NewProject | projects/models.py:11-45 | a new project has the owner, no members, is active, in planning, at 0 progress, without end date, budget or cost |
| ProjectModels.ProjectIsOverdue | projects/models.py:72-77 | `Project.is_overdue`: an end date is set, the project is not completed or cancelled, and today is strictly after the end date |
| ProjectModels.ProjectDaysRemaining | projects/models.py:79-85 | absent iff there is no end date; otherwise the signed day difference, whatever the status |
| ProjectModels.ProjectOverdueIffNegativeDays | projects/models.py:72-85 | an open project is overdue iff its day count is negative; a completed or cancelled one never is |
| ProjectModels.CostVariance | projects/models.py:87-92 | present iff budget and cost are both set and non-zero; then budget plus variance is the cost |
| ProjectModels.CompletedTaskCount | projects/models.py:60-63 | the completed tasks are never more than the project's tasks |
| ProjectModels.ProgressPercentage | projects/models.py:65-70 | 0 without tasks or without completed tasks, 100 when all are completed, never above 100 |
| ProjectModels.MilestoneIsOverdue | projects/models.py:114-119 | `Milestone.is_overdue`: not completed and today strictly after the due date |
| ProjectModels.MilestoneOverdueMonotone | projects/models.py:114-119 | a completed milestone is never overdue; an open overdue one stays overdue on later days |
| ProjectModels.ProjectTable.SaveProgress | tasks/tasks.py:85-87 | `project.save()` after setting the progress: only that row's progress changes, and the table stays valid |
| ProjectModels.ProjectIndex | projects/views.py:114-123 | finds the position of the project with the id, and is absent iff there is none |
| CommentModels.ShortContent | comments/models.py:24-28 | content of at most 100 characters is returned unchanged; longer content becomes its first 100 characters then "...", 103 in all |
| CommentModels.ShortContentIdempotent | comments/models.py:24-28 | shortening a shortened text changes nothing |
| CommentModels.ShortContentKeepsPrefix | comments/models.py:24-28 | the short form agrees with the content on its first min(length, 100) characters |
| CommentModels.LikeCount | comments/models.py:30-32 | the count is 0 iff the comment has no like |
| CommentModels.LikeCountAfterAdd | comments/models.py:30-32 | a new like raises the comment's count by one |
| CommentModels.LikeCountAfterRemove | comments/models.py:30-32 | removing an existing like lowers the count by one |
| CommentModels.LikeCountOtherComment | comments/models.py:30-32 | likes of other comments do not change the count |
| CommentModels.HasReplies | comments/models.py:34-36 | true iff some comment names this one as parent, that is iff its reply count is positive |
| CommentModels.CommentIndex | comments/views.py:44 | finds the position of the comment with the id, and is absent iff there is none |
| NotificationModels.NewNotification | notifications/models.py:24-37 | a new notification is unread, was never read, and was created now, with the given recipient, type and priority |
| NotificationModels.MarkedRead | notifications/models.py:67-72 | the result is read; an unread notification gets read time now; a read one is returned unchanged; only the read flag and read time can change |
| NotificationModels.MarkedReadIdempotent | notifications/models.py:67-72 | marking twice equals marking once, and the first read time is kept |
| NotificationModels.NotificationStore.Create | notifications/models.py:24-37 | appends exactly one fresh unread notification under a new id |
| NotificationModels.NotificationStore.MarkAsRead | notifications/models.py:67-72 | the row becomes its read form and no other row changes |
| NotificationModels.IsQuietHours | notifications/models.py:144-154 | `is_quiet_hours`: false without both bounds; the closed interval when start <= end; otherwise at or after the start or at or before the end |
| NotificationModels.ClockDistance | notifications/models.py:150-154 | the forward clock distance between two times of day, wrapping at midnight |
| NotificationModels.QuietHoursIsClockArc | notifications/models.py:144-154 | with both bounds set, quiet hours hold iff the time lies on the clock arc from start to end, both included, whether or not it wraps midnight |
| NotificationModels.QuietHoursWrapIsComplement | notifications/models.py:151-154 | a window that wraps midnight is everything except the open gap between end and start |
| FileModels.SavedSize | files/models.py:67-69 | a non-zero stored size is never overwritten; a zero size is filled from the attached file only when there is one |
| FileModels.SavedMime | files/models.py:70-72 | a non-empty type is kept; an empty one, with a file attached, takes the guess, else the generic binary type, and is never left empty |
| FileModels.SaveIdempotent | files/models.py:67-73 | saving twice stores the same size and type as saving once |
| FileModels.ProjectFile.Save | files/models.py:67-73 | size and type become their filled-in values; the name and the download count do not change |
| FileModels.ProjectFile.IncrementDownloadCount | files/models.py:85-88 | the download count rises by exactly one and no other field changes |
| FileModels.LastIndexOf | files/models.py:83 | the position of the last occurrence of the character, or -1 when there is none |
| FileModels.SplitExt | files/models.py:83 | the extension is empty or starts with a dot and is a suffix of the name |
| FileModels.Lower | files/models.py:83 | same length, each ASCII letter lower-cased, no ASCII upper-case letter left, every other character kept |
| FileModels.FileExtension | files/models.py:80-83 | empty or starting with a dot, and never contains an ASCII upper-case letter |
| FileModels.ExtensionIsTailFromLastDot | files/models.py:80-83 | a non-empty extension is the lower-cased tail of the name from its last dot, which lies in the final path component |
| FileModels.NoDotNoExtension | files/models.py:80-83 | a name whose final component has no dot has no extension |
| FileModels.LeadingDotsNoExtension | files/models.py:80-83 | a final component made of leading dots and a dot-free name (".bashrc") has no extension |
| FileModels.StemDotSuffixExtension | files/models.py:80-83 | "Report.PDF" style names have the lower-cased suffix from the dot as extension |
| FileModels.LowerIdempotent | files/models.py:83 | lower-casing twice equals lower-casing once |
| CalendarModels.EventDuration | calendar/models.py:71-74 | start plus duration is the end; the duration is non-negative iff the event does not end before it starts |
| CalendarModels.EventIsPast | calendar/models.py:76-79 | `is_past`: now strictly after the end |
| CalendarModels.EventIsOngoing | calendar/models.py:81-85 | `is_ongoing`: now within start and end, both included |
| CalendarModels.EventIsUpcoming | calendar/models.py:87-90 | `is_upcoming`: now strictly before the start |
| CalendarModels.EventPhaseTrichotomy | calendar/models.py:76-90 | for an event with start <= end, exactly one of past, ongoing and upcoming holds |
| CalendarModels.EndBeforeStartBreaksTrichotomy | calendar/models.py:76-90 | an event stored with end before start is both past and upcoming, and not ongoing, between the two times |
| CalendarModels.EventPhasesAdvance | calendar/models.py:76-90 | phases only move forward in time: upcoming, then ongoing, then past |
| CalendarModels.MeetingIsOngoing | calendar/models.py:166-170 | `Meeting.is_ongoing`: now within start and end, both included |
| CalendarModels.MeetingOngoingAsEvent | calendar/models.py:166-170 | a meeting is ongoing iff an event with the same times is ongoing |
| CalendarModels.AttendanceDuration | calendar/models.py:218-225 | absent iff never joined; left minus joined once left; now minus joined while present |
| CalendarModels.AttendanceFixedAfterLeaving | calendar/models.py:218-225 | once the attendee has left, the duration does not depend on the clock |
| CalendarModels.AddAttendance | calendar/models.py:212 | a second record for the same (meeting, user) is refused; otherwise it is appended and the key stays unique |
| IntegrationModels.IsHealthy | integrations/models.py:107-112 | `is_healthy`: with both a last error and a last sync, the error came strictly first; otherwise the status is active |
| IntegrationModels.HealthIgnoresStatusOnceBothSet | integrations/models.py:107-112 | with both times set, health is "error strictly before sync" whatever the status, so an active connection can be unhealthy |
| IntegrationModels.NewConnectionUnhealthy | integrations/models.py:82-112 | a connection with the default status, never synced, is not healthy |
| IntegrationModels.AddConnection | integrations/models.py:101 | refused iff the (service, project, name) key is taken; otherwise appended, key stays unique |
| IntegrationModels.SyncDuration | integrations/models.py:283-290 | absent iff not started; completion minus start once completed; now minus start while running |
| IntegrationModels.RunningSyncGrows | integrations/models.py:283-290 | a running sync's duration grows with the clock |
| IntegrationModels.WebhookSuccessRate | integrations/models.py:218-223 | 0 without requests; otherwise the exact percentage of successful requests |
| IntegrationModels.WebhookRateIsPercentage | integrations/models.py:218-223 | with no more successes than requests the rate lies between 0 and 100 |
| ApiModels.TokenIsExpired | api/models.py:36-41 | `APIToken.is_expired`: an expiry is set and now is strictly after it |
| ApiModels.TokenExpiryIsPermanent | api/models.py:36-41 | a token without expiry never expires; it is still valid at its expiry instant; once expired it stays expired |
| ApiModels.AddToken | api/models.py:11 | issuing is refused iff the key is in use; otherwise appended, keys stay unique |
| ApiModels.AddDevice | api/models.py:98 | registering is refused iff the device id is in use by anyone; otherwise appended, ids stay unique |
| ApiModels.DeviceIdUniqueImpliesUserDeviceUnique | api/models.py:98-118 | unique device ids imply unique (user, device id) pairs |
| ApiModels.PushSuccessRate | api/models.py:189-194 | 0 without recipients; otherwise the exact percentage sent |
| ApiModels.OfflineSyncProgress | api/models.py:250-255 | 0 without items; otherwise the exact percentage synced |
| ApiModels.ApiRatesArePercentages | api/models.py:189-255 | with counts within their totals both rates lie between 0 and 100 |
| AnalyticsModels.CacheIsExpired | analytics/models.py:198-201 | `AnalyticsCache.is_expired`: now strictly after the expiry time |
| AnalyticsModels.CacheExpiryIsPermanent | analytics/models.py:198-201 | fresh at its expiry instant, expired strictly after and from then on |
| AnalyticsModels.TimeVariance | analytics/models.py:83-86 | estimate plus variance is the actual hours; positive iff the estimate was exceeded |
| AnalyticsModels.EfficiencyRate | analytics/models.py:76-81 | 0 unless hours were worked; otherwise the exact percentage estimate/actual |
| AnalyticsModels.EfficiencyAgainstVariance | analytics/models.py:76-86 | finishing within the estimate means efficiency at least 100, overrunning it at most 100 |
| AnalyticsModels.ProcessingTime | analytics/models.py:170-176 | absent iff not completed; then creation plus the time is the completion |
| AnalyticsModels.AddCacheEntry | analytics/models.py:182 | refused iff the cache key is taken; otherwise appended, keys stay unique |
| AnalyticsModels.AddPerformance | analytics/models.py:70 | refused iff the (user, project, period) key is taken; otherwise appended, key stays unique |
| ApiViews.ApiProjectVisible | api/views.py:52-57 | the project queryset: staff see every project, others the projects they are members of, active or not |
| ApiViews.ApiTaskVisible | api/views.py:93-102 | the task queryset: staff see every task, others those they are assigned to, created, or whose project they belong to |
| ApiViews.ApiTaskList | api/views.py:93-102 | lists exactly the visible tasks (staff: all; others: assigned, created, or of a project they belong to), in table order |
| ApiViews.ApiTaskListDistinct | api/views.py:98-102 | no task is listed twice |
| ApiViews.VisibleTaskIndex | api/views.py:104-107 | finds the task only when it exists and the requester can see it |
| ApiViews.AddMember | api/views.py:75-85 | a project the requester cannot see is not found; an unknown user id is reported and changes nothing; otherwise the user is added to that project's members and nothing else changes |
| ApiViews.AddedMemberSeesProject | api/views.py:75-85 | after adding, the user is a member and sees the project through the API; nobody who saw it loses sight of it |
| ApiViews.StartTimer | api/views.py:104-125 | refused, with nothing changed, when the task is not visible or the requester already has an open entry on it; otherwise exactly one open entry starting now is appended; at most one open entry per (task, user) is kept |
| ApiViews.StopTimer | api/views.py:127-145 | refused without an open entry; otherwise that entry, and no other, ends now, after which the requester has no open entry on the task |
| ApiViews.StartThenStop | api/views.py:104-145 | starting then stopping adds exactly one closed entry from the start time to the stop time |
| ApiViews.MarkRead | api/views.py:179-184 | only the requester's own notification can be found; it becomes read and nothing else changes |
| ApiViews.AllReadFor | api/views.py:186-190 | each of the user's notifications gets the read flag and keeps its read time; other users' notifications are unchanged |
| ApiViews.MarkAllRead | api/views.py:186-190 | the store becomes the bulk-read table |
| ApiViews.MarkAllReadEffect | api/views.py:186-190 | afterwards the requester has no unread notification, every other user's unread count is unchanged, and read times stay unset |
| ApiViews.MeetingVisible | api/views.py:222-229 | the meeting queryset: the organizer, the attendees and the required attendees |
| ApiViews.MeetingIndex | api/views.py:222-234 | finds the meeting only if the user organizes or (is required to) attend it |
| ApiViews.Join | api/views.py:231-241 | adds the user to the attendees iff absent; otherwise, or when the meeting is not found, nothing changes |
| ApiViews.Leave | api/views.py:243-253 | removes the user from the attendees iff present; otherwise nothing changes |
| ApiViews.JoinThenLeave | api/views.py:231-253 | for a user who could see but did not attend, join then leave restores the table |
| ApiViews.TaskCountsNested | api/views.py:268-284 | completed, overdue and upcoming tasks are disjoint parts of the assigned tasks |
| ApiViews.DashboardOverview | api/views.py:259-284 | active projects are at most all projects; completed + overdue + upcoming are at most the assigned tasks |
| ApiViews.OverdueCountMatchesIsOverdue | api/views.py:271-274 | with declared statuses, the overdue count is the number of the user's tasks that `is_overdue` reports |
| TaskViews.WebTaskVisible | tasks/views.py:22-33 | the task list's visibility: admins by profile role see every task, others those of their projects, assigned to them or created by them |
| TaskViews.TaskList | tasks/views.py:52-76 | lists exactly the visible tasks that pass every applied filter, in table order; an admin with an invalid form sees every task |
| TaskViews.NarrowerFilterListsFewer | tasks/views.py:66-76 | adding filters never lists more tasks: the narrower list is contained in the wider one |
| TaskViews.InvalidFormIgnoresFilters | tasks/views.py:67-68 | an invalid form lists what no filter lists |
| TaskViews.WebListMatchesApiList | tasks/views.py:61-64 | for a user who is neither admin nor staff, the unfiltered HTML list equals the REST list |
| TaskViews.TaskListDistinct | tasks/views.py:61-64 | no task is listed twice |
| TaskViews.CanEditTask | tasks/views.py:150-154 | `TaskUpdateView.test_func`: an admin, the creator or the assignee |
| TaskViews.CanDeleteTask | tasks/views.py:171-175 | `TaskDeleteView.test_func`: an admin or the creator |
| TaskViews.DeleteImpliesEdit | tasks/views.py:150-175 | whoever may delete may edit; a plain assignee may edit but not delete |
| TaskViews.UpdateTaskStatus | tasks/views.py:181-206 | non-POST, unknown task, no edit right or an undeclared status each leave the table unchanged; otherwise only that task's status changes |
| TaskViews.LastPosition | tasks/views.py:222-225 | the last position before n where the id was posted, or none |
| TaskViews.ReorderedUpTo | tasks/views.py:221-225 | after n posted ids, each posted task's order is its last posted position, every other field and task unchanged |
| TaskViews.FirstUnknown | tasks/views.py:221-229 | the first posted id naming no task; absent iff all ids name tasks |
| TaskViews.UpdateTaskOrder | tasks/views.py:208-233 | non-POST or non-admin change nothing; otherwise orders are set up to the first unknown id, where the request stops with the earlier updates kept |
| TaskViews.PostedPositionIsOrder | tasks/views.py:222-225 | with distinct ids, the id posted at position q gets order q |
| TaskViews.ReorderPlacesEachTask | tasks/views.py:222-225 | after a complete run, each posted task's order is its list position |
| TaskViews.StoppedRunKeepsEarlierOrders | tasks/views.py:221-229 | when the run stops at an unknown id, the tasks posted before it already carry their new order |
| TaskViews.RepeatedIdTakesLastPosition | tasks/views.py:222-225 | an id posted twice ends with the later position |
| ProjectViews.WebProjectListed | projects/views.py:19-28 | the list and detail querysets: active, and the user is an admin by profile role or a member |
| ProjectViews.ProjectList | projects/views.py:30-42 | lists exactly the active projects the user may see (admin: all active; others: active ones they belong to) |
| ProjectViews.ProjectListDistinct | projects/views.py:25-28 | no project is listed twice |
| ProjectViews.AdminListIsActiveProjects | projects/views.py:19-28 | an admin's list is exactly the active projects, and nobody's list is longer |
| ProjectViews.CanManageProject | projects/views.py:93-97 | the update and delete `test_func`: an admin by profile role or the owner |
| ProjectViews.CreateProject | projects/views.py:78-83 | appends one project owned by the creator with the creator as its only member; it appears in the creator's list and the creator may manage it |
| ProjectViews.SoftDeleteProject | projects/views.py:106-126 | an unknown project or a user who is neither admin nor owner changes nothing; otherwise only that project's `is_active` is cleared and the row stays |
| ProjectViews.SoftDeleted | projects/views.py:120-124 | the record becomes inactive with every other field kept |
| ProjectViews.SoftDeleteIdempotent | projects/views.py:114-126 | deleting twice equals deleting once, and the permission is unchanged |
| ProjectViews.SoftDeletedHiddenOnlyFromWeb | projects/views.py:120-124 | a soft-deleted project leaves every HTML list but stays as visible through the REST API as before |
| ProjectViews.SoftDeleteShrinksLists | projects/views.py:120-126 | after the delete the project is in nobody's list and no list grows |
| CommentViews.ToggledLikes | comments/views.py:93-98 | the user's like is present afterwards iff it was absent before; no other like changes |
| CommentViews.ToggleTwiceRestores | comments/views.py:93-98 | toggling twice restores the like table |
| CommentViews.ToggleMovesCountByOne | comments/views.py:93-99 | the comment's count moves by exactly one in the reported direction; other comments' counts stay |
| CommentViews.LikeComment | comments/views.py:84-99 | only a POST on an existing comment toggles; it reports whether the user now likes it and the new count; comments are untouched |
| CommentViews.AddComment | comments/views.py:10-37 | an unknown task, a GET or an invalid form store nothing; otherwise one top-level comment by the requester is appended |
| CommentViews.ReplyComment | comments/views.py:101-120 | as adding, after the parent comment is found; the reply names the parent, which may belong to another task |
| CommentViews.EditComment | comments/views.py:39-64 | only the author may edit; a valid POST changes only that comment's content |
| CommentViews.InSubtree | comments/models.py:14 | the comments the parent cascade removes with `root`: `root` itself and every reply whose parent lies under it |
| CommentViews.DeleteComment | comments/views.py:66-82 | POST only and author only; otherwise nothing changes; deleting removes the comment, its replies at every depth and their likes |
| CommentViews.CascadeDelete | comments/models.py:14-39 | keeps exactly the comments outside the deleted subtree and the likes of kept comments |
| CommentViews.LikesSurviving | comments/models.py:39 | a like survives iff its comment is outside the deleted subtree |
| CommentViews.DeleteLeavesNoOrphans | comments/models.py:14 | afterwards the comment is gone and no remaining comment replies to a deleted one |
| CommentViews.ItemOf | comments/views.py:125-136 | the item carries the comment's fields, like count, the user's like, author-only edit and delete flags, and one reply item per reply, in table order, carrying that reply's id |
| CommentViews.BuildTree | comments/views.py:123-138 | one item per input comment, in input order |
| CommentViews.TreePermissionsConsistent | comments/views.py:133-134 | at every depth, edit and delete are granted together and exactly to the author |
| CommentViews.RootComments | comments/views.py:146 | exactly the task's comments without a parent, in creation order |
| CommentViews.CommentList | comments/views.py:140-148 | not found iff the task is unknown; otherwise one tree item per root comment, in order |
| PeriodicJobs.NoticeKinds | tasks/tasks.py:44-68 | the overdue notice has a declared notification type; the reminder's type does not |
| PeriodicJobs.SendTaskReminder | tasks/tasks.py:10-54 | an unknown or completed/cancelled task, or a failed mail, creates nothing; otherwise exactly one high-priority notice for the assignee is created |
| PeriodicJobs.OverdueNotices | tasks/tasks.py:64-72 | one urgent overdue notice per task, in order, with consecutive ids |
| PeriodicJobs.SendOverdueNotifications | tasks/tasks.py:56-74 | appends exactly the notices for the open tasks due before now, in order, and returns their number |
| PeriodicJobs.OverdueNoticesMatchOverdueTasks | tasks/tasks.py:59-72 | every notice is urgent, unread, of the overdue type, for the assignee of an overdue open task; with declared statuses the selected tasks are exactly those `is_overdue` reports |
| PeriodicJobs.Refreshed | tasks/tasks.py:79-87 | only the progress can change, and only for an active project with tasks, where it becomes the progress percentage |
| PeriodicJobs.UpdateProjectProgress | tasks/tasks.py:76-89 | every project becomes its refreshed form; returns the number of active projects |
| PeriodicJobs.RefreshedUpTo | tasks/tasks.py:81-87 | the first n rows are refreshed and the others kept |
| PeriodicJobs.RefreshIdempotent | tasks/tasks.py:79-87 | refreshing twice equals refreshing once and keeps a percentage a percentage |
| PeriodicJobs.Expired | tasks/tasks.py:94-98 | the cleanup's selection: read, and created strictly before ninety days before now |
| PeriodicJobs.CleanupOldNotifications | tasks/tasks.py:91-100 | deletes exactly the read notifications created before the 90-day cutoff and returns how many |
| PeriodicJobs.CleanupKeepsRecentAndUnread | tasks/tasks.py:94-98 | unread or recent notifications survive; a second cleanup at the same time deletes nothing |
| PeriodicJobs.ProgressReport | tasks/tasks.py:180-198 | a one-day progress report for the project by its owner, with completed and overdue counts within the total and a percentage of at most 100 |
| PeriodicJobs.ReportsAfter | tasks/tasks.py:168-198 | handling the projects in order only appends reports |
| PeriodicJobs.NextReports | tasks/tasks.py:169-198 | handling one project only appends, at most one report |
| PeriodicJobs.GenerateReports | tasks/tasks.py:160-200 | the report table becomes the specified run over the projects whose status is active, in order; returns the number of active projects |
| PeriodicJobs.ReportEach | tasks/tasks.py:168-198 | the loop appends exactly what the specified run over its projects appends |
| PeriodicJobs.AtMostOneReportPerDay | tasks/tasks.py:168-198 | handling any prefix of the projects never creates a second progress report for a project and day |
| PeriodicJobs.ReportsCoverHandled | tasks/tasks.py:168-198 | every project handled so far has today's report |
| PeriodicJobs.ReportsCoverActiveProjects | tasks/tasks.py:164-198 | afterwards every project whose status is active has today's report |
| PeriodicJobs.CoveredRunAddsNothing | tasks/tasks.py:169-178 | when every project to handle already has today's report, nothing is added |
| PeriodicJobs.RerunSameDayAddsNothing | tasks/tasks.py:160-200 | running the job again on the same day adds no report |

## Left out

- The workflow progression engine: starting, advancing or cancelling instances and resolving approvers has no code in the source, so nothing is invented for it.
- Rendering and HTTP plumbing: templates, redirects, flash messages, the JSON payload texts, serializers, URL configuration, form classes and admin classes. The forms appear only through their outcome (valid content or not, the cleaned filter fields).
- Authentication and sessions (users/views.py), the browser script under static/, Celery scheduling and the server configuration.
- Notification, report and mail titles and messages. A notification's title is the task title, without the fixed text around it.
- `send_mail` is the `mailDelivered` parameter and `mimetypes.guess_type` is the `guess` parameter. File storage is left out; an attached file is a flag and a size.
- `send_daily_summary` only sends mail, and `sync_external_data` does nothing; both are left out.
- `comment_like` (comments/views.py:150-160) is an incomplete duplicate of `like_comment` and is left out.
- Concurrency: the check-then-create race in `start_timer` and concurrent toggles are out of scope; every request is one sequential step.
- Whether Django calls `ProjectDeleteView.delete` depends on the Django version (from 4.0 a POST goes through `form_valid`, which would delete the row). The version is not part of this model; the model follows the override.
- The `TimeEntry` record is imported by api/views.py but its definition is not part of this model; its fields are those the views use.
- ProjectModels.ProgressPercentage: computes the exact floor of completed*100/total; the floating-point artefact of `int((c/t)*100)` (29 of 100 gives 28) is not modelled.
- IntegrationModels.WebhookSuccessRate: the exact ratio; the rounding to two decimals is not modelled, and likewise for ApiModels.PushSuccessRate, ApiModels.OfflineSyncProgress and AnalyticsModels.EfficiencyRate.
- AnalyticsModels.ProcessingTime: in integer seconds, not as a float of seconds. `file_size_mb`, `Notification.age` and `Meeting.duration_minutes` are float conversions and are left out.
- Workflows.InstanceIsOverdue: requires that the first step instance of the current step has been started; when it has not, the source raises a TypeError, which is not modelled.
- TaskViews.UpdateTaskOrder: a posted id that is not a number raises an error that the view reports; ids are modelled as numbers, so that path is not modelled.
- ApiViews.DashboardOverview: uses one clock reading for all counts, where the source reads the clock three times.
- PeriodicJobs.GenerateReports: uses one `today` for the whole run, where the source reads the date again for each project (a run across midnight is not modelled).
- Users.ProfileTable.OnUserSaved: the profile's other fields and its timestamps are not modelled, only the user and the role.
- FileModels.Lower: lower-cases only the ASCII letters 'A' to 'Z' and keeps every other character as it is. Python's `str.lower` maps every Unicode letter and can change the length ('İ' becomes two characters), so for `a.É` the source gives `.é` and the model `.É`. The Unicode case tables are not part of this model.
- FileModels.FileExtension: inherits the ASCII-only lower-casing of FileModels.Lower; an extension with a non-ASCII upper-case letter keeps it.
- CommentViews.CommentList: the tree is built under the store invariant that every reply's parent id is below its own id, which the modelled views keep. A parent cycle written into the table by other means would make `build_comment_tree` recurse without end; that case is not modelled.
- Ordering by creation time is table order; Django's `ordering` options other than the steps' `(workflow, order)` are not modelled.
- Calendar event visibility, file visibility, and the other view sets' plain CRUD are not part of this model.
