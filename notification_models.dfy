/** Notifications (notifications/models.py): the record, the read transition
    and the quiet-hours window of a user's notification settings. */
module NotificationModels {
  import opened Common
  import opened Users

  datatype Notification = Notification(
    id: nat,
    recipient: UserId,
    kind: string,
    title: string,
    priority: string,
    isRead: bool,
    readAt: Option<Time>,
    createdAt: Time)

  /** The keys of `Notification.NOTIFICATION_TYPES`. */
  const NotificationTypes: set<string> := {
    "task_assigned", "task_completed", "task_overdue", "comment_added", "file_uploaded",
    "project_update", "milestone_reached", "deadline_approaching", "team_invitation", "system_alert"}

  /** A notification as created at `now`: unread, never read. */
  function NewNotification(id: nat, recipient: UserId, kind: string, title: string, priority: string, now: Time): (n: Notification)
    ensures !n.isRead && n.readAt.None? && n.createdAt == now
    ensures n.id == id && n.recipient == recipient && n.kind == kind && n.title == title && n.priority == priority
  {
    Notification(id, recipient, kind, title, priority, false, None, now)
  }

  /** `Notification.mark_as_read`: an unread notification becomes read at
      `now`; a read one is left exactly as it is, first read time included. */
  function MarkedRead(n: Notification, now: Time): (m: Notification)
    ensures m.isRead
    ensures !n.isRead ==> m.readAt == Some(now)
    ensures n.isRead ==> m == n
    ensures m == n.(isRead := m.isRead, readAt := m.readAt)
  {
    if n.isRead then n else n.(isRead := true, readAt := Some(now))
  }

  /** Marking as read twice is marking as read once: the later call changes
      nothing and the first read time is kept. */
  lemma MarkedReadIdempotent(n: Notification, t1: Time, t2: Time)
    ensures MarkedRead(MarkedRead(n, t1), t2) == MarkedRead(n, t1)
    ensures MarkedRead(MarkedRead(n, t1), t2).readAt == (if n.isRead then n.readAt else Some(t1))
  {
  }

  /** The notification table; ids are distinct and below `nextId`. */
  class NotificationStore {
    var items: seq<Notification>
    var nextId: nat

    ghost predicate Valid()
      reads this
    {
      (forall i, j :: 0 <= i < j < |items| ==> items[i].id != items[j].id) &&
      (forall i :: 0 <= i < |items| ==> items[i].id < nextId)
    }

    constructor ()
      ensures Valid() && items == [] && nextId == 0
    {
      items := [];
      nextId := 0;
    }

    /** `Notification.objects.create(...)`: appends one fresh unread row. */
    method Create(recipient: UserId, kind: string, title: string, priority: string, now: Time) returns (id: nat)
      requires Valid()
      modifies this
      ensures Valid()
      ensures id == old(nextId) && nextId == id + 1
      ensures items == old(items) + [NewNotification(id, recipient, kind, title, priority, now)]
    {
      id := nextId;
      items := items + [NewNotification(id, recipient, kind, title, priority, now)];
      nextId := nextId + 1;
    }

    /** `mark_as_read` on the row at position `i`: that row is replaced by its
        read form and no other row changes. */
    method MarkAsRead(i: nat, now: Time)
      requires Valid() && i < |items|
      modifies this
      ensures Valid() && nextId == old(nextId)
      ensures items == old(items)[i := MarkedRead(old(items)[i], now)]
    {
      items := items[i := MarkedRead(items[i], now)];
    }
  }

  const SecondsPerClockDay: int := 86400

  /** A time of day, in seconds after midnight. */
  predicate IsClockTime(t: int)
  {
    0 <= t < SecondsPerClockDay
  }

  /** `UserNotificationSettings.is_quiet_hours` at time of day `t`: never
      without both bounds; the closed interval when it does not wrap
      midnight; otherwise from the start on or up to the end. */
  predicate IsQuietHours(start: Option<int>, end: Option<int>, t: int)
  {
    if start.None? || end.None? then false
    else if start.value <= end.value then start.value <= t <= end.value
    else t >= start.value || t <= end.value
  }

  /** How far the clock runs forward from `a` to reach `b`. */
  function ClockDistance(a: int, b: int): (d: int)
    requires IsClockTime(a) && IsClockTime(b)
    ensures IsClockTime(d)
    ensures a <= b ==> d == b - a
    ensures b < a ==> d == b - a + SecondsPerClockDay
  {
    (b - a) % SecondsPerClockDay
  }

  /** The window is the arc the clock sweeps forward from the start to the
      end, both included, whether or not it crosses midnight. */
  lemma {:induction false} QuietHoursIsClockArc(start: int, end: int, t: int)
    requires IsClockTime(start) && IsClockTime(end) && IsClockTime(t)
    ensures IsQuietHours(Some(start), Some(end), t) <==> ClockDistance(start, t) <= ClockDistance(start, end)
  {
    var dt := ClockDistance(start, t);
    var de := ClockDistance(start, end);
    if start <= end {
      assert de == end - start;
    } else {
      assert de == end - start + SecondsPerClockDay;
    }
  }

  /** A window that wraps midnight is the complement of the open gap between
      its end and its start. */
  lemma QuietHoursWrapIsComplement(start: int, end: int, t: int)
    requires end < start
    ensures IsQuietHours(Some(start), Some(end), t) <==> !(end < t < start)
  {
  }
}
