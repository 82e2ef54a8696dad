/** Calendar events, meetings and attendance (calendar/models.py): interval
    predicates over a clock value `now`, and the attendance uniqueness
    constraint. */
module CalendarModels {
  import opened Common
  import opened Users

  datatype CalendarEvent = CalendarEvent(id: nat, creator: UserId, startTime: Time, endTime: Time)

  datatype Meeting = Meeting(
    id: nat,
    organizer: UserId,
    status: string,
    startTime: Time,
    endTime: Time,
    attendees: set<UserId>,
    requiredAttendees: set<UserId>)

  datatype MeetingAttendance = MeetingAttendance(
    meeting: nat,
    user: UserId,
    status: string,
    joinedAt: Option<Time>,
    leftAt: Option<Time>)

  /** `CalendarEvent.duration`: the signed span from start to end. */
  function EventDuration(e: CalendarEvent): (d: int)
    ensures e.startTime + d == e.endTime
    ensures d >= 0 <==> e.startTime <= e.endTime
  {
    e.endTime - e.startTime
  }

  /** `CalendarEvent.is_past`: strictly after the end. */
  predicate EventIsPast(e: CalendarEvent, now: Time)
  {
    now > e.endTime
  }

  /** `CalendarEvent.is_ongoing`: within start and end, both included. */
  predicate EventIsOngoing(e: CalendarEvent, now: Time)
  {
    e.startTime <= now <= e.endTime
  }

  /** `CalendarEvent.is_upcoming`: strictly before the start. */
  predicate EventIsUpcoming(e: CalendarEvent, now: Time)
  {
    now < e.startTime
  }

  /** For an event that does not end before it starts, exactly one of past,
      ongoing and upcoming holds at any time. */
  lemma EventPhaseTrichotomy(e: CalendarEvent, now: Time)
    requires e.startTime <= e.endTime
    ensures EventIsPast(e, now) || EventIsOngoing(e, now) || EventIsUpcoming(e, now)
    ensures !(EventIsPast(e, now) && EventIsOngoing(e, now))
    ensures !(EventIsPast(e, now) && EventIsUpcoming(e, now))
    ensures !(EventIsOngoing(e, now) && EventIsUpcoming(e, now))
  {
  }

  /** An event stored with its end before its start is, strictly between the
      two, both past and upcoming and never ongoing. */
  lemma EndBeforeStartBreaksTrichotomy(e: CalendarEvent, now: Time)
    requires e.endTime < now < e.startTime
    ensures EventIsPast(e, now) && EventIsUpcoming(e, now) && !EventIsOngoing(e, now)
  {
  }

  /** Phases only move forward: upcoming, then ongoing, then past. */
  lemma EventPhasesAdvance(e: CalendarEvent, now: Time, later: Time)
    requires now <= later
    ensures EventIsPast(e, now) ==> EventIsPast(e, later)
    ensures EventIsUpcoming(e, later) ==> EventIsUpcoming(e, now)
    ensures EventIsOngoing(e, now) && !EventIsPast(e, later) ==> EventIsOngoing(e, later)
  {
  }

  /** `Meeting.is_ongoing`: within start and end, both included. */
  predicate MeetingIsOngoing(m: Meeting, now: Time)
  {
    m.startTime <= now <= m.endTime
  }

  /** A meeting is ongoing exactly when the event with its times is. */
  lemma MeetingOngoingAsEvent(m: Meeting, now: Time)
    ensures MeetingIsOngoing(m, now) <==> EventIsOngoing(CalendarEvent(m.id, m.organizer, m.startTime, m.endTime), now)
  {
  }

  /** `MeetingAttendance.attendance_duration`: nothing before joining, the
      time attended once left, and the time so far while still present. */
  function AttendanceDuration(a: MeetingAttendance, now: Time): (d: Option<int>)
    ensures d.None? <==> a.joinedAt.None?
    ensures a.joinedAt.Some? && a.leftAt.Some? ==> d == Some(a.leftAt.value - a.joinedAt.value)
    ensures a.joinedAt.Some? && a.leftAt.None? ==> d == Some(now - a.joinedAt.value)
  {
    Elapsed(a.joinedAt, a.leftAt, now)
  }

  /** Once the attendee has left, the duration no longer depends on the clock. */
  lemma AttendanceFixedAfterLeaving(a: MeetingAttendance, now1: Time, now2: Time)
    requires a.leftAt.Some?
    ensures AttendanceDuration(a, now1) == AttendanceDuration(a, now2)
  {
    ElapsedFrozenOnceCompleted(a.joinedAt, a.leftAt.value, now1, now2);
  }

  /** The `(meeting, user)` key of an attendance record. */
  function AttendanceKey(a: MeetingAttendance): (nat, UserId)
  {
    (a.meeting, a.user)
  }

  /** Recording attendance: refused when the user already has a record for
      that meeting. */
  function AddAttendance(rows: seq<MeetingAttendance>, a: MeetingAttendance): (r: Option<seq<MeetingAttendance>>)
    ensures r.None? <==> exists i :: 0 <= i < |rows| && rows[i].meeting == a.meeting && rows[i].user == a.user
    ensures r.Some? ==> r.value == rows + [a]
    ensures UniqueBy(rows, AttendanceKey) && r.Some? ==> UniqueBy(r.value, AttendanceKey)
  {
    var r := InsertUnique(rows, a, AttendanceKey);
    assert KeyTaken(rows, AttendanceKey, AttendanceKey(a)) ==>
      exists i :: 0 <= i < |rows| && rows[i].meeting == a.meeting && rows[i].user == a.user;
    assert (exists i :: 0 <= i < |rows| && rows[i].meeting == a.meeting && rows[i].user == a.user) ==>
      KeyTaken(rows, AttendanceKey, AttendanceKey(a));
    r
  }

  /** The meeting table; ids are distinct. */
  class MeetingTable {
    var rows: seq<Meeting>

    ghost predicate Valid()
      reads this
    {
      forall i, j :: 0 <= i < j < |rows| ==> rows[i].id != rows[j].id
    }

    constructor ()
      ensures Valid() && rows == []
    {
      rows := [];
    }
  }
}
