/** Workflow templates, steps, running instances, step instances and approval
    requests (workflows/models.py). The source holds no progression engine:
    what it computes are read-only properties (durations, overdue flags, days
    remaining), the per-template ordering of steps and the field defaults. */
module Workflows {
  import opened Common
  import opened Users

  /** A step of a template: `order` is unique within the template. */
  datatype WorkflowStep = WorkflowStep(id: nat, workflow: nat, order: int, timeoutHours: int)

  datatype WorkflowInstance = WorkflowInstance(
    workflow: nat,
    status: string,
    currentStep: Option<WorkflowStep>,
    startedBy: UserId,
    startedAt: Time,
    completedAt: Option<Time>,
    result: Option<string>)

  /** The run of one step inside an instance. */
  datatype StepInstance = StepInstance(
    step: nat,
    status: string,
    startedAt: Option<Time>,
    completedAt: Option<Time>,
    result: Option<string>)

  datatype ApprovalRequest = ApprovalRequest(
    requester: UserId,
    requestType: string,
    priority: string,
    status: string,
    submittedAt: Option<Time>,
    deadline: Option<Time>,
    completedAt: Option<Time>)

  /** Request statuses after which nothing is overdue any more. */
  const TerminalRequestStatuses: set<string> := {"approved", "rejected", "cancelled"}

  // ---------------------------------------------------------------- defaults

  /** A freshly triggered instance: every optional field at its default. */
  function NewInstance(workflow: nat, startedBy: UserId, now: Time): (w: WorkflowInstance)
    ensures w.status == "running" && w.currentStep.None?
    ensures w.startedAt == now && w.completedAt.None? && w.result.None?
  {
    WorkflowInstance(workflow, "running", None, startedBy, now, None, None)
  }

  /** A freshly created step instance: pending, not started. */
  function NewStepInstance(step: nat): (si: StepInstance)
    ensures si.status == "pending" && si.startedAt.None? && si.completedAt.None? && si.result.None?
  {
    StepInstance(step, "pending", None, None, None)
  }

  /** A freshly created approval request: a draft of normal priority. */
  function NewApprovalRequest(requester: UserId, requestType: string, deadline: Option<Time>): (r: ApprovalRequest)
    ensures r.status == "draft" && r.priority == "normal"
    ensures r.submittedAt.None? && r.completedAt.None? && r.deadline == deadline
  {
    ApprovalRequest(requester, requestType, "normal", "draft", None, deadline, None)
  }

  // --------------------------------------------------------------- durations

  /** `WorkflowInstance.duration`: up to completion, or up to now. */
  function InstanceDuration(w: WorkflowInstance, now: Time): (d: int)
    ensures Elapsed(Some(w.startedAt), w.completedAt, now) == Some(d)
  {
    match w.completedAt
    case Some(c) => c - w.startedAt
    case None => now - w.startedAt
  }

  /** `WorkflowStepInstance.duration`. */
  function StepDuration(si: StepInstance, now: Time): (d: Option<int>)
    ensures d.None? <==> si.startedAt.None?
    ensures si.startedAt.Some? && si.completedAt.Some? ==> d == Some(si.completedAt.value - si.startedAt.value)
    ensures si.startedAt.Some? && si.completedAt.None? ==> d == Some(now - si.startedAt.value)
  {
    Elapsed(si.startedAt, si.completedAt, now)
  }

  // ----------------------------------------------------------------- overdue

  /** The step instances of `sis` that run the step with id `step`. */
  function RunsStep(step: nat): StepInstance -> bool
  {
    (si: StepInstance) => si.step == step
  }

  /** What `is_overdue` needs in order not to fail: when it looks at the first
      step instance of the current step, that one has been started (the
      source adds a time delta to its `started_at`). */
  predicate OverdueDefined(w: WorkflowInstance, sis: seq<StepInstance>)
  {
    w.currentStep.Some? && w.currentStep.value.timeoutHours != 0 ==>
      match FirstWhere(sis, RunsStep(w.currentStep.value.id))
      case None => true
      case Some(i) => sis[i].startedAt.Some?
  }

  /** `WorkflowInstance.is_overdue` over the instance's step instances `sis`
      (in query order): only a current step with a non-zero timeout can time
      out, and it is measured from the first step instance of that step. */
  function InstanceIsOverdue(w: WorkflowInstance, sis: seq<StepInstance>, now: Time): (r: bool)
    requires OverdueDefined(w, sis)
    ensures w.currentStep.None? ==> !r
    ensures w.currentStep.Some? && w.currentStep.value.timeoutHours == 0 ==> !r
    ensures w.currentStep.Some? && (forall j :: 0 <= j < |sis| ==> sis[j].step != w.currentStep.value.id) ==> !r
    ensures r <==>
      (w.currentStep.Some? && w.currentStep.value.timeoutHours != 0 &&
       exists i :: 0 <= i < |sis| && sis[i].step == w.currentStep.value.id &&
         (forall j :: 0 <= j < i ==> sis[j].step != w.currentStep.value.id) &&
         sis[i].startedAt.Some? &&
         now > sis[i].startedAt.value + w.currentStep.value.timeoutHours * SecondsPerHour)
  {
    if w.currentStep.Some? && w.currentStep.value.timeoutHours != 0 then
      var step := w.currentStep.value;
      match FirstWhere(sis, RunsStep(step.id))
      case None => false
      case Some(i) => now > sis[i].startedAt.value + step.timeoutHours * SecondsPerHour
    else
      false
  }

  /** A newly triggered instance has no current step yet and is never overdue. */
  lemma NewInstanceNotOverdue(workflow: nat, startedBy: UserId, started: Time, sis: seq<StepInstance>, now: Time)
    ensures OverdueDefined(NewInstance(workflow, startedBy, started), sis)
    ensures !InstanceIsOverdue(NewInstance(workflow, startedBy, started), sis, now)
  {
  }

  /** `ApprovalRequest.is_overdue`: strictly past a set deadline and not
      yet approved, rejected or cancelled. */
  predicate RequestIsOverdue(r: ApprovalRequest, now: Time)
  {
    r.deadline.Some? && r.status !in TerminalRequestStatuses && now > r.deadline.value
  }

  /** `ApprovalRequest.days_remaining`: whole days to the deadline, floored,
      and absent without a deadline or once the request is closed. */
  function RequestDaysRemaining(r: ApprovalRequest, now: Time): (d: Option<int>)
    ensures d.None? <==> r.deadline.None? || r.status in TerminalRequestStatuses
    ensures d.Some? ==> d.value * SecondsPerDay <= r.deadline.value - now < (d.value + 1) * SecondsPerDay
  {
    if r.deadline.Some? && r.status !in TerminalRequestStatuses then
      Some(WholeDays(r.deadline.value - now))
    else
      None
  }

  /** A request is overdue exactly when it still has a day count and that
      count has gone negative; a deadline passed by one second already
      counts as -1 days. */
  lemma RequestOverdueIffNegativeDays(r: ApprovalRequest, now: Time)
    ensures RequestIsOverdue(r, now) <==>
      (RequestDaysRemaining(r, now).Some? && RequestDaysRemaining(r, now).value < 0)
    ensures r.deadline.Some? && r.status !in TerminalRequestStatuses && now == r.deadline.value + 1 ==>
      RequestDaysRemaining(r, now) == Some(-1)
  {
  }

  /** A submitted request one day past its deadline is overdue; once it is
      approved it is not, whatever the deadline. */
  lemma ApprovedRequestNeverOverdue(r: ApprovalRequest, now: Time)
    requires r.deadline == Some(now - SecondsPerDay)
    ensures r.status == "submitted" ==> RequestIsOverdue(r, now)
    ensures !RequestIsOverdue(r.(status := "approved"), now)
    ensures RequestDaysRemaining(r.(status := "approved"), now).None?
  {
  }

  // --------------------------------------------------- step order per template

  /** The uniqueness key of a step: `(workflow, order)`. */
  function StepKey(s: WorkflowStep): (int, int)
  {
    (s.workflow, s.order)
  }

  /** Adding a step to the step table; refused when its template already has
      a step with the same order. */
  function AddStep(steps: seq<WorkflowStep>, s: WorkflowStep): (r: Option<seq<WorkflowStep>>)
    ensures r.None? <==> exists i :: 0 <= i < |steps| && steps[i].workflow == s.workflow && steps[i].order == s.order
    ensures r.Some? ==> r.value == steps + [s]
    ensures UniqueBy(steps, StepKey) && r.Some? ==> UniqueBy(r.value, StepKey)
  {
    InsertUnique(steps, s, StepKey)
  }

  predicate SortedByOrder(s: seq<WorkflowStep>)
  {
    forall i, j :: 0 <= i < j < |s| ==> s[i].order <= s[j].order
  }

  predicate StrictlyByOrder(s: seq<WorkflowStep>)
  {
    forall i, j :: 0 <= i < j < |s| ==> s[i].order < s[j].order
  }

  predicate DistinctOrders(s: seq<WorkflowStep>)
  {
    forall i, j :: 0 <= i < j < |s| ==> s[i].order != s[j].order
  }

  /** The steps of template `t`, in table order. */
  function StepsOfTemplate(steps: seq<WorkflowStep>, t: nat): (r: seq<WorkflowStep>)
    ensures forall x :: x in r <==> x in steps && x.workflow == t
    ensures UniqueBy(steps, StepKey) ==> DistinctOrders(r)
    decreases |steps|
  {
    if steps == [] then []
    else
      var rest := StepsOfTemplate(steps[1..], t);
      assert UniqueBy(steps, StepKey) ==> UniqueBy(steps[1..], StepKey) by {
        if UniqueBy(steps, StepKey) {
          forall i, j | 0 <= i < j < |steps[1..]|
            ensures StepKey(steps[1..][i]) != StepKey(steps[1..][j])
          {
            assert steps[1..][i] == steps[i + 1] && steps[1..][j] == steps[j + 1];
          }
        }
      }
      if steps[0].workflow == t then
        assert UniqueBy(steps, StepKey) ==> forall x :: x in rest ==> x.order != steps[0].order by {
          if UniqueBy(steps, StepKey) {
            forall x | x in rest ensures x.order != steps[0].order {
              var k :| 1 <= k < |steps| && steps[k] == x;
              assert StepKey(steps[0]) != StepKey(steps[k]);
            }
          }
        }
        [steps[0]] + rest
      else
        rest
  }

  /** Places `s` among steps already in ascending order. */
  function InsertByOrder(s: WorkflowStep, sorted: seq<WorkflowStep>): (r: seq<WorkflowStep>)
    requires SortedByOrder(sorted)
    ensures SortedByOrder(r)
    ensures forall x :: x in r ==> x == s || x in sorted
    ensures multiset(r) == multiset(sorted) + multiset{s}
    decreases |sorted|
  {
    if sorted == [] then
      [s]
    else
      HeadIsLeast(sorted);
      if s.order <= sorted[0].order then
        ConsSorted(s, sorted);
        [s] + sorted
      else
        var tail := sorted[1..];
        var rest := InsertByOrder(s, tail);
        ConsSorted(sorted[0], rest);
        assert sorted == [sorted[0]] + tail;
        [sorted[0]] + rest
  }

  /** The first of sorted steps has the least order, and the rest are sorted. */
  lemma HeadIsLeast(sorted: seq<WorkflowStep>)
    requires SortedByOrder(sorted) && sorted != []
    ensures SortedByOrder(sorted[1..])
    ensures forall x :: x in sorted ==> sorted[0].order <= x.order
  {
    var tail := sorted[1..];
    forall i, j | 0 <= i < j < |tail|
      ensures tail[i].order <= tail[j].order
    {
      assert tail[i] == sorted[i + 1] && tail[j] == sorted[j + 1];
    }
  }

  /** A step no later than any of sorted steps can head them. */
  lemma ConsSorted(h: WorkflowStep, rest: seq<WorkflowStep>)
    requires SortedByOrder(rest)
    requires forall x :: x in rest ==> h.order <= x.order
    ensures SortedByOrder([h] + rest)
  {
    var r := [h] + rest;
    forall i, j | 0 <= i < j < |r|
      ensures r[i].order <= r[j].order
    {
      assert r[j] == rest[j - 1];
      if i > 0 {
        assert r[i] == rest[i - 1];
      }
    }
  }

  /** The steps of a template as the table's ordering enumerates them:
      ascending by `order`. */
  function SortByOrder(steps: seq<WorkflowStep>): (r: seq<WorkflowStep>)
    ensures SortedByOrder(r)
    ensures multiset(r) == multiset(steps)
    decreases |steps|
  {
    if steps == [] then []
    else
      assert steps == [steps[0]] + steps[1..];
      InsertByOrder(steps[0], SortByOrder(steps[1..]))
  }

  /** `template.steps.all()`: the template's steps, ascending by order. */
  function OrderedSteps(steps: seq<WorkflowStep>, t: nat): (r: seq<WorkflowStep>)
    ensures SortedByOrder(r)
    ensures forall x :: x in r <==> x in steps && x.workflow == t
  {
    var mine := StepsOfTemplate(steps, t);
    var r := SortByOrder(mine);
    assert forall x :: x in r <==> x in mine by {
      forall x ensures x in r <==> x in mine {
        assert x in r <==> x in multiset(r);
        assert x in mine <==> x in multiset(mine);
      }
    }
    r
  }

  /** Sorted steps with pairwise different orders are strictly increasing. */
  lemma SortedDistinctIsStrict(s: seq<WorkflowStep>)
    requires SortedByOrder(s) && DistinctOrders(s)
    ensures StrictlyByOrder(s)
  {
  }

  /** Sorting keeps steps of pairwise different orders pairwise different. */
  lemma {:induction false} SortKeepsDistinct(steps: seq<WorkflowStep>)
    requires DistinctOrders(steps)
    ensures DistinctOrders(SortByOrder(steps))
    decreases |steps|
  {
    if steps != [] {
      var tail := steps[1..];
      assert DistinctOrders(tail) by {
        forall i, j | 0 <= i < j < |tail| ensures tail[i].order != tail[j].order {
          assert tail[i] == steps[i + 1] && tail[j] == steps[j + 1];
        }
      }
      SortKeepsDistinct(tail);
      var sortedTail := SortByOrder(tail);
      assert forall x :: x in sortedTail ==> x.order != steps[0].order by {
        forall x | x in sortedTail ensures x.order != steps[0].order {
          assert x in multiset(sortedTail);
          assert x in multiset(tail);
          var k :| 0 <= k < |tail| && tail[k] == x;
          assert steps[k + 1] == x;
        }
      }
      InsertKeepsDistinct(steps[0], sortedTail);
    }
  }

  lemma {:induction false} InsertKeepsDistinct(s: WorkflowStep, sorted: seq<WorkflowStep>)
    requires SortedByOrder(sorted) && DistinctOrders(sorted)
    requires forall x :: x in sorted ==> x.order != s.order
    ensures DistinctOrders(InsertByOrder(s, sorted))
    decreases |sorted|
  {
    if sorted != [] {
      HeadIsLeast(sorted);
      if s.order <= sorted[0].order {
        ConsDistinct(s, sorted);
      } else {
        var tail := sorted[1..];
        assert DistinctOrders(tail) && forall x :: x in tail ==> x.order != sorted[0].order by {
          forall i, j | 0 <= i < j < |tail|
            ensures tail[i].order != tail[j].order
          {
            assert tail[i] == sorted[i + 1] && tail[j] == sorted[j + 1];
          }
          forall x | x in tail
            ensures x.order != sorted[0].order
          {
            var k :| 0 <= k < |tail| && tail[k] == x;
            assert sorted[k + 1] == x;
          }
        }
        InsertKeepsDistinct(s, tail);
        ConsDistinct(sorted[0], InsertByOrder(s, tail));
      }
    }
  }

  /** A step whose order no other step has can head them. */
  lemma ConsDistinct(h: WorkflowStep, rest: seq<WorkflowStep>)
    requires DistinctOrders(rest)
    requires forall x :: x in rest ==> x.order != h.order
    ensures DistinctOrders([h] + rest)
  {
    var r := [h] + rest;
    forall i, j | 0 <= i < j < |r|
      ensures r[i].order != r[j].order
    {
      assert r[j] == rest[j - 1];
      if i > 0 {
        assert r[i] == rest[i - 1];
      }
    }
  }

  /** Within a template whose step table respects the `(workflow, order)`
      constraint, the steps are enumerated in strictly increasing order. */
  lemma OrderedStepsStrictlyIncrease(steps: seq<WorkflowStep>, t: nat)
    requires UniqueBy(steps, StepKey)
    ensures StrictlyByOrder(OrderedSteps(steps, t))
  {
    var mine := StepsOfTemplate(steps, t);
    SortKeepsDistinct(mine);
    SortedDistinctIsStrict(SortByOrder(mine));
  }
}
