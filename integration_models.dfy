/** Third-party integrations (integrations/models.py): connection health,
    the connection uniqueness constraint, sync durations and the webhook
    success rate's guard. */
module IntegrationModels {
  import opened Common

  datatype ServiceConnection = ServiceConnection(
    service: nat,
    project: nat,
    connectionName: string,
    status: string,
    lastSyncAt: Option<Time>,
    lastErrorAt: Option<Time>)

  datatype Webhook = Webhook(totalRequests: int, successfulRequests: int, failedRequests: int)

  datatype DataSync = DataSync(status: string, startedAt: Option<Time>, completedAt: Option<Time>)

  /** `ServiceConnection.is_healthy`: with both a last error and a last sync,
      healthy when the error came strictly first; otherwise healthy when the
      status is active. */
  predicate IsHealthy(c: ServiceConnection)
  {
    if c.lastErrorAt.Some? && c.lastSyncAt.Some? then c.lastErrorAt.value < c.lastSyncAt.value
    else c.status == "active"
  }

  /** Once both times are recorded the status no longer matters: a connection
      whose last error is not older than its last sync is unhealthy even
      when active, and one that synced after its last error is healthy even
      when marked as failing. */
  lemma HealthIgnoresStatusOnceBothSet(c: ServiceConnection, s: string)
    requires c.lastErrorAt.Some? && c.lastSyncAt.Some?
    ensures IsHealthy(c.(status := s)) == IsHealthy(c)
    ensures c.lastSyncAt.value <= c.lastErrorAt.value ==> !IsHealthy(c.(status := "active"))
  {
  }

  /** A new connection (status inactive, never synced, no error) is not healthy. */
  lemma NewConnectionUnhealthy(service: nat, project: nat, name: string)
    ensures !IsHealthy(ServiceConnection(service, project, name, "inactive", None, None))
  {
  }

  /** The `(service, project, connection_name)` key. */
  function ConnectionKey(c: ServiceConnection): (nat, nat, string)
  {
    (c.service, c.project, c.connectionName)
  }

  /** Adding a connection: refused when the service already has a connection
      of that name on that project. */
  function AddConnection(rows: seq<ServiceConnection>, c: ServiceConnection): (r: Option<seq<ServiceConnection>>)
    ensures r.None? <==> exists i :: 0 <= i < |rows| && ConnectionKey(rows[i]) == ConnectionKey(c)
    ensures r.Some? ==> r.value == rows + [c]
    ensures UniqueBy(rows, ConnectionKey) && r.Some? ==> UniqueBy(r.value, ConnectionKey)
  {
    InsertUnique(rows, c, ConnectionKey)
  }

  /** `DataSync.duration`. */
  function SyncDuration(d: DataSync, now: Time): (r: Option<int>)
    ensures r.None? <==> d.startedAt.None?
    ensures d.startedAt.Some? && d.completedAt.Some? ==> r == Some(d.completedAt.value - d.startedAt.value)
    ensures d.startedAt.Some? && d.completedAt.None? ==> r == Some(now - d.startedAt.value)
  {
    Elapsed(d.startedAt, d.completedAt, now)
  }

  /** A sync still running has run for longer the later one asks. */
  lemma RunningSyncGrows(d: DataSync, now: Time, later: Time)
    requires d.startedAt.Some? && d.completedAt.None? && now <= later
    ensures SyncDuration(d, now).value <= SyncDuration(d, later).value
  {
    ElapsedGrowsWhileRunning(d.startedAt.value, now, later - now);
  }

  /** `Webhook.success_rate`, before rounding: 0 without requests. */
  function WebhookSuccessRate(w: Webhook): (r: real)
    ensures w.totalRequests <= 0 ==> r == 0.0
    ensures w.totalRequests > 0 ==> r * (w.totalRequests as real) == (w.successfulRequests as real) * 100.0
  {
    GuardedRate(w.successfulRequests, w.totalRequests)
  }

  /** With no more successes than requests the rate is a percentage. */
  lemma WebhookRateIsPercentage(w: Webhook)
    requires 0 <= w.successfulRequests <= w.totalRequests
    ensures 0.0 <= WebhookSuccessRate(w) <= 100.0
  {
    if w.totalRequests > 0 {
      RateAtMostHundred(w.successfulRequests, w.totalRequests);
    }
  }
}
