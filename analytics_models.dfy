/** Analytics records (analytics/models.py): reports, team performance,
    exports and the cache. Hours are decimals kept in hundredths. */
module AnalyticsModels {
  import opened Common
  import opened Users

  /** The counts a progress report records. */
  datatype ReportContent = ReportContent(
    totalTasks: nat,
    completedTasks: nat,
    progressPercentage: nat,
    overdueTasks: nat)

  datatype ProjectReport = ProjectReport(
    project: nat,
    reportType: string,
    content: ReportContent,
    generatedBy: UserId,
    periodStart: Date,
    periodEnd: Date)

  datatype TeamPerformance = TeamPerformance(
    user: UserId,
    project: nat,
    periodStart: Date,
    periodEnd: Date,
    estimatedHours: int,
    actualHours: int)

  datatype DataExport = DataExport(status: string, createdAt: Time, completedAt: Option<Time>)

  datatype AnalyticsCache = AnalyticsCache(cacheKey: string, expiresAt: Time)

  /** `AnalyticsCache.is_expired`: strictly after the expiry time. */
  predicate CacheIsExpired(c: AnalyticsCache, now: Time)
  {
    now > c.expiresAt
  }

  /** An entry is fresh up to and at its expiry time and expired from then on. */
  lemma CacheExpiryIsPermanent(c: AnalyticsCache, now: Time, later: Time)
    requires now <= later
    ensures CacheIsExpired(c, now) ==> CacheIsExpired(c, later)
    ensures !CacheIsExpired(c, c.expiresAt)
  {
  }

  /** `TeamPerformance.time_variance`: hours over (positive) or under
      (negative) the estimate. */
  function TimeVariance(p: TeamPerformance): (v: int)
    ensures p.estimatedHours + v == p.actualHours
    ensures v > 0 <==> p.actualHours > p.estimatedHours
  {
    p.actualHours - p.estimatedHours
  }

  /** `TeamPerformance.efficiency_rate`, before rounding: 0 unless some hours
      were actually worked. */
  function EfficiencyRate(p: TeamPerformance): (r: real)
    ensures p.actualHours <= 0 ==> r == 0.0
    ensures p.actualHours > 0 ==> r * (p.actualHours as real) == (p.estimatedHours as real) * 100.0
  {
    GuardedRate(p.estimatedHours, p.actualHours)
  }

  /** Finishing within the estimate means an efficiency of at least 100, and
      overrunning it one of at most 100. */
  lemma EfficiencyAgainstVariance(p: TeamPerformance)
    requires p.actualHours > 0
    ensures TimeVariance(p) <= 0 ==> EfficiencyRate(p) >= 100.0
    ensures TimeVariance(p) >= 0 ==> EfficiencyRate(p) <= 100.0
  {
    var r := EfficiencyRate(p);
    var a := p.actualHours as real;
    assert r * a == (p.estimatedHours as real) * 100.0;
    if TimeVariance(p) <= 0 {
      assert (p.estimatedHours as real) * 100.0 >= a * 100.0;
    }
    if TimeVariance(p) >= 0 {
      RateAtMostHundred(p.estimatedHours, p.actualHours);
    }
  }

  /** `DataExport.processing_time`: absent until completed, then the span
      from creation to completion. */
  function ProcessingTime(e: DataExport): (r: Option<int>)
    ensures r.None? <==> e.completedAt.None?
    ensures r.Some? ==> e.createdAt + r.value == e.completedAt.value
  {
    match e.completedAt
    case None => None
    case Some(c) => Some(c - e.createdAt)
  }

  function CacheKey(c: AnalyticsCache): string
  {
    c.cacheKey
  }

  /** Storing a cache entry: refused when the key is already present. */
  function AddCacheEntry(rows: seq<AnalyticsCache>, c: AnalyticsCache): (r: Option<seq<AnalyticsCache>>)
    ensures r.None? <==> exists i :: 0 <= i < |rows| && rows[i].cacheKey == c.cacheKey
    ensures r.Some? ==> r.value == rows + [c]
    ensures UniqueBy(rows, CacheKey) && r.Some? ==> UniqueBy(r.value, CacheKey)
  {
    var r := InsertUnique(rows, c, CacheKey);
    assert KeyTaken(rows, CacheKey, c.cacheKey) ==> exists i :: 0 <= i < |rows| && rows[i].cacheKey == c.cacheKey;
    r
  }

  /** The `(user, project, period_start, period_end)` key. */
  function PerformanceKey(p: TeamPerformance): (UserId, nat, Date, Date)
  {
    (p.user, p.project, p.periodStart, p.periodEnd)
  }

  /** Recording performance: refused when the user already has a record for
      that project and period. */
  function AddPerformance(rows: seq<TeamPerformance>, p: TeamPerformance): (r: Option<seq<TeamPerformance>>)
    ensures r.None? <==> exists i :: 0 <= i < |rows| && PerformanceKey(rows[i]) == PerformanceKey(p)
    ensures r.Some? ==> r.value == rows + [p]
    ensures UniqueBy(rows, PerformanceKey) && r.Some? ==> UniqueBy(r.value, PerformanceKey)
  {
    InsertUnique(rows, p, PerformanceKey)
  }

  /** The report table, in creation order. */
  class ReportTable {
    var rows: seq<ProjectReport>

    constructor ()
      ensures rows == []
    {
      rows := [];
    }
  }
}
