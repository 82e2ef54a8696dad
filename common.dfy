/** Vocabulary shared by every part of the model: optional values, time units,
    counting and first-match queries over tables, uniqueness constraints and
    the zero-guarded ratios that several models compute. */
module Common {

  datatype Option<T> = None | Some(value: T)

  /** A point in time, in whole seconds. */
  type Time = int

  /** A calendar date, as a day number. */
  type Date = int

  const SecondsPerHour: int := 3600
  const SecondsPerDay: int := 86400

  /** The `days` attribute of a Python `timedelta` of `delta` seconds: the
      number of whole days, rounded towards minus infinity. */
  function WholeDays(delta: int): (d: int)
    ensures d * SecondsPerDay <= delta < d * SecondsPerDay + SecondsPerDay
    ensures d < 0 <==> delta < 0
    ensures 0 <= delta ==> d * SecondsPerDay <= delta
  {
    delta / SecondsPerDay
  }

  /** How long something has been running: nothing before it starts, the
      closed span once it has finished, and the span up to `now` otherwise. */
  function Elapsed(startedAt: Option<Time>, completedAt: Option<Time>, now: Time): (r: Option<int>)
    ensures r.None? <==> startedAt.None?
    ensures startedAt.Some? && completedAt.Some? ==> r == Some(completedAt.value - startedAt.value)
    ensures startedAt.Some? && completedAt.None? ==> r == Some(now - startedAt.value)
  {
    match startedAt
    case None => None
    case Some(s) =>
      match completedAt
      case Some(c) => Some(c - s)
      case None => Some(now - s)
  }

  /** A finished span no longer depends on the clock. */
  lemma ElapsedFrozenOnceCompleted(startedAt: Option<Time>, completed: Time, now1: Time, now2: Time)
    ensures Elapsed(startedAt, Some(completed), now1) == Elapsed(startedAt, Some(completed), now2)
  {
  }

  /** A running span grows exactly as fast as the clock. */
  lemma ElapsedGrowsWhileRunning(started: Time, now: Time, k: int)
    ensures Elapsed(Some(started), None, now + k).value == Elapsed(Some(started), None, now).value + k
  {
  }

  /** Index of the first row satisfying `p`: the `.filter(...).first()` query
      of a table whose rows are kept in `s` in query order. */
  function FirstWhere<T>(s: seq<T>, p: T -> bool): (r: Option<nat>)
    ensures r.Some? ==> r.value < |s| && p(s[r.value])
    ensures r.Some? ==> forall j :: 0 <= j < r.value ==> !p(s[j])
    ensures r.None? <==> forall j :: 0 <= j < |s| ==> !p(s[j])
    decreases |s|
  {
    if |s| == 0 then None
    else if p(s[0]) then Some(0)
    else
      match FirstWhere(s[1..], p)
      case None => None
      case Some(k) => Some(k + 1)
  }

  /** Number of rows satisfying `p`: the `.filter(...).count()` query. */
  function CountWhere<T>(s: seq<T>, p: T -> bool): (n: nat)
    ensures n <= |s|
    ensures n == 0 <==> forall j :: 0 <= j < |s| ==> !p(s[j])
    ensures n == |s| <==> forall j :: 0 <= j < |s| ==> p(s[j])
    decreases |s|
  {
    if |s| == 0 then 0
    else CountWhere(s[..|s| - 1], p) + (if p(s[|s| - 1]) then 1 else 0)
  }

  /** The rows satisfying `p`, in table order: a `.filter(...)` queryset. */
  function Filter<T>(s: seq<T>, p: T -> bool): (r: seq<T>)
    ensures |r| == CountWhere(s, p)
    ensures forall k :: 0 <= k < |r| ==> r[k] in s && p(r[k])
    ensures forall j :: 0 <= j < |s| && p(s[j]) ==> s[j] in r
    decreases |s|
  {
    if |s| == 0 then []
    else
      var init := s[..|s| - 1];
      assert forall j :: 0 <= j < |s| - 1 ==> s[j] == init[j];
      Filter(init, p) + (if p(s[|s| - 1]) then [s[|s| - 1]] else [])
  }

  /** Counting one more row of a table's prefix. */
  lemma CountStep<T>(s: seq<T>, i: nat, p: T -> bool)
    requires i < |s|
    ensures CountWhere(s[..i + 1], p) == CountWhere(s[..i], p) + if p(s[i]) then 1 else 0
  {
    assert s[..i + 1][..i] == s[..i];
  }

  /** Counting over two tables one after the other. */
  lemma {:induction false} CountConcat<T>(a: seq<T>, b: seq<T>, p: T -> bool)
    ensures CountWhere(a + b, p) == CountWhere(a, p) + CountWhere(b, p)
    decreases |b|
  {
    if |b| == 0 {
      assert a + b == a;
    } else {
      var n := |b| - 1;
      assert (a + b)[..|a + b| - 1] == a + b[..n];
      CountConcat(a, b[..n], p);
    }
  }

  /** Replacing one row by a row the selection takes only if it took the
      old one cannot raise the count. */
  lemma CountAfterUpdate<T>(s: seq<T>, k: nat, x: T, p: T -> bool)
    requires k < |s|
    requires p(x) ==> p(s[k])
    ensures CountWhere(s[k := x], p) <= CountWhere(s, p)
  {
    var front, back := s[..k], s[k + 1..];
    assert s == front + [s[k]] + back;
    assert s[k := x] == front + [x] + back;
    CountConcat(front + [s[k]], back, p);
    CountConcat(front, [s[k]], p);
    CountConcat(front + [x], back, p);
    CountConcat(front, [x], p);
    assert [s[k]][..0] == [] && [x][..0] == [];
  }

  /** A value is selected exactly when it is in the table and satisfies the
      condition. */
  lemma FilterMembership<T>(s: seq<T>, p: T -> bool, x: T)
    ensures x in Filter(s, p) <==> x in s && p(x)
  {
    var r := Filter(s, p);
    if x in r {
      var k :| 0 <= k < |r| && r[k] == x;
    }
    if x in s && p(x) {
      var j :| 0 <= j < |s| && s[j] == x;
    }
  }

  /** Filtering twice by the same condition is filtering once. */
  lemma {:induction false} FilterIdempotent<T>(s: seq<T>, p: T -> bool)
    ensures Filter(Filter(s, p), p) == Filter(s, p)
    decreases |s|
  {
    if |s| > 0 {
      var init := s[..|s| - 1];
      FilterIdempotent(init, p);
      var f := Filter(s, p);
      if p(s[|s| - 1]) {
        assert f[..|f| - 1] == Filter(init, p);
      } else {
        assert f == Filter(init, p);
      }
    }
  }

  /** Two selections that agree on every row select the same rows. */
  lemma {:induction false} FilterAgree<T>(s: seq<T>, p: T -> bool, q: T -> bool)
    requires forall j :: 0 <= j < |s| ==> p(s[j]) == q(s[j])
    ensures Filter(s, p) == Filter(s, q)
    decreases |s|
  {
    if |s| > 0 {
      FilterAgree(s[..|s| - 1], p, q);
    }
  }

  /** Filtering a table with a uniqueness constraint keeps it. */
  lemma {:induction false} FilterKeepsUnique<T, K>(s: seq<T>, p: T -> bool, key: T -> K)
    requires UniqueBy(s, key)
    ensures UniqueBy(Filter(s, p), key)
    decreases |s|
  {
    if |s| > 0 {
      var n := |s| - 1;
      var init := s[..n];
      assert UniqueBy(init, key) by {
        forall i, j | 0 <= i < j < |init|
          ensures key(init[i]) != key(init[j])
        {
          assert init[i] == s[i] && init[j] == s[j];
        }
      }
      FilterKeepsUnique(init, p, key);
      var fi := Filter(init, p);
      var f := Filter(s, p);
      if p(s[n]) {
        assert f == fi + [s[n]];
        forall i, j | 0 <= i < j < |f|
          ensures key(f[i]) != key(f[j])
        {
          assert f[i] == fi[i];
          if j == |fi| {
            var m :| 0 <= m < n && init[m] == fi[i];
            assert s[m] == f[i] && f[j] == s[n];
          } else {
            assert f[j] == fi[j];
          }
        }
      } else {
        assert f == fi;
      }
    }
  }

  /** Two selections that never pick the same row, both inside a third,
      together count no more than the third. */
  lemma {:induction false} CountDisjointWithin<T>(s: seq<T>, p: T -> bool, q: T -> bool, r: T -> bool)
    requires forall j :: 0 <= j < |s| ==> !(p(s[j]) && q(s[j]))
    requires forall j :: 0 <= j < |s| ==> (p(s[j]) || q(s[j])) ==> r(s[j])
    ensures CountWhere(s, p) + CountWhere(s, q) <= CountWhere(s, r)
    decreases |s|
  {
    if |s| > 0 {
      CountDisjointWithin(s[..|s| - 1], p, q, r);
    }
  }

  /** Every row either satisfies a selection or its negation. */
  lemma {:induction false} CountComplement<T>(s: seq<T>, p: T -> bool, q: T -> bool)
    requires forall j :: 0 <= j < |s| ==> q(s[j]) == !p(s[j])
    ensures CountWhere(s, p) + CountWhere(s, q) == |s|
    decreases |s|
  {
    if |s| > 0 {
      CountComplement(s[..|s| - 1], p, q);
    }
  }

  /** Two selections that agree on every row count the same rows. */
  lemma {:induction false} CountAgree<T>(s: seq<T>, p: T -> bool, q: T -> bool)
    requires forall j :: 0 <= j < |s| ==> p(s[j]) == q(s[j])
    ensures CountWhere(s, p) == CountWhere(s, q)
    decreases |s|
  {
    if |s| > 0 {
      CountAgree(s[..|s| - 1], p, q);
    }
  }

  /** A selection contained in another counts no more rows. */
  lemma {:induction false} CountMonotone<T>(s: seq<T>, p: T -> bool, q: T -> bool)
    requires forall j :: 0 <= j < |s| ==> p(s[j]) ==> q(s[j])
    ensures CountWhere(s, p) <= CountWhere(s, q)
    decreases |s|
  {
    if |s| > 0 {
      CountMonotone(s[..|s| - 1], p, q);
    }
  }

  /** Appending one element after a concatenation. */
  lemma AppendAfter<T>(a: seq<T>, b: seq<T>, x: T)
    ensures (a + b) + [x] == a + (b + [x])
  {
  }

  /** A database uniqueness constraint: no two rows share a key. */
  predicate UniqueBy<R, K(==)>(rows: seq<R>, key: R -> K)
  {
    forall i, j :: 0 <= i < j < |rows| ==> key(rows[i]) != key(rows[j])
  }

  /** Some row already carries key `k`. */
  predicate KeyTaken<R, K(==)>(rows: seq<R>, key: R -> K, k: K)
  {
    exists i :: 0 <= i < |rows| && key(rows[i]) == k
  }

  /** Inserting a row into a table with a uniqueness constraint: refused
      (the database raises an integrity error) when the key is taken. */
  function InsertUnique<R, K(==)>(rows: seq<R>, row: R, key: R -> K): (r: Option<seq<R>>)
    ensures r.None? <==> KeyTaken(rows, key, key(row))
    ensures r.Some? ==> r.value == rows + [row]
    ensures UniqueBy(rows, key) && r.Some? ==> UniqueBy(r.value, key)
  {
    if KeyTaken(rows, key, key(row)) then None else Some(rows + [row])
  }

  /** `round(part / whole * 100, 2)` behind a `whole > 0` guard, without the
      rounding to two decimals. */
  function GuardedRate(part: int, whole: int): (r: real)
    ensures whole <= 0 ==> r == 0.0
    ensures whole > 0 ==> r * (whole as real) == (part as real) * 100.0
    ensures whole > 0 && 0 <= part ==> 0.0 <= r
  {
    if whole > 0 then (part as real) * 100.0 / (whole as real) else 0.0
  }

  /** A part of at most the whole never rates above 100 percent. */
  lemma RateAtMostHundred(part: int, whole: int)
    requires 0 < whole && part <= whole
    ensures GuardedRate(part, whole) <= 100.0
  {
    var r := GuardedRate(part, whole);
    var w := whole as real;
    assert r * w == (part as real) * 100.0;
    assert (part as real) * 100.0 <= w * 100.0;
  }

  /** `int(part / whole * 100)` behind a zero-count guard, computed exactly. */
  function PercentOf(part: nat, whole: nat): (r: nat)
    ensures whole == 0 ==> r == 0
    ensures part <= whole ==> r <= 100
    ensures 0 < whole == part ==> r == 100
    ensures part == 0 ==> r == 0
  {
    if whole == 0 then 0
    else
      var r := part * 100 / whole;
      PercentBounded(part, whole, r);
      r
  }

  /** The percentage is the floor of `part * 100 / whole`: the largest
      whole number of percent not exceeding the share. */
  lemma PercentOfIsFloor(part: nat, whole: nat)
    requires whole > 0
    ensures PercentOf(part, whole) * whole <= part * 100 < PercentOf(part, whole) * whole + whole
  {
    PercentBounded(part, whole, PercentOf(part, whole));
  }

  /** The floor quotient of a part of at most the whole is at most 100. */
  lemma PercentBounded(part: nat, whole: nat, r: nat)
    requires whole > 0 && r == part * 100 / whole
    ensures r * whole <= part * 100 < r * whole + whole
    ensures part <= whole ==> r <= 100
    ensures part == whole ==> r == 100
  {
    var a := part * 100;
    var m := a % whole;
    assert a == r * whole + m && 0 <= m < whole;
    if part <= whole && r > 100 {
      MulMonotone(101, r, whole);
      assert false;
    }
    if part == whole {
      assert a == 100 * whole;
      if r < 100 {
        MulMonotone(r + 1, 100, whole);
        assert false;
      }
    }
  }

  lemma MulMonotone(x: int, y: int, z: nat)
    requires x <= y
    ensures x * z <= y * z
  {
  }
}
