/** Hourly rollups of job_runs and the dashboard sums over them, in UTC milliseconds. */
module Rollups {
  import opened Arithmetic
  import opened Common
  import opened JobRuns

  const HOUR: int := 60 * 60 * 1000

  /** The columns of job_runs that the rollup reads. */
  datatype Run = Run(
    createdAt: int, queue: string, status: Status, durationMs: Option<int>, enqueuedAt: Option<int>,
    startedAt: Option<int>)

  datatype Stats = Stats(
    total: nat, completed: nat, failed: nat, active: nat, waiting: nat,
    durationTotal: int, durationCount: nat, durationMin: Option<int>, durationMax: Option<int>,
    pressureTotal: int, pressureCount: nat)

  /** The primary key of dashboard_queue_hourly_stats. */
  datatype Bucket = Bucket(start: int, queue: string)

  type Table = map<Bucket, Stats>

  // ---- SQL aggregates as a monoid ----

  const NO_RUNS := Stats(0, 0, 0, 0, 0, 0, 0, None, None, 0, 0)

  function MinOf(a: Option<int>, b: Option<int>): Option<int> {
    if a.None? then b else if b.None? then a else if a.value <= b.value then a else b
  }

  function MaxOf(a: Option<int>, b: Option<int>): Option<int> {
    if a.None? then b else if b.None? then a else if a.value >= b.value then a else b
  }

  function Merge(a: Stats, b: Stats): Stats {
    Stats(a.total + b.total, a.completed + b.completed, a.failed + b.failed, a.active + b.active, a.waiting + b.waiting,
          a.durationTotal + b.durationTotal, a.durationCount + b.durationCount,
          MinOf(a.durationMin, b.durationMin), MaxOf(a.durationMax, b.durationMax),
          a.pressureTotal + b.pressureTotal, a.pressureCount + b.pressureCount)
  }

  function One(b: bool): nat {
    if b then 1 else 0
  }

  function Single(r: Run): Stats {
    var timed := r.status.Completed? && r.durationMs.Some?;
    var pressured := (r.status.Completed? || r.status.Failed?) && r.enqueuedAt.Some? && r.startedAt.Some?;
    Stats(1, One(r.status.Completed?), One(r.status.Failed?), One(r.status.Active?), One(r.status.Waiting?),
          if timed then r.durationMs.value else 0, One(timed),
          if timed then r.durationMs else None, if timed then r.durationMs else None,
          if pressured then r.startedAt.value - r.enqueuedAt.value else 0, One(pressured))
  }

  function BucketOf(r: Run): Bucket {
    Bucket(Trunc(HOUR, r.createdAt), r.queue)
  }

  /** Aggregating the raw rows that fall into the given buckets. */
  function AggregateIn(runs: seq<Run>, buckets: set<Bucket>): Stats {
    if runs == [] then NO_RUNS
    else
      var rest := AggregateIn(runs[..|runs| - 1], buckets);
      if BucketOf(runs[|runs| - 1]) in buckets then Merge(rest, Single(runs[|runs| - 1])) else rest
  }

  /** A dashboard query's choice of queues: one, or all. */
  predicate Chosen(queue: string, only: Option<string>) {
    only.None? || only.value == queue
  }

  /** Aggregating the raw rows of a time span directly. */
  function AggregateSpan(runs: seq<Run>, from: int, end: int, only: Option<string>): Stats {
    if runs == [] then NO_RUNS
    else
      var r := runs[|runs| - 1];
      var rest := AggregateSpan(runs[..|runs| - 1], from, end, only);
      if from <= r.createdAt < end && Chosen(r.queue, only) then Merge(rest, Single(r)) else rest
  }

  lemma MergeLaws(a: Stats, b: Stats, c: Stats)
    ensures Merge(Merge(a, b), c) == Merge(a, Merge(b, c))
    ensures Merge(a, b) == Merge(b, a)
    ensures Merge(a, NO_RUNS) == a && Merge(NO_RUNS, a) == a
  {
  }

  lemma {:induction false} AggregateSplits(runs: seq<Run>, s: set<Bucket>, t: set<Bucket>)
    requires s !! t
    ensures AggregateIn(runs, s + t) == Merge(AggregateIn(runs, s), AggregateIn(runs, t))
  {
    hide Merge, Single;
    MergeLaws(NO_RUNS, NO_RUNS, NO_RUNS);
    if runs != [] {
      var init, r := runs[..|runs| - 1], runs[|runs| - 1];
      AggregateSplits(init, s, t);
      MergeLaws(AggregateIn(init, s), AggregateIn(init, t), Single(r));
      MergeLaws(AggregateIn(init, s), Single(r), AggregateIn(init, t));
      MergeLaws(AggregateIn(init, t), Single(r), NO_RUNS);
    }
  }

  /** An hour-aligned span is exactly the buckets that start in it. */
  lemma {:induction false} SpanIsBuckets(
      runs: seq<Run>, from: int, end: int, only: Option<string>, buckets: set<Bucket>)
    requires from % HOUR == 0 && end % HOUR == 0
    requires forall i :: 0 <= i < |runs| ==>
               (BucketOf(runs[i]) in buckets <==> from <= BucketOf(runs[i]).start < end && Chosen(runs[i].queue, only))
    ensures AggregateIn(runs, buckets) == AggregateSpan(runs, from, end, only)
  {
    if runs != [] {
      var r := runs[|runs| - 1];
      SpanIsBuckets(runs[..|runs| - 1], from, end, only, buckets);
      HoursOfSpan(r.createdAt, from, end);
      assert BucketOf(r) in buckets <==> from <= BucketOf(r).start < end && Chosen(r.queue, only);
      hide Merge, Single, Trunc;
    }
  }

  lemma HoursOfSpan(at: int, from: int, end: int)
    requires from % HOUR == 0 && end % HOUR == 0
    ensures from <= Trunc(HOUR, at) < end <==> from <= at < end
  {
    AlignedBelow(HOUR, from, at);
    AlignedBelow(HOUR, end, at);
  }

  // ---- What the aggregates mean ----

  predicate Timed(r: Run, from: int, end: int, only: Option<string>) {
    from <= r.createdAt < end && Chosen(r.queue, only) && r.status.Completed? && r.durationMs.Some?
  }

  ghost predicate SomeTimed(runs: seq<Run>, from: int, end: int, only: Option<string>, duration: int) {
    exists r :: r in runs && Timed(r, from, end, only) && r.durationMs == Some(duration)
  }

  ghost predicate AnyTimed(runs: seq<Run>, from: int, end: int, only: Option<string>) {
    exists r :: r in runs && Timed(r, from, end, only)
  }

  lemma AnyTimedLast(runs: seq<Run>, from: int, end: int, only: Option<string>)
    requires runs != []
    ensures AnyTimed(runs, from, end, only) <==>
            AnyTimed(runs[..|runs| - 1], from, end, only) || Timed(runs[|runs| - 1], from, end, only)
  {
    var init, last := runs[..|runs| - 1], runs[|runs| - 1];
    assert runs == init + [last];
    if r :| r in init && Timed(r, from, end, only) {
      assert r in runs;
    }
    assert last in runs;
  }

  /** Minimum and maximum are there exactly when a completed run has a duration. */
  lemma {:induction false} DurationsPresent(runs: seq<Run>, from: int, end: int, only: Option<string>)
    ensures var s := AggregateSpan(runs, from, end, only);
            && (s.durationMin.Some? <==> AnyTimed(runs, from, end, only))
            && (s.durationMax.Some? <==> s.durationMin.Some?) && (s.durationCount > 0 <==> s.durationMin.Some?)
  {
    if runs != [] {
      DurationsPresent(runs[..|runs| - 1], from, end, only);
      AnyTimedLast(runs, from, end, only);
      hide AnyTimed;
    }
  }

  /** They bound every duration. */
  lemma {:induction false} DurationsBounded(runs: seq<Run>, from: int, end: int, only: Option<string>, r: Run)
    requires r in runs && Timed(r, from, end, only)
    ensures var s := AggregateSpan(runs, from, end, only);
            s.durationMin.Some? && s.durationMax.Some? &&
                s.durationMin.value <= r.durationMs.value <= s.durationMax.value
  {
    var init, last := runs[..|runs| - 1], runs[|runs| - 1];
    assert runs == init + [last];
    DurationsPresent(init, from, end, only);
    if r in init {
      DurationsBounded(init, from, end, only, r);
    }
  }

  /** Each of them is the duration of some run. */
  lemma {:induction false} DurationsAttained(runs: seq<Run>, from: int, end: int, only: Option<string>)
    ensures var s := AggregateSpan(runs, from, end, only);
            && (s.durationMin.Some? ==> SomeTimed(runs, from, end, only, s.durationMin.value))
            && (s.durationMax.Some? ==> SomeTimed(runs, from, end, only, s.durationMax.value))
  {
    if runs != [] {
      var init := runs[..|runs| - 1];
      DurationsAttained(init, from, end, only);
      forall d | SomeTimed(init, from, end, only, d)
        ensures SomeTimed(runs, from, end, only, d)
      {
        var r :| r in init && Timed(r, from, end, only) && r.durationMs == Some(d);
        assert r in runs;
      }
      assert runs[|runs| - 1] in runs;
    }
  }

  /** The average duration lies between minimum and maximum. */
  predicate AverageBetween(s: Stats) {
    && (s.durationMin.Some? <==> s.durationMax.Some?) &&
        (s.durationMin.None? ==> s.durationCount == 0 && s.durationTotal == 0)
    && (s.durationMin.Some? ==>
          s.durationMin.value * s.durationCount <= s.durationTotal <= s.durationMax.value * s.durationCount)
  }

  lemma LowerStep(a: int, b: int, n: nat, total: int, d: int)
    requires a * n <= total && b <= a && b <= d
    ensures b * (n + 1) <= total + d
  {
    assert a * n - b * n == (a - b) * n && (a - b) * n >= 0;
    assert b * (n + 1) == b * n + b;
  }

  lemma UpperStep(a: int, b: int, n: nat, total: int, d: int)
    requires total <= a * n && a <= b && d <= b
    ensures total + d <= b * (n + 1)
  {
    LowerStep(-a, -b, n, -total, -d);
    assert -a * n == -(a * n) && -b * (n + 1) == -(b * (n + 1));
  }

  lemma OneMoreDuration(s: Stats, r: Run)
    requires AverageBetween(s)
    ensures AverageBetween(Merge(s, Single(r)))
  {
    if s.durationMin.Some? && r.status.Completed? && r.durationMs.Some? {
      var t, d := Merge(s, Single(r)), r.durationMs.value;
      LowerStep(s.durationMin.value, t.durationMin.value, s.durationCount, s.durationTotal, d);
      UpperStep(s.durationMax.value, t.durationMax.value, s.durationCount, s.durationTotal, d);
    }
  }

  lemma {:induction false} AverageIsBetween(runs: seq<Run>, from: int, end: int, only: Option<string>)
    ensures AverageBetween(AggregateSpan(runs, from, end, only))
  {
    hide AverageBetween, Merge, Single;
    if runs == [] {
      NoRunsAverage();
    } else {
      var init := runs[..|runs| - 1];
      AverageIsBetween(init, from, end, only);
      OneMoreDuration(AggregateSpan(init, from, end, only), runs[|runs| - 1]);
    }
  }

  lemma NoRunsAverage()
    ensures AverageBetween(NO_RUNS)
  {
  }

  function WithStatus(runs: seq<Run>, from: int, end: int, only: Option<string>, status: Status): seq<Run> {
    if runs == [] then []
    else
      var r := runs[|runs| - 1];
      WithStatus(runs[..|runs| - 1], from, end, only, status)
      + if from <= r.createdAt < end && Chosen(r.queue, only) && r.status == status then [r] else []
  }

  /** The counts are the numbers of runs of the span with each status. */
  lemma {:induction false} CountsExact(runs: seq<Run>, from: int, end: int, only: Option<string>)
    ensures var s := AggregateSpan(runs, from, end, only);
            && s.completed == |WithStatus(runs, from, end, only, Completed)|
            && s.failed == |WithStatus(runs, from, end, only, Failed)|
            && s.active == |WithStatus(runs, from, end, only, Active)|
            && s.waiting == |WithStatus(runs, from, end, only, Waiting)|
            && s.completed + s.failed + s.active + s.waiting <= s.total
            && s.durationCount <= s.completed && s.pressureCount <= s.completed + s.failed
  {
    if runs != [] {
      CountsExact(runs[..|runs| - 1], from, end, only);
    }
  }

  // ---- The hourly refresh ----

  function RefreshedBucket(now: int): int {
    Trunc(HOUR, now - HOUR)
  }

  /** The groups of the INSERT ... SELECT: one per queue with a row created in the last complete hour. */
  function Groups(runs: seq<Run>, now: int): set<Bucket> {
    set r | r in runs && RefreshedBucket(now) <= r.createdAt < Trunc(HOUR, now) :: BucketOf(r)
  }

  function DeleteBucket(table: Table, start: int): Table {
    map b | b in table && b.start != start :: table[b]
  }

  function InsertGroups(table: Table, runs: seq<Run>, now: int): Table {
    table + map b | b in Groups(runs, now) :: AggregateIn(runs, {b})
  }

  function DeleteBefore(table: Table, before: int): Table {
    map b | b in table && b.start >= before :: table[b]
  }

  function Refresh(table: Table, runs: seq<Run>, now: int, deleteBefore: int): Table {
    DeleteBefore(InsertGroups(DeleteBucket(table, RefreshedBucket(now)), runs, now), deleteBefore)
  }

  /** The bucket at `start` holds, per queue with a row in that hour, exactly the aggregate of those rows. */
  ghost predicate Fresh(table: Table, runs: seq<Run>, start: int) {
    forall q :: FreshFor(table, runs, Bucket(start, q))
  }

  predicate FreshFor(table: Table, runs: seq<Run>, b: Bucket) {
    && (b in table <==> exists r :: r in runs && BucketOf(r) == b)
    && (b in table ==> table[b] == AggregateIn(runs, {b}))
  }

  lemma HourBefore(now: int)
    ensures Trunc(HOUR, now - HOUR) == Trunc(HOUR, now) - HOUR
  {
  }

  lemma InLastHour(at: int, now: int)
    ensures RefreshedBucket(now) <= at < Trunc(HOUR, now) <==> Trunc(HOUR, at) == RefreshedBucket(now)
  {
    HourBefore(now);
    AlignedBelow(HOUR, RefreshedBucket(now), at);
    AlignedBelow(HOUR, Trunc(HOUR, now), at);
    AlignedBelow(HOUR, Trunc(HOUR, now), Trunc(HOUR, at));
  }

  lemma GroupsExact(runs: seq<Run>, now: int, b: Bucket)
    ensures b in Groups(runs, now) <==> b.start == RefreshedBucket(now) && exists r :: r in runs && BucketOf(r) == b
  {
    hide Trunc, RefreshedBucket;
    forall r | r in runs
      ensures RefreshedBucket(now) <= r.createdAt < Trunc(HOUR, now) <==> BucketOf(r).start == RefreshedBucket(now)
    {
      InLastHour(r.createdAt, now);
    }
    if r :| r in runs && BucketOf(r) == b && b.start == RefreshedBucket(now) {
      assert RefreshedBucket(now) <= r.createdAt < Trunc(HOUR, now);
    }
  }

  /** A refresh recomputes the last complete hour, drops what is past retention and touches nothing else. */
  lemma RefreshExact(table: Table, runs: seq<Run>, now: int, deleteBefore: int)
    ensures var t := Refresh(table, runs, now, deleteBefore);
            && (deleteBefore <= RefreshedBucket(now) ==> Fresh(t, runs, RefreshedBucket(now)))
            && (forall b :: b in t ==> b.start >= deleteBefore)
            && (forall b: Bucket :: b.start != RefreshedBucket(now) && b.start >= deleteBefore ==>
                  (b in t <==> b in table) && (b in t ==> t[b] == table[b]))
  {
    hide Trunc, AggregateIn, Groups, RefreshedBucket;
    forall b: Bucket {
      GroupsExact(runs, now, b);
    }
  }

  /** Refreshing again from the same rows changes nothing, even when an insert found its rows already there. */
  lemma RefreshTwice(table: Table, runs: seq<Run>, now: int, deleteBefore: int)
    ensures Refresh(Refresh(table, runs, now, deleteBefore), runs, now, deleteBefore) ==
        Refresh(table, runs, now, deleteBefore)
  {
    hide Trunc, AggregateIn, RefreshedBucket, Groups;
    forall b: Bucket {
      GroupsExact(runs, now, b);
    }
    var once := Refresh(table, runs, now, deleteBefore);
    var twice := Refresh(once, runs, now, deleteBefore);
    assert forall b :: b in once <==> b in twice;
    assert forall b :: b in once ==> once[b] == twice[b];
  }

  class RollupTable {
    var rows: Table

    constructor ()
      ensures rows == map[]
    {
      rows := map[];
    }

    /** One transaction: delete the hour, insert it again, delete what is past retention. */
    method RefreshLastCompletedHour(runs: seq<Run>, now: int, deleteBefore: int)
      modifies this
      ensures rows == Refresh(old(rows), runs, now, deleteBefore)
    {
      var start := RefreshedBucket(now);
      rows := DeleteBucket(rows, start);
      rows := InsertGroups(rows, runs, now);
      rows := DeleteBefore(rows, deleteBefore);
    }
  }

  // ---- The dashboard sums ----

  datatype Rollup = Rollup(bucket: Bucket, stats: Stats)

  /** The table's rows in some order. */
  ghost predicate Lists(rows: seq<Rollup>, table: Table) {
    && (forall i, j :: 0 <= i < j < |rows| ==> rows[i].bucket != rows[j].bucket)
    && (forall i :: 0 <= i < |rows| ==> rows[i].bucket in table && table[rows[i].bucket] == rows[i].stats)
    && forall b :: b in table ==> Has(rows, b)
  }

  predicate Has(rows: seq<Rollup>, b: Bucket) {
    exists i :: 0 <= i < |rows| && rows[i].bucket == b
  }

  predicate InWindow(b: Bucket, from: int, to: int, only: Option<string>) {
    from <= b.start <= to && Chosen(b.queue, only)
  }

  /** SUM, MIN and MAX over the rollup rows of a window. */
  function WindowStats(rows: seq<Rollup>, from: int, to: int, only: Option<string>): Stats {
    if rows == [] then NO_RUNS
    else
      var rest := WindowStats(rows[..|rows| - 1], from, to, only);
      if InWindow(rows[|rows| - 1].bucket, from, to, only) then Merge(rest, rows[|rows| - 1].stats) else rest
  }

  function WindowBuckets(rows: seq<Rollup>, from: int, to: int, only: Option<string>): (buckets: set<Bucket>)
    ensures forall b :: b in buckets <==> InWindow(b, from, to, only) && Has(rows, b)
  {
    set i | 0 <= i < |rows| && InWindow(rows[i].bucket, from, to, only) :: rows[i].bucket
  }

  lemma {:induction false} AggregateNone(runs: seq<Run>)
    ensures AggregateIn(runs, {}) == NO_RUNS
  {
    if runs != [] {
      AggregateNone(runs[..|runs| - 1]);
    }
  }

  lemma {:induction false} WindowIsBuckets(
    rows: seq<Rollup>, runs: seq<Run>, from: int, to: int, only: Option<string>)
    requires forall i, j :: 0 <= i < j < |rows| ==> rows[i].bucket != rows[j].bucket
    requires forall i :: 0 <= i < |rows| && InWindow(rows[i].bucket, from, to, only) ==>
               rows[i].stats == AggregateIn(runs, {rows[i].bucket})
    ensures WindowStats(rows, from, to, only) == AggregateIn(runs, WindowBuckets(rows, from, to, only))
  {
    hide Merge, AggregateIn, InWindow, Has;
    if rows == [] {
      assert WindowBuckets(rows, from, to, only) == {};
      AggregateNone(runs);
    } else {
      var init, b := rows[..|rows| - 1], rows[|rows| - 1].bucket;
      WindowIsBuckets(init, runs, from, to, only);
      var before := WindowBuckets(init, from, to, only);
      LastBucket(rows, from, to, only);
      if InWindow(b, from, to, only) {
        AggregateSplits(runs, before, {b});
      } else {
        assert before + {} == before;
      }
    }
  }

  lemma LastBucket(rows: seq<Rollup>, from: int, to: int, only: Option<string>)
    requires rows != [] && forall i, j :: 0 <= i < j < |rows| ==> rows[i].bucket != rows[j].bucket
    ensures var init, b := rows[..|rows| - 1], rows[|rows| - 1].bucket;
            && b !in WindowBuckets(init, from, to, only)
            && WindowBuckets(rows, from, to, only)
               == WindowBuckets(init, from, to, only) + if InWindow(b, from, to, only) then {b} else {}
  {
    hide InWindow;
    var init, b := rows[..|rows| - 1], rows[|rows| - 1].bucket;
    forall c
      ensures Has(rows, c) <==> Has(init, c) || c == b
    {
      if Has(init, c) {
        var i :| 0 <= i < |init| && init[i].bucket == c;
        assert rows[i].bucket == c;
      }
      assert rows[|rows| - 1].bucket == b;
      if Has(rows, c) && c != b {
        var i :| 0 <= i < |rows| && rows[i].bucket == c;
        assert init[i].bucket == c;
      }
    }
  }

  /** The buckets before `end` hold what their hours' rows aggregate to now, and nothing is stored from `end` on. */
  ghost predicate FreshUntil(table: Table, runs: seq<Run>, from: int, to: int, end: int) {
    && (forall b: Bucket :: from <= b.start < end ==> FreshFor(table, runs, b))
    && (forall b :: b in table && end <= b.start ==> to < b.start)
  }

  /** With the hours of an aligned window fresh up to `end`, the dashboard's sums, minima and maxima over rollups are
      those of the raw rows up to `end`: for one queue or all, in whatever order rows are summed. A queue is listed
      exactly when it has such a row. */
  lemma RollupsAgree(
    table: Table, rows: seq<Rollup>, runs: seq<Run>, from: int, to: int, end: int, only: Option<string>)
    requires from % HOUR == 0 && end % HOUR == 0 && end <= Trunc(HOUR, to) + HOUR
    requires Lists(rows, table) && FreshUntil(table, runs, from, to, end)
    ensures WindowStats(rows, from, to, only) == AggregateSpan(runs, from, end, only)
    ensures (exists b :: b in table && InWindow(b, from, to, only))
            <==> exists r :: r in runs && from <= r.createdAt < end && Chosen(r.queue, only)
  {
    hide WindowStats, AggregateIn, AggregateSpan, Trunc, Has;
    forall r | r in runs
      ensures from <= BucketOf(r).start < end <==> from <= r.createdAt < end
      ensures from <= BucketOf(r).start < end ==> BucketOf(r) in table && BucketOf(r).start <= to
    {
      HoursOfSpan(r.createdAt, from, end);
      if from <= BucketOf(r).start < end {
        assert FreshFor(table, runs, BucketOf(r));
        EarlierHour(BucketOf(r).start, to, end);
      }
    }
    var buckets := WindowBuckets(rows, from, to, only);
    WindowIsBuckets(rows, runs, from, to, only);
    SpanIsBuckets(runs, from, end, only, buckets);
    if b :| b in table && InWindow(b, from, to, only) {
      assert FreshFor(table, runs, b);
      var r :| r in runs && BucketOf(r) == b;
      assert from <= r.createdAt < end;
    }
    if r :| r in runs && from <= r.createdAt < end && Chosen(r.queue, only) {
      assert BucketOf(r) in table && InWindow(BucketOf(r), from, to, only);
    }
  }

  lemma EarlierHour(start: int, to: int, end: int)
    requires start % HOUR == 0 && end % HOUR == 0 && start < end <= Trunc(HOUR, to) + HOUR
    ensures start <= to
  {
    AlignedGap(HOUR, start, end);
  }
}
