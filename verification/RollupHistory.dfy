/** The hourly refreshes over a changing job_runs table, and what the dashboard reads after them. */
module RollupHistory {
  import opened Arithmetic
  import opened Common
  import opened JobRuns
  import opened Rollups
  import opened RunGraph

  /** One refresh: the raw rows as they were, the database's clock, and the retention date. */
  datatype Tick = Tick(runs: seq<Run>, now: int, deleteBefore: int)

  function After(ticks: seq<Tick>): Table {
    if ticks == [] then map[]
    else
      var t := ticks[|ticks| - 1];
      Refresh(After(ticks[..|ticks| - 1]), t.runs, t.now, t.deleteBefore)
  }

  /** The aggregate of the bucket's rows at the last refresh of its hour; nothing if that hour was never refreshed, or
      has since passed retention. */
  function LastAggregate(ticks: seq<Tick>, b: Bucket): Stats {
    if ticks == [] then NO_RUNS
    else
      var t := ticks[|ticks| - 1];
      if b.start < t.deleteBefore then NO_RUNS
      else if b.start == RefreshedBucket(t.now) then AggregateIn(t.runs, {b})
      else LastAggregate(ticks[..|ticks| - 1], b)
  }

  // ---- What a bucket holds ----

  lemma {:induction false} TotalMeansPresent(runs: seq<Run>, b: Bucket)
    ensures AggregateIn(runs, {b}).total > 0 <==> exists r :: r in runs && BucketOf(r) == b
    ensures AggregateIn(runs, {b}).total == 0 ==> AggregateIn(runs, {b}) == NO_RUNS
  {
    if runs != [] {
      var init, last := runs[..|runs| - 1], runs[|runs| - 1];
      hide BucketOf;
      TotalMeansPresent(init, b);
      assert runs == init + [last];
      if r :| r in init && BucketOf(r) == b {
        assert r in runs;
      }
      assert last in runs;
    }
  }

  lemma RefreshOfBucket(table: Table, t: Tick, b: Bucket)
    ensures var after := Refresh(table, t.runs, t.now, t.deleteBefore);
            && (b.start < t.deleteBefore ==> b !in after)
            && (b.start >= t.deleteBefore && b.start == RefreshedBucket(t.now) ==> FreshFor(after, t.runs, b))
            && (b.start >= t.deleteBefore && b.start != RefreshedBucket(t.now) ==>
                  (b in after <==> b in table) && (b in after ==> after[b] == table[b]))
  {
    hide Refresh, FreshFor, RefreshedBucket;
    RefreshExact(table, t.runs, t.now, t.deleteBefore);
    assert Fresh(Refresh(table, t.runs, t.now, t.deleteBefore), t.runs, b.start) ==>
        FreshFor(Refresh(table, t.runs, t.now, t.deleteBefore), t.runs, Bucket(b.start, b.queue));
  }

  /** After any refreshes a bucket holds the aggregate of its last refresh, and is missing when that was empty. */
  lemma {:induction false} BucketHolds(ticks: seq<Tick>, b: Bucket)
    ensures b in After(ticks) <==> LastAggregate(ticks, b).total > 0
    ensures b in After(ticks) ==> After(ticks)[b] == LastAggregate(ticks, b)
    ensures LastAggregate(ticks, b).total == 0 ==> LastAggregate(ticks, b) == NO_RUNS
  {
    if ticks != [] {
      var init, t := ticks[..|ticks| - 1], ticks[|ticks| - 1];
      hide Refresh, RefreshedBucket, AggregateIn;
      BucketHolds(init, b);
      RefreshOfBucket(After(init), t, b);
      TotalMeansPresent(t.runs, b);
    }
  }

  /** Read at any later time, a bucket is fresh exactly when its rows aggregate to what they did at its last refresh. */
  lemma BucketFreshIff(ticks: seq<Tick>, runs: seq<Run>, b: Bucket)
    ensures FreshFor(After(ticks), runs, b) <==> AggregateIn(runs, {b}) == LastAggregate(ticks, b)
  {
    hide After, LastAggregate, AggregateIn;
    BucketHolds(ticks, b);
    TotalMeansPresent(runs, b);
  }

  /** No refresh up to now has stored the current hour. */
  lemma {:induction false} CurrentHourIsMissing(ticks: seq<Tick>, now: int, b: Bucket)
    requires forall t :: t in ticks ==> t.now <= now
    requires b in After(ticks)
    ensures b.start < Trunc(HOUR, now)
  {
    var init, t := ticks[..|ticks| - 1], ticks[|ticks| - 1];
    hide Refresh, RefreshedBucket;
    RefreshOfBucket(After(init), t, b);
    if b.start == RefreshedBucket(t.now) {
      assert t in ticks;
      LastHourIsEarlier(t.now, now);
    } else {
      forall u | u in init
        ensures u in ticks
      {
      }
      CurrentHourIsMissing(init, now, b);
    }
  }

  lemma LastHourIsEarlier(at: int, now: int)
    requires at <= now
    ensures RefreshedBucket(at) < Trunc(HOUR, now)
  {
    HourBefore(at);
    AlignedBelow(HOUR, Trunc(HOUR, at), now);
  }

  // ---- What the dashboard reads ----

  /** Every complete hour of the window aggregates to what it did at its last refresh. */
  ghost predicate SettledSinceRefresh(ticks: seq<Tick>, runs: seq<Run>, from: int, now: int) {
    forall b: Bucket :: from <= b.start < Trunc(HOUR, now) ==> AggregateIn(runs, {b}) == LastAggregate(ticks, b)
  }

  lemma SettledIsFresh(ticks: seq<Tick>, runs: seq<Run>, from: int, now: int)
    requires forall t :: t in ticks ==> t.now <= now
    ensures FreshUntil(After(ticks), runs, from, now, Trunc(HOUR, now)) <==> SettledSinceRefresh(ticks, runs, from, now)
  {
    hide After, LastAggregate, AggregateIn, Trunc, FreshFor;
    forall b: Bucket
      ensures FreshFor(After(ticks), runs, b) <==> AggregateIn(runs, {b}) == LastAggregate(ticks, b)
    {
      BucketFreshIff(ticks, runs, b);
    }
    forall b | b in After(ticks)
      ensures b.start < Trunc(HOUR, now)
    {
      CurrentHourIsMissing(ticks, now, b);
    }
  }

  lemma {:induction false} StoredIsAligned(ticks: seq<Tick>, b: Bucket)
    requires b in After(ticks)
    ensures b.start % HOUR == 0
  {
    var init, t := ticks[..|ticks| - 1], ticks[|ticks| - 1];
    RefreshOfBucket(After(init), t, b);
    if b.start != RefreshedBucket(t.now) {
      hide Refresh, RefreshedBucket;
      StoredIsAligned(init, b);
    }
  }

  /** The hours of the window before `kept` have passed retention at the last refresh. */
  predicate DroppedBefore(ticks: seq<Tick>, from: int, kept: int) {
    from <= kept && (kept == from || (ticks != [] && kept - HOUR < ticks[|ticks| - 1].deleteBefore))
  }

  lemma DroppedIsMissing(ticks: seq<Tick>, from: int, kept: int, b: Bucket)
    requires kept % HOUR == 0 && DroppedBefore(ticks, from, kept) && from <= b.start < kept
    ensures b !in After(ticks)
  {
    if b in After(ticks) {
      StoredIsAligned(ticks, b);
      hide After;
      AlignedGap(HOUR, b.start, kept);
      LastDelete(ticks, b);
    }
  }

  lemma LastDelete(ticks: seq<Tick>, b: Bucket)
    requires ticks != [] && b in After(ticks)
    ensures b.start >= ticks[|ticks| - 1].deleteBefore
  {
    RefreshOfBucket(After(ticks[..|ticks| - 1]), ticks[|ticks| - 1], b);
    hide Refresh, RefreshedBucket;
  }

  lemma {:induction false} WindowSkips(rows: seq<Rollup>, from: int, kept: int, to: int, only: Option<string>)
    requires from <= kept
    requires forall i :: 0 <= i < |rows| ==> !(from <= rows[i].bucket.start < kept)
    ensures WindowStats(rows, from, to, only) == WindowStats(rows, kept, to, only)
  {
    if rows != [] {
      WindowSkips(rows[..|rows| - 1], from, kept, to, only);
      hide Merge;
      assert !(from <= rows[|rows| - 1].bucket.start < kept);
    }
  }

  lemma WindowIsKept(
    ticks: seq<Tick>, rows: seq<Rollup>, from: int, kept: int, to: int, only: Option<string>)
    requires Lists(rows, After(ticks)) && kept % HOUR == 0 && DroppedBefore(ticks, from, kept)
    ensures WindowStats(rows, from, to, only) == WindowStats(rows, kept, to, only)
  {
    hide After, WindowStats, DroppedBefore;
    assert from <= kept by {
      DropsForward(ticks, from, kept);
    }
    forall i | 0 <= i < |rows|
      ensures !(from <= rows[i].bucket.start < kept)
    {
      if from <= rows[i].bucket.start < kept {
        DroppedIsMissing(ticks, from, kept, rows[i].bucket);
      }
    }
    WindowSkips(rows, from, kept, to, only);
  }

  lemma DropsForward(ticks: seq<Tick>, from: int, kept: int)
    requires DroppedBefore(ticks, from, kept)
    ensures from <= kept
  {
  }

  /** The dashboard's window ends now, inside an hour no refresh has stored, and may begin before what retention keeps.
      With the complete hours from `kept` on settled since their refresh, its sums, minima and maxima are those of the
      raw rows from `kept` up to the current hour: `kept` is the window's start when nothing has been dropped. */
  lemma DashboardAgrees(
    ticks: seq<Tick>, rows: seq<Rollup>, runs: seq<Run>, from: int, kept: int, now: int, only: Option<string>)
    requires kept % HOUR == 0 && DroppedBefore(ticks, from, kept)
    requires Lists(rows, After(ticks)) && forall t :: t in ticks ==> t.now <= now
    requires SettledSinceRefresh(ticks, runs, kept, now)
    ensures WindowStats(rows, from, now, only) == AggregateSpan(runs, kept, Trunc(HOUR, now), only)
  {
    hide After, Lists, SettledSinceRefresh, FreshUntil, DroppedBefore;
    WindowIsKept(ticks, rows, from, kept, now, only);
    SettledIsFresh(ticks, runs, kept, now);
    RollupsAgree(After(ticks), rows, runs, kept, now, Trunc(HOUR, now), only);
  }

  lemma {:induction false} SpanSplits(runs: seq<Run>, from: int, mid: int, end: int, only: Option<string>)
    requires from <= mid <= end
    ensures AggregateSpan(runs, from, end, only)
            == Merge(AggregateSpan(runs, from, mid, only), AggregateSpan(runs, mid, end, only))
  {
    hide Merge, Single;
    MergeLaws(NO_RUNS, NO_RUNS, NO_RUNS);
    if runs != [] {
      var init, one := runs[..|runs| - 1], Single(runs[|runs| - 1]);
      var early, late := AggregateSpan(init, from, mid, only), AggregateSpan(init, mid, end, only);
      SpanSplits(init, from, mid, end, only);
      MergeLaws(early, late, one);
      MergeLaws(early, one, late);
      MergeLaws(late, one, NO_RUNS);
    }
  }

  lemma {:induction false} SpanIsEmpty(runs: seq<Run>, from: int, end: int, only: Option<string>)
    ensures AggregateSpan(runs, from, end, only).total == 0
            <==> forall r :: r in runs && from <= r.createdAt < end ==> !Chosen(r.queue, only)
    ensures AggregateSpan(runs, from, end, only).total == 0 ==> AggregateSpan(runs, from, end, only) == NO_RUNS
  {
    if runs != [] {
      var init, last := runs[..|runs| - 1], runs[|runs| - 1];
      hide Chosen;
      SpanIsEmpty(init, from, end, only);
      assert runs == init + [last];
      assert last in runs;
      forall r | r in init ensures r in runs {}
    }
  }

  lemma MergeAbsorbs(a: Stats, b: Stats)
    requires a.total == 0 ==> a == NO_RUNS
    ensures Merge(a, b) == b <==> a.total == 0
  {
  }

  /** So the window agrees with all its raw rows up to the current hour exactly when none was created in the dropped
      hours. */
  lemma WholeWindowAgreesIff(
    ticks: seq<Tick>, rows: seq<Rollup>, runs: seq<Run>, from: int, kept: int, now: int, only: Option<string>)
    requires kept % HOUR == 0 && DroppedBefore(ticks, from, kept) && kept <= Trunc(HOUR, now)
    requires Lists(rows, After(ticks)) && forall t :: t in ticks ==> t.now <= now
    requires SettledSinceRefresh(ticks, runs, kept, now)
    ensures WindowStats(rows, from, now, only) == AggregateSpan(runs, from, Trunc(HOUR, now), only)
            <==> forall r :: r in runs && from <= r.createdAt < kept ==> !Chosen(r.queue, only)
  {
    DropsForward(ticks, from, kept);
    hide *;
    DashboardAgrees(ticks, rows, runs, from, kept, now, only);
    SpanSplits(runs, from, kept, Trunc(HOUR, now), only);
    SpanIsEmpty(runs, from, kept, only);
    MergeAbsorbs(AggregateSpan(runs, from, kept, only), AggregateSpan(runs, kept, Trunc(HOUR, now), only));
  }

  /** And its graph adds up to the raw rows created from `kept` up to the current hour. */
  lemma DashboardGraphAgrees(
    ticks: seq<Tick>, graph: seq<Point>, query: seq<Point>, rows: seq<Rollup>, runs: seq<Run>,
    from: int, kept: int, now: int, step: int)
    requires step == HOUR || step == DAY
    requires from % step == 0 && kept % HOUR == 0 && DroppedBefore(ticks, from, kept)
    requires Lists(rows, After(ticks)) && forall t :: t in ticks ==> t.now <= now
    requires SettledSinceRefresh(ticks, runs, kept, now)
    requires IsQueryResult(query, rows, from, now, step) && IsFilled(graph, query, from, now, step)
    ensures GraphTotal(graph) == |RunsWithin(runs, kept, Trunc(HOUR, now))|
  {
    assert step > 0;
    hide *;
    GraphKeepsTotal(graph, query, rows, from, now, step);
    DashboardAgrees(ticks, rows, runs, from, kept, now, None);
    CountsRuns(runs, kept, Trunc(HOUR, now));
  }

  // ---- What retention hides ----

  /** A raw row whose hour has passed the rollups' retention is in no bucket, though it is still in job_runs. */
  lemma RetentionHidesRun(ticks: seq<Tick>, runs: seq<Run>, r: Run)
    requires ticks != [] && r in runs && BucketOf(r).start < ticks[|ticks| - 1].deleteBefore
    ensures BucketOf(r) !in After(ticks) && !FreshFor(After(ticks), runs, BucketOf(r))
  {
    if BucketOf(r) in After(ticks) {
      LastDelete(ticks, BucketOf(r));
    }
    hide After, BucketOf;
  }

  /** The thirty-day view opens at midnight, thirty days of retention later in the day: from one o'clock on its first
      hour is always dropped. */
  lemma ThirtyDayViewIsCut(now: int)
    requires now % DAY >= HOUR
    ensures Trunc(DAY, now - 30 * DAY) + HOUR <= Trunc(HOUR, now) - 30 * DAY
  {
    var from := Trunc(DAY, now - 30 * DAY);
    assert (now - 30 * DAY) % DAY == now % DAY by {
      ModUnique(now - 30 * DAY, DAY, now / DAY - 30, now % DAY);
    }
    assert from + 30 * DAY + HOUR <= now;
    DaysAreHours(from);
    assert from == HOUR * (from / HOUR);
    MultipleIsAligned(HOUR, from / HOUR + 30 * 24 + 1);
    assert HOUR * (from / HOUR + 30 * 24 + 1) == from + 30 * DAY + HOUR;
    AlignedBelow(HOUR, from + 30 * DAY + HOUR, now);
  }

  /** So with thirty days of retention, refreshed in the current hour, a run created in the first hour of the thirty-day
      view is counted nowhere in it. */
  lemma ThirtyDayViewMissesRun(ticks: seq<Tick>, runs: seq<Run>, r: Run, now: int)
    requires now % DAY >= HOUR && r in runs && ticks != []
    requires var last := ticks[|ticks| - 1];
             Trunc(HOUR, now) <= last.now <= now && last.deleteBefore == last.now - 30 * DAY
    requires BucketOf(r).start == Trunc(DAY, now - 30 * DAY)
    ensures Trunc(DAY, now - 30 * DAY) <= r.createdAt <= now
    ensures BucketOf(r) !in After(ticks) && !FreshFor(After(ticks), runs, BucketOf(r))
  {
    ThirtyDayViewIsCut(now);
    RetentionHidesRun(ticks, runs, r);
    hide After;
  }

  // ---- Runs that change after their hour's refresh ----

  /** Once its hour is past, no further refresh touches a bucket that retention keeps. */
  lemma {:induction false} HourIsFrozen(ticks: seq<Tick>, more: seq<Tick>, b: Bucket)
    requires forall t :: t in more ==> RefreshedBucket(t.now) != b.start && t.deleteBefore <= b.start
    ensures LastAggregate(ticks + more, b) == LastAggregate(ticks, b)
    decreases |more|
  {
    hide RefreshedBucket, AggregateIn;
    if more == [] {
      assert ticks + more == ticks;
    } else {
      var init, last := more[..|more| - 1], more[|more| - 1];
      assert last in more && forall t :: t in init ==> t in more;
      HourIsFrozen(ticks, init, b);
      assert (ticks + more)[..|ticks| + |more| - 1] == ticks + init;
    }
  }

  lemma TwoHoursOn(start: int, now: int)
    requires start % HOUR == 0 && now >= start + 2 * HOUR
    ensures RefreshedBucket(now) != start
  {
    HourBefore(now);
  }

  lemma FirstRefresh(start: int)
    requires start % HOUR == 0
    ensures RefreshedBucket(start + HOUR) == start
  {
    AlignedBelow(HOUR, start, start);
  }

  lemma OneRun(r: Run)
    ensures AggregateIn([r], {BucketOf(r)}) == Single(r)
  {
    hide BucketOf, Merge, Single;
    MergeLaws(Single(r), NO_RUNS, NO_RUNS);
    assert [r][..0] == [];
    assert AggregateIn([], {BucketOf(r)}) == NO_RUNS;
  }

  /** A run created in an hour and finished after that hour's refresh stays active in the rollups for good: whatever
      refreshes follow, the bucket counts it as active and not as completed, and is not fresh. */
  lemma LateCompletionStaysActive(start: int, active: Run, completed: Run, deleteBefore: int, more: seq<Tick>)
    requires start % HOUR == 0 && deleteBefore <= start
    requires BucketOf(active) == BucketOf(completed) && BucketOf(active).start == start
    requires active.status.Active? && completed.status.Completed?
    requires forall t :: t in more ==> t.now >= start + 2 * HOUR && t.deleteBefore <= start
    ensures var table := After([Tick([active], start + HOUR, deleteBefore)] + more);
            var b := BucketOf(active);
            && b in table && table[b].active == 1 && table[b].completed == 0
            && AggregateIn([completed], {b}).completed == 1 && !FreshFor(table, [completed], b)
  {
    var first := [Tick([active], start + HOUR, deleteBefore)];
    var b := BucketOf(active);
    hide BucketOf, Merge, AggregateIn;
    OneRun(active);
    OneRun(completed);
    FirstRefresh(start);
    forall t | t in more
      ensures RefreshedBucket(t.now) != b.start
    {
      TwoHoursOn(start, t.now);
    }
    HourIsFrozen(first, more, b);
    assert first[..0] == [];
    assert LastAggregate(first, b) == Single(active);
    hide LastAggregate, After, FreshFor, RefreshedBucket;
    BucketHolds(first + more, b);
    BucketFreshIff(first + more, [completed], b);
  }
}
