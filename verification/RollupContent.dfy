/** What a rollup row holds, said of the rows of job_runs alone. */
module RollupContent {
  import opened Arithmetic
  import opened Common
  import opened JobRuns
  import opened Rollups

  function SumOf(values: seq<int>): int {
    if values == [] then 0 else SumOf(values[..|values| - 1]) + values[|values| - 1]
  }

  /** The run was created in the span, in the queue if one is named. */
  predicate Counts(r: Run, from: int, end: int, only: Option<string>) {
    from <= r.createdAt < end && (only == None || only == Some(r.queue))
  }

  function CountedRuns(runs: seq<Run>, from: int, end: int, only: Option<string>): seq<Run> {
    if runs == [] then []
    else
      var r := runs[|runs| - 1];
      CountedRuns(runs[..|runs| - 1], from, end, only) + if Counts(r, from, end, only) then [r] else []
  }

  /** The durations of completed runs. */
  function Durations(runs: seq<Run>): seq<int> {
    if runs == [] then []
    else
      var r := runs[|runs| - 1];
      Durations(runs[..|runs| - 1])
      + if r.status == Completed && r.durationMs.Some? then [r.durationMs.value] else []
  }

  /** How long finished runs waited from being enqueued to being started. */
  function Delays(runs: seq<Run>): seq<int> {
    if runs == [] then []
    else
      var r := runs[|runs| - 1];
      Delays(runs[..|runs| - 1])
      + if r.status in {Completed, Failed} && r.enqueuedAt.Some? && r.startedAt.Some?
        then [r.startedAt.value - r.enqueuedAt.value] else []
  }

  function StatusCount(runs: seq<Run>, status: Status): nat {
    if runs == [] then 0
    else StatusCount(runs[..|runs| - 1], status) + if runs[|runs| - 1].status == status then 1 else 0
  }

  predicate Sums(s: Stats, runs: seq<Run>) {
    && s.total == |runs|
    && s.completed == StatusCount(runs, Completed) && s.failed == StatusCount(runs, Failed)
    && s.active == StatusCount(runs, Active) && s.waiting == StatusCount(runs, Waiting)
    && s.durationTotal == SumOf(Durations(runs)) && s.durationCount == |Durations(runs)|
    && s.pressureTotal == SumOf(Delays(runs)) && s.pressureCount == |Delays(runs)|
  }

  /** Counts and totals of a span are those of its runs. */
  lemma {:induction false} SpanSums(runs: seq<Run>, from: int, end: int, only: Option<string>)
    ensures Sums(AggregateSpan(runs, from, end, only), CountedRuns(runs, from, end, only))
  {
    hide *;
    if runs == [] {
      NothingSums(from, end, only);
    } else {
      var init, r := runs[..|runs| - 1], runs[|runs| - 1];
      SpanSums(init, from, end, only);
      SpanStep(runs, from, end, only);
      OneMoreSums(AggregateSpan(init, from, end, only), CountedRuns(init, from, end, only), r);
    }
  }

  lemma SpanStep(runs: seq<Run>, from: int, end: int, only: Option<string>)
    requires runs != []
    ensures var init, r := runs[..|runs| - 1], runs[|runs| - 1];
            if Counts(r, from, end, only)
            then AggregateSpan(runs, from, end, only) == Merge(AggregateSpan(init, from, end, only), Single(r))
                 && CountedRuns(runs, from, end, only) == CountedRuns(init, from, end, only) + [r]
            else AggregateSpan(runs, from, end, only) == AggregateSpan(init, from, end, only)
                 && CountedRuns(runs, from, end, only) == CountedRuns(init, from, end, only)
  {
    hide Merge, Single, Sums, Counts;
    CountsExactly(runs[|runs| - 1], from, end, only);
    hide Chosen;
  }

  lemma CountsExactly(r: Run, from: int, end: int, only: Option<string>)
    ensures Counts(r, from, end, only) <==> from <= r.createdAt < end && Chosen(r.queue, only)
  {
  }

  lemma NothingSums(from: int, end: int, only: Option<string>)
    ensures Sums(AggregateSpan([], from, end, only), CountedRuns([], from, end, only))
  {
  }

  lemma OneMoreSums(s: Stats, runs: seq<Run>, r: Run)
    requires Sums(s, runs)
    ensures Sums(Merge(s, Single(r)), runs + [r])
  {
    MoreDurations(runs, r);
    MoreDelays(runs, r);
    MoreCounted(runs, r, Completed);
    MoreCounted(runs, r, Failed);
    MoreCounted(runs, r, Active);
    MoreCounted(runs, r, Waiting);
    hide SumOf, Durations, Delays, StatusCount;
  }

  lemma MoreCounted(runs: seq<Run>, r: Run, status: Status)
    ensures StatusCount(runs + [r], status) == StatusCount(runs, status) + if r.status == status then 1 else 0
  {
    assert (runs + [r])[..|runs|] == runs;
  }

  lemma MoreDurations(runs: seq<Run>, r: Run)
    ensures var more, was := Durations(runs + [r]), Durations(runs);
            if r.status == Completed && r.durationMs.Some?
            then |more| == |was| + 1 && SumOf(more) == SumOf(was) + r.durationMs.value
            else more == was
  {
    assert (runs + [r])[..|runs|] == runs;
    if r.durationMs.Some? { SumSnoc(Durations(runs), r.durationMs.value); }
    assert Durations(runs) + [] == Durations(runs);
    hide SumOf;
  }

  lemma MoreDelays(runs: seq<Run>, r: Run)
    ensures var more, was := Delays(runs + [r]), Delays(runs);
            if (r.status == Completed || r.status == Failed) && r.enqueuedAt.Some? && r.startedAt.Some?
            then |more| == |was| + 1 && SumOf(more) == SumOf(was) + r.startedAt.value - r.enqueuedAt.value
            else more == was
  {
    assert (runs + [r])[..|runs|] == runs;
    if r.enqueuedAt.Some? && r.startedAt.Some? { SumSnoc(Delays(runs), r.startedAt.value - r.enqueuedAt.value); }
    assert Delays(runs) + [] == Delays(runs);
    hide SumOf;
  }

  lemma SumSnoc(values: seq<int>, v: int)
    ensures SumOf(values + [v]) == SumOf(values) + v
  {
    assert (values + [v])[..|values|] == values;
  }

  lemma {:induction false} HourIsSpan(runs: seq<Run>, start: int, queue: string)
    requires start % 3_600_000 == 0
    ensures AggregateIn(runs, {Bucket(start, queue)}) == AggregateSpan(runs, start, start + 3_600_000, Some(queue))
  {
    if runs != [] {
      HourIsSpan(runs[..|runs| - 1], start, queue);
      InHour(runs[|runs| - 1].createdAt, start);
      hide Merge, Single, Trunc;
    }
  }

  lemma InHour(at: int, start: int)
    requires start % 3_600_000 == 0
    ensures Trunc(HOUR, at) == start <==> start <= at < start + 3_600_000
  {
    AlignedBelow(HOUR, start, at);
    AlignedBelow(HOUR, start, Trunc(HOUR, at));
    assert (start + 3_600_000) % HOUR == 0;
    AlignedBelow(HOUR, start + 3_600_000, at);
  }

  lemma LastHour(start: int, now: int)
    requires start % 3_600_000 == 0 && start + 3_600_000 <= now < start + 7_200_000
    ensures RefreshedBucket(now) == start
  {
    HourBefore(now);
    InHour(now - HOUR, start);
  }

  /** A refresh during the hour after `start` leaves, for each queue, a row with the sums of the runs created in the
      hour from `start`, and none when there were none, unless that hour has passed retention. */
  lemma StoredHour(table: Table, runs: seq<Run>, start: int, now: int, deleteBefore: int, queue: string)
    requires start % 3_600_000 == 0 && start + 3_600_000 <= now < start + 7_200_000 && deleteBefore <= start
    ensures var after := Refresh(table, runs, now, deleteBefore);
            var counted := CountedRuns(runs, start, start + 3_600_000, Some(queue));
            && (Bucket(start, queue) in after <==> counted != [])
            && (counted != [] ==> Sums(after[Bucket(start, queue)], counted))
  {
    var after, b := Refresh(table, runs, now, deleteBefore), Bucket(start, queue);
    LastHour(start, now);
    RefreshExact(table, runs, now, deleteBefore);
    HourIsSpan(runs, start, queue);
    SpanSums(runs, start, start + 3_600_000, Some(queue));
    hide Refresh, RefreshedBucket, Sums;
    assert FreshFor(after, runs, b);
    hide AggregateIn, AggregateSpan;
    CountedMembers(runs, start, start + 3_600_000, Some(queue));
    forall r | r in runs
      ensures BucketOf(r) == b <==> Counts(r, start, start + 3_600_000, Some(queue))
    {
      InHour(r.createdAt, start);
    }
    var counted := CountedRuns(runs, start, start + 3_600_000, Some(queue));
    hide BucketOf, Counts, CountedRuns;
    assert counted != [] ==> counted[0] in counted;
  }

  lemma {:induction false} CountedMembers(runs: seq<Run>, from: int, end: int, only: Option<string>)
    ensures forall r :: r in CountedRuns(runs, from, end, only) <==> r in runs && Counts(r, from, end, only)
  {
    if runs != [] {
      var init, last := runs[..|runs| - 1], runs[|runs| - 1];
      hide Counts;
      CountedMembers(init, from, end, only);
      assert runs == init + [last];
    }
  }
}
