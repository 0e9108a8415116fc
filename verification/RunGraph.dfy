/** The dashboard's run graph: one point per hour or day of the window, missing ones filled with zero. */
module RunGraph {
  import opened Arithmetic
  import opened Common
  import opened Rollups

  datatype Point = Point(timestamp: int, runCount: nat)

  const DAY: int := 24 * HOUR

  // ---- The rows of the query ----

  predicate InSlot(b: Bucket, from: int, to: int, step: int, slot: int)
    requires step > 0
  {
    InWindow(b, from, to, None) && Trunc(step, b.start) == slot
  }

  /** SUM(total_runs) of one group of the query. */
  function SlotTotal(rows: seq<Rollup>, from: int, to: int, step: int, slot: int): nat
    requires step > 0
  {
    if rows == [] then 0
    else
      var last := rows[|rows| - 1];
      SlotTotal(rows[..|rows| - 1], from, to, step, slot)
      + if InSlot(last.bucket, from, to, step, slot) then last.stats.total else 0
  }

  /** One row per group that has a rollup row, with its sum. */
  ghost predicate IsQueryResult(graph: seq<Point>, rows: seq<Rollup>, from: int, to: int, step: int)
    requires step > 0
  {
    && (forall i, j :: 0 <= i < j < |graph| ==> graph[i].timestamp != graph[j].timestamp)
    && (forall i :: 0 <= i < |graph| ==> graph[i].runCount == SlotTotal(rows, from, to, step, graph[i].timestamp))
    && forall k :: 0 <= k < |rows| && InWindow(rows[k].bucket, from, to, None) ==>
        HasPoint(graph, Trunc(step, rows[k].bucket.start))
  }

  predicate HasPoint(graph: seq<Point>, timestamp: int) {
    exists i :: 0 <= i < |graph| && graph[i].timestamp == timestamp
  }

  // ---- Filling ----

  /** How many steps from `from` do not pass `to`. */
  function PointCount(from: int, to: int, step: int): nat
    requires step > 0
  {
    if to < from then 0 else (to - from) / step + 1
  }

  function Lookup(graphMap: map<int, Point>, timestamp: int): Point {
    if timestamp in graphMap then graphMap[timestamp] else Point(timestamp, 0)
  }

  /** One point per step, in order and without a gap, each the row of its timestamp or zero. */
  ghost predicate IsFilled(graph: seq<Point>, query: seq<Point>, from: int, to: int, step: int)
    requires step > 0
  {
    && |graph| == PointCount(from, to, step)
    && forall i :: 0 <= i < |graph| ==> graph[i] == Lookup(MapOf(query), from + i * step)
  }

  /** The n-th step is within the window exactly when n is below the count. */
  lemma StepsWithin(from: int, to: int, step: int, n: nat)
    requires step > 0
    ensures n < PointCount(from, to, step) <==> from + n * step <= to
  {
    assert n * step == step * n;
    PositiveMultiple(step, n);
    if from <= to {
      var q := (to - from) / step;
      assert to - from == step * q + (to - from) % step;
      assert step * (n - q) == step * n - step * q && step * (q - n) == step * q - step * n;
      PositiveMultiple(step, n - q);
      PositiveMultiple(step, q - n);
    }
  }

  /** The loop of the filler, from an aligned start. */
  method FillRunGraph(rows: seq<Point>, from: int, to: int, step: int) returns (graph: seq<Point>)
    requires step > 0 && from % step == 0
    ensures IsFilled(graph, rows, from, to, step)
  {
    var graphMap := MapOf(rows);
    hide MapOf, Lookup, PointCount;
    graph := [];
    var d := from;
    StepsWithin(from, to, step, 0);
    while d <= to
      invariant d == from + |graph| * step && d % step == 0
      invariant d <= to <==> |graph| < PointCount(from, to, step)
      invariant |graph| <= PointCount(from, to, step)
      invariant forall i :: 0 <= i < |graph| ==> graph[i] == Lookup(graphMap, from + i * step)
      decreases PointCount(from, to, step) - |graph|
    {
      TruncOfAligned(step, d);
      NextAligned(step, d);
      NextPlace(from, step, |graph|);
      StepsWithin(from, to, step, |graph| + 1);
      graph := graph + [Lookup(graphMap, Trunc(step, d))];
      d := d + step;
    }
  }

  function MapOf(rows: seq<Point>): map<int, Point> {
    if rows == [] then map[] else MapOf(rows[..|rows| - 1])[rows[|rows| - 1].timestamp := rows[|rows| - 1]]
  }

  lemma NextPlace(from: int, step: int, n: nat)
    ensures from + (n + 1) * step == from + n * step + step
  {
  }

  lemma TruncOfAligned(step: int, d: int)
    requires step > 0 && d % step == 0
    ensures Trunc(step, d) == d
  {
    AlignedBelow(step, d, d);
  }

  lemma NextAligned(step: int, d: int)
    requires step > 0 && d % step == 0
    ensures (d + step) % step == 0
  {
    assert d + step == step * (d / step + 1);
    MultipleIsAligned(step, d / step + 1);
  }

  // ---- Conservation ----

  lemma {:induction false} MapOfUnique(rows: seq<Point>, timestamp: int)
    requires forall i, j :: 0 <= i < j < |rows| ==> rows[i].timestamp != rows[j].timestamp
    ensures timestamp in MapOf(rows) <==> HasPoint(rows, timestamp)
    ensures timestamp in MapOf(rows) ==> MapOf(rows)[timestamp] in rows && MapOf(rows)[timestamp].timestamp == timestamp
  {
    if rows != [] {
      var init, last := rows[..|rows| - 1], rows[|rows| - 1];
      MapOfUnique(init, timestamp);
      if HasPoint(init, timestamp) {
        var i :| 0 <= i < |init| && init[i].timestamp == timestamp;
        assert rows[i].timestamp == timestamp;
      }
      assert rows[|rows| - 1] == last;
      if HasPoint(rows, timestamp) && last.timestamp != timestamp {
        var i :| 0 <= i < |rows| && rows[i].timestamp == timestamp;
        assert init[i].timestamp == timestamp;
      }
    }
  }

  function GraphTotal(graph: seq<Point>): nat {
    if graph == [] then 0 else GraphTotal(graph[..|graph| - 1]) + graph[|graph| - 1].runCount
  }

  /** The total of the first n slots. */
  function SlotsTotal(rows: seq<Rollup>, from: int, to: int, step: int, n: nat): nat
    requires step > 0
  {
    if n == 0 then 0
    else SlotsTotal(rows, from, to, step, n - 1) + SlotTotal(rows, from, to, step, from + (n - 1) * step)
  }

  lemma {:induction false} NoRowsNoTotal(from: int, to: int, step: int, n: nat)
    requires step > 0
    ensures SlotsTotal([], from, to, step, n) == 0
  {
    if n > 0 {
      NoRowsNoTotal(from, to, step, n - 1);
    }
  }

  /** One more rollup row adds its runs to the slots' total exactly when its slot is among them. */
  lemma {:induction false} OneRowOneSlot(
      rows: seq<Rollup>, last: Rollup, from: int, to: int, step: int, n: nat, at: nat)
    requires step > 0
    requires InWindow(last.bucket, from, to, None) ==> Trunc(step, last.bucket.start) == from + at * step
    ensures SlotsTotal(rows + [last], from, to, step, n)
            == SlotsTotal(rows, from, to, step, n)
               + if InWindow(last.bucket, from, to, None) && at < n then last.stats.total else 0
    decreases n
  {
    if n > 0 {
      OneRowOneSlot(rows, last, from, to, step, n - 1, at);
      assert (rows + [last])[..|rows|] == rows;
      SameSlot(from, step, at, n - 1);
    }
  }

  lemma SameSlot(from: int, step: int, a: nat, b: nat)
    requires step > 0
    ensures from + a * step == from + b * step <==> a == b
  {
    assert step * (a - b) == a * step - b * step && step * (b - a) == b * step - a * step;
    PositiveMultiple(step, a - b);
    PositiveMultiple(step, b - a);
  }

  /** The slot of a row of the window is one of the steps. */
  lemma SlotOf(from: int, to: int, step: int, at: int) returns (n: nat)
    requires step > 0 && from % step == 0 && from <= at <= to
    ensures Trunc(step, at) == from + n * step && n < PointCount(from, to, step)
  {
    AlignedBelow(step, from, at);
    var slot := Trunc(step, at);
    assert slot == step * (slot / step) && from == step * (from / step);
    var d := slot / step - from / step;
    assert slot - from == step * d && from - slot == step * -d;
    PositiveMultiple(step, -d);
    n := d;
    assert n * step == step * n;
    StepsWithin(from, to, step, n);
  }

  lemma {:induction false} SlotsHoldEverything(rows: seq<Rollup>, from: int, to: int, step: int)
    requires step > 0 && from % step == 0
    ensures SlotsTotal(rows, from, to, step, PointCount(from, to, step)) == WindowStats(rows, from, to, None).total
  {
    var n := PointCount(from, to, step);
    if rows == [] {
      NoRowsNoTotal(from, to, step, n);
    } else {
      var init, last := rows[..|rows| - 1], rows[|rows| - 1];
      SlotsHoldEverything(init, from, to, step);
      var at := 0;
      if InWindow(last.bucket, from, to, None) {
        at := SlotOf(from, to, step, last.bucket.start);
      }
      OneRowOneSlot(init, last, from, to, step, n, at);
      assert rows == init + [last];
    }
  }

  /** A slot without rows sums to zero. */
  lemma {:induction false} EmptySlot(rows: seq<Rollup>, from: int, to: int, step: int, slot: int)
    requires step > 0
    requires forall k :: 0 <= k < |rows| && InWindow(rows[k].bucket, from, to, None) ==>
        Trunc(step, rows[k].bucket.start) != slot
    ensures SlotTotal(rows, from, to, step, slot) == 0
  {
    if rows != [] {
      assert InWindow(rows[|rows| - 1].bucket, from, to, None) ==> Trunc(step, rows[|rows| - 1].bucket.start) != slot;
      EmptySlot(rows[..|rows| - 1], from, to, step, slot);
    }
  }

  /** Each filled point is the query's sum of its slot. */
  lemma PointIsSlot(query: seq<Point>, rows: seq<Rollup>, from: int, to: int, step: int, timestamp: int)
    requires step > 0 && IsQueryResult(query, rows, from, to, step)
    ensures Lookup(MapOf(query), timestamp) == Point(timestamp, SlotTotal(rows, from, to, step, timestamp))
  {
    MapOfUnique(query, timestamp);
    if timestamp !in MapOf(query) {
      EmptySlot(rows, from, to, step, timestamp);
    }
  }

  lemma {:induction false} PrefixTotal(
      graph: seq<Point>, query: seq<Point>, rows: seq<Rollup>, from: int, to: int, step: int, n: nat)
    requires step > 0 && n <= |graph|
    requires IsQueryResult(query, rows, from, to, step) && IsFilled(graph, query, from, to, step)
    ensures GraphTotal(graph[..n]) == SlotsTotal(rows, from, to, step, n)
    decreases n
  {
    if n > 0 {
      PrefixTotal(graph, query, rows, from, to, step, n - 1);
      assert graph[..n][..n - 1] == graph[..n - 1];
      PointIsSlot(query, rows, from, to, step, from + (n - 1) * step);
      assert graph[n - 1] == Lookup(MapOf(query), from + (n - 1) * step);
    }
  }

  /** Filling loses and invents no run: the graph has one point per step, at the step's time, and its counts add up to
      the runs of the window. */
  lemma GraphKeepsTotal(graph: seq<Point>, query: seq<Point>, rows: seq<Rollup>, from: int, to: int, step: int)
    requires step > 0 && from % step == 0
    requires IsQueryResult(query, rows, from, to, step) && IsFilled(graph, query, from, to, step)
    ensures forall i :: 0 <= i < |graph| ==> graph[i].timestamp == from + i * step <= to
    ensures to < from + |graph| * step
    ensures GraphTotal(graph) == WindowStats(rows, from, to, None).total
  {
    PrefixTotal(graph, query, rows, from, to, step, |graph|);
    assert graph[..|graph|] == graph;
    SlotsHoldEverything(rows, from, to, step);
    forall i: nat | i < |graph|
      ensures graph[i].timestamp == from + i * step <= to
    {
      PointIsSlot(query, rows, from, to, step, from + i * step);
      StepsWithin(from, to, step, i);
    }
    StepsWithin(from, to, step, |graph|);
  }

  lemma DaysAreHours(from: int)
    requires from % DAY == 0
    ensures from % HOUR == 0
  {
    var q := from / DAY;
    assert from == DAY * q == HOUR * (24 * q);
    MultipleIsAligned(HOUR, 24 * q);
  }

  /** End to end: with the buckets fresh up to `end`, the hourly or daily graph adds up to the number of raw rows
      created in the window before `end`. */
  lemma GraphCountsRawRuns(
    graph: seq<Point>, query: seq<Point>, rows: seq<Rollup>, table: Table, runs: seq<Run>,
    from: int, to: int, end: int, step: int)
    requires step == HOUR || step == DAY
    requires from % step == 0 && end % HOUR == 0 && end <= Trunc(HOUR, to) + HOUR
    requires Lists(rows, table) && FreshUntil(table, runs, from, to, end)
    requires IsQueryResult(query, rows, from, to, step) && IsFilled(graph, query, from, to, step)
    ensures GraphTotal(graph) == |RunsWithin(runs, from, end)|
  {
    assert step > 0;
    hide *;
    GraphKeepsTotal(graph, query, rows, from, to, step);
    if step == DAY {
      DaysAreHours(from);
    }
    RollupsAgree(table, rows, runs, from, to, end, None);
    CountsRuns(runs, from, end);
  }

  function RunsWithin(runs: seq<Run>, from: int, end: int): seq<Run> {
    if runs == [] then []
    else RunsWithin(runs[..|runs| - 1], from, end)
         + if from <= runs[|runs| - 1].createdAt < end then [runs[|runs| - 1]] else []
  }

  lemma {:induction false} CountsRuns(runs: seq<Run>, from: int, end: int)
    ensures AggregateSpan(runs, from, end, None).total == |RunsWithin(runs, from, end)|
  {
    if runs != [] {
      CountsRuns(runs[..|runs| - 1], from, end);
    }
  }
}
