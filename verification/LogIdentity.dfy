/** The (timestamp, sequence) pairs one process gives its logs, and why conflicting inserts are redeliveries. */
module LogIdentity {
  import opened Common
  import opened LogBuffer

  datatype Clock = Clock(lastTs: int, counter: nat)

  datatype Stamp = Stamp(ts: int, logSeq: nat)

  function Tick(c: Clock, now: int): Clock {
    if now == c.lastTs then Clock(now, c.counter + 1) else Clock(now, 0)
  }

  /** The stamps for a list of clock readings. */
  function Stamps(c: Clock, readings: seq<int>): (stamps: seq<Stamp>)
    ensures |stamps| == |readings|
    decreases |readings|
  {
    if readings == [] then []
    else
      var next := Tick(c, readings[0]);
      [Stamp(next.lastTs, next.counter)] + Stamps(next, readings[1..])
  }

  predicate Before(a: Stamp, b: Stamp) {
    a.ts < b.ts || (a.ts == b.ts && a.logSeq < b.logSeq)
  }

  ghost predicate Increasing(stamps: seq<Stamp>) {
    forall i, j :: 0 <= i < j < |stamps| ==> Before(stamps[i], stamps[j])
  }

  predicate NonDecreasing(readings: seq<int>) {
    forall i, j :: 0 <= i < j < |readings| ==> readings[i] <= readings[j]
  }

  lemma {:induction false} StampsAbove(c: Clock, readings: seq<int>)
    requires forall i :: 0 <= i < |readings| ==> c.lastTs <= readings[i]
    requires NonDecreasing(readings)
    ensures forall i :: 0 <= i < |readings| ==> Before(Stamp(c.lastTs, c.counter), Stamps(c, readings)[i])
    ensures Increasing(Stamps(c, readings))
    decreases |readings|
  {
    if readings != [] {
      var next := Tick(c, readings[0]);
      var rest := Stamps(next, readings[1..]);
      StampsAbove(next, readings[1..]);
      forall i | 0 <= i < |readings|
        ensures Before(Stamp(c.lastTs, c.counter), Stamps(c, readings)[i])
      {
        if i > 0 {
          assert Before(Stamp(next.lastTs, next.counter), rest[i - 1]);
        }
      }
    }
  }

  lemma {:induction false} StampsCarryReadings(c: Clock, readings: seq<int>)
    ensures forall i :: 0 <= i < |readings| ==> Stamps(c, readings)[i].ts == readings[i]
    decreases |readings|
  {
    if readings != [] {
      StampsCarryReadings(Tick(c, readings[0]), readings[1..]);
    }
  }

  /** A process's stamps are strictly increasing exactly when its clock never goes back. The clock starts below every
      reading. */
  lemma IncreasingIff(c: Clock, readings: seq<int>)
    requires forall i :: 0 <= i < |readings| ==> c.lastTs <= readings[i]
    ensures Increasing(Stamps(c, readings)) <==> NonDecreasing(readings)
  {
    StampsCarryReadings(c, readings);
    if NonDecreasing(readings) {
      StampsAbove(c, readings);
    }
    hide Stamps;
    var stamps := Stamps(c, readings);
    if Increasing(stamps) {
      forall i, j | 0 <= i < j < |readings|
        ensures readings[i] <= readings[j]
      {
        assert Before(stamps[i], stamps[j]);
      }
    }
  }

  // ---- Without a monotone clock ----

  /** Where the block of equal readings around i starts. */
  function BlockStart(readings: seq<int>, i: nat): (b: nat)
    requires i < |readings|
    ensures b <= i && readings[b] == readings[i]
    ensures b == 0 || readings[b - 1] != readings[b]
    ensures forall j :: b <= j <= i ==> readings[j] == readings[i]
  {
    if i == 0 || readings[i - 1] != readings[i] then i else BlockStart(readings, i - 1)
  }

  function ClockAfter(c: Clock, readings: seq<int>): Clock
    decreases |readings|
  {
    if readings == [] then c else ClockAfter(Tick(c, readings[0]), readings[1..])
  }

  lemma {:induction false} StampIsClock(c: Clock, readings: seq<int>, i: nat)
    requires i < |readings|
    ensures ClockAfter(c, readings[..i + 1]) == Clock(Stamps(c, readings)[i].ts, Stamps(c, readings)[i].logSeq)
    ensures ClockAfter(c, readings[..i + 1]) == Tick(ClockAfter(c, readings[..i]), readings[i])
    decreases i
  {
    var next := Tick(c, readings[0]);
    assert readings[..i + 1][1..] == readings[1..][..i];
    if i == 0 {
      assert ClockAfter(c, readings[..1]) == ClockAfter(next, []);
    } else {
      StampIsClock(next, readings[1..], i - 1);
      assert readings[..i][1..] == readings[1..][..i - 1];
    }
  }

  /** The sequence number counts from the start of the block of equal readings. */
  lemma {:induction false} SeqCountsFromBlock(c: Clock, readings: seq<int>, i: nat)
    requires i < |readings| && readings[0] != c.lastTs
    ensures Stamps(c, readings)[i] == Stamp(readings[i], i - BlockStart(readings, i))
    decreases i
  {
    StampsCarryReadings(c, readings);
    StampIsClock(c, readings, i);
    if i == 0 {
      assert readings[..0] == [];
      hide Stamps;
    } else {
      hide Stamps, ClockAfter;
      SeqCountsFromBlock(c, readings, i - 1);
      StampIsClock(c, readings, i - 1);
    }
  }

  ghost predicate AllDistinct(stamps: seq<Stamp>) {
    forall i, j :: 0 <= i < j < |stamps| ==> stamps[i] != stamps[j]
  }

  /** The clock never returns to a reading it has left. */
  ghost predicate NeverReturns(readings: seq<int>) {
    forall i, j, k :: 0 <= i < j < k < |readings| && readings[i] == readings[k] ==> readings[j] == readings[i]
  }

  /** Whatever the clock does, the stamps are distinct exactly when it never returns to a reading it has left. */
  lemma DistinctIff(c: Clock, readings: seq<int>)
    requires readings != [] ==> readings[0] != c.lastTs
    ensures AllDistinct(Stamps(c, readings)) <==> NeverReturns(readings)
  {
    var stamps := Stamps(c, readings);
    forall i | 0 <= i < |readings|
      ensures stamps[i] == Stamp(readings[i], i - BlockStart(readings, i))
    {
      SeqCountsFromBlock(c, readings, i);
    }
    hide Stamps;
    if NeverReturns(readings) {
      forall i, k | 0 <= i < k < |stamps|
        ensures stamps[i] != stamps[k]
      {
        if readings[i] == readings[k] {
          SameBlock(readings, i, k);
        }
      }
    } else {
      var i, j, k :| 0 <= i < j < k < |readings| && readings[i] == readings[k] && readings[j] != readings[i];
      var b, d := BlockStart(readings, i), BlockStart(readings, k);
      assert BlockStart(readings, b) == b && BlockStart(readings, d) == d;
      assert stamps[b] == stamps[d] && b < d;
    }
  }

  lemma {:induction false} SameBlock(readings: seq<int>, i: nat, k: nat)
    requires i <= k < |readings| && NeverReturns(readings) && readings[i] == readings[k]
    ensures BlockStart(readings, i) == BlockStart(readings, k)
    decreases k
  {
    if i < k {
      assert readings[k - 1] == readings[i];
      SameBlock(readings, i, k - 1);
    }
  }

  // ---- End to end ----

  /** The events a process emitted, the i-th with the stamp of the i-th clock reading. */
  ghost predicate Emitted(c: Clock, readings: seq<int>, emitted: seq<LogEvent>) {
    && |emitted| == |readings|
    && forall i :: 0 <= i < |emitted| ==>
         emitted[i].ts == Stamps(c, readings)[i].ts && emitted[i].logSeq == Stamps(c, readings)[i].logSeq
  }

  /** With a clock that never returns, rows made of one process's events conflict in job_logs only when they are the
      same event delivered again. Whatever is stored already and whatever is delivered, in any order and number, an
      event ends up stored as itself exactly when its key was free or held its own content. */
  lemma OnlyRedeliveriesConflict(
    c: Clock, readings: seq<int>, emitted: seq<LogEvent>, logs: Logs, rows: seq<ResolvedLog>)
    requires readings != [] ==> readings[0] != c.lastTs
    requires NeverReturns(readings) && Emitted(c, readings, emitted)
    requires forall r :: r in rows ==> r.event in emitted
    ensures forall r, q :: r in rows && q in rows && KeyOf(r) == KeyOf(q) ==> r == q
    ensures forall r :: r in rows ==>
              && KeyOf(r) in InsertLogs(logs, rows)
              && (InsertLogs(logs, rows)[KeyOf(r)] == ContentOf(r.event)
                  <==> (KeyOf(r) in logs ==> logs[KeyOf(r)] == ContentOf(r.event)))
  {
    DistinctIff(c, readings);
    hide Stamps, NeverReturns;
    forall r, q | r in rows && q in rows && KeyOf(r) == KeyOf(q)
      ensures r == q
    {
      var i :| 0 <= i < |emitted| && emitted[i] == r.event;
      var j :| 0 <= j < |emitted| && emitted[j] == q.event;
    }
    InsertLogsExact(logs, rows);
    hide InsertLogs;
    forall r | r in rows
      ensures KeyOf(r) in InsertLogs(logs, rows)
      ensures KeyOf(r) !in logs ==> InsertLogs(logs, rows)[KeyOf(r)] == ContentOf(r.event)
    {
      assert Offers(rows, KeyOf(r));
    }
  }

  // ---- The module-level variables ----

  class LogClock {
    var lastTs: int
    var counter: nat

    constructor ()
      ensures Contents() == Clock(0, 0)
    {
      lastTs, counter := 0, 0;
    }

    function Contents(): Clock
      reads this
    {
      Clock(lastTs, counter)
    }

    method NextLogTimestamp(now: int) returns (ts: int, logSeq: nat)
      modifies this
      ensures Contents() == Tick(old(Contents()), now)
      ensures [Stamp(ts, logSeq)] == Stamps(old(Contents()), [now])
    {
      if now == lastTs {
        counter := counter + 1;
      } else {
        lastTs := now;
        counter := 0;
      }
      ts, logSeq := now, counter;
    }
  }
}
