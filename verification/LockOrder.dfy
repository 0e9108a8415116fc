/** Concurrent statements that write job_runs and job_logs. Each takes its row locks in the order its rows are written
    and keeps them until its transaction ends: an upsert locks the runs of its batch; an insert into job_logs locks its
    log rows and then, through the foreign key, the runs they belong to. */
module LockOrder {
  import opened Common
  import opened FiniteSets
  import opened Ordering
  import opened JobRuns
  import JobUpsert
  import LogBuffer
  import Text

  datatype Lock = LogRow(key: RunKey, ts: int, logSeq: int) | RunRow(key: RunKey)

  datatype Statement = Upsert | LogInsert

  /** Whether a statement of the first kind has to wait for one of the second kind that holds this lock. */
  type Blocking = (Lock, Statement, Statement) -> bool

  /** A statement that needs `locks`, holds the first `held` of them, and may have ended. */
  datatype Writer = Writer(statement: Statement, locks: seq<Lock>, held: nat, ended: bool)

  type State = seq<Writer>

  predicate Before(a: Lock, b: Lock) {
    if a.LogRow? && b.LogRow? && a.key == b.key then a.ts < b.ts || (a.ts == b.ts && a.logSeq < b.logSeq)
    else if a.LogRow? == b.LogRow? then JobUpsert.KeyBefore(a.key, b.key)
    else a.LogRow?
  }

  predicate Holds(w: Writer, lock: Lock) {
    !w.ended && w.held <= |w.locks| && lock in w.locks[..w.held]
  }

  predicate Waiting(w: Writer) {
    !w.ended && w.held < |w.locks|
  }

  function Wanted(w: Writer): Lock
    requires Waiting(w)
  {
    w.locks[w.held]
  }

  predicate WaitsFor(blocks: Blocking, s: State, i: nat, j: nat) {
    && i < |s| && j < |s| && i != j && Waiting(s[i])
    && Holds(s[j], Wanted(s[i])) && blocks(Wanted(s[i]), s[i].statement, s[j].statement)
  }

  /** A writer can proceed when it can commit or nobody blocks its next lock. */
  predicate CanProceed(blocks: Blocking, s: State, i: nat) {
    i < |s| && !s[i].ended && forall j: nat :: j < |s| ==> !WaitsFor(blocks, s, i, j)
  }

  function Proceed(blocks: Blocking, s: State, i: nat): State
    requires CanProceed(blocks, s, i)
  {
    if s[i].held < |s[i].locks| then s[i := s[i].(held := s[i].held + 1)] else s[i := s[i].(ended := true)]
  }

  /** A step: a writer proceeds, a writer is rolled back, or a new statement begins. */
  ghost predicate Next(blocks: Blocking, s: State, t: State) {
    || (exists i: nat :: CanProceed(blocks, s, i) && t == Proceed(blocks, s, i))
    || (exists i: nat :: i < |s| && t == s[i := s[i].(ended := true)])
    || (exists w: Writer :: Begins(w) && t == s + [w])
  }

  ghost predicate Begins(w: Writer) {
    || (exists batch, cutoff :: w == BeginUpsert(batch, cutoff))
    || (exists rows, from, to, inserted :: 0 <= from <= to <= |rows| && w == BeginLogInsert(rows, from, to, inserted))
  }

  function RunLocks(rows: seq<JobRun>): seq<Lock> {
    seq(|rows|, i requires 0 <= i < |rows| => RunRow(rows[i].key))
  }

  function BeginUpsert(batch: seq<JobRun>, cutoff: Option<int>): Writer {
    Writer(Upsert, RunLocks(JobUpsert.Values(batch, cutoff)), 0, false)
  }

  function RunOf(row: LogBuffer.ResolvedLog): RunKey {
    RunKey(row.event.job.queue, row.event.job.jobId, row.event.job.timestamp)
  }

  function LogLock(row: LogBuffer.ResolvedLog): Lock {
    LogRow(RunOf(row), row.event.ts, row.event.logSeq)
  }

  function RunLock(row: LogBuffer.ResolvedLog): Lock {
    RunRow(RunOf(row))
  }

  function Locks(rows: seq<LogBuffer.ResolvedLog>, lock: LogBuffer.ResolvedLog -> Lock): seq<Lock> {
    seq(|rows|, i requires 0 <= i < |rows| => lock(rows[i]))
  }

  /** Taking again the lock just taken does nothing. */
  function Once(locks: seq<Lock>): seq<Lock> {
    if |locks| < 2 then locks
    else if locks[0] == locks[1] then Once(locks[1..])
    else [locks[0]] + Once(locks[1..])
  }

  /** One chunk of the sorted log rows. Every row is tried in order; at the end of the statement the foreign key is
      checked for those that were not there yet, in the same order. */
  function BeginLogInsert(
      rows: seq<LogBuffer.ResolvedLog>, from: nat, to: nat, inserted: LogBuffer.ResolvedLog -> bool): Writer
    requires from <= to <= |rows|
  {
    SortKeeps(rows, LogBuffer.LogBefore);
    var chunk := LogBuffer.SortLogs(rows)[from..to];
    var checked := Filter(chunk, inserted);
    Writer(LogInsert, Once(Locks(chunk, LogLock)) + Once(Locks(checked, RunLock)), 0, false)
  }

  ghost predicate IsRun(blocks: Blocking, run: seq<State>) {
    run != [] && run[0] == [] && forall i :: 0 <= i < |run| - 1 ==> Next(blocks, run[i], run[i + 1])
  }

  ghost predicate Ordered(w: Writer) {
    w.held <= |w.locks| && Sorted(w.locks, Before)
  }

  /** Two writers hold one lock only if one of them does not block the other. */
  ghost predicate Inv(blocks: Blocking, s: State) {
    && (forall i :: 0 <= i < |s| ==> Ordered(s[i]))
    && (forall i, j, k :: 0 <= i < |s| && 0 <= j < |s| && i != j && Holds(s[i], k) && Holds(s[j], k) ==>
          !blocks(k, s[i].statement, s[j].statement) || !blocks(k, s[j].statement, s[i].statement))
  }

  // ---- Every statement takes its locks in one order ----

  lemma BeforeOrder(a: Lock, b: Lock, c: Lock)
    ensures Before(a, b) ==> !Before(b, a)
    ensures a != b ==> Before(a, b) || Before(b, a)
    ensures Before(a, b) && Before(b, c) ==> Before(a, c)
  {
    hide JobUpsert.KeyBefore;
    JobUpsert.KeyOrder(a.key, b.key, c.key);
  }

  lemma LogOrder(a: LogBuffer.ResolvedLog, b: LogBuffer.ResolvedLog)
    ensures LogBuffer.LogBefore(a, b) <==> Before(LogLock(a), LogLock(b))
  {
    Text.LessAsymmetric(RunOf(a).queue, RunOf(a).queue);
    Text.LessAsymmetric(RunOf(a).jobId, RunOf(a).jobId);
  }

  lemma LogsAscend(rows: seq<LogBuffer.ResolvedLog>)
    ensures Ascending(LogBuffer.SortLogs(rows), LogBuffer.LogBefore)
  {
    hide Before, LogBuffer.LogBefore;
    forall a, b ensures LogBuffer.LogBefore(a, b) <==> Before(LogLock(a), LogLock(b)) { LogOrder(a, b); }
    forall a, b ensures Before(a, b) ==> !Before(b, a) { BeforeOrder(a, b, a); }
    forall a, b, c {:trigger Before(a, b), Before(b, c)} ensures Before(a, c) ==> Before(a, b) || Before(b, c) {
      BeforeOrder(a, b, c);
      BeforeOrder(b, a, c);
    }
    SortAscends(rows, LogBuffer.LogBefore);
  }

  /** In the order of the insert no row comes after one it should come before: by queue, job id and time of the job,
      then by time and sequence number of the log. */
  lemma InsertedInOrder(rows: seq<LogBuffer.ResolvedLog>, i: nat, j: nat)
    requires i < j < |LogBuffer.SortLogs(rows)|
    ensures var a, b := LogBuffer.SortLogs(rows)[i].event, LogBuffer.SortLogs(rows)[j].event;
            if a.job.queue != b.job.queue then Text.Less(a.job.queue, b.job.queue)
            else if a.job.jobId != b.job.jobId then Text.Less(a.job.jobId, b.job.jobId)
            else if a.job.timestamp != b.job.timestamp then a.job.timestamp < b.job.timestamp
            else if a.ts != b.ts then a.ts < b.ts
            else a.logSeq <= b.logSeq
  {
    LogsAscend(rows);
    var a, b := LogBuffer.SortLogs(rows)[i], LogBuffer.SortLogs(rows)[j];
    hide LogBuffer.SortLogs;
    assert !LogBuffer.LogBefore(b, a);
    Text.LessTotal(a.event.job.queue, b.event.job.queue);
    Text.LessTotal(a.event.job.jobId, b.event.job.jobId);
  }

  lemma {:induction false} OnceSorts(locks: seq<Lock>)
    requires Ascending(locks, Before)
    ensures Sorted(Once(locks), Before)
    ensures forall k :: k in Once(locks) <==> k in locks
  {
    hide Before;
    if |locks| >= 2 {
      OnceSorts(locks[1..]);
      assert locks == [locks[0]] + locks[1..];
      if locks[0] != locks[1] {
        forall k | k in locks[1..] ensures Before(locks[0], k) {
          BeforeOrder(locks[0], locks[1], k);
          BeforeOrder(locks[1], k, k);
        }
      }
    }
  }

  lemma LocksAscend(chunk: seq<LogBuffer.ResolvedLog>)
    requires Ascending(chunk, LogBuffer.LogBefore)
    ensures Ascending(Locks(chunk, LogLock), Before)
    ensures Ascending(Locks(chunk, RunLock), Before)
  {
    hide LogBuffer.LogBefore, JobUpsert.KeyBefore;
    forall i, j | 0 <= i < j < |chunk|
      ensures !Before(LogLock(chunk[j]), LogLock(chunk[i]))
      ensures !Before(RunLock(chunk[j]), RunLock(chunk[i]))
    {
      LogOrder(chunk[j], chunk[i]);
      JobUpsert.KeyOrder(RunOf(chunk[j]), RunOf(chunk[j]), RunOf(chunk[j]));
    }
  }

  lemma UpsertOrdered(batch: seq<JobRun>, cutoff: Option<int>)
    ensures Ordered(BeginUpsert(batch, cutoff))
  {
    hide JobUpsert.KeyBefore;
    JobUpsert.ValuesSorted(batch, cutoff);
    var rows := JobUpsert.Values(batch, cutoff);
    forall i, j | 0 <= i < j < |rows| ensures Before(RunRow(rows[i].key), RunRow(rows[j].key)) {
      assert JobUpsert.RowBefore(rows[i], rows[j]);
    }
  }

  lemma LogInsertOrdered(
      rows: seq<LogBuffer.ResolvedLog>, from: nat, to: nat, inserted: LogBuffer.ResolvedLog -> bool)
    requires from <= to <= |rows|
    ensures Ordered(BeginLogInsert(rows, from, to, inserted))
  {
    hide Before, LogBuffer.LogBefore, Once, Locks;
    SortKeeps(rows, LogBuffer.LogBefore);
    LogsAscend(rows);
    var sorted := LogBuffer.SortLogs(rows);
    var chunk := sorted[from..to];
    assert Ascending(chunk, LogBuffer.LogBefore);
    ChunkOrdered(chunk, inserted);
  }

  lemma ChunkOrdered(chunk: seq<LogBuffer.ResolvedLog>, inserted: LogBuffer.ResolvedLog -> bool)
    requires Ascending(chunk, LogBuffer.LogBefore)
    ensures Sorted(Once(Locks(chunk, LogLock)) + Once(Locks(Filter(chunk, inserted), RunLock)), Before)
  {
    hide Before, Once, LogBuffer.LogBefore;
    var checked := Filter(chunk, inserted);
    FilterAscends(chunk, inserted, LogBuffer.LogBefore);
    LocksAscend(chunk);
    LocksAscend(checked);
    var logs, runs := Locks(chunk, LogLock), Locks(checked, RunLock);
    LockKinds(chunk, checked);
    hide Locks, Sorted, Ascending;
    OnceSorts(logs);
    OnceSorts(runs);
    LogsThenRuns(Once(logs), Once(runs));
  }

  lemma LockKinds(chunk: seq<LogBuffer.ResolvedLog>, checked: seq<LogBuffer.ResolvedLog>)
    ensures forall k :: k in Locks(chunk, LogLock) ==> k.LogRow?
    ensures forall k :: k in Locks(checked, RunLock) ==> k.RunRow?
  {
    forall k | k in Locks(chunk, LogLock) ensures k.LogRow? {
      var i :| 0 <= i < |chunk| && Locks(chunk, LogLock)[i] == k;
      assert k == LogLock(chunk[i]);
    }
    forall k | k in Locks(checked, RunLock) ensures k.RunRow? {
      var i :| 0 <= i < |checked| && Locks(checked, RunLock)[i] == k;
      assert k == RunLock(checked[i]);
    }
  }

  lemma LogsThenRuns(logs: seq<Lock>, runs: seq<Lock>)
    requires Sorted(logs, Before) && Sorted(runs, Before)
    requires (forall k :: k in logs ==> k.LogRow?) && (forall k :: k in runs ==> k.RunRow?)
    ensures Sorted(logs + runs, Before)
  {
    hide JobUpsert.KeyBefore;
    var all := logs + runs;
    forall i, j | 0 <= i < j < |all| ensures Before(all[i], all[j]) {
      if i < |logs| <= j {
        assert all[i] in logs && all[j] in runs;
      }
    }
  }

  /** Every run that an upsert writes is locked, and nothing else. */
  lemma UpsertLocksItsRuns(batch: seq<JobRun>, cutoff: Option<int>, lock: Lock)
    ensures lock in BeginUpsert(batch, cutoff).locks <==>
            lock.RunRow? && JobUpsert.Wrote(JobUpsert.Values(batch, cutoff), lock.key)
  {
    var rows := JobUpsert.Values(batch, cutoff);
    var locks := BeginUpsert(batch, cutoff).locks;
    hide JobUpsert.Values;
    forall i | 0 <= i < |rows| ensures RunRow(rows[i].key) in locks {
      assert locks[i] == RunRow(rows[i].key);
    }
    if lock in locks {
      var i :| 0 <= i < |locks| && locks[i] == lock;
      assert rows[i] in rows;
    }
  }

  /** A chunk locks the log row of each of its rows and the run of each row it inserts, and nothing else. */
  lemma LogInsertLocksItsRows(
      rows: seq<LogBuffer.ResolvedLog>, from: nat, to: nat, inserted: LogBuffer.ResolvedLog -> bool, lock: Lock)
    requires from <= to <= |rows|
    ensures |LogBuffer.SortLogs(rows)| == |rows|
    ensures var chunk := LogBuffer.SortLogs(rows)[from..to];
            lock in BeginLogInsert(rows, from, to, inserted).locks <==>
            match lock
            case LogRow(key, ts, logSeq) =>
              exists r :: r in chunk && RunOf(r) == key && r.event.ts == ts && r.event.logSeq == logSeq
            case RunRow(key) => exists r :: r in chunk && inserted(r) && RunOf(r) == key
  {
    SortKeeps(rows, LogBuffer.LogBefore);
    var chunk := LogBuffer.SortLogs(rows)[from..to];
    var checked := Filter(chunk, inserted);
    LogsAscend(rows);
    FilterAscends(chunk, inserted, LogBuffer.LogBefore);
    FilterMembers(chunk, inserted);
    LocksAscend(chunk);
    LocksAscend(checked);
    hide Before, LogBuffer.LogBefore, LogBuffer.SortLogs, Sorted, Ascending;
    OnceSorts(Locks(chunk, LogLock));
    OnceSorts(Locks(checked, RunLock));
    hide Once, Filter;
    LocksOf(chunk, LogLock, lock);
    LocksOf(checked, RunLock, lock);
    hide Locks;
  }

  lemma LocksOf(
      rows: seq<LogBuffer.ResolvedLog>, toLock: LogBuffer.ResolvedLog -> Lock, lock: Lock)
    ensures lock in Locks(rows, toLock) <==> exists r :: r in rows && toLock(r) == lock
  {
    if lock in Locks(rows, toLock) {
      var i :| 0 <= i < |rows| && Locks(rows, toLock)[i] == lock;
      assert rows[i] in rows && toLock(rows[i]) == lock;
    }
    if r :| r in rows && toLock(r) == lock {
      var i :| 0 <= i < |rows| && rows[i] == r;
      assert Locks(rows, toLock)[i] == lock;
    }
  }

  lemma BeginOrdered(w: Writer)
    requires Begins(w)
    ensures Ordered(w) && w.held == 0
  {
    hide Ordered;
    if batch, cutoff :| w == BeginUpsert(batch, cutoff) {
      UpsertOrdered(batch, cutoff);
    } else {
      var rows, from, to, inserted :| 0 <= from <= to <= |rows| && w == BeginLogInsert(rows, from, to, inserted);
      LogInsertOrdered(rows, from, to, inserted);
    }
  }

  // ---- The invariant ----

  lemma ProceedHolds(blocks: Blocking, s: State, i: nat, key: Lock)
    requires Inv(blocks, s) && CanProceed(blocks, s, i)
    ensures Holds(Proceed(blocks, s, i)[i], key) ==> Holds(s[i], key) || (Waiting(s[i]) && key == Wanted(s[i]))
  {
    hide Before;
    var w := s[i];
    if w.held < |w.locks| {
      assert w.locks[..w.held + 1] == w.locks[..w.held] + [w.locks[w.held]];
    }
  }

  lemma ProceedKeepsInv(blocks: Blocking, s: State, i: nat)
    requires Inv(blocks, s) && CanProceed(blocks, s, i)
    ensures Inv(blocks, Proceed(blocks, s, i))
  {
    hide Before, Holds;
    var t := Proceed(blocks, s, i);
    forall a: nat, b: nat, k | a < |t| && b < |t| && a != b && Holds(t[a], k) && Holds(t[b], k)
      ensures !blocks(k, t[a].statement, t[b].statement) || !blocks(k, t[b].statement, t[a].statement)
    {
      ProceedHolds(blocks, s, i, k);
      assert a != i ==> t[a] == s[a] && !WaitsFor(blocks, s, i, a);
      assert b != i ==> t[b] == s[b] && !WaitsFor(blocks, s, i, b);
    }
  }

  lemma StepKeepsInv(blocks: Blocking, s: State, t: State)
    requires Inv(blocks, s) && Next(blocks, s, t)
    ensures Inv(blocks, t)
  {
    hide Before, Begins, CanProceed;
    if i: nat :| CanProceed(blocks, s, i) && t == Proceed(blocks, s, i) {
      ProceedKeepsInv(blocks, s, i);
    } else if i: nat :| i < |s| && t == s[i := s[i].(ended := true)] {
      forall a, k | 0 <= a < |t| && Holds(t[a], k) ensures Holds(s[a], k) {}
    } else {
      var w :| Begins(w) && t == s + [w];
      BeginOrdered(w);
      forall a, k | 0 <= a < |t| && Holds(t[a], k) ensures a < |s| && Holds(s[a], k) {}
    }
  }

  lemma {:induction false} RunKeepsInv(blocks: Blocking, run: seq<State>, i: nat)
    requires IsRun(blocks, run) && i < |run|
    ensures Inv(blocks, run[i])
  {
    hide Inv, Next;
    if i > 0 {
      RunKeepsInv(blocks, run, i - 1);
      StepKeepsInv(blocks, run[i - 1], run[i]);
    } else {
      StartInv(blocks);
    }
  }

  lemma StartInv(blocks: Blocking)
    ensures Inv(blocks, [])
  {
  }

  // ---- No deadlock ----

  /** A blocked writer waits for one whose own next lock, if it needs any, comes later in the order. */
  lemma WaitGoesUp(blocks: Blocking, s: State, i: nat, j: nat)
    requires Inv(blocks, s) && WaitsFor(blocks, s, i, j)
    ensures !s[j].ended
    ensures Waiting(s[j]) ==> Before(Wanted(s[i]), Wanted(s[j]))
  {
    hide Before;
    var w := s[j];
    var k :| 0 <= k < w.held && w.locks[k] == Wanted(s[i]);
    assert Waiting(w) ==> Before(w.locks[k], w.locks[w.held]);
  }

  /** Writers whose next lock comes later than i's. */
  ghost function Later(s: State, i: nat): set<nat>
    requires i < |s| && Waiting(s[i])
  {
    set j: nat | j < |s| && Waiting(s[j]) && Before(Wanted(s[i]), Wanted(s[j]))
  }

  lemma LaterShrinks(s: State, i: nat, j: nat)
    requires i < |s| && j < |s| && Waiting(s[i]) && Waiting(s[j])
    requires Before(Wanted(s[i]), Wanted(s[j]))
    ensures |Later(s, j)| < |Later(s, i)|
  {
    hide Before;
    var a, b := Wanted(s[i]), Wanted(s[j]);
    forall k | k in Later(s, j) ensures k in Later(s, i) && k != j {
      BeforeOrder(a, b, Wanted(s[k]));
      BeforeOrder(b, Wanted(s[k]), b);
    }
    assert Later(s, j) <= Later(s, i) - {j};
    SubsetCount(Later(s, j), Later(s, i) - {j});
  }

  /** Follow the waits from an unfinished writer: they end at one that can proceed. */
  lemma {:induction false} SomeoneProceeds(blocks: Blocking, s: State, i: nat) returns (p: nat)
    requires Inv(blocks, s) && i < |s| && !s[i].ended
    ensures CanProceed(blocks, s, p)
    decreases if Waiting(s[i]) then 1 + |Later(s, i)| else 0
  {
    hide Before, Inv;
    if CanProceed(blocks, s, i) {
      return i;
    }
    var j: nat :| j < |s| && WaitsFor(blocks, s, i, j);
    WaitGoesUp(blocks, s, i, j);
    if Waiting(s[j]) { LaterShrinks(s, i, j); }
    p := SomeoneProceeds(blocks, s, j);
  }

  /** Deadlock freedom, whichever locks block each other: in every state of every run, if a statement is unfinished
      then some statement can proceed. */
  lemma DeadlockFree(blocks: Blocking, run: seq<State>, i: nat)
    requires IsRun(blocks, run) && i < |run|
    ensures (exists w :: w in run[i] && !w.ended) ==> exists p: nat :: CanProceed(blocks, run[i], p)
  {
    hide Inv, CanProceed, IsRun;
    RunKeepsInv(blocks, run, i);
    var s := run[i];
    if w :| w in s && !w.ended {
      var k: nat :| k < |s| && s[k] == w;
      var p := SomeoneProceeds(blocks, s, k);
    }
  }

  ghost predicate IsWaitPath(blocks: Blocking, s: State, path: seq<nat>) {
    |path| >= 2 && forall k :: 0 <= k < |path| - 1 ==> WaitsFor(blocks, s, path[k], path[k + 1])
  }

  lemma {:induction false} WaitPathGoesUp(blocks: Blocking, s: State, path: seq<nat>)
    requires Inv(blocks, s) && IsWaitPath(blocks, s, path)
    ensures var a, z := path[0], path[|path| - 1];
            && a < |s| && z < |s| && Waiting(s[a])
            && (Waiting(s[z]) ==> Before(Wanted(s[a]), Wanted(s[z])))
    decreases |path|
  {
    hide Inv, Before;
    assert WaitsFor(blocks, s, path[0], path[1]);
    WaitGoesUp(blocks, s, path[0], path[1]);
    if |path| > 2 {
      var rest := path[1..];
      forall k | 0 <= k < |rest| - 1 ensures WaitsFor(blocks, s, rest[k], rest[k + 1]) {
        assert WaitsFor(blocks, s, path[k + 1], path[k + 2]);
      }
      WaitPathGoesUp(blocks, s, rest);
      var a, b, z := path[0], path[1], path[|path| - 1];
      if Waiting(s[z]) {
        BeforeOrder(Wanted(s[a]), Wanted(s[b]), Wanted(s[z]));
      }
    }
  }

  /** The wait-for relation never has a cycle. */
  lemma NoWaitCycle(blocks: Blocking, run: seq<State>, i: nat, path: seq<nat>)
    requires IsRun(blocks, run) && i < |run| && IsWaitPath(blocks, run[i], path)
    ensures path[0] != path[|path| - 1]
  {
    hide Before, Inv, IsRun;
    RunKeepsInv(blocks, run, i);
    WaitPathGoesUp(blocks, run[i], path);
    var a := run[i][path[0]];
    BeforeOrder(Wanted(a), Wanted(a), Wanted(a));
  }

  /** Locks still to take plus commits still to come. */
  function Remaining(s: State): nat {
    if s == [] then 0
    else
      var w := s[0];
      (if w.ended || w.held > |w.locks| then 0 else 1 + |w.locks| - w.held) + Remaining(s[1..])
  }

  /** Each time a writer proceeds the work left goes down by one, so finitely many statements all finish. */
  lemma {:induction false} ProceedingFinishes(blocks: Blocking, s: State, i: nat)
    requires Inv(blocks, s) && CanProceed(blocks, s, i)
    ensures Remaining(Proceed(blocks, s, i)) == Remaining(s) - 1
  {
    ReplaceRemaining(s, i, Proceed(blocks, s, i)[i]);
  }

  lemma {:induction false} ReplaceRemaining(s: State, i: nat, w: Writer)
    requires i < |s|
    ensures Remaining(s[i := w]) - Remaining([w]) == Remaining(s) - Remaining([s[i]])
  {
    if i > 0 {
      assert s[i := w][1..] == s[1..][i - 1 := w];
      ReplaceRemaining(s[1..], i - 1, w);
    } else {
      assert s[i := w][1..] == s[1..];
    }
  }

  /** The order is what matters: two statements that take the same two locks in opposite orders, one each, both wait
      exactly when each blocks the other. */
  lemma OppositeOrdersDeadlock(blocks: Blocking, p: Statement, q: Statement, a: Lock, b: Lock)
    requires a != b
    ensures var s := [Writer(p, [a, b], 1, false), Writer(q, [b, a], 1, false)];
            !CanProceed(blocks, s, 0) && !CanProceed(blocks, s, 1) <==> blocks(b, p, q) && blocks(a, q, p)
  {
    var s := [Writer(p, [a, b], 1, false), Writer(q, [b, a], 1, false)];
    assert s[0].locks[..1] == [a] && s[1].locks[..1] == [b];
    assert WaitsFor(blocks, s, 0, 1) <==> blocks(b, p, q);
    assert WaitsFor(blocks, s, 1, 0) <==> blocks(a, q, p);
  }
}
