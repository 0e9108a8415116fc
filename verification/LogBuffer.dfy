/** Log events on their way to job_logs: those whose run is known are inserted, the others wait in
    job_log_buffer until a resolver pass finds the run. */
module LogBuffer {
  import opened Common
  import opened Ordering
  import Text

  datatype Level = Debug | Error | Info | Log | Warn

  /** The unique (queue, jobId, enqueuedAt) of a job run. */
  datatype JobKey = JobKey(queue: string, jobId: string, timestamp: int)

  datatype LogEvent = LogEvent(job: JobKey, ts: int, logSeq: int, level: Level, message: string)

  /** The unique index of job_log_buffer. */
  datatype Identity = Identity(job: JobKey, ts: int, logSeq: int)

  /** The unique index of job_logs. */
  datatype LogKey = LogKey(runId: string, ts: int, logSeq: int)

  datatype Content = Content(level: Level, message: string)

  datatype BufferRow = BufferRow(id: nat, createdAt: int, content: Content)

  datatype ResolvedLog = ResolvedLog(event: LogEvent, runId: string)

  type Runs = map<JobKey, string>
  type Logs = map<LogKey, Content>
  type Buffer = map<Identity, BufferRow>

  const CHUNK: nat := 500

  function IdentityOf(e: LogEvent): Identity {
    Identity(e.job, e.ts, e.logSeq)
  }

  function ContentOf(e: LogEvent): Content {
    Content(e.level, e.message)
  }

  function EventOf(identity: Identity, content: Content): LogEvent {
    LogEvent(identity.job, identity.ts, identity.logSeq, content.level, content.message)
  }

  function KeyOf(r: ResolvedLog): LogKey {
    LogKey(r.runId, r.event.ts, r.event.logSeq)
  }

  function JobText(job: JobKey): string {
    Text.JobText(':', job.queue, job.jobId, job.timestamp)
  }

  // ---- The two insert statements and the delete ----

  function InsertLog(logs: Logs, r: ResolvedLog): Logs {
    if KeyOf(r) in logs then logs else logs[KeyOf(r) := ContentOf(r.event)]
  }

  /** INSERT INTO job_logs ... ON CONFLICT DO NOTHING */
  function InsertLogs(logs: Logs, rows: seq<ResolvedLog>): Logs
    decreases |rows|
  {
    if rows == [] then logs else InsertLogs(InsertLog(logs, rows[0]), rows[1..])
  }

  function BufferLog(buffer: Buffer, e: LogEvent, id: nat, now: int): Buffer {
    if IdentityOf(e) in buffer then buffer else buffer[IdentityOf(e) := BufferRow(id, now, ContentOf(e))]
  }

  /** INSERT INTO job_log_buffer ... ON CONFLICT DO NOTHING; the i-th row is offered the row id firstId + i. */
  function BufferLogs(buffer: Buffer, events: seq<LogEvent>, firstId: nat, now: int): Buffer
    decreases |events|
  {
    if events == [] then buffer
    else BufferLogs(BufferLog(buffer, events[0], firstId, now), events[1..], firstId + 1, now)
  }

  /** DELETE FROM job_log_buffer WHERE id IN (...) */
  function DeleteRows(buffer: Buffer, ids: set<nat>): Buffer {
    map k | k in buffer && buffer[k].id !in ids :: buffer[k]
  }

  function Resolved(runs: Runs, events: seq<LogEvent>): seq<ResolvedLog> {
    if events == [] then []
    else
      (if events[0].job in runs then [ResolvedLog(events[0], runs[events[0].job])] else []) +
          Resolved(runs, events[1..])
  }

  function Unresolved(runs: Runs, events: seq<LogEvent>): seq<LogEvent> {
    if events == [] then []
    else (if events[0].job in runs then [] else [events[0]]) + Unresolved(runs, events[1..])
  }

  predicate LogBefore(a: ResolvedLog, b: ResolvedLog) {
    var x, y := a.event, b.event;
    if x.job.queue != y.job.queue then Text.Less(x.job.queue, y.job.queue)
    else if x.job.jobId != y.job.jobId then Text.Less(x.job.jobId, y.job.jobId)
    else if x.job.timestamp != y.job.timestamp then x.job.timestamp < y.job.timestamp
    else if x.ts != y.ts then x.ts < y.ts
    else x.logSeq < y.logSeq
  }

  function SortLogs(rows: seq<ResolvedLog>): seq<ResolvedLog> {
    Sort(rows, LogBefore)
  }

  ghost predicate Offers(rows: seq<ResolvedLog>, k: LogKey) {
    exists r :: r in rows && KeyOf(r) == k
  }

  lemma OffersFirst(rows: seq<ResolvedLog>, k: LogKey)
    requires rows != []
    ensures Offers(rows, k) <==> KeyOf(rows[0]) == k || Offers(rows[1..], k)
  {
    assert rows == [rows[0]] + rows[1..];
    assert rows[0] in rows;
    forall r | r in rows[1..] ensures r in rows {}
  }

  /** After the insert a key is present if it was before or was offered; a stored row never changes; a new one has
      the content of a row offered under its key. */
  lemma {:induction false} InsertLogsExact(logs: Logs, rows: seq<ResolvedLog>)
    ensures forall k :: k in InsertLogs(logs, rows) <==> k in logs || Offers(rows, k)
    ensures forall k :: k in logs ==> InsertLogs(logs, rows)[k] == logs[k]
    ensures forall k :: k in InsertLogs(logs, rows) && k !in logs ==>
              exists r :: r in rows && KeyOf(r) == k && ContentOf(r.event) == InsertLogs(logs, rows)[k]
    decreases |rows|
  {
    if rows != [] {
      var logs1 := InsertLog(logs, rows[0]);
      InsertLogsExact(logs1, rows[1..]);
      assert rows == [rows[0]] + rows[1..];
      forall k ensures Offers(rows, k) <==> KeyOf(rows[0]) == k || Offers(rows[1..], k) { OffersFirst(rows, k); }
      forall k | k in InsertLogs(logs, rows) && k !in logs
        ensures exists r :: r in rows && KeyOf(r) == k && ContentOf(r.event) == InsertLogs(logs, rows)[k]
      {
        if k in logs1 {
          assert rows[0] in rows;
        } else {
          var r :| r in rows[1..] && KeyOf(r) == k && ContentOf(r.event) == InsertLogs(logs1, rows[1..])[k];
          assert r in rows;
        }
      }
    }
  }

  lemma {:induction false} InsertLogsAppend(logs: Logs, a: seq<ResolvedLog>, b: seq<ResolvedLog>)
    ensures InsertLogs(logs, a + b) == InsertLogs(InsertLogs(logs, a), b)
    decreases |a|
  {
    if a == [] {
      assert a + b == b;
    } else {
      assert (a + b)[1..] == a[1..] + b;
      InsertLogsAppend(InsertLog(logs, a[0]), a[1..], b);
    }
  }

  ghost predicate Names(events: seq<LogEvent>, k: Identity) {
    exists e :: e in events && IdentityOf(e) == k
  }

  lemma NamesFirst(events: seq<LogEvent>, k: Identity)
    requires events != []
    ensures Names(events, k) <==> IdentityOf(events[0]) == k || Names(events[1..], k)
  {
    assert events == [events[0]] + events[1..];
    assert events[0] in events;
    forall e | e in events[1..] ensures e in events {}
  }

  /** What a new row holds: the content and row id of one of the events offered under its identity, and the time. */
  predicate RowOf(k: Identity, row: BufferRow, events: seq<LogEvent>, firstId: nat, now: int) {
    && firstId <= row.id < firstId + |events| && row.createdAt == now
    && events[row.id - firstId] == EventOf(k, row.content)
  }

  lemma LaterRowOf(k: Identity, row: BufferRow, events: seq<LogEvent>, firstId: nat, now: int)
    requires events != [] && RowOf(k, row, events[1..], firstId + 1, now)
    ensures RowOf(k, row, events, firstId, now)
  {
    assert events[1..][row.id - firstId - 1] == events[row.id - firstId];
  }

  lemma {:induction false} BufferLogsExact(buffer: Buffer, events: seq<LogEvent>, firstId: nat, now: int)
    ensures forall k :: k in BufferLogs(buffer, events, firstId, now) <==> k in buffer || Names(events, k)
    ensures forall k :: k in buffer ==> BufferLogs(buffer, events, firstId, now)[k] == buffer[k]
    ensures forall k :: k in BufferLogs(buffer, events, firstId, now) && k !in buffer ==>
              RowOf(k, BufferLogs(buffer, events, firstId, now)[k], events, firstId, now)
    decreases |events|
  {
    if events != [] {
      var buffer1 := BufferLog(buffer, events[0], firstId, now);
      var after := BufferLogs(buffer1, events[1..], firstId + 1, now);
      BufferLogsExact(buffer1, events[1..], firstId + 1, now);
      assert after == BufferLogs(buffer, events, firstId, now);
      forall k ensures k in after <==> k in buffer || Names(events, k) { NamesFirst(events, k); }
      forall k | k in buffer1 && k !in buffer
        ensures RowOf(k, buffer1[k], events, firstId, now)
      {
      }
      hide RowOf, BufferLogs;
      forall k | k in after && k !in buffer1
        ensures RowOf(k, after[k], events, firstId, now)
      {
        LaterRowOf(k, after[k], events, firstId, now);
      }
    }
  }

  /** Every event goes exactly one way, and a resolved one carries its own run's id. */
  lemma {:induction false} ResolvedExact(runs: Runs, events: seq<LogEvent>)
    ensures forall r :: r in Resolved(runs, events) <==>
        r.event in events && r.event.job in runs && r.runId == runs[r.event.job]
    ensures forall e :: e in Unresolved(runs, events) <==> e in events && e.job !in runs
  {
    if events != [] {
      ResolvedExact(runs, events[1..]);
      assert events == [events[0]] + events[1..];
    }
  }

  lemma {:induction false} ResolvedAppend(runs: Runs, events: seq<LogEvent>, e: LogEvent)
    ensures Resolved(runs, events + [e])
            == Resolved(runs, events) + if e.job in runs then [ResolvedLog(e, runs[e.job])] else []
    ensures Unresolved(runs, events + [e]) == Unresolved(runs, events) + if e.job in runs then [] else [e]
  {
    if events != [] {
      ResolvedAppend(runs, events[1..], e);
      assert (events + [e])[1..] == events[1..] + [e];
    }
  }

  // ---- Looking runs up by printed key ----

  /** BullMQ rejects queue names that contain a colon. */
  predicate ColonFree(job: JobKey) {
    ':' !in job.queue
  }

  lemma JobTextInjective(a: JobKey, b: JobKey)
    requires ColonFree(a) && ColonFree(b) && JobText(a) == JobText(b)
    ensures a == b
  {
    Text.JobTextInjective(':', a.queue, a.jobId, a.timestamp, b.queue, b.jobId, b.timestamp);
  }

  /** In general two jobs print alike exactly when they have one timestamp and their joined names agree. */
  lemma PrintAlikeIff(a: JobKey, b: JobKey)
    ensures JobText(a) == JobText(b) <==>
            a.timestamp == b.timestamp && a.queue + [':'] + a.jobId == b.queue + [':'] + b.jobId
  {
    Text.JobTextAgreesIff(':', a.queue, a.jobId, a.timestamp, b.queue, b.jobId, b.timestamp);
  }

  /** For instance these two. */
  lemma ColonNamesCollide()
    ensures JobText(JobKey("a:b", "c", 5)) == JobText(JobKey("a", "b:c", 5))
  {
    assert "a:b" + [':'] + "c" == "a:b:c" == "a" + [':'] + "b:c";
    PrintAlikeIff(JobKey("a:b", "c", 5), JobKey("a", "b:c", 5));
  }

  /** The job that a map from printed keys to events ends up with: the last that prints so. */
  function LastPrinting(events: seq<LogEvent>, text: string): Option<JobKey> {
    if events == [] then None
    else if JobText(events[|events| - 1].job) == text then Some(events[|events| - 1].job)
    else LastPrinting(events[..|events| - 1], text)
  }

  function RunOf(runs: Runs, job: Option<JobKey>): Option<string> {
    if job.Some? && job.value in runs then Some(runs[job.value]) else None
  }

  lemma {:induction false} LastPrintingPrints(events: seq<LogEvent>, text: string)
    ensures LastPrinting(events, text).Some? ==>
              JobText(LastPrinting(events, text).value) == text
              && exists e :: e in events && e.job == LastPrinting(events, text).value
    ensures forall e :: e in events && JobText(e.job) == text ==> LastPrinting(events, text).Some?
  {
    if events != [] {
      hide JobText;
      var init, last := events[..|events| - 1], events[|events| - 1];
      LastPrintingPrints(init, text);
      assert events == init + [last];
    }
  }

  /** What the map from printed keys to run ids holds for an event's key. */
  function LookedUp(runs: Runs, events: seq<LogEvent>, job: JobKey): Option<string> {
    RunOf(runs, LastPrinting(events, JobText(job)))
  }

  ghost predicate EachFindsItsRun(runs: Runs, events: seq<LogEvent>) {
    forall e :: e in events ==> LookedUp(runs, events, e.job) == RunOf(runs, Some(e.job))
  }

  ghost predicate RunsPrintApart(runs: Runs, events: seq<LogEvent>) {
    forall e, f :: e in events && f in events && e.job in runs && JobText(e.job) == JobText(f.job) ==> e.job == f.job
  }

  lemma LastIsAnEvent(events: seq<LogEvent>, e: LogEvent) returns (f: LogEvent)
    requires e in events
    ensures f in events && JobText(f.job) == JobText(e.job)
    ensures LastPrinting(events, JobText(e.job)) == Some(f.job)
  {
    hide JobText;
    LastPrintingPrints(events, JobText(e.job));
    f :| f in events && f.job == LastPrinting(events, JobText(e.job)).value;
  }

  lemma AlikeFindOneRun(runs: Runs, events: seq<LogEvent>, e: LogEvent, f: LogEvent)
    requires forall x, y :: x in runs && y in runs && runs[x] == runs[y] ==> x == y
    requires LookedUp(runs, events, e.job) == RunOf(runs, Some(e.job))
    requires LookedUp(runs, events, f.job) == RunOf(runs, Some(f.job))
    requires JobText(e.job) == JobText(f.job) && e.job in runs
    ensures e.job == f.job
  {
    hide JobText, LastPrinting;
  }

  lemma ApartFindsItsRun(runs: Runs, events: seq<LogEvent>, e: LogEvent)
    requires RunsPrintApart(runs, events) && e in events
    ensures LookedUp(runs, events, e.job) == RunOf(runs, Some(e.job))
  {
    hide JobText, LastPrinting;
    var f := LastIsAnEvent(events, e);
  }

  /** Every event is given its own run, or none when it has none, exactly when no event whose job has a run prints like
      an event of another job. */
  lemma LookupIsOwnIff(runs: Runs, events: seq<LogEvent>)
    requires forall x, y :: x in runs && y in runs && runs[x] == runs[y] ==> x == y
    ensures EachFindsItsRun(runs, events) <==> RunsPrintApart(runs, events)
  {
    hide JobText, LookedUp, RunOf;
    if EachFindsItsRun(runs, events) {
      forall e, f | e in events && f in events && e.job in runs && JobText(e.job) == JobText(f.job)
        ensures e.job == f.job
      {
        AlikeFindOneRun(runs, events, e, f);
      }
    }
    if RunsPrintApart(runs, events) {
      forall e | e in events ensures LookedUp(runs, events, e.job) == RunOf(runs, Some(e.job)) {
        ApartFindsItsRun(runs, events, e);
      }
    }
  }

  /** With colon-free queue names that is always so. */
  lemma ColonFreeLookup(runs: Runs, events: seq<LogEvent>)
    requires forall x, y :: x in runs && y in runs && runs[x] == runs[y] ==> x == y
    requires forall e :: e in events ==> ColonFree(e.job)
    ensures EachFindsItsRun(runs, events)
  {
    hide JobText, EachFindsItsRun;
    forall e, f | e in events && f in events && JobText(e.job) == JobText(f.job)
      ensures e.job == f.job
    {
      JobTextInjective(e.job, f.job);
    }
    LookupIsOwnIff(runs, events);
  }

  /** The map from printed keys to wanted jobs, then the rows of job_runs for those jobs in the order the database gives
      them, and their ids by printed key. */
  method ResolveJobRunIds(runs: Runs, order: seq<JobKey>, events: seq<LogEvent>) returns (ids: map<string, string>)
    requires forall k :: k in order <==> k in runs
    ensures forall t :: (if t in ids then Some(ids[t]) else None) == RunOf(runs, LastPrinting(events, t))
  {
    hide JobText;
    var uniqueJobs: map<string, JobKey> := map[];
    for i := 0 to |events|
      invariant forall t :: (if t in uniqueJobs then Some(uniqueJobs[t]) else None) == LastPrinting(events[..i], t)
    {
      assert events[..i + 1][..i] == events[..i];
      uniqueJobs := uniqueJobs[JobText(events[i].job) := events[i].job];
    }
    assert events[..|events|] == events;
    forall t | t in uniqueJobs
      ensures JobText(uniqueJobs[t]) == t
    {
      LastPrintingPrints(events, t);
    }
    hide LastPrinting;
    ids := map[];
    for i := 0 to |order|
      invariant forall t :: t in ids ==> t in uniqueJobs && uniqueJobs[t] in runs && ids[t] == runs[uniqueJobs[t]]
      invariant forall j :: 0 <= j < i && order[j] in uniqueJobs.Values ==> JobText(order[j]) in ids
    {
      var key := order[i];
      assert key in order;
      if key in uniqueJobs.Values {
        ids := ids[JobText(key) := runs[key]];
      }
    }
    forall t | t in uniqueJobs && uniqueJobs[t] in runs
      ensures t in ids
    {
      assert uniqueJobs[t] in order && uniqueJobs[t] in uniqueJobs.Values;
    }
  }

  // ---- The database and the two callers ----

  class LogDatabase {
    var runs: Runs
    var logs: Logs
    var buffer: Buffer
    var nextRowId: nat

    constructor (runs: Runs)
      ensures this.runs == runs && logs == map[] && buffer == map[] && nextRowId == 0
    {
      this.runs, logs, buffer, nextRowId := runs, map[], map[], 0;
    }

    /** Sorted, then in chunks; each chunk is one statement. */
    method InsertResolvedLogs(events: seq<ResolvedLog>)
      modifies this`logs
      ensures logs == InsertLogs(old(logs), SortLogs(events))
    {
      hide SortLogs;
      var sorted := SortLogs(events);
      var i := 0;
      assert sorted[..0] == [];
      while i < |sorted|
        invariant 0 <= i <= |sorted|
        invariant logs == InsertLogs(old(logs), sorted[..i])
      {
        var end := if i + CHUNK < |sorted| then i + CHUNK else |sorted|;
        var chunk := sorted[i..end];
        InsertLogsAppend(old(logs), sorted[..i], chunk);
        assert sorted[..i] + chunk == sorted[..end];
        logs := InsertLogs(logs, chunk);
        i := end;
      }
      assert sorted[..|sorted|] == sorted;
    }

    method PersistLogEvents(events: seq<LogEvent>, now: int)
      modifies this
      ensures runs == old(runs)
      ensures logs == InsertLogs(old(logs), SortLogs(Resolved(runs, events)))
      ensures buffer == BufferLogs(old(buffer), Unresolved(runs, events), old(nextRowId), now)
      ensures nextRowId == old(nextRowId) + |Unresolved(runs, events)|
    {
      hide SortLogs, InsertLogs;
      var resolved: seq<ResolvedLog> := [];
      var unresolved: seq<LogEvent> := [];
      for i := 0 to |events|
        invariant runs == old(runs) && logs == old(logs) && buffer == old(buffer) && nextRowId == old(nextRowId)
        invariant resolved == Resolved(runs, events[..i]) && unresolved == Unresolved(runs, events[..i])
      {
        ResolvedAppend(runs, events[..i], events[i]);
        assert events[..i] + [events[i]] == events[..i + 1];
        if events[i].job in runs {
          resolved := resolved + [ResolvedLog(events[i], runs[events[i].job])];
        } else {
          unresolved := unresolved + [events[i]];
        }
      }
      assert events[..|events|] == events;
      InsertResolvedLogs(resolved);
      buffer := BufferLogs(buffer, unresolved, nextRowId, now);
      nextRowId := nextRowId + |unresolved|;
    }

    /** One resolver pass over the batch that the database returned as its oldest rows. */
    method ResolveBufferedJobLogs(batch: seq<Identity>)
      requires forall k :: k in batch ==> k in buffer
      modifies this`logs, this`buffer
      ensures (logs, buffer) == ResolverPass(runs, old(logs), old(buffer), batch)
    {
      hide SortLogs, InsertLogs, Resolved;
      var events := ReadRows(buffer, batch);
      var resolved := Resolved(runs, events);
      InsertResolvedLogs(resolved);
      buffer := DeleteRows(buffer, RowIds(buffer, resolved));
    }
  }

  function ReadRows(buffer: Buffer, batch: seq<Identity>): seq<LogEvent>
    requires forall k :: k in batch ==> k in buffer
  {
    seq(|batch|, i requires 0 <= i < |batch| => assert batch[i] in batch; EventOf(batch[i], buffer[batch[i]].content))
  }

  function RowIds(buffer: Buffer, resolved: seq<ResolvedLog>): set<nat> {
    set r | r in resolved && IdentityOf(r.event) in buffer :: buffer[IdentityOf(r.event)].id
  }

  function ResolverPass(runs: Runs, logs: Logs, buffer: Buffer, batch: seq<Identity>): (Logs, Buffer)
    requires forall k :: k in batch ==> k in buffer
  {
    var resolved := Resolved(runs, ReadRows(buffer, batch));
    (InsertLogs(logs, SortLogs(resolved)), DeleteRows(buffer, RowIds(buffer, resolved)))
  }
}
