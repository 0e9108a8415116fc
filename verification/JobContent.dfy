/** What ends up in job_runs, said of the events, the clock and the retention setting alone. */
module JobContent {
  import opened Common
  import opened JobRuns
  import opened JobUpsert
  import opened JobHistory
  import JobStream

  // ---- Which events are kept ----

  /** With a retention of d milliseconds a run is too old when it was created before now - d. No setting and 0 mean no
      retention, and so does a cutoff of exactly 0. */
  predicate TooOld(createdAt: int, now: int, autoDelete: Option<int>) {
    && autoDelete.Some? && autoDelete.value != 0 && now - autoDelete.value != 0
    && createdAt < now - autoDelete.value
  }

  ghost predicate RecentRun(runs: seq<JobRun>, k: RunKey, now: int, autoDelete: Option<int>) {
    exists r :: r in runs && r.key == k && !TooOld(r.columns.createdAt, now, autoDelete)
  }

  lemma RetentionExactly(run: JobRun, now: int, autoDelete: Option<int>)
    ensures WithinRetention(run, RetentionCutoff(now, autoDelete)) <==> !TooOld(run.columns.createdAt, now, autoDelete)
  {
  }

  /** Nothing too old reaches the statement, and what reaches it is from the batch. */
  lemma WrittenIsRecent(runs: seq<JobRun>, now: int, autoDelete: Option<int>, r: JobRun)
    requires r in Values(runs, RetentionCutoff(now, autoDelete))
    ensures r in runs && !TooOld(r.columns.createdAt, now, autoDelete)
  {
    var cutoff := RetentionCutoff(now, autoDelete);
    ValuesSorted(runs, cutoff);
    hide Values, RetentionCutoff, DedupeKey;
    LastWithExact(runs, cutoff, DedupeKey(r));
    RetentionExactly(r, now, autoDelete);
  }

  /** Where different jobs of the batch print differently, the statement adds exactly the runs that are not too old. */
  lemma UpsertAddsRecent(table: Table, runs: seq<JobRun>, now: int, autoDelete: Option<int>, k: RunKey)
    requires forall a, b :: a in runs && b in runs && DedupeKey(a) == DedupeKey(b) ==> a.key == b.key
    ensures k in UpsertBatch(table, runs, RetentionCutoff(now, autoDelete)).0 <==>
            k in table || RecentRun(runs, k, now, autoDelete)
  {
    var cutoff := RetentionCutoff(now, autoDelete);
    AllJobsWrittenIff(runs, cutoff);
    ValuesSorted(runs, cutoff);
    UpsertAllRows(table, Values(runs, cutoff));
    hide Values, UpsertAll, DedupeKey, RetentionCutoff, TooOld;
    assert KeysInjective(runs, cutoff);
    if Wrote(Values(runs, cutoff), k) {
      var v :| v in Values(runs, cutoff) && v.key == k;
      WrittenIsRecent(runs, now, autoDelete, v);
    }
    if RecentRun(runs, k, now, autoDelete) {
      var r :| r in runs && r.key == k && !TooOld(r.columns.createdAt, now, autoDelete);
      RetentionExactly(r, now, autoDelete);
      var i :| 0 <= i < |runs| && runs[i] == r;
      assert Wrote(Values(runs, cutoff), runs[i].key);
    }
  }

  // ---- What a row says ----

  /** Column by column, where each value of a row comes from. */
  predicate Tells(row: JobRun, event: JobEvent) {
    var job, columns := event.job, row.columns;
    && row.key.queue == event.queueName && job.id == Some(row.key.jobId) && row.key.enqueuedAt == job.timestamp
    && columns.createdAt == job.timestamp && columns.workerId == event.workerId
    && columns.name == job.name && columns.data == job.data && columns.result == job.returnvalue
    && columns.attempt == job.attemptsMade && columns.priority == job.priority && columns.backoff == job.backoff
    && columns.maxAttempts == (match job.attempts case Some(n) => n case None => 1)
    && columns.delayMs == (match job.delay case Some(n) => n case None => 0)
    && columns.errorMessage == job.failedReason && columns.errorStack == job.stacktrace
    && columns.parentJobId == job.parentId && columns.repeatJobKey == job.repeatJobKey
    && columns.startedAt == (if job.processedOn == Some(0) then None else job.processedOn)
    && columns.finishedAt == (if job.finishedOn == Some(0) then None else job.finishedOn)
  }

  /** Finished, going by the state the event names, or by its finish time when it names none that is known. */
  predicate Finished(event: JobEvent) {
    || event.state == Some("completed") || event.state == Some("failed")
    || (Unnamed(event.state) && event.job.finishedOn.Some? && event.job.finishedOn != Some(0))
  }

  predicate NoText(text: Option<string>) {
    text == None || text == Some("")
  }

  /** No state, or none that job_runs has a status for. */
  predicate Unnamed(state: Option<string>) {
    && state != Some("completed") && state != Some("failed") && state != Some("active") && state != Some("waiting")
    && state != Some("delayed") && state != Some("prioritized") && state != Some("waiting-children")
    && state != Some("wait") && state != Some("paused")
  }

  /** The status an event is stored with, state by state. */
  lemma StatusTable(event: JobEvent)
    ensures event.state == Some("completed") ==> StatusFromSnapshot(event) == Completed
    ensures event.state == Some("failed") ==> StatusFromSnapshot(event) == Failed
    ensures event.state == Some("active") ==> StatusFromSnapshot(event) == Active
    ensures event.state == Some("waiting") ==> StatusFromSnapshot(event) == Waiting
    ensures event.state == Some("wait") || event.state == Some("paused") ==> StatusFromSnapshot(event) == Waiting
    ensures event.state == Some("delayed") ==> StatusFromSnapshot(event) == Delayed
    ensures event.state == Some("prioritized") ==> StatusFromSnapshot(event) == Prioritized
    ensures event.state == Some("waiting-children") ==> StatusFromSnapshot(event) == WaitingChildren
    ensures Unnamed(event.state) && Finished(event) ==>
              StatusFromSnapshot(event) == if NoText(event.job.failedReason) then Completed else Failed
    ensures Unnamed(event.state) && !Finished(event) ==>
              StatusFromSnapshot(event) == if event.phase == PhaseWaiting then Waiting else Active
    ensures StatusFromSnapshot(event) in {Completed, Failed} <==> Finished(event)
  {
  }

  /** A job without an id gives no row; any other gives one that tells its event, with its status and tags. */
  lemma FormatsExactly(event: JobEvent)
    ensures FormatJobRun(event).Err? <==> NoText(event.job.id)
    ensures FormatJobRun(event).Ok? ==>
              var row := FormatJobRun(event).value;
              && Tells(row, event) && row.status == StatusFromSnapshot(event)
              && row.tags == Some(match event.tags case Some(tags) => tags case None => [])
  {
    hide StatusFromSnapshot;
  }

  /** From one table to the next the row of the event's job has come to tell the event. Its status is the event's,
      except that an unfinished event leaves a finished row finished; its tags are the event's, except that an event
      without tags leaves the row's. */
  predicate Told(before: Table, after: Table, event: JobEvent) {
    && event.job.id.Some?
    && var k := RunKey(event.queueName, event.job.id.value, event.job.timestamp);
       && k in after && Tells(after[k], event)
       && after[k].status == (if k in before && before[k].status in {Completed, Failed} && !Finished(event)
                              then before[k].status else StatusFromSnapshot(event))
       && after[k].tags == (match event.tags
                            case Some(tags) => if tags == [] && k in before then before[k].tags else Some(tags)
                            case None => if k in before then before[k].tags else Some([]))
  }

  /** Whatever was written before, the last event of a job is told. */
  lemma LastEventIsTold(table: Table, batches: seq<Batch>, last: Batch, event: JobEvent)
    requires FormatJobRun(event).Ok?
    requires Survivor(last, FormatJobRun(event).value.key) == Some(FormatJobRun(event).value)
    ensures Told(After(table, batches), After(table, batches + [last]), event)
  {
    assert (batches + [last])[..|batches|] == batches;
    hide FormatJobRun, Told, Survivor, UpsertBatch;
    SurvivorIsTold(After(table, batches), last, event);
  }

  lemma SurvivorIsTold(table: Table, batch: Batch, event: JobEvent)
    requires FormatJobRun(event).Ok?
    requires Survivor(batch, FormatJobRun(event).value.key) == Some(FormatJobRun(event).value)
    ensures Told(table, UpsertBatch(table, batch.runs, batch.cutoff).0, event)
  {
    var row := FormatJobRun(event).value;
    FormatsExactly(event);
    StatusTable(event);
    OneBatch(table, batch, row.key);
    assert Tells(row, event) ==> row.key == RunKey(event.queueName, event.job.id.value, event.job.timestamp);
    hide FormatJobRun, StatusFromSnapshot, Tells, Finished, Survivor, UpsertBatch;
    StoredTells(table, row, event);
  }

  /** The merge keeps what a row tells. */
  lemma StoredTells(table: Table, row: JobRun, event: JobEvent)
    requires Tells(row, event)
    ensures Tells(Stored(table, row), event)
    ensures Stored(table, row).status ==
            if row.key in table && table[row.key].status in {Completed, Failed} && row.status !in {Completed, Failed}
            then table[row.key].status else row.status
    ensures Stored(table, row).tags ==
            if row.key in table && row.tags in {None, Some([])} then table[row.key].tags else row.tags
  {
  }

  // ---- From the stream to the table ----

  lemma {:induction false} LastWithText(runs: seq<JobRun>, cutoff: Option<int>, i: nat)
    requires i < |runs| && WithinRetention(runs[i], cutoff)
    requires forall j :: i < j < |runs| && WithinRetention(runs[j], cutoff) ==> DedupeKey(runs[j]) != DedupeKey(runs[i])
    ensures LastWith(runs, cutoff, DedupeKey(runs[i])) == Some(runs[i])
    decreases |runs|
  {
    hide DedupeKey, WithinRetention;
    if i < |runs| - 1 {
      LastWithText(runs[..|runs| - 1], cutoff, i);
    }
  }

  lemma SurvivorOf(runs: seq<JobRun>, cutoff: Option<int>, row: JobRun)
    requires row in Values(runs, cutoff)
    ensures Survivor(Batch(runs, cutoff), row.key) == Some(row)
  {
    var values := Values(runs, cutoff);
    ValuesSorted(runs, cutoff);
    hide Values;
    FindKeyFinds(values, row.key);
    var i :| 0 <= i < |values| && values[i] == row;
    if v :| Survivor(Batch(runs, cutoff), row.key) == Some(v) {
      var j :| 0 <= j < |values| && values[j] == v;
    }
  }

  predicate SameJob(a: JobEvent, b: JobEvent) {
    a.queueName == b.queueName && a.job.id == b.job.id && a.job.timestamp == b.job.timestamp
  }

  /** One upsert of the rows of some events: the last event of each job is told, unless it is too old. */
  lemma BatchIsTold(
    table: Table, events: seq<JobEvent>, rows: seq<JobRun>, now: int, autoDelete: Option<int>, i: nat)
    requires |rows| == |events| && i < |events| && KeysInjective(rows, RetentionCutoff(now, autoDelete))
    requires forall j :: 0 <= j < |events| ==> FormatJobRun(events[j]) == Ok(rows[j])
    requires !TooOld(events[i].job.timestamp, now, autoDelete)
    requires forall j :: i < j < |events| ==> !SameJob(events[j], events[i])
    ensures Told(table, UpsertBatch(table, rows, RetentionCutoff(now, autoDelete)).0, events[i])
  {
    var cutoff := RetentionCutoff(now, autoDelete);
    RetentionExactly(rows[i], now, autoDelete);
    FormattedRowIsConsistent(events[i]);
    FormatsExactly(events[i]);
    forall j | i < j < |rows| && WithinRetention(rows[j], cutoff)
      ensures DedupeKey(rows[j]) != DedupeKey(rows[i])
    {
      SameJobSameRow(events[j], events[i]);
    }
    hide FormatJobRun, DedupeKey, UpsertBatch, Values, Survivor, RetentionCutoff, Told;
    LastWithText(rows, cutoff, i);
    ValuesSorted(rows, cutoff);
    SurvivorOf(rows, cutoff, rows[i]);
    SurvivorIsTold(table, Batch(rows, cutoff), events[i]);
  }

  /** So a consumer's upsert, at any moment of any interleaving, tells the last event of each job of its batch. */
  lemma ConsumedEventIsTold(
    s: JobStream.State, c: nat, now: int, autoDelete: Option<int>, events: seq<JobEvent>, i: nat)
    requires JobStream.Enabled(s, JobStream.Upsert(c, RetentionCutoff(now, autoDelete)))
    requires JobStream.InjectiveStep(s, JobStream.Upsert(c, RetentionCutoff(now, autoDelete)))
    requires |events| == |JobStream.At(s, c).ids| && i < |events|
    requires forall j :: 0 <= j < |events| ==> s.group.added[JobStream.At(s, c).ids[j]] == JobStream.Event(events[j])
    requires !TooOld(events[i].job.timestamp, now, autoDelete)
    requires forall j :: i < j < |events| ==> !SameJob(events[j], events[i])
    ensures Told(s.table, JobStream.Apply(s, JobStream.Upsert(c, RetentionCutoff(now, autoDelete))).table, events[i])
  {
    var ids := JobStream.At(s, c).ids;
    var rows := JobStream.Rows(s.group.added, ids);
    hide FormatJobRun, RetentionCutoff, UpsertBatch, Told;
    forall j | 0 <= j < |events|
      ensures FormatJobRun(events[j]) == Ok(rows[j])
    {
      assert ids[j] in ids;
    }
    BatchIsTold(s.table, events, rows, now, autoDelete, i);
  }
}
