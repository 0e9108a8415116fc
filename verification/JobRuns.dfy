/** The job_runs row and the map from a job event to it. */
module JobRuns {
  import opened Common

  datatype Status = Active | Completed | Failed | Waiting | Delayed | Prioritized | WaitingChildren | Unknown

  predicate Terminal(status: Status) {
    status.Completed? || status.Failed?
  }

  /** The unique index on job_runs. */
  datatype RunKey = RunKey(queue: string, jobId: string, enqueuedAt: int)

  /** Columns that an upsert always overwrites. JSON values are kept as text. */
  datatype Columns = Columns(
    name: Option<string>, attempt: int, maxAttempts: int, priority: Option<int>, delayMs: int,
    backoff: Option<string>, data: Option<string>, result: Option<string>,
    startedAt: Option<int>, finishedAt: Option<int>, createdAt: int,
    errorMessage: Option<string>, errorStack: Option<string>,
    parentJobId: Option<string>, repeatJobKey: Option<string>, workerId: Option<string>)

  datatype JobRun = JobRun(key: RunKey, status: Status, tags: Option<seq<string>>, columns: Columns)

  /** The serialised BullMQ job inside an event. */
  datatype JobSnapshot = JobSnapshot(
    id: Option<string>, name: Option<string>, timestamp: int, attemptsMade: int,
    attempts: Option<int>, priority: Option<int>, delay: Option<int>, backoff: Option<string>,
    data: Option<string>, returnvalue: Option<string>,
    processedOn: Option<int>, finishedOn: Option<int>,
    failedReason: Option<string>, stacktrace: Option<string>,
    parentId: Option<string>, repeatJobKey: Option<string>)

  datatype Phase = PhaseWaiting | PhaseActive | PhaseTerminal | PhaseSnapshot

  datatype JobEvent = JobEvent(
    workerId: Option<string>, queueName: string, job: JobSnapshot,
    tags: Option<seq<string>>, phase: Phase, state: Option<string>)

  datatype FormatError = JobIdRequired

  function BullStateToPersistedStatus(state: Option<string>): Option<Status> {
    if state.None? then None
    else if state.value == "completed" then Some(Completed)
    else if state.value == "failed" then Some(Failed)
    else if state.value == "active" then Some(Active)
    else if state.value == "waiting" then Some(Waiting)
    else if state.value == "delayed" then Some(Delayed)
    else if state.value == "prioritized" then Some(Prioritized)
    else if state.value == "waiting-children" then Some(WaitingChildren)
    else if state.value == "wait" || state.value == "paused" then Some(Waiting)
    else None
  }

  /** A JavaScript number or string is used as a condition: zero and "" count as absent. */
  predicate TruthyNumber(n: Option<int>) {
    n.Some? && n.value != 0
  }

  predicate TruthyText(s: Option<string>) {
    s.Some? && s.value != ""
  }

  function StatusFromSnapshot(event: JobEvent): Status {
    var persisted := BullStateToPersistedStatus(event.state);
    if persisted.Some? then persisted.value
    else if TruthyNumber(event.job.finishedOn) then
      if TruthyText(event.job.failedReason) then Failed else Completed
    else if event.phase.PhaseWaiting? then Waiting
    else Active
  }

  function FormatJobRun(event: JobEvent): Result<JobRun, FormatError> {
    var job := event.job;
    if !TruthyText(job.id) then Err(JobIdRequired)
    else Ok(JobRun(
      RunKey(event.queueName, job.id.value, job.timestamp),
      StatusFromSnapshot(event),
      // An omitted tags column takes its default, the empty array.
      Some(if event.tags.Some? then event.tags.value else []),
      Columns(
        job.name,
        job.attemptsMade,
        if job.attempts.Some? then job.attempts.value else 1,
        job.priority,
        if job.delay.Some? then job.delay.value else 0,
        job.backoff,
        job.data,
        job.returnvalue,
        if TruthyNumber(job.processedOn) then job.processedOn else None,
        if TruthyNumber(job.finishedOn) then job.finishedOn else None,
        job.timestamp,
        job.failedReason,
        job.stacktrace,
        job.parentId,
        job.repeatJobKey,
        event.workerId)))
  }

  /** Exactly which events are stored with a terminal status. */
  lemma TerminalEvents(event: JobEvent)
    ensures Terminal(StatusFromSnapshot(event)) <==>
            || event.state == Some("completed") || event.state == Some("failed")
            || (BullStateToPersistedStatus(event.state).None? && TruthyNumber(event.job.finishedOn))
    ensures StatusFromSnapshot(event) != Unknown
  {
  }

  /** Events of one BullMQ job, and only they, share a row. */
  lemma SameJobSameRow(a: JobEvent, b: JobEvent)
    requires FormatJobRun(a).Ok? && FormatJobRun(b).Ok?
    ensures FormatJobRun(a).value.key == FormatJobRun(b).value.key <==>
            a.queueName == b.queueName && a.job.id == b.job.id && a.job.timestamp == b.job.timestamp
  {
  }

  /** The columns of a row agree with each other: it was created when it was enqueued; without a persisted state it is
      terminal exactly when it has a finish time, and then failed exactly when it has an error message. */
  lemma FormattedRowIsConsistent(event: JobEvent)
    requires FormatJobRun(event).Ok?
    ensures var run := FormatJobRun(event).value;
            && run.columns.createdAt == run.key.enqueuedAt && run.key.jobId != "" && run.tags.Some?
            && (run.columns.finishedAt.Some? <==> TruthyNumber(event.job.finishedOn))
            && (run.columns.startedAt.Some? <==> TruthyNumber(event.job.processedOn))
            && (BullStateToPersistedStatus(event.state).None? ==>
                  && (Terminal(run.status) <==> run.columns.finishedAt.Some?)
                  && (Terminal(run.status) ==> (run.status.Failed? <==> TruthyText(run.columns.errorMessage))))
  {
  }
}
