# Better Bull Board: a verified model

Better Bull Board copies BullMQ job and log events from Redis Streams into Postgres, serves them through keyset-paged
queries and issues OAuth tokens for its MCP endpoint. This project models the parts of it whose correctness spans many
calls, and proves what they promise. `dafny verify dfyconfig.toml` checks everything.

| files | component |
|---|---|
| `StreamGroup`, `StaleConsumers`, `LogBuffer`, `LogPipeline`, `LogIngest`, `LogProgress`, `BufferDrain`, `LogIdentity`, `LogOwnership` | logs: stream, resolve, insert or buffer, acknowledge; removal of stale consumers; the background resolver; log identities |
| `JobRuns`, `JobUpsert`, `JobHistory`, `JobContent`, `BatchFold`, `JobStream`, `LockOrder` | job runs: event to row, dedupe, sort, guarded merge; whole histories; what a row tells; the stream; row locks |
| `KeysetPaging`, `JobsListing`, `QueuesListing` | cursor pagination of jobs and queues |
| `Scopes`, `OAuth`, `OAuthChecks`, `OAuthFamilies`, `OAuthGrants`, `OAuthRoundTrip`, `OAuthRevocation` | authorization-code and refresh-token grants (sections 4.1.2 and 6 of RFC 6749, section 4.6 of RFC 7636, section 2 of RFC 7009) |
| `WorkerPool`, `QueueRotation`, `RedisKey`, `DistributedLock`, `MasterElection`, `Throttle` | scheduling and concurrency |
| `Rollups`, `RollupContent`, `RunGraph`, `RollupHistory` | hourly rollups and the dashboard's sums and graph |
| `Common`, `Ordering`, `Text`, `Arithmetic`, `FiniteSets` | options, sorting, string order and decimal text, remainders, set sizes |

How the model is built:

- Concurrent components are state machines. A step is one Redis command or one SQL statement or transaction; a run is
  any sequence of enabled steps, and the main results hold in every state of every run. Crashes, redelivery
  (XAUTOCLAIM), overlapping resolvers, late replies and late timers are steps like any other.
- Components that update variables, maps or tables in place are classes or loops whose contracts give the new state as a
  function of the old one; the theorems are about those functions.
- Unique indexes are map keys. SQL statements are atomic; a transaction that fails leaves the tables as they were.
- Times are integer milliseconds. Strings have one total order (`Text.Less`). Random tokens are parameters: a draw that
  hits a unique index fails the transaction as it would in Postgres. SHA-256 is a constructor, so different texts have
  different digests.
- OAuth runs consist of single transactions and single statements, so the two statements of a revocation, and the check
  and the touch of a verification, may have others between them. Clients are never deleted or changed, so
  authenticating before a transaction is the same as inside it.

Where a property one would expect fails, the model keeps the code as it is, shows the failure and says exactly when the
property holds:

- A batch is not the fold of its rows, neither in status nor in tags: `BatchIsFoldIff`, with `CompletedThenActive` and
  `TaggedThenUntagged`.
- The `-`-joined dedupe key can lose a job: `AllJobsWrittenIff`, with `DashedNamesLoseAJob`.
- Old orphans can block the resolver: `AlwaysDrainsIff` and `CanDrainIff`, with `BlockedPasses` and `NeverRead`.
- A lock admits two bodies when one outlives its key, and, with every body in time, when two calls share an owner
  (`instanceId` owns a process's data clearing, dashboard rollups, job tags and queue tasks; job reconciliation and the
  buffer resolver append the time of the call): `ExcludesIff` and `ReleaseIsSafeIff`, with `OverstayBreaksExclusion`,
  `SharedOwnerBreaksExclusion` and `SharedOwnerSteals`.
- Two clients are master when one outlives its lease or when they share an id; a renewal whose PEXPIRE lands late reports
  success on another client's key: `ElectsIff`, with `MissedRenewalMakesTwoMasters`, `SharedIdMakesTwoMasters` and
  `LateExpireMakesTwoMasters`.
- A message overtaking its due timer is sent twice at once: `SpacedIff`, with `LateTimerSendsTwice`.
- A rollup bucket keeps what its hour's rows were at its last refresh: `BucketFreshIff`, with
  `LateCompletionStaysActive`.
- The dashboard's thirty-day view opens before the hours that thirty days of rollup retention keep, so runs of its first
  hours are counted nowhere while job_runs still has them: `WholeWindowAgreesIff`, with `RetentionHidesRun` and
  `ThirtyDayViewMissesRun`.
- Job keys joined with `:` can be one text for two jobs: `PrintAlikeIff` and `LookupIsOwnIff`, with `ColonNamesCollide`.
- A stale consumer that reads again between being listed and being removed loses what it took: `EntryLostIff`, with
  `CleanupLosesEntry`.
- Two workers can stamp different logs of one job alike, and one is dropped: `KeepsContentIff` and
  `ProcessesKeepContentIff`, with `TwoWorkersCollide`.
- Revoking a token that was rotated leaves its successor live: `RevocationEndsGrantIff`, with
  `RotatedRevocationLeavesSuccessor`.
- A worker pool without workers ends normally having run nothing: `SilentlySkipsIff`.

## Model

| member | source | states |
|---|---|---|
| LogPipeline.NoLogIsLost | apps/ingest/src/sync/log-buffer.ts:173-253 | in every reachable state, with crashes, redelivery and overlapping resolvers, each valid log event ever published is still deliverable, or its identity is buffered, or it is in job_logs under its run |
| LogPipeline.BufferRowDeletedOnlyWhenLogged | apps/ingest/src/sync/log-buffer.ts:209-270 | a buffer row disappears only in a step before which its job_logs row already existed |
| LogPipeline.LogsComeFromEvents | apps/ingest/src/sync/log-buffer.ts:98-142 | every job_logs row has the key and content of a published event of that very run |
| LogPipeline.LoggedContentIsOwn | apps/ingest/src/sync/log-buffer.ts:117-137 | when equal identities mean redelivery of one log, what is stored for an event is its own content |
| LogOwnership.KeepsContentIff | apps/ingest/src/sync/log-buffer.ts:117-137 | in every run over given events each keeps its own content iff no two of them share job, timestamp and sequence number |
| LogOwnership.ProcessesKeepContentIff | packages/client/src/lib/logger.ts:12-24 | with clocks that never return, that is iff no two processes stamp different logs of one job alike |
| LogOwnership.TwoWorkersCollide | packages/client/src/lib/logger.ts:12-24 | two workers whose first logs of one job fall into one millisecond: one of the logs is lost |
| LogPipeline.StepKeepsInv | apps/ingest/src/sync/log-stream.ts:94-126 | every step of every consumer and resolver keeps the pipeline invariant from which the four theorems follow |
| LogIngest.LogConsumer.ProcessMessages | apps/ingest/src/sync/log-stream.ts:94-126 | one batch: malformed messages are acknowledged and deleted at once, valid ones after the insert and the buffering of the rest; in the end its entries and no others have left the stream and the pending list |
| LogIngest.LogConsumer.AckAndDelete | apps/ingest/src/sync/log-stream.ts:73-77 | the ids and no others leave the pending list and the stream; nothing happens for an empty list |
| StreamGroup.ProcessedLeaves | apps/ingest/src/sync/log-stream.ts:73-126 | of both streams: dropping what does not parse and then what does is dropping the batch |
| LogIngest.UninterruptedRun | apps/ingest/src/sync/log-stream.ts:94-126 | a consumer going through its steps undisturbed, one insert statement per chunk, does what the sequential program does |
| LogIngest.ChunksExactly | apps/ingest/src/sync/log-buffer.ts:117-119 | one insert statement for every five hundred rows begun |
| LogProgress.CanBeHandedOut | apps/ingest/src/sync/log-stream.ts:128-158 | in any state a deliverable entry can be handed to any idle consumer |
| LogProgress.InsertShortens | apps/ingest/src/sync/log-buffer.ts:117-137 | each insert statement, of a consumer or a resolver, has between one and five hundred rows and leaves that many fewer |
| LogProgress.CallFinishes | apps/ingest/src/sync/log-stream.ts:94-126 | from any state a consumer that received something valid can go through all its steps, one insert statement per chunk |
| LogProgress.PassFinishes | apps/ingest/src/sync/log-buffer.ts:209-270 | from any state a resolver at rest can go through all its steps, and undisturbed it inserts the logs and deletes the rows that the sequential pass does |
| LogIngest.PersistedBatchIsSafe | apps/ingest/src/sync/log-buffer.ts:173-207 | after one uninterrupted call each event of the batch is in job_logs under its run, or in the buffer when it has no run |
| StaleConsumers.EntryLostIff | apps/ingest/src/sync/stream-consumers.ts:34-60 | in every state of every run an entry is lost (published, not acknowledged, handed to nobody again) iff some consumer was removed that took it while its name was on the list of stale ones, and still owned it |
| StaleConsumers.DropsIff | apps/ingest/src/sync/stream-consumers.ts:34-60 | a removal drops exactly the entries its consumer took since it was listed and has not given up |
| StaleConsumers.ListedIsIdle | apps/ingest/src/sync/stream-consumers.ts:4-48 | listed are exactly those who own nothing and were last seen an hour ago; none of them has read or claimed within the hour |
| StaleConsumers.NothingLost | apps/ingest/src/sync/stream-consumers.ts:34-60 | nothing is ever lost when listed consumers take nothing |
| StaleConsumers.CleanupLosesEntry | apps/ingest/src/sync/stream-consumers.ts:34-60 | a run of six steps: an idle consumer is listed, reads an entry, is removed, and the entry is lost |
| LogBuffer.LogDatabase.InsertResolvedLogs | apps/ingest/src/sync/log-buffer.ts:98-142 | inserting in chunks of 500 equals one insert of the whole sorted batch |
| LogBuffer.LogDatabase.PersistLogEvents | apps/ingest/src/sync/log-buffer.ts:173-207 | each event goes exactly one way: resolved ones into job_logs, the others into the buffer |
| LogBuffer.LogDatabase.ResolveBufferedJobLogs | apps/ingest/src/sync/log-buffer.ts:209-270 | one resolver pass: insert what now has a run, then delete exactly those buffer rows |
| LogBuffer.InsertLogsExact | apps/ingest/src/sync/log-buffer.ts:117-137 | conflict-do-nothing: a key is present afterwards iff it was before or was offered, stored rows never change, a new row has offered content |
| LogBuffer.BufferLogsExact | apps/ingest/src/sync/log-buffer.ts:144-171 | the buffer insert adds exactly the missing identities, each with the content of one of its events and the time of the insert, and keeps stored rows |
| LogBuffer.ResolvedExact | apps/ingest/src/sync/log-buffer.ts:182-192 | the batch is partitioned by whether the run is known, and a resolved event carries its own run id |
| LogBuffer.ResolveJobRunIds | apps/ingest/src/sync/log-buffer.ts:65-96 | for any names the loops over the printed keys compute one lookup: the run of the last event that prints the key, and none when that job has no run |
| LogBuffer.LookupIsOwnIff | apps/ingest/src/sync/log-buffer.ts:65-96 | every event of a batch finds its own run, or none when it has none, iff no event whose job has a run prints like an event of another job |
| LogBuffer.ColonFreeLookup | apps/ingest/src/sync/log-buffer.ts:65-96 | queue names without a colon are enough for that |
| LogBuffer.PrintAlikeIff | apps/ingest/src/sync/log-buffer.ts:29-30 | two jobs print the same key iff they have one timestamp and their joined queue and job names agree |
| LogBuffer.JobTextInjective | apps/ingest/src/sync/log-buffer.ts:29-30 | the colon-joined job key is injective when queue names hold no colon |
| LogBuffer.ColonNamesCollide | apps/ingest/src/sync/log-buffer.ts:29-30 | for instance queue a:b with job c, and queue a with job b:c |
| BufferDrain.PassLogs | apps/ingest/src/sync/log-buffer.ts:209-253 | a pass logs every resolvable row of its batch, keeps every stored log and adds nothing else |
| BufferDrain.PassBuffer | apps/ingest/src/sync/log-buffer.ts:240-253 | a pass deletes exactly the resolvable rows of its batch |
| BufferDrain.PassProgress | apps/ingest/src/sync/log-buffer.ts:209-253 | with fewer orphans than the batch size a pass removes at least the difference, or everything resolvable; orphans stay |
| BufferDrain.BufferDrains | apps/ingest/src/sync/log-buffer.ts:209-253 | after as many passes as there were resolvable rows only the orphans are left, and each of those rows is in job_logs under its run and a key of its own |
| BufferDrain.AlwaysDrainsIff | apps/ingest/src/sync/log-buffer.ts:213-214 | however the database breaks ties of age, the passes resolve everything iff every resolvable row has fewer orphans no younger than the batch size |
| BufferDrain.FewOrphansUnblock | apps/ingest/src/sync/log-buffer.ts:213-214 | fewer orphans than the batch size are enough for that, whatever their age |
| BufferDrain.CanDrainIff | apps/ingest/src/sync/log-buffer.ts:213-214 | some sequence of passes resolves everything iff every resolvable row has fewer strictly older orphans than the batch size |
| BufferDrain.NeverRead | apps/ingest/src/sync/log-buffer.ts:213-214 | a row with a whole batch of strictly older orphans waits through every sequence of passes |
| BufferDrain.OrphansBlock | apps/ingest/src/sync/log-buffer.ts:213-253 | with a whole batch of orphans older than every resolvable row a pass changes nothing |
| LogIdentity.LogClock.NextLogTimestamp | packages/client/src/lib/logger.ts:15-24 | returns the next stamp and steps the two module variables |
| LogIdentity.IncreasingIff | packages/client/src/lib/logger.ts:12-24 | one process's (ts, seq) pairs are strictly increasing lexicographically iff its clock never goes back |
| LogIdentity.DistinctIff | packages/client/src/lib/logger.ts:12-24 | whatever the clock does, the pairs are distinct iff it never returns to a reading it has left |
| LogIdentity.SeqCountsFromBlock | packages/client/src/lib/logger.ts:15-24 | the sequence number is the distance to the start of the block of equal readings |
| LogIdentity.OnlyRedeliveriesConflict | apps/ingest/src/sync/log-buffer.ts:117-137 | rows made of one process's logs conflict only when they are the same event again; whatever is stored before, an event ends up stored as itself iff its key was free or held its own content |
| JobUpsert.DedupeKeepsLast | apps/ingest/src/sync/job-upsert.ts:53-60 | dedupe keeps exactly the last row within retention of each printed key |
| JobUpsert.ValuesSorted | apps/ingest/src/sync/job-upsert.ts:53-71 | the statement writes distinct keys in strictly increasing (queue, jobId, enqueuedAt) order |
| JobUpsert.WrittenInOrder | apps/ingest/src/sync/job-upsert.ts:62-70 | column by column: by queue, then job id, then time of enqueueing |
| JobUpsert.GuardIsExact | apps/ingest/src/sync/job-upsert.ts:74-107 | the guarded merge equals the unguarded one, and the guard holds iff the merge would change the row |
| JobUpsert.UpsertAllRows | apps/ingest/src/sync/job-upsert.ts:109-146 | each key ends as the merge of what was stored with the one row written under it; other keys are untouched |
| JobUpsert.ReturnedExactly | apps/ingest/src/sync/job-upsert.ts:109-146 | the returned rows are exactly the inserted or changed ones, with their stored status |
| JobUpsert.JobRunsTable.UpsertJobRuns | apps/ingest/src/sync/job-upsert.ts:50-146 | the method with its Map loop, sort and statement computes the specified table and returned rows, with the cutoff of the retention setting |
| JobUpsert.WithDeadlockRetry | apps/ingest/src/sync/job-upsert.ts:11-33 | the operation is tried again only after deadlocks and at most the allowed number of times, after growing delays; its last outcome is what the caller sees |
| JobHistory.HistoryClosedForm | apps/ingest/src/sync/job-upsert.ts:74-141 | over any sequence of batches the stored row is the closed form of its history: last terminal status else last status, last non-empty tags else the first, last columns |
| JobHistory.TerminalIsSticky | apps/ingest/src/sync/job-upsert.ts:74-79 | a row is terminal at the end iff some written row was |
| JobHistory.ReorderingKeepsTerminal | apps/ingest/src/sync/job-upsert.ts:74-79 | reordering batches changes neither which rows exist nor which are terminal |
| JobHistory.FinishedEventSettlesRun | apps/ingest/src/sync/job-format.ts:45-59 | an event that says completed or failed, or that says nothing and has a finish time, once it survives its batch leaves the row of every event of its job terminal, whatever came before or after |
| JobHistory.SecondUpsertIsNoOp | apps/ingest/src/sync/job-upsert.ts:85-146 | the same batch again leaves the table as it is and returns nothing |
| JobHistory.AllJobsWrittenIff | apps/ingest/src/sync/job-upsert.ts:58-59 | every job of a batch within retention gets its row iff no two of them share a printed dedupe key |
| JobHistory.DashFreeQueuesInjective | apps/ingest/src/sync/job-upsert.ts:58-59 | dash-free queue names and times from 1970 on are enough for that |
| JobHistory.DashedNamesLoseAJob | apps/ingest/src/sync/job-upsert.ts:58-59 | two jobs whose names print alike: the first gets no row |
| JobContent.UpsertAddsRecent | apps/ingest/src/sync/job-upsert.ts:36-60 | where printed keys are injective an upsert leaves exactly the rows that were there and those of its runs created no earlier than now minus the retention; without a setting, or with 0, all of them |
| JobContent.WrittenIsRecent | apps/ingest/src/sync/job-upsert.ts:46-60 | nothing created before now minus the retention reaches the statement |
| JobContent.StatusTable | apps/ingest/src/sync/job-format.ts:27-59 | the status of every state, and of every phase and finish time when no state is named |
| JobContent.FormatsExactly | apps/ingest/src/sync/job-format.ts:61-107 | an event gives a row iff its job has an id, and each column holds its own field of the event |
| JobContent.LastEventIsTold | apps/ingest/src/sync/job-upsert.ts:72-141 | after any history of batches the row of the last event of a job holds that event column by column, except that an unfinished event leaves a finished status and an untagged one leaves the tags |
| JobContent.ConsumedEventIsTold | apps/ingest/src/sync/job-stream.ts:63-103 | at any moment of any interleaving a consumer that upserts leaves the last event of each job of its batch so told, unless it is past retention |
| BatchFold.BatchVersusOneByOne | apps/ingest/src/sync/job-upsert.ts:53-60 | one key, any batch, table and cutoff: the batch leaves the same row in every column as its rows one at a time iff statuses and tags agree (or, when another job took the key's printed text, the stored row absorbs them) |
| BatchFold.BatchIsFoldIff | apps/ingest/src/sync/job-upsert.ts:53-60 | a whole batch equals the fold of its single upserts iff every key's rows agree |
| BatchFold.InjectiveKeeps | apps/ingest/src/sync/job-upsert.ts:58-59 | with printed keys injective on the batch every key keeps its last row, so only statuses and tags decide |
| BatchFold.CompletedThenActive | apps/ingest/src/sync/job-upsert.ts:58-59 | the batch [completed, active] for a new key stores active, one by one completed |
| BatchFold.TaggedThenUntagged | apps/ingest/src/sync/job-upsert.ts:80-84 | an event without tags wipes an earlier event's tags in one batch; one by one they stay |
| JobStream.EventsLeaveOnlyWhenSettled | apps/ingest/src/sync/job-stream.ts:57-103 | in every reachable state, with retention deletes at any moment, a valid event no longer deliverable was skipped by an upsert whose cutoff it was past, or its row was in job_runs at some earlier state and is there still unless a retention delete newer than the row came since |
| JobStream.UpsertSettles | apps/ingest/src/sync/job-upsert.ts:43-60 | after an upsert every event of the batch has its row or was past retention, when the batch prints injectively |
| JobStream.DeletedRowIsOld | apps/ingest/src/repeats/clear-data.ts:20-25 | of all steps only a retention delete takes a row out of job_runs, and only a row older than its date |
| JobStream.DeletesExactly | apps/ingest/src/repeats/clear-data.ts:20-25 | a retention delete takes exactly the rows older than its date |
| JobStream.JobIngest.ProcessMessages | apps/ingest/src/sync/job-stream.ts:63-103 | one batch: invalid messages leave first, valid ones after the upsert of their rows; in the end its entries and no others have left the stream and the pending list |
| JobStream.JobIngest.AckAndDelete | apps/ingest/src/sync/job-stream.ts:57-61 | the ids and no others leave the pending list and the stream |
| JobStream.UninterruptedRun | apps/ingest/src/sync/job-stream.ts:63-103 | a consumer going through its steps undisturbed does what the sequential program does |
| JobStream.CallFinishes | apps/ingest/src/sync/job-stream.ts:63-103 | from any state a consumer that received something valid can go through those steps |
| JobStream.InvalidCallFinishes | apps/ingest/src/sync/job-stream.ts:96-100 | with nothing valid the call ends after the invalid entries have left, and writes nothing |
| JobStream.CanBeHandedOut | apps/ingest/src/sync/job-stream.ts:105-138 | in any state a deliverable entry can be handed to any idle consumer |
| LockOrder.DeadlockFree | apps/ingest/src/sync/job-upsert.ts:54-71 | any number of concurrent upserts and log inserts, whichever of their locks block each other: a state with an unfinished statement has one that can proceed |
| LockOrder.NoWaitCycle | apps/ingest/src/sync/log-buffer.ts:101-137 | the wait-for relation between upserts and log inserts never has a cycle |
| LockOrder.LogInsertOrdered | apps/ingest/src/sync/log-buffer.ts:101-137 | a chunk of sorted log rows, ties and repeated runs included, takes its log rows and then, through the foreign key, its runs in one strict order |
| LockOrder.LogInsertLocksItsRows | apps/ingest/src/sync/log-buffer.ts:117-137 | those are the log rows of the chunk and the runs of the rows it inserts, all of them |
| LockOrder.InsertedInOrder | apps/ingest/src/sync/log-buffer.ts:101-115 | column by column: by queue, job id and time of the job, then by time and sequence number of the log |
| LockOrder.UpsertOrdered | apps/ingest/src/sync/job-upsert.ts:54-71 | an upsert takes the runs of its batch in the same order |
| LockOrder.UpsertLocksItsRuns | apps/ingest/src/sync/job-upsert.ts:109-113 | those are the runs it writes, all of them |
| LockOrder.ProceedingFinishes | apps/ingest/src/sync/job-upsert.ts:109-146 | each lock taken or commit uses up one unit of remaining work, so finitely many statements finish |
| LockOrder.OppositeOrdersDeadlock | apps/ingest/src/sync/job-upsert.ts:62-71 | without the order two statements over the same two locks, holding one each, both wait iff each blocks the other |
| KeysetPaging.NextPageIsSlice | packages/core/src/jobs.ts:212-254 | any coherent listing: a page reached by next cursors is the slice of the sorted filtered table, cursors included |
| KeysetPaging.PrevPageIsSlice | packages/core/src/jobs.ts:212-254 | a previous cursor leads to the whole slice before |
| KeysetPaging.PageExactly | packages/core/src/jobs.ts:200-254 | any coherent listing, either direction, any cursor: the rows asked for nearest to the cursor, in display order, as many as fit |
| KeysetPaging.WalkListsTable | packages/core/src/jobs.ts:224-254 | on a fixed table the finished walk joined is the filtered table in order; rows still to come are the measure |
| KeysetPaging.NoKeyTwice | packages/core/src/jobs.ts:103-157 | whatever changes between fetches, returned sort keys strictly increase along a walk |
| KeysetPaging.StayingRowReturnedOnce | packages/core/src/jobs.ts:224-254 | whatever changes, a finished walk returns every row that stayed with its key exactly once |
| JobsListing.ListingCoherent | packages/core/src/jobs.ts:74-157 | in all eight combinations ORDER BY is a strict weak order that separates ids, and the cursor condition agrees with it |
| JobsListing.SameKeyMeansSameRun | packages/core/src/jobs.ts:67-101 | rows the order cannot tell apart have the same id and the same sort key |
| JobsListing.JobWalkListsTable | packages/core/src/jobs.ts:159-255 | paging refines slicing for jobs, for each sort key, direction and limit |
| JobsListing.JobPrevUndoesNext | packages/core/src/jobs.ts:212-254 | from any later page prev gives exactly the page before and its next cursor the original page |
| JobsListing.JobStaysReturnedOnce | packages/core/src/jobs.ts:103-157 | under inserts, deletes and updates a run that stays with its sort key is returned once with that key, and no id twice with one key |
| JobsListing.ListJobs | packages/core/src/jobs.ts:212-254 | the handler's pop, reverse and cursor steps compute the specified page |
| JobsListing.JobPageExactly | packages/core/src/jobs.ts:67-254 | for any table, filter and cursor: at most limit of the rows asked for, newest or longest first when descending and the other way round when ascending, ties by creation time, job id and id; what is left out is further from the cursor; the cursors are the columns of the last and first row, and the one ahead is there iff a row was left out |
| JobsListing.JobWalkInOrder | packages/core/src/jobs.ts:74-165 | a whole walk shows the rows that match in that order, each once |
| QueuesListing.ListingCoherent | packages/core/src/queues.ts:89-127 | the mixed-direction tie-break agrees with the cursor condition in all twelve combinations |
| QueuesListing.SameKeyMeansSameQueue | packages/core/src/queues.ts:109-127 | rows the order cannot tell apart are the same queue with the same sort value |
| QueuesListing.QueueWalkListsTable | packages/core/src/queues.ts:129-207 | paging refines slicing for queues, name ascending either way |
| QueuesListing.QueuePrevUndoesNext | packages/core/src/queues.ts:160-206 | prev undoes next for queues |
| QueuesListing.QueueStaysReturnedOnce | packages/core/src/queues.ts:89-127 | a queue whose sort value stays is returned once with it, and never twice with one value |
| QueuesListing.ListQueues | packages/core/src/queues.ts:129-207 | the handler computes the specified page, and fails iff a pressure sort gets a cursor without pressure |
| QueuesListing.QueuePageExactly | packages/core/src/queues.ts:66-207 | for any table, filter and cursor: at most limit of the rows asked for, by their waiting jobs, active jobs or pressure in the chosen direction and then by name ascending, with the cursors of the last and first row |
| QueuesListing.QueueWalkInOrder | packages/core/src/queues.ts:66-127 | a whole walk shows the queues that match in that order, each once |
| Scopes.ParseKeepsMeaning | apps/app/src/lib/mcp/oauth.ts:77-92 | a request is accepted iff it names bbb:read and only supported scopes; the printed form has the same scopes and parses to itself |
| Scopes.CanonicalWords | apps/app/src/lib/mcp/oauth.ts:91 | the printed scope splits back into the supported scopes in canonical order |
| Scopes.ParsesExactly | apps/app/src/lib/mcp/oauth.ts:77-92 | no scope asks for reading; which error a bad one gives; and the two strings that are printed |
| Scopes.SpacesByCode | apps/app/src/lib/mcp/oauth.ts:78 | white space, code point by code point |
| OAuth.OAuthServer.ExchangeCode | apps/app/src/lib/mcp/oauth.ts:340-380 | the transaction marks the code used first and every later failure restores it |
| OAuth.OAuthServer.ExchangeRefresh | apps/app/src/lib/mcp/oauth.ts:382-420 | the transaction rotates the one row its hash finds for the authenticated client, or changes nothing |
| OAuth.OAuthServer.Revoke | apps/app/src/lib/mcp/oauth.ts:448-455 | both statements of a revocation |
| OAuth.OAuthServer.Verify | apps/app/src/lib/mcp/oauth.ts:422-446 | the check of an access token and the touch of the row it found |
| OAuth.OAuthServer.RegisterClient | apps/app/src/lib/mcp/oauth.ts:163-173 | a new client id is inserted, an existing one is never replaced |
| OAuth.OAuthServer.CreateAuthorizationCode | apps/app/src/lib/mcp/oauth.ts:215-286 | a valid request inserts one unused code for its client, redirect, challenge, resource and canonical scope |
| OAuthChecks.AuthenticatesExactly | apps/app/src/lib/mcp/oauth.ts:192-213 | a client is authenticated iff it is registered and, unless it has none, presents the secret of the stored digest |
| OAuthChecks.AuthorizesExactly | apps/app/src/lib/mcp/oauth.ts:215-286 | a request is accepted iff each of its fields is as it has to be; the stored code lasts ten minutes; and which error each failed demand gives |
| OAuthChecks.ExchangeExactly | apps/app/src/lib/mcp/oauth.ts:340-380 | a code is exchanged iff an authentic client presents it unused and in time with its redirect URI, its verifier and no other resource; what changes, for how long the tokens last, and which error each failed demand gives |
| OAuthChecks.CodeIsBound | apps/app/src/lib/mcp/oauth.ts:346-372 | after any run a form with another client, redirect URI, resource or verifier is refused and changes nothing, under either challenge method |
| OAuthChecks.RefreshExactly | apps/app/src/lib/mcp/oauth.ts:382-420 | after any run a refresh is granted iff an authentic client presents, in time, the refresh token of an unrevoked row of its own; exactly that row is spent and linked; and which error each failed demand gives |
| OAuthChecks.OtherClientIsRefused | apps/app/src/lib/mcp/oauth.ts:388-401 | after any run another client's refresh token is refused and nothing changes |
| OAuthChecks.RevokesExactly | apps/app/src/lib/mcp/oauth.ts:448-455 | a revocation stamps exactly the rows whose access or refresh token is named |
| OAuthChecks.TouchesExactly | apps/app/src/lib/mcp/oauth.ts:436 | a verification stamps the use of its row and nothing else |
| OAuthChecks.FirstRegistrationStays | apps/app/src/lib/mcp/oauth.ts:163-173 | over every run a client id stands for its first registration |
| OAuthChecks.OnlyDigests | apps/app/src/lib/mcp/oauth.ts:273-322 | after any run only digests of codes and tokens are stored |
| OAuthFamilies.AcceptedRequest | apps/app/src/lib/mcp/oauth.ts:215-251 | an accepted request names a registered client and one of its redirect URIs and carries a canonical scope |
| OAuthFamilies.ExchangeEffect | apps/app/src/lib/mcp/oauth.ts:340-380 | a committed exchange used an unused code and added exactly one fresh token with the code's attributes |
| OAuthFamilies.RefreshEffect | apps/app/src/lib/mcp/oauth.ts:382-420 | a committed refresh spent and linked one unrevoked row and added exactly its successor |
| OAuthFamilies.StepKeepsInv | apps/app/src/lib/mcp/oauth.ts:294-455 | every transaction keeps all families linear, disjoint and covering, hashes unique and codes tied to clients |
| OAuthFamilies.FamiliesHold | apps/app/src/lib/mcp/oauth.ts:294-455 | that invariant after every run of transactions |
| OAuthGrants.FamilyIsLinear | apps/app/src/lib/mcp/oauth.ts:382-420 | a code's tokens form one chain: spent tokens name their successor, only the last may be unrevoked, all carry the code's client, subject, scope and resource |
| OAuthGrants.LinksAreAcyclic | apps/app/src/lib/mcp/oauth.ts:411-416 | following stored replacedByTokenId links never comes back |
| OAuthGrants.OneFirstToken | apps/app/src/lib/mcp/oauth.ts:346-366 | over every run at most one transaction exchanges a given code |
| OAuthGrants.UsedIffExchanged | apps/app/src/lib/mcp/oauth.ts:346-366 | a code is marked used iff some transaction exchanged it, and that transaction's token is the first of its family |
| OAuthGrants.NothingIsUndone | apps/app/src/lib/mcp/oauth.ts:294-455 | over any continuation revoked tokens stay revoked, links and families only grow, used codes stay used, attributes never change |
| OAuthGrants.DeadFamilyIsFinal | apps/app/src/lib/mcp/oauth.ts:448-455 | once every token of a family is revoked nothing later adds to it or revives one |
| OAuthRevocation.RevocationEndsGrantIff | apps/app/src/lib/mcp/oauth.ts:448-455 | revoking by a hash ends a code's whole grant iff its latest token was revoked already or is the one named; all earlier ones were revoked before |
| OAuthRevocation.RevokingAccessEndsGrantIff | apps/app/src/lib/mcp/oauth.ts:453 | through a family's access token the grant ends iff that token is the latest or the latest was revoked |
| OAuthRevocation.RevokingRefreshEndsGrantIff | apps/app/src/lib/mcp/oauth.ts:454 | the same through a refresh token |
| OAuthRevocation.RotatedRevocationLeavesSuccessor | apps/app/src/lib/mcp/oauth.ts:382-455 | after any run: a client refreshes a live token and then revokes the old access token; the new one is still accepted until it expires |
| OAuthRevocation.EndedGrantIsRefused | apps/app/src/lib/mcp/oauth.ts:382-455 | after any further transactions no access token of an ended grant is accepted and no refresh token of it exchanged |
| OAuthGrants.ReplayedRefreshIsRefused | apps/app/src/lib/mcp/oauth.ts:386-401 | a refresh token rotated once is refused ever after and its reuse changes nothing |
| OAuthGrants.ReplayedCodeIsRefused | apps/app/src/lib/mcp/oauth.ts:346-366 | a code exchanged once is refused ever after and its reuse changes nothing |
| OAuthRoundTrip.FirstTokenNeedsVerifier | apps/app/src/lib/mcp/oauth.ts:288-292 | over every run: no token descends from a code under the S256 challenge of a verifier unless that verifier was presented |
| OAuthGrants.AcceptedExactly | apps/app/src/lib/mcp/oauth.ts:422-446 | after any run an access token is accepted iff some row holds it unrevoked, unexpired and for the resource, and the grant is the last of its family |
| OAuthRoundTrip.GrantRoundTrip | apps/app/src/lib/mcp/oauth.ts:215-446 | after any run: an accepted request answered by its client with the verifier is exchanged exactly while the code is fresh, and the access token works for exactly one hour with the client, subject and scope of the request |
| OAuthRoundTrip.RefreshRoundTrip | apps/app/src/lib/mcp/oauth.ts:382-446 | after any run: a live token's refresh is exchanged exactly while it is fresh; then the old access token is refused at once and the new one works for its hour |
| OAuthRoundTrip.StoredTokenVerifies | apps/app/src/lib/mcp/oauth.ts:422-446 | a stored token is accepted for its resource exactly while unrevoked and unexpired, and grants its own client, scope and subject |
| OAuthRoundTrip.FirstTokenNeedsSecret | apps/app/src/lib/mcp/oauth.ts:192-213 | over every run: no token descends from a code of a client registered with a secret unless that secret was presented |
| WorkerPool.ClaimsAndBound | apps/ingest/src/lib/concurrency.ts:1-12 | over every interleaving runs begin in index order, none twice and only of non-empty items, and at most concurrency and at most n are in flight, on different items |
| WorkerPool.BoundIsReached | apps/ingest/src/lib/concurrency.ts:3 | with no empty item some run has the smaller of the two in flight |
| WorkerPool.EndedMeansAllRun | apps/ingest/src/lib/concurrency.ts:1-12 | with concurrency at least 1, all workers ending normally means exactly the truthy items have run; one ending means all were begun |
| WorkerPool.SilentlySkipsIff | apps/ingest/src/lib/concurrency.ts:3 | all workers can end normally with an item left out iff concurrency is not positive and there is something to run |
| WorkerPool.RunsAreShort | apps/ingest/src/lib/concurrency.ts:4-8 | every run has at most 3n + concurrency and at most 4n events |
| WorkerPool.EveryEventUsesUp | apps/ingest/src/lib/concurrency.ts:4-8 | every event lowers the remaining work |
| WorkerPool.UnsettledCanMove | apps/ingest/src/lib/concurrency.ts:4-8 | a worker that has not settled has a next event |
| WorkerPool.SharedPool.RunToAwait | apps/ingest/src/lib/concurrency.ts:4-8 | the worker's loop up to its next await claims the next truthy index, skipping falsy items, or ends |
| DistributedLock.ExcludesIff | apps/ingest/src/lib/distributed-lock.ts:4-64 | at most one body runs in every reachable state whose bodies overrun their keys by less than the slack, iff there is one call at most, or owners are distinct and the slack is not positive, or it leaves no time to run |
| DistributedLock.ExclusionNeedsDistinctOwners | apps/ingest/src/lib/distributed-lock.ts:46-64 | with bodies inside their time to live, exclusion holds iff the calls' owners are distinct |
| DistributedLock.SharedOwnerBreaksExclusion | apps/ingest/src/lib/distributed-lock.ts:25-27 | two calls of one owner: a late release deletes the second's key and a third acquisition runs beside it, both inside their time to live |
| DistributedLock.OverstayAdmitsSecond | apps/ingest/src/lib/distributed-lock.ts:46-64 | a body that overstays lets a second one in as soon as another call tries |
| DistributedLock.ReleaseIsSafeIff | apps/ingest/src/lib/distributed-lock.ts:4-27 | release never deletes another call's live key iff the calls' owners are distinct |
| DistributedLock.SharedOwnerSteals | apps/ingest/src/lib/distributed-lock.ts:25-27 | two calls of one owner: an overstayed release deletes the key of the second |
| DistributedLock.StagesInTurn | apps/ingest/src/lib/distributed-lock.ts:46-64 | over every run a body begins only after a try that found no live key, a release comes only after its body has ended, and each once |
| DistributedLock.LockKey.AcquireLock | apps/ingest/src/lib/distributed-lock.ts:11-23 | SET NX PX: succeeds iff no live key, and then holds it for the TTL |
| DistributedLock.LockKey.ReleaseLock | apps/ingest/src/lib/distributed-lock.ts:25-27 | deletes the key only when it is live and one's own |
| DistributedLock.LockKey.RenewLock | apps/ingest/src/lib/distributed-lock.ts:29-44 | refuses without change when not the owner; otherwise extends whatever key other clients have left by the later instant |
| MasterElection.ElectsIff | packages/client/src/lib/master.ts:3-69 | there is never a second master in reachable states whose believers overrun their leases by less than the slack, iff there is one client at most, or ids are distinct and the slack is not positive, or it leaves no time to be master |
| MasterElection.ElectionNeedsDistinctIds | packages/client/src/lib/master.ts:3-69 | with every renewal landing before the lease ran out, there is never a second master iff ids are distinct |
| MasterElection.AtMostOneLease | packages/client/src/lib/master.ts:3-69 | distinct ids: in every reachable state at most one client is inside a lease |
| MasterElection.SharedIdMakesTwoMasters | packages/client/src/lib/master.ts:30-34 | two clients of one id: the second reads its own id and extends, and both are inside a lease |
| MasterElection.NextKeepsInv | packages/client/src/lib/master.ts:18-38 | a client inside its lease owns the key for at least as long, under late replies, overlapping callbacks and late PEXPIREs of others |
| MasterElection.LapseAdmitsSecond | packages/client/src/lib/master.ts:31-37 | once a believer's key has run out the next acquisition makes a second master |
| MasterElection.LateExpireMakesTwoMasters | packages/client/src/lib/master.ts:31-34 | GET before and PEXPIRE after the expiry: the renewal returns true while another client holds the key |
| MasterElection.AnswersAssigned | packages/client/src/lib/master.ts:57-68 | over every run isMaster is assigned what the commands answered and nothing else, once for each answer |
| MasterElection.Client.Renew | packages/client/src/lib/master.ts:18-38 | one renewal, with any key other clients leave between its commands: extend what is there after reading one's own id, take a free key, else give up |
| QueueRotation.Rotation.SelectQueueBatch | apps/ingest/src/repeats/reconcile-jobs.ts:29-37 | the loop and the cursor update compute the specified batch and next cursor |
| QueueRotation.BatchIsDistinct | apps/ingest/src/repeats/reconcile-jobs.ts:29-37 | below the full list a tick picks limit different queues from any cursor |
| QueueRotation.BatchExactly | apps/ingest/src/repeats/reconcile-jobs.ts:29-37 | a tick picks the non-empty names at its places, and a short list whole |
| QueueRotation.TicksClosedForm | apps/ingest/src/repeats/reconcile-jobs.ts:32-35 | slot t of consecutive ticks is the name at (cursor + t) mod n |
| QueueRotation.BatchesAreTicks | apps/ingest/src/repeats/reconcile-jobs.ts:29-37 | below the full list the batches of m ticks in a row are those slots without empty names |
| QueueRotation.OncePerRound | apps/ingest/src/repeats/reconcile-jobs.ts:29-37 | any n consecutive slots, across ticks, name every queue exactly once |
| QueueRotation.CoversIff | apps/ingest/src/repeats/reconcile-jobs.ts:29-37 | m ticks, each a batch from the cursor the one before left, select every named queue iff each named queue lies within m * limit places of the cursor; a list no longer than the limit needs one tick |
| QueueRotation.AllNamedCoversIff | apps/ingest/src/repeats/reconcile-jobs.ts:29-37 | with no empty names that is iff m * limit reaches n, from any cursor |
| QueueRotation.CeilTicksCover | apps/ingest/src/repeats/reconcile-jobs.ts:29-37 | so m ticks in a row select every queue iff m is at least ceil(n / limit) |
| Throttle.EveryBroadcastIsServed | apps/ingest/src/lib/websocket-server.ts:139-168 | pending iff timer armed; sends and pending messages never outnumber broadcasts; every broadcast was followed by a send or its timer is due within a window |
| Throttle.SendsAreSpaced | apps/ingest/src/lib/websocket-server.ts:139-168 | if due timers fire before messages, two sends of a key are at least a window apart over the whole run |
| Throttle.SpacedIff | apps/ingest/src/lib/websocket-server.ts:139-168 | over every run sends of a key are at least a window apart iff no timer fired within a window of its key's last send |
| Throttle.LateTimerSendsTwice | apps/ingest/src/lib/websocket-server.ts:144-147 | a message overtaking its due timer is sent twice at one instant |
| Throttle.Broadcaster.Broadcast | apps/ingest/src/lib/websocket-server.ts:139-168 | the three maps after a broadcast |
| Throttle.Broadcaster.FireTimer | apps/ingest/src/lib/websocket-server.ts:156-164 | the three maps after a timer |
| Rollups.RollupTable.RefreshLastCompletedHour | apps/ingest/src/repeats/dashboard-rollups.ts:23-104 | delete, insert and retention delete of one transaction |
| Rollups.RefreshExact | apps/ingest/src/repeats/dashboard-rollups.ts:24-103 | a refresh makes the last complete hour fresh, drops what is past retention and touches nothing else |
| Rollups.RefreshTwice | apps/ingest/src/repeats/dashboard-rollups.ts:24-103 | refreshing again from the same rows changes nothing |
| Rollups.GroupsExact | apps/ingest/src/repeats/dashboard-rollups.ts:81-84 | the created_at range and grouping select exactly the rows of that hour's buckets |
| Rollups.AggregateSplits | apps/ingest/src/repeats/dashboard-rollups.ts:45-80 | aggregates over disjoint sets of buckets merge: counts and totals add, minima and maxima combine |
| Rollups.DurationsPresent | apps/ingest/src/repeats/dashboard-rollups.ts:57-66 | minimum, maximum and a positive count are there iff some completed run of the span has a duration |
| Rollups.DurationsBounded | apps/ingest/src/repeats/dashboard-rollups.ts:61-66 | minimum and maximum bound every such duration |
| Rollups.DurationsAttained | apps/ingest/src/repeats/dashboard-rollups.ts:61-66 | each of them is the duration of some run |
| Rollups.AverageIsBetween | apps/app/src/app/api/dashboard/summary/handler.ts:112-117 | the average duration lies between minimum and maximum |
| Rollups.CountsExact | apps/ingest/src/repeats/dashboard-rollups.ts:49-80 | the counts are the numbers of runs with each status and are consistent with each other |
| RollupContent.SpanSums | apps/ingest/src/repeats/dashboard-rollups.ts:47-80 | counts per status, and the sums and numbers of durations of completed runs and of delays from enqueueing to start of finished runs |
| RollupContent.StoredHour | apps/ingest/src/repeats/dashboard-rollups.ts:24-103 | a refresh in the hour after an hour leaves, per queue, a row with those sums of the runs created in that hour, and none when there were none |
| Rollups.RollupsAgree | apps/app/src/app/api/dashboard/summary/handler.ts:85-101 | with the hours of an aligned window fresh up to some hour and nothing stored from it on, sums, minima and maxima over the rollups are those of the raw rows up to that hour, for one queue or all, in any order; a queue is listed iff it has such a row |
| RollupHistory.BucketHolds | apps/ingest/src/repeats/dashboard-rollups.ts:24-103 | after any refreshes over a changing table a bucket holds the aggregate of its hour's last refresh |
| RollupHistory.BucketFreshIff | apps/ingest/src/repeats/dashboard-rollups.ts:24-103 | read at any later time a bucket is fresh iff its rows aggregate to what they did at its hour's last refresh |
| RollupHistory.CurrentHourIsMissing | apps/ingest/src/repeats/dashboard-rollups.ts:82-83 | no refresh up to now has stored the current hour |
| RollupHistory.DashboardAgrees | apps/app/src/app/api/dashboard/summary/handler.ts:45-101 | with the complete hours from `kept` on settled since their refresh, and those before dropped by retention, the dashboard's window ending now sums to the raw rows from `kept` up to the current hour |
| RollupHistory.WholeWindowAgreesIff | apps/app/src/app/api/dashboard/summary/handler.ts:45-101 | it sums to all raw rows of the window up to the current hour iff none of them was created in the dropped hours |
| RollupHistory.DashboardGraphAgrees | apps/app/src/app/api/dashboard/summary/handler.ts:123-170 | and its graph adds up to the number of raw rows from `kept` up to the current hour |
| RollupHistory.RetentionHidesRun | apps/ingest/src/repeats/dashboard-rollups.ts:98-103 | a raw row whose hour the last refresh put past retention is in no bucket |
| RollupHistory.ThirtyDayViewMissesRun | apps/app/src/app/api/dashboard/summary/handler.ts:48-58 | with thirty days of retention and a refresh in the current hour, from one o'clock UTC on, a run of the first hour of the thirty-day view is counted nowhere in it |
| RollupHistory.LateCompletionStaysActive | apps/ingest/src/repeats/dashboard-rollups.ts:82-83 | a run finished after its hour's refresh stays active in the rollups for good, whatever refreshes follow |
| RollupHistory.HourIsFrozen | apps/ingest/src/repeats/dashboard-rollups.ts:24-27 | once its hour is past no refresh touches a bucket that retention keeps |
| RunGraph.FillRunGraph | apps/app/src/app/api/dashboard/summary/handler.ts:159-170 | the loop pushes one point per step from an aligned start, each the row of its timestamp or zero |
| RunGraph.GraphKeepsTotal | apps/app/src/app/api/dashboard/summary/handler.ts:123-170 | no step is missing up to the window's end and the counts add up to the runs of the window |
| RunGraph.GraphCountsRawRuns | apps/app/src/app/api/dashboard/summary/handler.ts:123-170 | with buckets fresh up to an hour the hourly or daily graph adds up to the number of raw rows of the window before it |

## Left out

- LogBuffer.ResolveJobRunIds: the step machine of `LogPipeline` and the database methods look runs up by the exact job instead; by `LookupIsOwnIff` that is the same unless two jobs of a batch print alike, which colon-free queue names rule out and BullMQ enforces.
- LogPipeline.NoLogIsLost: assumes that job runs are never deleted (Postgres retention deletes and cascades remove logs on purpose; their effect on job runs is in `JobStream`) and that stale consumers are not removed (`StaleConsumers` says exactly which entries that loses).
- LogPipeline.StepKeepsInv: the in-process chain that runs one insert at a time is not enforced, so the model allows more interleavings than the code.
- JobStream.EventsLeaveOnlyWhenSettled: has no removal of stale consumers either, and assumes that each upserted batch prints injective dedupe keys; `AllJobsWrittenIff` shows that this is needed.
- JobHistory.TerminalIsSticky: covers upserts only; the `unknown` status written by the reconciler does not recheck the row's status and can overwrite a terminal one.
- MasterElection.ElectsIff: takes one TTL for all clients, as the worker passes it.
- Throttle.EveryBroadcastIsServed: takes a clock that does not go back and timers that do not fire early.
- RunGraph.FillRunGraph: is in UTC with integer steps; local time zones and daylight saving are not modelled.
- DistributedLock.LockKey.RenewLock: takes part in no run of `DistributedLock`, because no caller of the lock renews it.
- LogPipeline.LoggedContentIsOwn: needs identities to be unambiguous; `LogOwnership.KeepsContentIff` shows that this is exactly what is needed.
- JobsListing.ListJobs: takes the search, status, tag and date filters as one arbitrary condition on a row.
- QueuesListing.ListQueues: takes the joined counts and the pressure of a queue as columns of its row.
- JobRun: `enqueuedAt` and `createdAt` are integers, because the event-to-row map always sets both.
- LockOrder.DeadlockFree: covers the two statements that sort their rows; retention deletes lock job_runs rows in no particular order. A log row that another statement has committed is taken as locked too, which only adds waits.
- Chunks of the buffer insert and of large upserts, and the page limits enforced by request schemas.
- Redis, Postgres, BullMQ and drizzle internals, string collation, stream response parsing, JSON decoding and schema validation: messages are typed, well-formed or malformed.
- OAuth client registration metadata, redirect URI syntax, error redirects and origin inference.
- The endless read loops, job cancellation, stalled-job and redlock code, websocket connections, health servers, migrations, configuration and logging output.
- Averages, error rates and the ranking of queues in the dashboard: floating-point presentation of the sums proved here; the counts of currently active and waiting runs are plain table counts.
- Termination of a job or log consumer that never stops reading: no liveness is claimed beyond `BufferDrains`, `ProceedingFinishes`, `RunsAreShort` and that calls and passes can always be finished.
