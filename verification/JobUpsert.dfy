/** upsertJobRuns: dedupe a batch, sort it, and merge it into job_runs with sticky terminal status and tags. */
module JobUpsert {
  import opened Common
  import opened Ordering
  import opened JobRuns
  import Text

  type Table = map<RunKey, JobRun>

  /** What RETURNING gives for a row that was inserted or changed. */
  datatype Returned = Returned(key: RunKey, status: Status)

  // ---- Retention and dedupe ----

  function RetentionCutoff(now: int, autoDelete: Option<int>): Option<int> {
    if TruthyNumber(autoDelete) then Some(now - autoDelete.value) else None
  }

  predicate WithinRetention(run: JobRun, cutoff: Option<int>) {
    !TruthyNumber(cutoff) || run.columns.createdAt >= cutoff.value
  }

  function DedupeKey(run: JobRun): string {
    Text.JobText('-', run.key.queue, run.key.jobId, run.key.enqueuedAt)
  }

  /** Map.set on a list of entries in insertion order: an existing key keeps its place. */
  function Put(rows: seq<JobRun>, run: JobRun): seq<JobRun> {
    if rows == [] then [run]
    else if DedupeKey(rows[0]) == DedupeKey(run) then [run] + rows[1..]
    else [rows[0]] + Put(rows[1..], run)
  }

  function Dedupe(batch: seq<JobRun>, cutoff: Option<int>): seq<JobRun> {
    if batch == [] then []
    else
      var n := |batch| - 1;
      var earlier := Dedupe(batch[..n], cutoff);
      if WithinRetention(batch[n], cutoff) then Put(earlier, batch[n]) else earlier
  }

  predicate KeyBefore(a: RunKey, b: RunKey) {
    || Text.Less(a.queue, b.queue)
    || (a.queue == b.queue && Text.Less(a.jobId, b.jobId))
    || (a.queue == b.queue && a.jobId == b.jobId && a.enqueuedAt < b.enqueuedAt)
  }

  predicate RowBefore(a: JobRun, b: JobRun) {
    KeyBefore(a.key, b.key)
  }

  /** The rows of the INSERT statement, in the order they are written. */
  function Values(batch: seq<JobRun>, cutoff: Option<int>): seq<JobRun> {
    Sort(Dedupe(batch, cutoff), RowBefore)
  }

  /** The last row within retention that prints the dedupe key d. */
  function LastWith(batch: seq<JobRun>, cutoff: Option<int>, d: string): Option<JobRun> {
    if batch == [] then None
    else
      var n := |batch| - 1;
      if WithinRetention(batch[n], cutoff) && DedupeKey(batch[n]) == d then Some(batch[n])
      else LastWith(batch[..n], cutoff, d)
  }

  ghost predicate DistinctDedupeKeys(rows: seq<JobRun>) {
    forall i, j :: 0 <= i < j < |rows| ==> DedupeKey(rows[i]) != DedupeKey(rows[j])
  }

  ghost predicate DistinctKeys(rows: seq<JobRun>) {
    forall i, j :: 0 <= i < j < |rows| ==> rows[i].key != rows[j].key
  }

  lemma {:induction false} PutMembers(rows: seq<JobRun>, run: JobRun)
    requires DistinctDedupeKeys(rows)
    ensures DistinctDedupeKeys(Put(rows, run))
    ensures forall r :: r in Put(rows, run) <==> r == run || (r in rows && DedupeKey(r) != DedupeKey(run))
  {
    hide DedupeKey;
    if rows != [] {
      assert rows == [rows[0]] + rows[1..];
      PutMembers(rows[1..], run);
      if DedupeKey(rows[0]) != DedupeKey(run) {
        var rest := Put(rows[1..], run);
        forall j | 0 <= j < |rest| ensures DedupeKey(rows[0]) != DedupeKey(rest[j]) {
          assert rest[j] in rest;
        }
      }
    }
  }

  /** Dedupe keeps exactly the last row within retention of each printed key. */
  lemma {:induction false} DedupeKeepsLast(batch: seq<JobRun>, cutoff: Option<int>)
    ensures DistinctDedupeKeys(Dedupe(batch, cutoff))
    ensures forall r :: r in Dedupe(batch, cutoff) <==> LastWith(batch, cutoff, DedupeKey(r)) == Some(r)
  {
    if batch != [] {
      var n := |batch| - 1;
      DedupeKeepsLast(batch[..n], cutoff);
      if WithinRetention(batch[n], cutoff) {
        PutMembers(Dedupe(batch[..n], cutoff), batch[n]);
      }
    }
  }

  lemma KeyOrder(a: RunKey, b: RunKey, c: RunKey)
    ensures KeyBefore(a, b) ==> !KeyBefore(b, a)
    ensures KeyBefore(a, c) ==> KeyBefore(a, b) || KeyBefore(b, c)
    ensures a != b ==> KeyBefore(a, b) || KeyBefore(b, a)
    ensures KeyBefore(a, b) && KeyBefore(b, c) ==> KeyBefore(a, c)
  {
    Text.LessAsymmetric(a.queue, b.queue);
    Text.LessAsymmetric(a.jobId, b.jobId);
    Text.LessTotal(a.queue, b.queue);
    Text.LessTotal(b.queue, c.queue);
    Text.LessTotal(a.jobId, b.jobId);
    Text.LessTotal(b.jobId, c.jobId);
    Text.LessTransitive(a.queue, b.queue, c.queue);
    Text.LessTransitive(b.queue, a.queue, c.queue);
    Text.LessTransitive(a.jobId, b.jobId, c.jobId);
    Text.LessTransitive(b.jobId, a.jobId, c.jobId);
    Text.LessAsymmetric(a.queue, c.queue);
    Text.LessAsymmetric(a.jobId, c.jobId);
  }

  lemma RowsWeakOrder()
    ensures StrictWeakOrder(RowBefore)
  {
    forall a: JobRun, b: JobRun, c: JobRun
      ensures RowBefore(a, b) ==> !RowBefore(b, a)
      ensures RowBefore(a, c) ==> RowBefore(a, b) || RowBefore(b, c)
    {
      KeyOrder(a.key, b.key, c.key);
    }
  }

  /** The statement writes distinct keys in strictly increasing key order. So it never touches a row twice,
      and every batch takes its row locks in one global order. */
  lemma ValuesSorted(batch: seq<JobRun>, cutoff: Option<int>)
    ensures Sorted(Values(batch, cutoff), RowBefore)
    ensures DistinctKeys(Values(batch, cutoff))
    ensures forall r :: r in Values(batch, cutoff) <==> LastWith(batch, cutoff, DedupeKey(r)) == Some(r)
  {
    var rows := Dedupe(batch, cutoff);
    DedupeKeepsLast(batch, cutoff);
    RowsWeakOrder();
    forall i, j | 0 <= i < j < |rows| ensures RowBefore(rows[i], rows[j]) || RowBefore(rows[j], rows[i]) {
      KeyOrder(rows[i].key, rows[j].key, rows[i].key);
    }
    SortSorts(rows, RowBefore);
    SortKeeps(rows, RowBefore);
    var values := Values(batch, cutoff);
    forall i, j | 0 <= i < j < |values| ensures values[i].key != values[j].key {
      assert RowBefore(values[i], values[j]);
      KeyOrder(values[i].key, values[j].key, values[i].key);
    }
  }

  /** That order, column by column. */
  lemma WrittenInOrder(batch: seq<JobRun>, cutoff: Option<int>, i: nat, j: nat)
    requires i < j < |Values(batch, cutoff)|
    ensures var a, b := Values(batch, cutoff)[i].key, Values(batch, cutoff)[j].key;
            if a.queue != b.queue then Text.Less(a.queue, b.queue)
            else if a.jobId != b.jobId then Text.Less(a.jobId, b.jobId)
            else a.enqueuedAt < b.enqueuedAt
  {
    ValuesSorted(batch, cutoff);
    hide Values;
    var a, b := Values(batch, cutoff)[i], Values(batch, cutoff)[j];
    assert RowBefore(a, b);
    Text.LessAsymmetric(a.key.queue, a.key.queue);
    Text.LessAsymmetric(a.key.jobId, a.key.jobId);
  }

  // ---- Merge ----

  function StatusUpdate(stored: Status, excluded: Status): Status {
    if Terminal(stored) && !Terminal(excluded) then stored else excluded
  }

  predicate Tagged(tags: Option<seq<string>>) {
    tags.Some? && |tags.value| > 0
  }

  function TagsUpdate(stored: Option<seq<string>>, excluded: Option<seq<string>>): Option<seq<string>> {
    if Tagged(excluded) then excluded else stored
  }

  function Merge(stored: JobRun, excluded: JobRun): JobRun {
    excluded.(status := StatusUpdate(stored.status, excluded.status), tags := TagsUpdate(stored.tags, excluded.tags))
  }

  /** The update filter: one IS DISTINCT FROM per column. */
  predicate SetWhere(stored: JobRun, excluded: JobRun) {
    var s, e := stored.columns, excluded.columns;
    || s.attempt != e.attempt
    || s.startedAt != e.startedAt
    || s.finishedAt != e.finishedAt
    || s.errorMessage != e.errorMessage
    || s.errorStack != e.errorStack
    || s.result != e.result
    || s.backoff != e.backoff
    || s.createdAt != e.createdAt
    || s.data != e.data
    || s.priority != e.priority
    || s.delayMs != e.delayMs
    || s.repeatJobKey != e.repeatJobKey
    || s.parentJobId != e.parentJobId
    || s.workerId != e.workerId
    || stored.key.enqueuedAt != excluded.key.enqueuedAt
    || stored.key.jobId != excluded.key.jobId
    || s.maxAttempts != e.maxAttempts
    || stored.key.queue != excluded.key.queue
    || s.name != e.name
    || stored.tags != TagsUpdate(stored.tags, excluded.tags)
    || stored.status != StatusUpdate(stored.status, excluded.status)
  }

  /** The filter skips an update exactly when the update would change nothing. */
  lemma GuardIsExact(stored: JobRun, excluded: JobRun)
    ensures SetWhere(stored, excluded) <==> Merge(stored, excluded) != stored
  {
  }

  function UpsertRow(table: Table, row: JobRun): (Table, seq<Returned>) {
    if row.key !in table then
      (table[row.key := row], [Returned(row.key, row.status)])
    else if SetWhere(table[row.key], row) then
      var merged := Merge(table[row.key], row);
      (table[row.key := merged], [Returned(row.key, merged.status)])
    else
      (table, [])
  }

  function UpsertAll(table: Table, rows: seq<JobRun>): (Table, seq<Returned>)
    decreases |rows|
  {
    if rows == [] then (table, [])
    else
      var (t1, r1) := UpsertRow(table, rows[0]);
      var (t2, r2) := UpsertAll(t1, rows[1..]);
      (t2, r1 + r2)
  }

  function UpsertBatch(table: Table, batch: seq<JobRun>, cutoff: Option<int>): (Table, seq<Returned>) {
    UpsertAll(table, Values(batch, cutoff))
  }

  /** The same without the filter: what a plain ON CONFLICT DO UPDATE would store under a row's key. */
  function Stored(table: Table, row: JobRun): JobRun {
    if row.key in table then Merge(table[row.key], row) else row
  }

  ghost predicate Wrote(rows: seq<JobRun>, key: RunKey) {
    exists r :: r in rows && r.key == key
  }

  lemma WroteFirst(rows: seq<JobRun>, key: RunKey)
    requires rows != []
    ensures Wrote(rows, key) <==> key == rows[0].key || Wrote(rows[1..], key)
  {
    assert rows == [rows[0]] + rows[1..];
    assert rows[0] in rows;
    forall r | r in rows[1..] ensures r in rows {}
  }

  /** The guarded merge equals the unguarded one: the statement stores Stored(row) under each key it writes. */
  lemma {:induction false} UpsertAllRows(table: Table, rows: seq<JobRun>)
    requires DistinctKeys(rows)
    ensures forall i :: 0 <= i < |rows| ==>
              rows[i].key in UpsertAll(table, rows).0 && UpsertAll(table, rows).0[rows[i].key] == Stored(table, rows[i])
    ensures forall k :: k in UpsertAll(table, rows).0 <==> k in table || Wrote(rows, k)
    ensures forall k :: k in table && !Wrote(rows, k) ==> UpsertAll(table, rows).0[k] == table[k]
    decreases |rows|
  {
    if rows != [] {
      var row, rest := rows[0], rows[1..];
      var t1 := UpsertRow(table, row).0;
      GuardIsExact(if row.key in table then table[row.key] else row, row);
      assert t1 == table[row.key := Stored(table, row)];
      UpsertAllRows(t1, rest);
      assert UpsertAll(table, rows).0 == UpsertAll(t1, rest).0;
      assert !Wrote(rest, row.key);
      forall k ensures Wrote(rows, k) <==> k == row.key || Wrote(rest, k) { WroteFirst(rows, k); }
      forall i | 0 <= i < |rest| ensures rest[i] == rows[i + 1] && Stored(t1, rest[i]) == Stored(table, rest[i]) {
        assert rows[i + 1].key != rows[0].key;
      }
      forall i | 1 <= i < |rows| ensures rows[i] == rest[i - 1] {}
    }
  }

  /** RETURNING lists exactly the rows that were inserted or changed, with the status now stored. */
  lemma {:induction false} ReturnedExactly(table: Table, rows: seq<JobRun>, x: Returned)
    requires DistinctKeys(rows)
    ensures var (after, returned) := UpsertAll(table, rows);
            x in returned <==>
            && Wrote(rows, x.key) && x.key in after && after[x.key].status == x.status
            && (x.key !in table || after[x.key] != table[x.key])
    decreases |rows|
  {
    UpsertAllRows(table, rows);
    if rows != [] {
      var row, rest := rows[0], rows[1..];
      var (t1, r1) := UpsertRow(table, row);
      GuardIsExact(if row.key in table then table[row.key] else row, row);
      assert t1 == table[row.key := Stored(table, row)];
      ReturnedExactly(t1, rest, x);
      UpsertAllRows(t1, rest);
      WroteFirst(rows, x.key);
      assert !Wrote(rest, row.key);
      assert UpsertAll(table, rows).1 == r1 + UpsertAll(t1, rest).1;
    }
  }

  // ---- The writer ----

  class JobRunsTable {
    var rows: Table

    constructor ()
      ensures rows == map[]
    {
      rows := map[];
    }

    /** Fill the dedupe map, sort its values, and write them in one statement. */
    method UpsertJobRuns(runs: seq<JobRun>, now: int, autoDelete: Option<int>) returns (inserted: seq<Returned>)
      modifies this
      ensures (rows, inserted) == UpsertBatch(old(rows), runs, RetentionCutoff(now, autoDelete))
    {
      var cutoff := RetentionCutoff(now, autoDelete);
      hide UpsertAll, DedupeKey, WithinRetention;
      var deduped: seq<JobRun> := [];
      for i := 0 to |runs|
        invariant deduped == Dedupe(runs[..i], cutoff)
      {
        assert runs[..i + 1][..i] == runs[..i];
        if !WithinRetention(runs[i], cutoff) {
          continue;
        }
        deduped := Put(deduped, runs[i]);
      }
      assert runs[..|runs|] == runs;
      var values := Sort(deduped, RowBefore);
      var (table, returned) := UpsertAll(rows, values);
      rows, inserted := table, returned;
    }
  }

  // ---- Retrying after a deadlock ----

  /** What one attempt of the statement does; a deadlocked statement has been rolled back. */
  datatype Attempt = Committed | Deadlock | Failure(code: string)

  /** withDeadlockRetry over the outcomes the database will give: the first attempt that is not a deadlock decides,
      and only `tries` attempts are made. Before each further attempt it waits 25 ms for each attempt made, and a draw
      below 50 on top. */
  method WithDeadlockRetry(attempts: seq<Attempt>, draws: seq<nat>, tries: nat)
    returns (outcome: Attempt, made: nat, delays: seq<int>)
    requires 1 <= tries <= |attempts| && |draws| == |attempts| && forall i :: 0 <= i < |draws| ==> draws[i] < 50
    ensures 1 <= made <= tries && outcome == attempts[made - 1]
    ensures forall i :: 0 <= i < made - 1 ==> attempts[i].Deadlock?
    ensures outcome.Deadlock? ==> made == tries
    ensures |delays| == made - 1
    ensures forall i :: 0 <= i < |delays| ==> 25 * (i + 1) <= delays[i] < 25 * (i + 1) + 50
  {
    outcome, made, delays := Deadlock, 0, [];
    for i := 0 to tries
      invariant made == i && (made > 0 ==> outcome == attempts[made - 1])
      invariant forall j :: 0 <= j < i ==> attempts[j].Deadlock?
      invariant |delays| == if i < tries then i else tries - 1
      invariant forall j :: 0 <= j < |delays| ==> 25 * (j + 1) <= delays[j] < 25 * (j + 1) + 50
    {
      outcome, made := attempts[i], i + 1;
      if !attempts[i].Deadlock? {
        return;
      }
      if i < tries - 1 {
        delays := delays + [25 * (i + 1) + draws[i]];
      }
    }
  }
}
