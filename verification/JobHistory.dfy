/** What whole histories of upsert batches leave in job_runs. */
module JobHistory {
  import opened Common
  import opened JobRuns
  import opened JobUpsert
  import Text

  datatype Batch = Batch(runs: seq<JobRun>, cutoff: Option<int>)

  function After(table: Table, batches: seq<Batch>): Table {
    if batches == [] then table
    else
      var n := |batches| - 1;
      UpsertBatch(After(table, batches[..n]), batches[n].runs, batches[n].cutoff).0
  }

  function FindKey(rows: seq<JobRun>, key: RunKey): Option<JobRun> {
    if rows == [] then None
    else if rows[0].key == key then Some(rows[0])
    else FindKey(rows[1..], key)
  }

  /** The row of the batch that reaches the table under the key, if any. */
  function Survivor(batch: Batch, key: RunKey): Option<JobRun> {
    FindKey(Values(batch.runs, batch.cutoff), key)
  }

  /** Everything ever written under the key: the row stored at the start, then each batch's survivor. */
  function History(table: Table, batches: seq<Batch>, key: RunKey): seq<JobRun> {
    if batches == [] then (if key in table then [table[key]] else [])
    else
      var n := |batches| - 1;
      var survivor := Survivor(batches[n], key);
      History(table, batches[..n], key) + (if survivor.Some? then [survivor.value] else [])
  }

  function LastTerminal(history: seq<JobRun>): Option<Status> {
    if history == [] then None
    else
      var n := |history| - 1;
      if Terminal(history[n].status) then Some(history[n].status) else LastTerminal(history[..n])
  }

  function LastTags(history: seq<JobRun>): Option<seq<string>>
    requires history != []
  {
    var n := |history| - 1;
    if n == 0 || Tagged(history[n].tags) then history[n].tags else LastTags(history[..n])
  }

  /** The closed form: the last terminal status, else the last status; the last non-empty tags, else the first
      row's; every other column from the last row. */
  function Final(history: seq<JobRun>): JobRun
    requires history != []
  {
    var last := history[|history| - 1];
    var terminal := LastTerminal(history);
    JobRun(last.key, if terminal.Some? then terminal.value else last.status, LastTags(history), last.columns)
  }

  lemma {:induction false} FindKeyFinds(rows: seq<JobRun>, key: RunKey)
    ensures FindKey(rows, key).Some? <==> Wrote(rows, key)
    ensures FindKey(rows, key).Some? ==> FindKey(rows, key).value in rows && FindKey(rows, key).value.key == key
  {
    if rows != [] {
      FindKeyFinds(rows[1..], key);
      WroteFirst(rows, key);
    }
  }

  lemma {:induction false} LastTerminalExact(history: seq<JobRun>)
    ensures LastTerminal(history).Some? <==> exists r :: r in history && Terminal(r.status)
    ensures LastTerminal(history).Some? ==> Terminal(LastTerminal(history).value)
  {
    if history != [] {
      var n := |history| - 1;
      LastTerminalExact(history[..n]);
      assert history == history[..n] + [history[n]];
    }
  }

  /** One more merge extends the closed form by one row. */
  lemma FinalStep(history: seq<JobRun>, next: JobRun)
    requires history != []
    ensures Merge(Final(history), next) == Final(history + [next])
  {
    LastTerminalExact(history);
    var longer := history + [next];
    assert longer[..|longer| - 1] == history;
    assert history[|history| - 1] in history;
  }

  /** What one batch does to one key. */
  lemma OneBatch(table: Table, batch: Batch, key: RunKey)
    ensures var after := UpsertBatch(table, batch.runs, batch.cutoff).0;
            match Survivor(batch, key)
            case Some(row) => key in after && after[key] == Stored(table, row) && row.key == key
            case None => (key in after <==> key in table) && (key in table ==> after[key] == table[key])
  {
    hide Stored, Values;
    var values := Values(batch.runs, batch.cutoff);
    ValuesSorted(batch.runs, batch.cutoff);
    UpsertAllRows(table, values);
    FindKeyFinds(values, key);
    if row :| Survivor(batch, key) == Some(row) {
      var i :| 0 <= i < |values| && values[i] == row;
    }
  }

  /** After any sequence of batches, from any table, each row is the closed form of its history. */
  lemma {:induction false} HistoryClosedForm(table: Table, batches: seq<Batch>, key: RunKey)
    ensures key in After(table, batches) <==> History(table, batches, key) != []
    ensures key in After(table, batches) ==> After(table, batches)[key] == Final(History(table, batches, key))
  {
    hide UpsertBatch, Survivor, Merge, Final;
    if batches == [] {
      if key in table { SingleRowFinal(table[key]); }
    } else {
      var n := |batches| - 1;
      var history := History(table, batches[..n], key);
      HistoryClosedForm(table, batches[..n], key);
      OneBatch(After(table, batches[..n]), batches[n], key);
      match Survivor(batches[n], key)
      case None =>
        assert history + [] == history;
      case Some(row) =>
        if history != [] {
          FinalStep(history, row);
        } else {
          assert history + [row] == [row];
          SingleRowFinal(row);
        }
    }
  }

  lemma SingleRowFinal(row: JobRun)
    ensures Final([row]) == row
  {
    var h := [row];
    assert h[..0] == [] && LastTerminal(h[..0]) == None;
    assert LastTags(h) == row.tags;
    assert Final(h).status == row.status;
  }

  lemma {:induction false} HistoryMembers(table: Table, batches: seq<Batch>, key: RunKey)
    ensures forall r :: r in History(table, batches, key) <==>
              (key in table && r == table[key]) || exists b :: b in batches && Survivor(b, key) == Some(r)
  {
    if batches != [] {
      var n := |batches| - 1;
      HistoryMembers(table, batches[..n], key);
      assert batches == batches[..n] + [batches[n]];
      forall r | exists b :: b in batches && Survivor(b, key) == Some(r)
        ensures Survivor(batches[n], key) == Some(r) || exists b :: b in batches[..n] && Survivor(b, key) == Some(r)
      {
        var b :| b in batches && Survivor(b, key) == Some(r);
      }
    }
  }

  /** A row is terminal at the end exactly when some written row was: nothing un-finishes a run. */
  lemma TerminalIsSticky(table: Table, batches: seq<Batch>, key: RunKey)
    requires key in After(table, batches)
    ensures Terminal(After(table, batches)[key].status) <==>
            || (key in table && Terminal(table[key].status))
            || exists b :: b in batches && Survivor(b, key).Some? && Terminal(Survivor(b, key).value.status)
  {
    var history := History(table, batches, key);
    HistoryClosedForm(table, batches, key);
    HistoryMembers(table, batches, key);
    LastTerminalExact(history);
    assert history[|history| - 1] in history;
    if r :| r in history && Terminal(r.status) {
      if !(key in table && r == table[key]) {
        var b :| b in batches && Survivor(b, key) == Some(r);
      }
    }
    forall b | b in batches && Survivor(b, key).Some? ensures Survivor(b, key).value in history {}
  }

  /** Reordering the batches can change neither which rows exist nor which of them are terminal. */
  lemma ReorderingKeepsTerminal(table: Table, batches: seq<Batch>, reordered: seq<Batch>, key: RunKey)
    requires multiset(batches) == multiset(reordered)
    ensures key in After(table, batches) <==> key in After(table, reordered)
    ensures key in After(table, batches) ==>
              (Terminal(After(table, batches)[key].status) <==> Terminal(After(table, reordered)[key].status))
  {
    forall b: Batch ensures b in batches <==> b in reordered {
      assert b in batches <==> b in multiset(batches);
      assert b in reordered <==> b in multiset(reordered);
    }
    HistoryMembers(table, batches, key);
    HistoryMembers(table, reordered, key);
    HistoryClosedForm(table, batches, key);
    HistoryClosedForm(table, reordered, key);
    var h, g := History(table, batches, key), History(table, reordered, key);
    assert forall r :: r in h <==> r in g;
    assert h != [] ==> h[0] in g;
    assert g != [] ==> g[0] in h;
    if key in After(table, batches) {
      TerminalIsSticky(table, batches, key);
      TerminalIsSticky(table, reordered, key);
    }
  }

  /** A finished job's event (one that says so, or that says nothing and has a finish time), once it survives a batch,
      leaves the run of its job terminal whatever came before or comes after: the row that any event of the job is
      stored in. */
  lemma FinishedEventSettlesRun(table: Table, batches: seq<Batch>, i: nat, event: JobEvent, other: JobEvent)
    requires i < |batches| && FormatJobRun(event).Ok? && FormatJobRun(other).Ok?
    requires var run := FormatJobRun(event).value; Survivor(batches[i], run.key) == Some(run)
    requires || event.state == Some("completed") || event.state == Some("failed")
             || (BullStateToPersistedStatus(event.state).None? && TruthyNumber(event.job.finishedOn))
    requires event.queueName == other.queueName && event.job.id == other.job.id
    requires event.job.timestamp == other.job.timestamp
    ensures var key := FormatJobRun(other).value.key;
            key in After(table, batches) && Terminal(After(table, batches)[key].status)
  {
    var run := FormatJobRun(event).value;
    TerminalEvents(event);
    assert run.status == StatusFromSnapshot(event);
    SameJobSameRow(event, other);
    hide FormatJobRun, StatusFromSnapshot, BullStateToPersistedStatus, Survivor;
    HistoryMembers(table, batches, run.key);
    assert batches[i] in batches;
    assert run in History(table, batches, run.key);
    HistoryClosedForm(table, batches, run.key);
    TerminalIsSticky(table, batches, run.key);
  }

  lemma MergeTwice(table: Table, row: JobRun)
    ensures Merge(Stored(table, row), row) == Stored(table, row)
  {
  }

  lemma NonEmptyHasMember(s: seq<Returned>)
    ensures s != [] ==> exists x :: x in s
  {
    if s != [] { assert s[0] in s; }
  }

  /** Writing the same batch again changes nothing and returns nothing. */
  lemma SecondUpsertIsNoOp(table: Table, batch: Batch)
    ensures var once := UpsertBatch(table, batch.runs, batch.cutoff).0;
            UpsertBatch(once, batch.runs, batch.cutoff) == (once, [])
  {
    hide Values, Merge, Survivor;
    var values := Values(batch.runs, batch.cutoff);
    var once := UpsertBatch(table, batch.runs, batch.cutoff).0;
    var twice := UpsertBatch(once, batch.runs, batch.cutoff);
    forall k ensures k in once <==> k in twice.0
             ensures k in once ==> twice.0[k] == once[k]
    {
      OneBatch(table, batch, k);
      OneBatch(once, batch, k);
      if row :| Survivor(batch, k) == Some(row) { MergeTwice(table, row); }
    }
    assert twice.0 == once;
    ValuesSorted(batch.runs, batch.cutoff);
    forall x ensures x !in twice.1 { ReturnedExactly(once, values, x); }
    NonEmptyHasMember(twice.1);
  }

  // ---- When does every job of a batch reach the table? ----

  /** Within the batch, a printed dedupe key stands for one (queue, jobId, enqueuedAt). */
  ghost predicate KeysInjective(batch: seq<JobRun>, cutoff: Option<int>) {
    forall i, j :: 0 <= i < |batch| && 0 <= j < |batch| && WithinRetention(batch[i], cutoff)
                   && WithinRetention(batch[j], cutoff) && DedupeKey(batch[i]) == DedupeKey(batch[j])
                   ==> batch[i].key == batch[j].key
  }

  lemma {:induction false} LastWithExact(batch: seq<JobRun>, cutoff: Option<int>, d: string)
    ensures LastWith(batch, cutoff, d).Some? <==>
            exists i :: 0 <= i < |batch| && WithinRetention(batch[i], cutoff) && DedupeKey(batch[i]) == d
    ensures LastWith(batch, cutoff, d).Some? ==>
            exists i :: 0 <= i < |batch| && WithinRetention(batch[i], cutoff) && DedupeKey(batch[i]) == d
                        && batch[i] == LastWith(batch, cutoff, d).value
  {
    hide DedupeKey;
    if batch != [] {
      var n := |batch| - 1;
      LastWithExact(batch[..n], cutoff, d);
      assert forall i :: 0 <= i < n ==> batch[..n][i] == batch[i];
    }
  }

  /** Every job of the batch that is within retention gets its row exactly when no two of them print alike. */
  lemma AllJobsWrittenIff(batch: seq<JobRun>, cutoff: Option<int>)
    ensures KeysInjective(batch, cutoff) <==>
            forall i :: 0 <= i < |batch| && WithinRetention(batch[i], cutoff) ==>
                Wrote(Values(batch, cutoff), batch[i].key)
  {
    hide DedupeKey, Values;
    ValuesSorted(batch, cutoff);
    var values := Values(batch, cutoff);
    forall i | 0 <= i < |batch| && WithinRetention(batch[i], cutoff)
      ensures LastWith(batch, cutoff, DedupeKey(batch[i])).Some?
      ensures KeysInjective(batch, cutoff) ==> Wrote(values, batch[i].key)
      ensures Wrote(values, batch[i].key) ==> LastWith(batch, cutoff, DedupeKey(batch[i])).value.key == batch[i].key
    {
      var d := DedupeKey(batch[i]);
      LastWithExact(batch, cutoff, d);
      var last := LastWith(batch, cutoff, d).value;
      assert last in values;
      if Wrote(values, batch[i].key) {
        var v :| v in values && v.key == batch[i].key;
        SameKeySameText(v, batch[i]);
      }
    }
  }

  lemma SameKeySameText(a: JobRun, b: JobRun)
    requires a.key == b.key
    ensures DedupeKey(a) == DedupeKey(b)
  {
  }

  /** A condition on names that is enough: no dash in a queue name, no time before 1970. */
  lemma DashFreeQueuesInjective(batch: seq<JobRun>, cutoff: Option<int>)
    requires forall r :: r in batch ==> '-' !in r.key.queue && r.key.enqueuedAt >= 0
    ensures KeysInjective(batch, cutoff)
  {
    forall i, j | 0 <= i < |batch| && 0 <= j < |batch| && DedupeKey(batch[i]) == DedupeKey(batch[j])
      ensures batch[i].key == batch[j].key
    {
      var a, b := batch[i].key, batch[j].key;
      assert batch[i] in batch && batch[j] in batch;
      Text.JobTextInjective('-', a.queue, a.jobId, a.enqueuedAt, b.queue, b.jobId, b.enqueuedAt);
    }
  }

  /** Two jobs that print alike: the batch keeps only the second, and the first has no row. */
  lemma DashedNamesLoseAJob(first: JobRun, second: JobRun)
    requires first.key == RunKey("a-b", "c", 5) && second.key == RunKey("a", "b-c", 5)
    ensures !KeysInjective([first, second], None)
    ensures !Wrote(Values([first, second], None), first.key)
  {
    assert "a-b" + ['-'] + "c" + ['-'] == "a-b-c-" == "a" + ['-'] + "b-c" + ['-'];
    assert DedupeKey(first) == DedupeKey(second);
    var batch := [first, second];
    ValuesSorted(batch, None);
    assert LastWith(batch, None, DedupeKey(second)) == Some(second);
    forall v | v in Values(batch, None) ensures v.key != first.key {
      if v.key == first.key { SameKeySameText(v, first); }
    }
    assert batch[0].key != batch[1].key;
  }
}
