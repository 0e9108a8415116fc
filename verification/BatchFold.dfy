/** When one batch leaves what its rows would leave one at a time. */
module BatchFold {
  import opened Common
  import opened JobRuns
  import opened JobUpsert
  import opened JobHistory
  import Text

  /** The same rows, each in a batch of its own. */
  function Singles(batch: Batch): seq<Batch>
    decreases |batch.runs|
  {
    var n := |batch.runs| - 1;
    if batch.runs == [] then []
    else Singles(Batch(batch.runs[..n], batch.cutoff)) + [Batch([batch.runs[n]], batch.cutoff)]
  }

  /** The rows of the batch that are within retention and belong to the key, in order. */
  function RowsOf(batch: Batch, key: RunKey): seq<JobRun>
    decreases |batch.runs|
  {
    var n := |batch.runs| - 1;
    if batch.runs == [] then []
    else
      RowsOf(Batch(batch.runs[..n], batch.cutoff), key)
      + if WithinRetention(batch.runs[n], batch.cutoff) && batch.runs[n].key == key then [batch.runs[n]] else []
  }

  function Lookup(table: Table, key: RunKey): Option<JobRun> {
    if key in table then Some(table[key]) else None
  }

  function TextOf(key: RunKey): string {
    Text.JobText('-', key.queue, key.jobId, key.enqueuedAt)
  }

  /** Of the rows that print like the key, the last is the key's own: dedupe keeps it. */
  predicate Kept(batch: Batch, key: RunKey) {
    var last := LastWith(batch.runs, batch.cutoff, TextOf(key));
    last.Some? && last.value.key == key
  }

  function LastTagged(rows: seq<JobRun>): Option<seq<string>> {
    if rows == [] then None
    else if Tagged(rows[|rows| - 1].tags) then rows[|rows| - 1].tags
    else LastTagged(rows[..|rows| - 1])
  }

  // ---- The condition ----

  /** Nothing terminal is overtaken inside the batch, or it was stored as such before. */
  predicate StatusAgrees(stored: Option<JobRun>, rows: seq<JobRun>)
    requires rows != []
  {
    var earlier := LastTerminal(rows[..|rows| - 1]);
    || Terminal(rows[|rows| - 1].status)
    || earlier.None?
    || (stored.Some? && earlier == Some(stored.value.status))
  }

  /** No tags are overtaken by an untagged row inside the batch, or they were stored as such before. */
  predicate TagsAgree(stored: Option<JobRun>, rows: seq<JobRun>)
    requires rows != []
  {
    var earlier := LastTagged(rows[..|rows| - 1]);
    || Tagged(rows[|rows| - 1].tags)
    || (if stored.Some? then earlier.None? || earlier == stored.value.tags
        else earlier.None? && rows[0].tags == rows[|rows| - 1].tags)
  }

  /** Merging all the rows into the stored one would change nothing. */
  predicate Absorbed(stored: JobRun, rows: seq<JobRun>)
    requires rows != []
  {
    var last := rows[|rows| - 1];
    && stored.key == last.key && stored.columns == last.columns
    && (if LastTerminal(rows).Some? then LastTerminal(rows) == Some(stored.status)
        else Terminal(stored.status) || stored.status == last.status)
    && (LastTagged(rows).Some? ==> stored.tags == LastTagged(rows))
  }

  predicate Agrees(stored: Option<JobRun>, rows: seq<JobRun>, kept: bool) {
    || rows == []
    || (if kept then StatusAgrees(stored, rows) && TagsAgree(stored, rows)
        else stored.Some? && Absorbed(stored.value, rows))
  }

  // ---- Histories ----

  lemma {:induction false} RowsOfMembers(batch: Batch, key: RunKey)
    ensures forall r :: r in RowsOf(batch, key) ==> r.key == key && DedupeKey(r) == TextOf(key)
    decreases |batch.runs|
  {
    if batch.runs != [] {
      RowsOfMembers(Batch(batch.runs[..|batch.runs| - 1], batch.cutoff), key);
    }
  }

  /** The row kept for a key is the last of its own rows. */
  lemma {:induction false} KeptIsLast(batch: Batch, key: RunKey)
    ensures RowsOf(batch, key) != [] ==> LastWith(batch.runs, batch.cutoff, TextOf(key)).Some?
    ensures Kept(batch, key) ==>
              var rows := RowsOf(batch, key);
              rows != [] && LastWith(batch.runs, batch.cutoff, TextOf(key)) == Some(rows[|rows| - 1])
    decreases |batch.runs|
  {
    if batch.runs != [] {
      var n := |batch.runs| - 1;
      SameText(batch.runs[n]);
      hide TextOf, WithinRetention, DedupeKey;
      var init := Batch(batch.runs[..n], batch.cutoff);
      KeptIsLast(init, key);
      LastRow(batch, key);
      hide RowsOf, LastWith;
    }
  }

  lemma LastRow(batch: Batch, key: RunKey)
    requires batch.runs != []
    ensures var n := |batch.runs| - 1;
            var init := Batch(batch.runs[..n], batch.cutoff);
            var run := batch.runs[n];
            && RowsOf(batch, key) == RowsOf(init, key)
                 + (if WithinRetention(run, batch.cutoff) && run.key == key then [run] else [])
            && LastWith(batch.runs, batch.cutoff, TextOf(key)) ==
               (if WithinRetention(run, batch.cutoff) && DedupeKey(run) == TextOf(key) then Some(run)
                else LastWith(init.runs, batch.cutoff, TextOf(key)))
  {
    hide TextOf, WithinRetention, DedupeKey;
  }

  lemma SameText(run: JobRun)
    ensures DedupeKey(run) == TextOf(run.key)
  {
  }

  lemma SurvivorExact(batch: Batch, key: RunKey)
    ensures Survivor(batch, key) ==
              if Kept(batch, key) then LastWith(batch.runs, batch.cutoff, TextOf(key)) else None
  {
    var values := Values(batch.runs, batch.cutoff);
    ValuesSorted(batch.runs, batch.cutoff);
    FindKeyFinds(values, key);
    hide Values, TextOf, LastWith, DedupeKey;
    if Survivor(batch, key).Some? {
      SameText(Survivor(batch, key).value);
    }
    if Kept(batch, key) {
      var last := LastWith(batch.runs, batch.cutoff, TextOf(key)).value;
      SameText(last);
      assert last in values;
    }
  }

  function StoredRows(table: Table, key: RunKey): seq<JobRun> {
    if key in table then [table[key]] else []
  }

  lemma TogetherHistory(table: Table, batch: Batch, key: RunKey)
    ensures var rows := RowsOf(batch, key);
            if Kept(batch, key)
            then rows != [] && History(table, [batch], key) == StoredRows(table, key) + [rows[|rows| - 1]]
            else History(table, [batch], key) == StoredRows(table, key)
  {
    hide Survivor, Kept;
    SurvivorExact(batch, key);
    KeptIsLast(batch, key);
    assert [batch][..0] == [];
    assert History(table, [], key) == StoredRows(table, key);
    assert StoredRows(table, key) + [] == StoredRows(table, key);
  }

  lemma SingleSurvivor(row: JobRun, cutoff: Option<int>, key: RunKey)
    ensures Survivor(Batch([row], cutoff), key) ==
              if WithinRetention(row, cutoff) && row.key == key then Some(row) else None
  {
    hide Survivor, TextOf, DedupeKey, WithinRetention;
    SurvivorExact(Batch([row], cutoff), key);
    SameText(row);
    assert LastWith([row][..0], cutoff, TextOf(key)) == None;
  }

  lemma {:induction false} ApartHistory(table: Table, batch: Batch, key: RunKey)
    ensures History(table, Singles(batch), key) == StoredRows(table, key) + RowsOf(batch, key)
    decreases |batch.runs|
  {
    hide Survivor, WithinRetention;
    if batch.runs != [] {
      var n := |batch.runs| - 1;
      var init := Batch(batch.runs[..n], batch.cutoff);
      ApartHistory(table, init, key);
      SingleSurvivor(batch.runs[n], batch.cutoff, key);
      assert Singles(batch)[..|Singles(batch)| - 1] == Singles(init);
    }
  }

  // ---- Closed forms ----

  lemma {:induction false} LastTerminalAppend(a: seq<JobRun>, b: seq<JobRun>)
    ensures LastTerminal(a + b) == if LastTerminal(b).Some? then LastTerminal(b) else LastTerminal(a)
  {
    if b == [] {
      assert a + b == a;
    } else {
      var n := |b| - 1;
      assert (a + b)[..|a| + n] == a + b[..n];
      LastTerminalAppend(a, b[..n]);
    }
  }

  lemma {:induction false} LastTagsIsTagged(history: seq<JobRun>)
    requires history != []
    ensures LastTags(history) == if LastTagged(history).Some? then LastTagged(history) else history[0].tags
  {
    if |history| > 1 {
      LastTagsIsTagged(history[..|history| - 1]);
    }
  }

  lemma {:induction false} LastTaggedAppend(a: seq<JobRun>, b: seq<JobRun>)
    ensures LastTagged(a + b) == if LastTagged(b).Some? then LastTagged(b) else LastTagged(a)
  {
    if b == [] {
      assert a + b == a;
    } else {
      var n := |b| - 1;
      assert (a + b)[..|a| + n] == a + b[..n];
      LastTaggedAppend(a, b[..n]);
    }
  }

  /** The closed form of a stored row, if any, followed by new rows. */
  function FinalOf(stored: Option<JobRun>, rows: seq<JobRun>): JobRun
    requires rows != []
  {
    var last := rows[|rows| - 1];
    JobRun(
      last.key,
      if LastTerminal(rows).Some? then LastTerminal(rows).value
      else if stored.Some? && Terminal(stored.value.status) then stored.value.status
      else last.status,
      if LastTagged(rows).Some? then LastTagged(rows) else if stored.Some? then stored.value.tags else rows[0].tags,
      last.columns)
  }

  lemma FinalIsFinalOf(table: Table, key: RunKey, rows: seq<JobRun>)
    requires rows != []
    ensures Final(StoredRows(table, key) + rows) == FinalOf(Lookup(table, key), rows)
  {
    var stored := StoredRows(table, key);
    LastTerminalAppend(stored, rows);
    LastTaggedAppend(stored, rows);
    LastTagsIsTagged(stored + rows);
    assert stored != [] ==> stored[..0] == [];
  }

  lemma LastOnly(stored: Option<JobRun>, rows: seq<JobRun>)
    requires rows != []
    ensures FinalOf(stored, [rows[|rows| - 1]]) == FinalOf(stored, rows) <==>
        StatusAgrees(stored, rows) && TagsAgree(stored, rows)
  {
    var last, earlier := rows[|rows| - 1], rows[..|rows| - 1];
    LastTerminalExact(earlier);
    LastTaggedIsTagged(earlier);
    LastOf([last]);
    LastOf(rows);
    assert [last][..0] == [];
    hide LastTerminal, LastTagged;
    assert FinalOf(stored, [last]).status == FinalOf(stored, rows).status <==> StatusAgrees(stored, rows);
    assert FinalOf(stored, [last]).tags == FinalOf(stored, rows).tags <==> TagsAgree(stored, rows);
  }

  lemma LastOf(rows: seq<JobRun>)
    requires rows != []
    ensures var last, earlier := rows[|rows| - 1], rows[..|rows| - 1];
            && LastTerminal(rows) == (if Terminal(last.status) then Some(last.status) else LastTerminal(earlier))
            && LastTagged(rows) == (if Tagged(last.tags) then last.tags else LastTagged(earlier))
            && (earlier == [] ==> LastTerminal(earlier) == None && LastTagged(earlier) == None)
  {
  }

  lemma {:induction false} LastTaggedIsTagged(rows: seq<JobRun>)
    ensures LastTagged(rows).Some? ==> Tagged(LastTagged(rows))
    ensures LastTagged(rows).None? ==> forall r :: r in rows ==> !Tagged(r.tags)
  {
    if rows != [] {
      LastTaggedIsTagged(rows[..|rows| - 1]);
      assert rows == rows[..|rows| - 1] + [rows[|rows| - 1]];
    }
  }

  // ---- The theorems ----

  /** One key: a batch leaves the same row, in every column, as its rows one at a time, exactly when they agree. */
  lemma BatchVersusOneByOne(table: Table, batch: Batch, key: RunKey)
    ensures Lookup(After(table, [batch]), key) == Lookup(After(table, Singles(batch)), key)
            <==> Agrees(Lookup(table, key), RowsOf(batch, key), Kept(batch, key))
  {
    hide Final, After, History, Kept, Singles, RowsOf;
    var rows := RowsOf(batch, key);
    TogetherHistory(table, batch, key);
    ApartHistory(table, batch, key);
    HistoryClosedForm(table, [batch], key);
    HistoryClosedForm(table, Singles(batch), key);
    if rows == [] {
      assert StoredRows(table, key) + rows == StoredRows(table, key);
    } else {
      FinalIsFinalOf(table, key, rows);
      FinalIsFinalOf(table, key, [rows[|rows| - 1]]);
      LastOnly(Lookup(table, key), rows);
      if !Kept(batch, key) && key in table {
        SingleRowFinal(table[key]);
        AbsorbedExact(table[key], rows);
      }
    }
  }

  lemma AbsorbedExact(stored: JobRun, rows: seq<JobRun>)
    requires rows != []
    ensures FinalOf(Some(stored), rows) == stored <==> Absorbed(stored, rows)
  {
    LastTerminalExact(rows);
  }

  /** A whole batch, any keys, any cutoff, any table: it equals the fold of its single upserts exactly when each key's
      rows agree. */
  lemma BatchIsFoldIff(table: Table, batch: Batch)
    ensures After(table, [batch]) == After(table, Singles(batch))
            <==> forall key :: Agrees(Lookup(table, key), RowsOf(batch, key), Kept(batch, key))
  {
    hide Agrees, RowsOf, Kept, After, Singles;
    var together, apart := After(table, [batch]), After(table, Singles(batch));
    forall key
      ensures Lookup(together, key) == Lookup(apart, key) <==>
          Agrees(Lookup(table, key), RowsOf(batch, key), Kept(batch, key))
    {
      BatchVersusOneByOne(table, batch, key);
    }
    SameRows(together, apart);
  }

  lemma SameRows(a: Table, b: Table)
    ensures a == b <==> forall key :: Lookup(a, key) == Lookup(b, key)
  {
    if forall key :: Lookup(a, key) == Lookup(b, key) {
      forall key
        ensures key in a <==> key in b
        ensures key in a ==> a[key] == b[key]
      {
        assert Lookup(a, key) == Lookup(b, key);
      }
    }
  }

  /** With printed keys injective on the batch every key keeps its last row, so only statuses and tags matter. */
  lemma InjectiveKeeps(batch: Batch, key: RunKey)
    requires KeysInjective(batch.runs, batch.cutoff) && RowsOf(batch, key) != []
    ensures Kept(batch, key)
  {
    hide WithinRetention, TextOf, DedupeKey;
    KeptIsLast(batch, key);
    LastWithExact(batch.runs, batch.cutoff, TextOf(key));
    var i := RowPlace(batch, key);
    SameText(batch.runs[i]);
  }

  lemma {:induction false} RowPlace(batch: Batch, key: RunKey) returns (i: nat)
    requires RowsOf(batch, key) != []
    ensures i < |batch.runs| && WithinRetention(batch.runs[i], batch.cutoff) && batch.runs[i].key == key
    decreases |batch.runs|
  {
    hide WithinRetention;
    i := |batch.runs| - 1;
    if !(WithinRetention(batch.runs[i], batch.cutoff) && batch.runs[i].key == key) {
      i := RowPlace(Batch(batch.runs[..i], batch.cutoff), key);
    }
  }

  // ---- Witnesses ----

  lemma TwoRows(first: JobRun, second: JobRun)
    requires first.key == second.key
    ensures RowsOf(Batch([first, second], None), first.key) == [first, second]
    ensures Kept(Batch([first, second], None), first.key)
  {
    var batch := Batch([first, second], None);
    assert batch.runs[..1] == [first] && [first][..0] == [];
    SameText(second);
    hide TextOf, DedupeKey;
    assert RowsOf(Batch([first], None), first.key) == RowsOf(Batch([], None), first.key) + [first];
  }

  lemma TwoRowsFinal(first: JobRun, second: JobRun)
    requires first.key == second.key
    ensures var batch := Batch([first, second], None);
            && Lookup(After(map[], [batch]), first.key) == Some(FinalOf(None, [second]))
            && Lookup(After(map[], Singles(batch)), first.key) == Some(FinalOf(None, [first, second]))
  {
    hide Final, FinalOf, After, History, Kept, Singles, RowsOf;
    var batch, key := Batch([first, second], None), first.key;
    TwoRows(first, second);
    TogetherHistory(map[], batch, key);
    ApartHistory(map[], batch, key);
    HistoryClosedForm(map[], [batch], key);
    HistoryClosedForm(map[], Singles(batch), key);
    FinalIsFinalOf(map[], key, [second]);
    FinalIsFinalOf(map[], key, [first, second]);
  }

  lemma LastOfTwo(first: JobRun, second: JobRun)
    ensures LastTerminal([first, second]) ==
              if Terminal(second.status) then Some(second.status)
              else if Terminal(first.status) then Some(first.status)
              else None
    ensures LastTagged([first, second]) ==
              if Tagged(second.tags) then second.tags else if Tagged(first.tags) then first.tags else None
    ensures LastTerminal([second]) == (if Terminal(second.status) then Some(second.status) else None)
    ensures LastTagged([second]) == (if Tagged(second.tags) then second.tags else None)
  {
    assert [first, second][..1] == [first] && [first][..0] == [] && [second][..0] == [];
    LastOf([first, second]);
    LastOf([first]);
    LastOf([second]);
  }

  /** A new run's [completed, active] batch stores active; the same events one by one store completed. */
  lemma CompletedThenActive(completed: JobRun, active: JobRun)
    requires completed.key == active.key && completed.status == Completed && active.status == Active
    ensures var batch := Batch([completed, active], None);
            var together, apart := After(map[], [batch]), After(map[], Singles(batch));
            && active.key in together && together[active.key].status == Active
            && active.key in apart && apart[active.key].status == Completed
  {
    hide After, Singles;
    TwoRowsFinal(completed, active);
    LastOfTwo(completed, active);
  }

  /** An event without tags wipes those of an earlier event of the same batch; one by one they stay. */
  lemma TaggedThenUntagged(tagged: JobRun, untagged: JobRun)
    requires tagged.key == untagged.key && Tagged(tagged.tags) && untagged.tags == Some([])
    ensures var batch := Batch([tagged, untagged], None);
            var together, apart := After(map[], [batch]), After(map[], Singles(batch));
            && tagged.key in together && together[tagged.key].tags == Some([])
            && tagged.key in apart && apart[tagged.key].tags == tagged.tags
  {
    hide After, Singles;
    TwoRowsFinal(tagged, untagged);
    LastOfTwo(tagged, untagged);
  }
}
