/** The sequential program of one log consumer: parse a batch, drop what is malformed, persist the rest, then
    acknowledge and delete it. */
module LogIngest {
  import opened Common
  import opened StreamGroup
  import opened LogBuffer
  import opened LogPipeline

  lemma NoInvalidIds(added: map<nat, Message>)
    ensures InvalidIds(added, []) == {} == SetOf([])
  {
  }

  class LogConsumer {
    var group: Group<Message>
    const db: LogDatabase

    constructor (group: Group<Message>, db: LogDatabase)
      ensures this.group == group && this.db == db
    {
      this.group, this.db := group, db;
    }

    method AckAndDelete(ids: seq<nat>)
      modifies this`group
      ensures group == Dropped(old(group), SetOf(ids))
      ensures OnlyLeave(old(group), group, ids)
    {
      if |ids| == 0 {
        return;
      }
      group := Ack(group, SetOf(ids));
      group := Delete(group, SetOf(ids));
    }

    /** Malformed messages leave at once; valid ones leave after each is in job_logs or in the buffer. */
    method ProcessMessages(ids: seq<nat>, now: int)
      requires forall id :: id in ids ==> id in group.added
      modifies this`group, db
      ensures var added := old(group).added;
              var valid := ValidOnly(added, ids);
              && AllValid(added, valid)
              && group == Dropped(Dropped(old(group), InvalidIds(added, ids)), SetOf(valid))
              && var events := Events(added, valid);
                 && db.runs == old(db.runs)
                 && db.logs == InsertLogs(old(db.logs), SortLogs(Resolved(db.runs, events)))
                 && db.buffer == BufferLogs(old(db.buffer), Unresolved(db.runs, events), old(db.nextRowId), now)
      ensures OnlyLeave(old(group), group, ids)
    {
      ProcessedLeaves(group, ids, Valid);
      hide SortLogs, InsertLogs, BufferLogs, Resolved, Unresolved, InvalidIn, SetOf, OnlyLeave;
      var added := group.added;
      var valid: seq<nat> := [];
      var events: seq<LogEvent> := [];
      var invalidIds: seq<nat> := [];
      NoInvalidIds(added);
      for i := 0 to |ids|
        invariant group == old(group) && unchanged(db)
        invariant valid == ValidOnly(added, ids[..i]) && AllValid(added, valid)
        invariant events == Events(added, valid)
        invariant SetOf(invalidIds) == InvalidIds(added, ids[..i])
      {
        assert ids[i] in ids && ids[..i + 1] == ids[..i] + [ids[i]];
        ValidInAppend(added, ids[..i], ids[i], Valid);
        InvalidInAppend(added, ids[..i], ids[i], Valid);
        SetOfAppend(invalidIds, ids[i]);
        match added[ids[i]]
        case Malformed =>
          invalidIds := invalidIds + [ids[i]];
        case LogMessage(event) =>
          valid := valid + [ids[i]];
          events := events + [event];
      }
      assert ids[..|ids|] == ids;
      AckAndDelete(invalidIds);
      if |valid| == 0 {
        NothingToPersist(db.runs, db.logs, db.buffer, db.nextRowId, now);
        return;
      }
      db.PersistLogEvents(events, now);
      AckAndDelete(valid);
    }
  }

  lemma NothingToPersist(runs: Runs, logs: Logs, buffer: Buffer, firstId: nat, now: int)
    ensures InsertLogs(logs, SortLogs(Resolved(runs, []))) == logs
    ensures BufferLogs(buffer, Unresolved(runs, []), firstId, now) == buffer
  {
    Ordering.SortKeeps<ResolvedLog>([], LogBefore);
  }

  /** After one uninterrupted call every event of the batch is in job_logs under its run or in the buffer. */
  lemma PersistedBatchIsSafe(
      runs: Runs, logs: Logs, buffer: Buffer, events: seq<LogEvent>, firstId: nat, now: int, e: LogEvent)
    requires e in events
    ensures var logs2 := InsertLogs(logs, SortLogs(Resolved(runs, events)));
            var buffer2 := BufferLogs(buffer, Unresolved(runs, events), firstId, now);
            if e.job in runs then LogKey(runs[e.job], e.ts, e.logSeq) in logs2 else IdentityOf(e) in buffer2
  {
    ResolvedExact(runs, events);
    if e.job in runs {
      var rows := Resolved(runs, events);
      var r := ResolvedLog(e, runs[e.job]);
      Ordering.SortKeeps(rows, LogBefore);
      assert r in SortLogs(rows) && KeyOf(r) == LogKey(runs[e.job], e.ts, e.logSeq);
      assert Offers(SortLogs(rows), KeyOf(r));
      InsertLogsExact(logs, SortLogs(rows));
    } else {
      assert Names(Unresolved(runs, events), IdentityOf(e));
      BufferLogsExact(buffer, Unresolved(runs, events), firstId, now);
    }
  }

  // ---- The program and the steps ----

  ghost predicate Follows(states: seq<State>, steps: seq<Step>) {
    && |states| == |steps| + 1
    && forall i :: 0 <= i < |steps| ==> Goes(states[i], steps[i], states[i + 1])
  }

  ghost predicate Goes(s: State, step: Step, t: State) {
    Enabled(s, step) && t == Apply(s, step)
  }

  /** One insert statement after the other. */
  ghost predicate Chunked(states: seq<State>, c: nat) {
    forall i :: 0 <= i < |states| - 1 ==> Goes(states[i], InsertChunk(c), states[i + 1])
  }

  /** How many insert statements a list of rows takes. */
  function ChunkCount(todo: seq<ResolvedLog>): nat
    decreases |todo|
  {
    if todo == [] then 0 else 1 + ChunkCount(todo[FirstChunk(todo)..])
  }

  /** One for every five hundred rows begun. */
  lemma {:induction false} ChunksExactly(todo: seq<ResolvedLog>)
    ensures ChunkCount(todo) == (|todo| + 499) / 500
    decreases |todo|
  {
    if todo != [] {
      ChunksExactly(todo[FirstChunk(todo)..]);
    }
  }

  /** The statements of one call whose insert takes m chunks. */
  function CallSteps(c: nat, m: nat, now: int): seq<Step> {
    [AckInvalid(c), DeleteInvalid(c), ResolveStep(c)] + seq(m, _ => InsertChunk(c)) +
        [BufferRest(c, now), AckStep(c), DeleteStep(c)]
  }

  /** Consecutive chunks insert everything that was to be inserted, and nothing else changes. */
  lemma {:induction false} ChunksInsertAll(
      states: seq<State>, c: nat, ids: seq<nat>, todo: seq<ResolvedLog>, rest: seq<LogEvent>)
    requires |states| == ChunkCount(todo) + 1 && At(states[0], c) == Inserting(ids, todo, rest)
    requires Chunked(states, c)
    ensures var s, t := states[0], states[|states| - 1];
            && At(t, c) == Inserting(ids, [], rest) && t.logs == InsertLogs(s.logs, todo)
            && t.group == s.group && t.runs == s.runs && t.buffer == s.buffer && t.rowHistory == s.rowHistory
    decreases |todo|
  {
    if todo != [] {
      var n := FirstChunk(todo);
      assert Goes(states[0], InsertChunk(c), states[0 + 1]);
      InsertLogsAppend(states[0].logs, todo[..n], todo[n..]);
      assert todo[..n] + todo[n..] == todo;
      hide InsertLogs;
      var later := states[1..];
      forall i | 0 <= i < |later| - 1
        ensures Goes(later[i], InsertChunk(c), later[i + 1])
      {
        assert Goes(states[i + 1], InsertChunk(c), states[i + 1 + 1]);
      }
      ChunksInsertAll(later, c, ids, todo[n..], rest);
    }
  }

  /** The events of the valid messages of a batch. */
  function ValidEvents(added: map<nat, Message>, ids: seq<nat>): seq<LogEvent> {
    ValidInMembers(added, ids, Valid);
    Events(added, ValidOnly(added, ids))
  }

  function Todo(s: State, ids: seq<nat>): seq<ResolvedLog> {
    SortLogs(Resolved(s.runs, ValidEvents(s.group.added, ids)))
  }

  /** Up to the lookup of the runs. */
  lemma Opening(s: State, s1: State, s2: State, t: State, c: nat, ids: seq<nat>)
    requires At(s, c) == Received(ids) && ValidOnly(s.group.added, ids) != []
    requires Goes(s, AckInvalid(c), s1) && Goes(s1, DeleteInvalid(c), s2) && Goes(s2, ResolveStep(c), t)
    ensures t.group == Dropped(s.group, InvalidIds(s.group.added, ids)) && t.runs == s.runs && t.logs == s.logs
    ensures t.buffer == s.buffer && t.rowHistory == s.rowHistory
    ensures At(t, c) ==
        Inserting(ValidOnly(s.group.added, ids), Todo(s, ids), Unresolved(s.runs, ValidEvents(s.group.added, ids)))
  {
    hide SortLogs, Resolved, Unresolved, InvalidIds, ValidOnly, Events;
  }

  /** From the end of the inserts on. */
  lemma Closing(s: State, s1: State, s2: State, t: State, c: nat, valid: seq<nat>, rest: seq<LogEvent>, now: int)
    requires At(s, c) == Inserting(valid, [], rest)
    requires Goes(s, BufferRest(c, now), s1) && Goes(s1, AckStep(c), s2) && Goes(s2, DeleteStep(c), t)
    ensures t.group == Dropped(s.group, SetOf(valid)) && t.runs == s.runs && t.logs == s.logs
    ensures t.buffer == BufferLogs(s.buffer, rest, |s.rowHistory|, now) && At(t, c) == Idle
  {
    hide BufferLogs, SetOf, Identities;
  }

  lemma CallInSteps(states: seq<State>, c: nat, m: nat, now: int)
    requires Follows(states, CallSteps(c, m, now))
    ensures |states| == m + 7
    ensures Goes(states[0], AckInvalid(c), states[1]) && Goes(states[1], DeleteInvalid(c), states[2])
    ensures Goes(states[2], ResolveStep(c), states[3])
    ensures Chunked(states[3..m + 4], c)
    ensures Goes(states[m + 3], BufferRest(c, now), states[m + 4]) && Goes(states[m + 4], AckStep(c), states[m + 5])
    ensures Goes(states[m + 5], DeleteStep(c), states[m + 6])
  {
    hide Goes;
    var steps := CallSteps(c, m, now);
    assert Goes(states[0], steps[0], states[0 + 1]) && Goes(states[1], steps[1], states[1 + 1]);
    assert Goes(states[2], steps[2], states[2 + 1]);
    var middle := states[3..m + 4];
    forall i | 0 <= i < |middle| - 1
      ensures Goes(middle[i], InsertChunk(c), middle[i + 1])
    {
      assert steps[i + 3] == InsertChunk(c);
      assert Goes(states[i + 3], steps[i + 3], states[i + 3 + 1]);
    }
    assert Goes(states[m + 3], steps[m + 3], states[m + 3 + 1]);
    assert Goes(states[m + 4], steps[m + 4], states[m + 4 + 1]);
    assert Goes(states[m + 5], steps[m + 5], states[m + 5 + 1]);
  }

  /** A consumer that goes through its steps without interference, with one insert statement per chunk, does what
      ProcessMessages does. */
  lemma UninterruptedRun(states: seq<State>, c: nat, ids: seq<nat>, now: int)
    requires states != [] && At(states[0], c) == Received(ids) && ValidOnly(states[0].group.added, ids) != []
    requires Follows(states, CallSteps(c, ChunkCount(Todo(states[0], ids)), now))
    ensures var s, t := states[0], states[|states| - 1];
            var events := ValidEvents(s.group.added, ids);
            && t.group ==
               Dropped(Dropped(s.group, InvalidIds(s.group.added, ids)), SetOf(ValidOnly(s.group.added, ids)))
            && t.runs == s.runs && t.logs == InsertLogs(s.logs, SortLogs(Resolved(s.runs, events)))
            && t.buffer == BufferLogs(s.buffer, Unresolved(s.runs, events), |s.rowHistory|, now)
            && At(t, c) == Idle
  {
    var s := states[0];
    var todo, rest := Todo(s, ids), Unresolved(s.runs, ValidEvents(s.group.added, ids));
    var m := ChunkCount(todo);
    CallInSteps(states, c, m, now);
    hide *;
    Opening(s, states[1], states[2], states[3], c, ids);
    var middle := states[3..m + 4];
    ChunksInsertAll(middle, c, ValidOnly(s.group.added, ids), todo, rest);
    assert middle[m] == states[m + 3];
    Closing(states[m + 3], states[m + 4], states[m + 5], states[m + 6], c, ValidOnly(s.group.added, ids), rest, now);
  }
}
