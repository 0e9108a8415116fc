/** Nothing in the log pipeline gets stuck: whatever is deliverable can be handed out, a call can always be finished,
    and so can a resolver pass, which then does what the sequential pass does. */
module LogProgress {
  import opened Common
  import opened StreamGroup
  import opened LogBuffer
  import opened LogPipeline
  import opened LogIngest

  /** An entry that is deliverable can be handed to any idle consumer. */
  lemma CanBeHandedOut(s: State, c: nat, id: nat)
    requires Deliverable(s.group, id) && At(s, c).Idle?
    ensures Enabled(s, ReadNewStep(c, [id])) || Enabled(s, ClaimStep(c, [id]))
  {
  }

  /** Each insert statement has between one and five hundred rows, and leaves that many fewer to insert. */
  lemma InsertShortens(s: State, c: nat)
    ensures Enabled(s, InsertChunk(c)) ==>
              var t := Apply(s, InsertChunk(c));
              At(t, c).Inserting? && 1 <= |At(s, c).todo| - |At(t, c).todo| <= 500
    ensures Enabled(s, ResolverInsert(c)) ==>
              var t := Apply(s, ResolverInsert(c));
              ResolverAt(t, c).Moving? && 1 <= |ResolverAt(s, c).todo| - |ResolverAt(t, c).todo| <= 500
  {
    hide InsertLogs;
  }

  // ---- A consumer's call ----

  lemma {:induction false} ChunksCanBeInserted(
      s: State, c: nat, ids: seq<nat>, todo: seq<ResolvedLog>, rest: seq<LogEvent>)
    returns (states: seq<State>)
    requires At(s, c) == Inserting(ids, todo, rest)
    ensures |states| == ChunkCount(todo) + 1 && states[0] == s && Chunked(states, c)
    ensures At(states[|states| - 1], c) == Inserting(ids, [], rest)
    decreases |todo|
  {
    states := [s];
    if todo != [] {
      var next := Apply(s, InsertChunk(c));
      assert At(next, c) == Inserting(ids, todo[FirstChunk(todo)..], rest);
      var later := ChunksCanBeInserted(next, c, ids, todo[FirstChunk(todo)..], rest);
      states := states + later;
      forall i | 0 <= i < |states| - 1
        ensures Goes(states[i], InsertChunk(c), states[i + 1])
      {
        if i > 0 { assert Goes(later[i - 1], InsertChunk(c), later[i - 1 + 1]); }
      }
    }
  }

  lemma CallOpens(s: State, c: nat, ids: seq<nat>) returns (s1: State, s2: State, t: State)
    requires At(s, c) == Received(ids) && ValidOnly(s.group.added, ids) != []
    ensures Goes(s, AckInvalid(c), s1) && Goes(s1, DeleteInvalid(c), s2) && Goes(s2, ResolveStep(c), t)
  {
    ValidInMembers(s.group.added, ids, Valid);
    hide SortLogs, Resolved, Unresolved, InvalidIds, ValidIn, Events;
    s1 := Apply(s, AckInvalid(c));
    s2 := Apply(s1, DeleteInvalid(c));
    t := Apply(s2, ResolveStep(c));
  }

  lemma CallCloses(s: State, c: nat, ids: seq<nat>, rest: seq<LogEvent>, now: int)
    returns (s1: State, s2: State, t: State)
    requires At(s, c) == Inserting(ids, [], rest)
    ensures Goes(s, BufferRest(c, now), s1) && Goes(s1, AckStep(c), s2) && Goes(s2, DeleteStep(c), t)
  {
    hide BufferLogs, SetOf, Identities;
    s1 := Apply(s, BufferRest(c, now));
    s2 := Apply(s1, AckStep(c));
    t := Apply(s2, DeleteStep(c));
  }

  /** From every state in which a consumer has received something valid, it can go through all its steps. */
  lemma CallFinishes(s: State, c: nat, ids: seq<nat>, now: int) returns (states: seq<State>)
    requires At(s, c) == Received(ids) && ValidOnly(s.group.added, ids) != []
    ensures states != [] && states[0] == s
    ensures Follows(states, CallSteps(c, ChunkCount(Todo(s, ids)), now))
  {
    hide Goes, ChunkCount, Follows, CallSteps, Todo, ValidOnly, Chunked, Unresolved, ValidEvents;
    var s1, s2, s3 := CallOpens(s, c, ids);
    Opening(s, s1, s2, s3, c, ids);
    var at := At(s3, c);
    var middle := ChunksCanBeInserted(s3, c, at.ids, at.todo, at.unresolved);
    var m := |middle| - 1;
    var s4, s5, s6 := CallCloses(middle[m], c, at.ids, at.unresolved, now);
    states := [s, s1, s2] + middle + [s4, s5, s6];
    JoinCall(states, c, m, now, middle);
  }

  lemma JoinCall(states: seq<State>, c: nat, m: nat, now: int, middle: seq<State>)
    requires |states| == m + 7 && middle == states[3..m + 4] && Chunked(middle, c)
    requires Goes(states[0], AckInvalid(c), states[1]) && Goes(states[1], DeleteInvalid(c), states[2])
    requires Goes(states[2], ResolveStep(c), states[3])
    requires Goes(states[m + 3], BufferRest(c, now), states[m + 4]) && Goes(states[m + 4], AckStep(c), states[m + 5])
    requires Goes(states[m + 5], DeleteStep(c), states[m + 6])
    ensures Follows(states, CallSteps(c, m, now))
  {
    hide Goes;
    var steps := CallSteps(c, m, now);
    forall i | 0 <= i < |steps|
      ensures Goes(states[i], steps[i], states[i + 1])
    {
      if 3 <= i < m + 3 {
        assert Goes(middle[i - 3], InsertChunk(c), middle[i - 3 + 1]);
      }
    }
  }

  // ---- A resolver's pass ----

  /** One insert statement after the other. */
  ghost predicate PassChunked(states: seq<State>, r: nat) {
    forall i :: 0 <= i < |states| - 1 ==> Goes(states[i], ResolverInsert(r), states[i + 1])
  }

  lemma {:induction false} PassCanInsert(s: State, r: nat, todo: seq<ResolvedLog>, rowIds: set<nat>)
    returns (states: seq<State>)
    requires ResolverAt(s, r) == Moving(todo, rowIds)
    ensures |states| == ChunkCount(todo) + 1 && states[0] == s && PassChunked(states, r)
    ensures var t := states[|states| - 1];
            && ResolverAt(t, r) == Moving([], rowIds) && t.logs == InsertLogs(s.logs, todo)
            && t.buffer == s.buffer && t.runs == s.runs && t.group == s.group && t.consumers == s.consumers
    decreases |todo|
  {
    states := [s];
    if todo != [] {
      var n := FirstChunk(todo);
      var next := Apply(s, ResolverInsert(r));
      assert ResolverAt(next, r) == Moving(todo[n..], rowIds);
      InsertLogsAppend(s.logs, todo[..n], todo[n..]);
      assert todo[..n] + todo[n..] == todo;
      hide InsertLogs;
      var later := PassCanInsert(next, r, todo[n..], rowIds);
      states := states + later;
      forall i | 0 <= i < |states| - 1
        ensures Goes(states[i], ResolverInsert(r), states[i + 1])
      {
        if i > 0 { assert Goes(later[i - 1], ResolverInsert(r), later[i - 1 + 1]); }
      }
    }
  }

  function PassSteps(r: nat, batch: seq<Identity>, m: nat): seq<Step> {
    [ResolverRead(r, batch), ResolverResolve(r)] + seq(m, _ => ResolverInsert(r)) + [ResolverDelete(r)]
  }

  lemma JoinPass(states: seq<State>, r: nat, batch: seq<Identity>, m: nat, middle: seq<State>)
    requires |states| == m + 4 && middle == states[2..m + 3] && PassChunked(middle, r)
    requires Goes(states[0], ResolverRead(r, batch), states[1]) && Goes(states[1], ResolverResolve(r), states[2])
    requires Goes(states[m + 2], ResolverDelete(r), states[m + 3])
    ensures Follows(states, PassSteps(r, batch, m))
  {
    hide Goes;
    var steps := PassSteps(r, batch, m);
    forall i | 0 <= i < |steps|
      ensures Goes(states[i], steps[i], states[i + 1])
    {
      if 2 <= i < m + 2 {
        assert Goes(middle[i - 2], ResolverInsert(r), middle[i - 2 + 1]);
      }
    }
  }

  lemma RowsRead(buffer: Buffer, batch: seq<Identity>)
    requires forall k :: k in batch ==> k in buffer
    ensures RowEvents(ReadBatch(buffer, batch)) == LogBuffer.ReadRows(buffer, batch)
  {
  }

  /** The ids of the rows that the steps delete are those that the sequential pass deletes. */
  lemma SameRowIds(runs: Runs, buffer: Buffer, batch: seq<Identity>)
    requires forall k :: k in batch ==> k in buffer
    ensures ResolvableRowIds(runs, ReadBatch(buffer, batch)) ==
            RowIds(buffer, Resolved(runs, LogBuffer.ReadRows(buffer, batch)))
  {
    var rows, events := ReadBatch(buffer, batch), LogBuffer.ReadRows(buffer, batch);
    var resolved := Resolved(runs, events);
    ResolvedExact(runs, events);
    hide Resolved;
    forall id | id in ResolvableRowIds(runs, rows)
      ensures id in RowIds(buffer, resolved)
    {
      var row :| row in rows && row.1.job in runs && row.0 == id;
      var i :| 0 <= i < |batch| && rows[i] == row;
      assert batch[i] in batch && events[i] in events;
      var x := ResolvedLog(events[i], runs[events[i].job]);
      assert x in resolved && IdentityOf(x.event) == batch[i];
    }
    forall id | id in RowIds(buffer, resolved)
      ensures id in ResolvableRowIds(runs, rows)
    {
      var x :| x in resolved && IdentityOf(x.event) in buffer && buffer[IdentityOf(x.event)].id == id;
      var i :| 0 <= i < |events| && events[i] == x.event;
      assert batch[i] in batch && rows[i] in rows && rows[i].0 == id && rows[i].1.job in runs;
    }
  }

  lemma PassOpens(s: State, r: nat, batch: seq<Identity>) returns (s1: State, t: State)
    requires ResolverAt(s, r).Resting? && forall k :: k in batch ==> k in s.buffer
    ensures Goes(s, ResolverRead(r, batch), s1) && Goes(s1, ResolverResolve(r), t)
    ensures var resolved := Resolved(s.runs, LogBuffer.ReadRows(s.buffer, batch));
            ResolverAt(t, r) == Moving(SortLogs(resolved), RowIds(s.buffer, resolved))
    ensures t.logs == s.logs && t.buffer == s.buffer && t.runs == s.runs
    ensures t.group == s.group && t.consumers == s.consumers
  {
    RowsRead(s.buffer, batch);
    SameRowIds(s.runs, s.buffer, batch);
    hide SortLogs, Resolved, ReadBatch, LogBuffer.ReadRows, RowEvents, RowIds, ResolvableRowIds;
    s1 := Apply(s, ResolverRead(r, batch));
    t := Apply(s1, ResolverResolve(r));
  }

  lemma PassCloses(s: State, r: nat, rowIds: set<nat>) returns (t: State)
    requires ResolverAt(s, r) == Moving([], rowIds)
    ensures Goes(s, ResolverDelete(r), t) && ResolverAt(t, r).Resting?
    ensures t.buffer == DeleteRows(s.buffer, rowIds) && t.logs == s.logs && t.runs == s.runs
    ensures t.group == s.group && t.consumers == s.consumers
  {
    hide DeleteRows;
    t := Apply(s, ResolverDelete(r));
  }

  /** From every state a resting resolver can go through all its steps, and undisturbed it does what the sequential pass
      does: the same logs are inserted and the same buffer rows deleted. */
  lemma PassFinishes(s: State, r: nat, batch: seq<Identity>) returns (states: seq<State>)
    requires ResolverAt(s, r).Resting? && forall k :: k in batch ==> k in s.buffer
    ensures |states| >= 4 && states[0] == s
    ensures Follows(states, PassSteps(r, batch, |states| - 4))
    ensures var t := states[|states| - 1];
            && ResolverAt(t, r).Resting? && (t.logs, t.buffer) == ResolverPass(s.runs, s.logs, s.buffer, batch)
            && t.runs == s.runs && t.group == s.group && t.consumers == s.consumers
  {
    hide SortLogs, Resolved, InsertLogs, DeleteRows, LogBuffer.ReadRows, RowIds, ChunkCount, Goes, PassChunked, Follows;
    hide PassSteps;
    var resolved := Resolved(s.runs, LogBuffer.ReadRows(s.buffer, batch));
    var s1, s2 := PassOpens(s, r, batch);
    var middle := PassCanInsert(s2, r, SortLogs(resolved), RowIds(s.buffer, resolved));
    var m := |middle| - 1;
    var t := PassCloses(middle[m], r, RowIds(s.buffer, resolved));
    states := [s, s1] + middle + [t];
    JoinPass(states, r, batch, m, middle);
  }
}
