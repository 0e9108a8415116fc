/** Log events from the stream into job_logs, step by step: any number of stream consumers and of overlapping
    resolver passes interleave, each may crash between any two of its steps, and unacknowledged messages are claimed
    again. Each step is one Redis command or one SQL statement. Job runs are never deleted here. */
module LogPipeline {
  import opened Common
  import opened StreamGroup
  import opened LogBuffer
  import Ordering

  datatype Message = Malformed | LogMessage(event: LogEvent)

  /** Where a consumer is inside processMessages and persistLogEvents. */
  datatype Consumer =
    | Idle
    | Received(ids: seq<nat>)
    | InvalidAcked(ids: seq<nat>)
    | Parsed(ids: seq<nat>)
    | Inserting(ids: seq<nat>, todo: seq<ResolvedLog>, unresolved: seq<LogEvent>)
    | Persisted(ids: seq<nat>)
    | Acked(ids: seq<nat>)

  /** Where a resolver is inside resolveBufferedJobLogs; rows are (row id, event). */
  datatype Resolver =
    | Resting
    | ReadRows(rows: seq<(nat, LogEvent)>)
    | Moving(todo: seq<ResolvedLog>, rowIds: set<nat>)

  /** `rowHistory[i]` remembers which identity the buffer row id i was handed out for. */
  datatype State = State(
    group: Group<Message>, runs: Runs, logs: Logs, buffer: Buffer, rowHistory: seq<Identity>,
    consumers: map<nat, Consumer>, resolvers: map<nat, Resolver>)

  datatype Step =
    | Publish(id: nat, message: Message)
    | CreateRun(job: JobKey, runId: string)
    | ReadNewStep(c: nat, ids: seq<nat>)
    | ClaimStep(c: nat, ids: seq<nat>)
    | AckInvalid(c: nat)
    | DeleteInvalid(c: nat)
    | ResolveStep(c: nat)
    | InsertChunk(c: nat)
    | BufferRest(c: nat, now: int)
    | AckStep(c: nat)
    | DeleteStep(c: nat)
    | Crash(c: nat)
    | ResolverRead(r: nat, batch: seq<Identity>)
    | ResolverResolve(r: nat)
    | ResolverInsert(r: nat)
    | ResolverDelete(r: nat)
    | ResolverCrash(r: nat)

  function At(s: State, c: nat): Consumer {
    if c in s.consumers then s.consumers[c] else Idle
  }

  function ResolverAt(s: State, r: nat): Resolver {
    if r in s.resolvers then s.resolvers[r] else Resting
  }

  predicate Valid(m: Message) {
    m.LogMessage?
  }

  function ValidOnly(added: map<nat, Message>, ids: seq<nat>): seq<nat> {
    ValidIn(added, ids, Valid)
  }

  function InvalidIds(added: map<nat, Message>, ids: seq<nat>): set<nat> {
    InvalidIn(added, ids, Valid)
  }

  ghost predicate AllValid(added: map<nat, Message>, ids: seq<nat>) {
    forall id :: id in ids ==> id in added && added[id].LogMessage?
  }

  function Events(added: map<nat, Message>, ids: seq<nat>): seq<LogEvent>
    requires forall id :: id in ids ==> id in added && added[id].LogMessage?
  {
    seq(|ids|, i requires 0 <= i < |ids| => assert ids[i] in ids; added[ids[i]].event)
  }

  function FirstChunk(todo: seq<ResolvedLog>): nat {
    if |todo| < CHUNK then |todo| else CHUNK
  }

  function Identities(events: seq<LogEvent>): seq<Identity> {
    seq(|events|, i requires 0 <= i < |events| => IdentityOf(events[i]))
  }

  function ReadBatch(buffer: Buffer, batch: seq<Identity>): seq<(nat, LogEvent)>
    requires forall k :: k in batch ==> k in buffer
  {
    seq(|batch|, i requires 0 <= i < |batch| =>
      assert batch[i] in batch; (buffer[batch[i]].id, EventOf(batch[i], buffer[batch[i]].content)))
  }

  function RowEvents(rows: seq<(nat, LogEvent)>): seq<LogEvent> {
    seq(|rows|, i requires 0 <= i < |rows| => rows[i].1)
  }

  function ResolvableRowIds(runs: Runs, rows: seq<(nat, LogEvent)>): set<nat> {
    set row | row in rows && row.1.job in runs :: row.0
  }

  ghost predicate Enabled(s: State, step: Step) {
    match step
    case Publish(id, _) => id !in s.group.added
    case CreateRun(job, runId) => job !in s.runs && runId !in s.runs.Values
    case ReadNewStep(c, ids) => At(s, c).Idle? && SetOf(ids) <= s.group.undelivered
    case ClaimStep(c, ids) => At(s, c).Idle? && SetOf(ids) <= s.group.pending
    case AckInvalid(c) => At(s, c).Received?
    case DeleteInvalid(c) => At(s, c).InvalidAcked?
    case ResolveStep(c) => At(s, c).Parsed? && AllValid(s.group.added, At(s, c).ids)
    case InsertChunk(c) => At(s, c).Inserting? && At(s, c).todo != []
    case BufferRest(c, _) => At(s, c).Inserting? && At(s, c).todo == []
    case AckStep(c) => At(s, c).Persisted?
    case DeleteStep(c) => At(s, c).Acked?
    case Crash(_) => true
    case ResolverRead(r, batch) => ResolverAt(s, r).Resting? && forall k :: k in batch ==> k in s.buffer
    case ResolverResolve(r) => ResolverAt(s, r).ReadRows?
    case ResolverInsert(r) => ResolverAt(s, r).Moving? && ResolverAt(s, r).todo != []
    case ResolverDelete(r) => ResolverAt(s, r).Moving? && ResolverAt(s, r).todo == []
    case ResolverCrash(_) => true
  }

  function Moved(s: State, c: nat, consumer: Consumer): State {
    s.(consumers := s.consumers[c := consumer])
  }

  function ResolverMoved(s: State, r: nat, resolver: Resolver): State {
    s.(resolvers := s.resolvers[r := resolver])
  }

  ghost function Apply(s: State, step: Step): State
    requires Enabled(s, step)
  {
    match step
    case Publish(id, message) => s.(group := Add(s.group, id, message))
    case CreateRun(job, runId) => s.(runs := s.runs[job := runId])
    case ReadNewStep(c, ids) => Moved(s.(group := ReadNew(s.group, SetOf(ids))), c, Received(ids))
    case ClaimStep(c, ids) => Moved(s, c, Received(ids))
    case AckInvalid(c) =>
      var ids := At(s, c).ids;
      Moved(s.(group := Ack(s.group, InvalidIds(s.group.added, ids))), c, InvalidAcked(ids))
    case DeleteInvalid(c) =>
      var ids := At(s, c).ids;
      var valid := ValidOnly(s.group.added, ids);
      Moved(
        s.(group := Delete(s.group, InvalidIds(s.group.added, ids))),
        c, if valid == [] then Idle else Parsed(valid))
    case ResolveStep(c) =>
      var ids := At(s, c).ids;
      var events := Events(s.group.added, ids);
      Moved(s, c, Inserting(ids, SortLogs(Resolved(s.runs, events)), Unresolved(s.runs, events)))
    case InsertChunk(c) =>
      var at := At(s, c);
      var n := FirstChunk(at.todo);
      Moved(s.(logs := InsertLogs(s.logs, at.todo[..n])), c, at.(todo := at.todo[n..]))
    case BufferRest(c, now) =>
      var at := At(s, c);
      Moved(
        s.(buffer := BufferLogs(s.buffer, at.unresolved, |s.rowHistory|, now),
           rowHistory := s.rowHistory + Identities(at.unresolved)),
        c, Persisted(at.ids))
    case AckStep(c) =>
      var ids := At(s, c).ids;
      Moved(s.(group := Ack(s.group, SetOf(ids))), c, Acked(ids))
    case DeleteStep(c) => Moved(s.(group := Delete(s.group, SetOf(At(s, c).ids))), c, Idle)
    case Crash(c) => Moved(s, c, Idle)
    case ResolverRead(r, batch) => ResolverMoved(s, r, ReadRows(ReadBatch(s.buffer, batch)))
    case ResolverResolve(r) =>
      var rows := ResolverAt(s, r).rows;
      ResolverMoved(s, r, Moving(SortLogs(Resolved(s.runs, RowEvents(rows))), ResolvableRowIds(s.runs, rows)))
    case ResolverInsert(r) =>
      var at := ResolverAt(s, r);
      var n := FirstChunk(at.todo);
      ResolverMoved(s.(logs := InsertLogs(s.logs, at.todo[..n])), r, at.(todo := at.todo[n..]))
    case ResolverDelete(r) =>
      ResolverMoved(s.(buffer := DeleteRows(s.buffer, ResolverAt(s, r).rowIds)), r, Resting)
    case ResolverCrash(r) => ResolverMoved(s, r, Resting)
  }

  function Start(): State {
    State(Empty(), map[], map[], map[], [], map[], map[])
  }

  ghost predicate IsRun(states: seq<State>, steps: seq<Step>) {
    && |states| == |steps| + 1
    && states[0] == Start()
    && forall i :: 0 <= i < |steps| ==> Enabled(states[i], steps[i]) && states[i + 1] == Apply(states[i], steps[i])
  }

  // ---- What is true of a state ----

  /** In job_logs, under its run. */
  predicate Logged(s: State, k: Identity) {
    k.job in s.runs && LogKey(s.runs[k.job], k.ts, k.logSeq) in s.logs
  }

  predicate Safe(s: State, k: Identity) {
    k in s.buffer || Logged(s, k)
  }

  /** The event was published. */
  ghost predicate Known(s: State, e: LogEvent) {
    exists id :: id in s.group.added && s.group.added[id] == LogMessage(e)
  }

  /** A planned insert: a published event with its own run's id. */
  ghost predicate Planned(s: State, r: ResolvedLog) {
    Known(s, r.event) && r.event.job in s.runs && s.runs[r.event.job] == r.runId
  }

  ghost predicate InTodo(todo: seq<ResolvedLog>, k: Identity) {
    exists r :: r in todo && IdentityOf(r.event) == k
  }

  ghost predicate ConsumerInv(s: State, consumer: Consumer) {
    match consumer
    case Idle => true
    case Received(ids) => Delivered(s, ids)
    case InvalidAcked(ids) => Delivered(s, ids) && InvalidIds(s.group.added, ids) !! s.group.pending
    case Parsed(ids) => Delivered(s, ids) && AllValid(s.group.added, ids)
    case Inserting(ids, todo, unresolved) =>
      && Delivered(s, ids) && AllValid(s.group.added, ids)
      && (forall r :: r in todo ==> Planned(s, r))
      && (forall e :: e in unresolved ==> Known(s, e))
      && (forall id :: id in ids ==>
            var e := s.group.added[id].event; Safe(s, IdentityOf(e)) || InTodo(todo, IdentityOf(e)) || e in unresolved)
    case Persisted(ids) => Delivered(s, ids) && AllSafe(s, ids)
    case Acked(ids) => Delivered(s, ids) && AllSafe(s, ids) && SetOf(ids) !! s.group.pending
  }

  ghost predicate Delivered(s: State, ids: seq<nat>) {
    forall id :: id in ids ==> id in s.group.added && id !in s.group.undelivered
  }

  ghost predicate AllSafe(s: State, ids: seq<nat>) {
    && AllValid(s.group.added, ids)
    && forall id :: id in ids ==> Safe(s, IdentityOf(s.group.added[id].event))
  }

  ghost predicate ResolverInv(s: State, resolver: Resolver) {
    match resolver
    case Resting => true
    case ReadRows(rows) =>
      forall row :: row in rows ==>
        Known(s, row.1) && row.0 < |s.rowHistory| && s.rowHistory[row.0] == IdentityOf(row.1)
    case Moving(todo, rowIds) =>
      && (forall r :: r in todo ==> Planned(s, r))
      && (forall i :: i in rowIds ==>
          i < |s.rowHistory| && (Logged(s, s.rowHistory[i]) || InTodo(todo, s.rowHistory[i])))
  }

  ghost predicate BufferInv(s: State) {
    forall k :: k in s.buffer ==>
      && s.buffer[k].id < |s.rowHistory| && s.rowHistory[s.buffer[k].id] == k
      && Known(s, EventOf(k, s.buffer[k].content))
  }

  /** A published event of that run, with that content. */
  ghost predicate HasOrigin(s: State, key: LogKey, content: Content) {
    exists e ::
      && Known(s, e) && e.job in s.runs
      && key == LogKey(s.runs[e.job], e.ts, e.logSeq) && content == ContentOf(e)
  }

  ghost predicate LogsInv(s: State) {
    forall key :: key in s.logs ==> HasOrigin(s, key, s.logs[key])
  }

  ghost predicate MessagesInv(s: State) {
    forall id :: id in s.group.added && s.group.added[id].LogMessage? ==>
      Deliverable(s.group, id) || Safe(s, IdentityOf(s.group.added[id].event))
  }

  ghost predicate Inv(s: State) {
    && Consistent(s.group)
    && (forall a, b :: a in s.runs && b in s.runs && s.runs[a] == s.runs[b] ==> a == b)
    && MessagesInv(s)
    && BufferInv(s)
    && LogsInv(s)
    && (forall c :: c in s.consumers ==> ConsumerInv(s, s.consumers[c]))
    && (forall r :: r in s.resolvers ==> ResolverInv(s, s.resolvers[r]))
  }

  // ---- What only grows ----

  ghost predicate GroupGrows(s: State, t: State) {
    && (forall id :: id in s.group.added ==> id in t.group.added && t.group.added[id] == s.group.added[id])
    && (forall id :: id in s.group.added && id in t.group.undelivered ==> id in s.group.undelivered)
    && (forall id :: id in s.group.added && id !in s.group.undelivered && id in t.group.pending ==>
        id in s.group.pending)
  }

  ghost predicate DataGrows(s: State, t: State) {
    && (forall job :: job in s.runs ==> job in t.runs && t.runs[job] == s.runs[job])
    && (forall key :: key in s.logs ==> key in t.logs && t.logs[key] == s.logs[key])
    && |s.rowHistory| <= |t.rowHistory| && t.rowHistory[..|s.rowHistory|] == s.rowHistory
  }

  ghost predicate Grows(s: State, t: State) {
    GroupGrows(s, t) && DataGrows(s, t)
  }

  lemma StepGrows(s: State, step: Step)
    requires Enabled(s, step)
    ensures Grows(s, Apply(s, step))
  {
    StepGroupGrows(s, step);
    StepDataGrows(s, step);
  }

  lemma StepGroupGrows(s: State, step: Step)
    requires Enabled(s, step)
    ensures GroupGrows(s, Apply(s, step))
  {
    hide SortLogs, Resolved, Unresolved, InsertLogs, BufferLogs, DeleteRows, ReadBatch, ValidOnly, InvalidIds;
    hide Add, ReadNew, Ack, Delete, GroupGrows, SetOf, Events, Identities, ResolvableRowIds;
    var t := Apply(s, step);
    match step
    case Publish(id, message) => AddGrows(s, t, id, message);
    case ReadNewStep(c, ids) => ReadGrows(s, t, SetOf(ids));
    case AckInvalid(c) => AckGrows(s, t, InvalidIds(s.group.added, At(s, c).ids));
    case AckStep(c) => AckGrows(s, t, SetOf(At(s, c).ids));
    case DeleteInvalid(c) => DeleteGrows(s, t, InvalidIds(s.group.added, At(s, c).ids));
    case DeleteStep(c) => DeleteGrows(s, t, SetOf(At(s, c).ids));
    case _ => SameGrows(s, t);
  }

  lemma AddGrows(s: State, t: State, id: nat, message: Message)
    requires id !in s.group.added && t.group == Add(s.group, id, message)
    ensures GroupGrows(s, t)
  {
  }

  lemma ReadGrows(s: State, t: State, ids: set<nat>)
    requires ids <= s.group.undelivered && t.group == ReadNew(s.group, ids)
    ensures GroupGrows(s, t)
  {
  }

  lemma AckGrows(s: State, t: State, ids: set<nat>)
    requires t.group == Ack(s.group, ids)
    ensures GroupGrows(s, t)
  {
  }

  lemma DeleteGrows(s: State, t: State, ids: set<nat>)
    requires t.group == Delete(s.group, ids)
    ensures GroupGrows(s, t)
  {
  }

  lemma SameGrows(s: State, t: State)
    requires t.group == s.group
    ensures GroupGrows(s, t)
  {
  }

  lemma StepDataGrows(s: State, step: Step)
    requires Enabled(s, step)
    ensures DataGrows(s, Apply(s, step))
  {
    hide SortLogs, Resolved, Unresolved, InsertLogs, BufferLogs, DeleteRows, ReadBatch, ValidOnly, InvalidIds;
    hide Add, ReadNew, Ack, Delete;
    match step
    case InsertChunk(c) => InsertLogsExact(s.logs, At(s, c).todo[..FirstChunk(At(s, c).todo)]);
    case ResolverInsert(r) => InsertLogsExact(s.logs, ResolverAt(s, r).todo[..FirstChunk(ResolverAt(s, r).todo)]);
    case _ =>
  }

  lemma StepConsistent(s: State, step: Step)
    requires Inv(s) && Enabled(s, step)
    ensures Consistent(Apply(s, step).group)
  {
    hide ResolverInv, BufferInv, LogsInv, MessagesInv, SortLogs, Resolved, Unresolved, InsertLogs, BufferLogs;
    hide Safe, Known;
  }

  lemma KnownStays(s: State, t: State, e: LogEvent)
    requires Grows(s, t) && Known(s, e)
    ensures Known(t, e)
  {
    var id :| id in s.group.added && s.group.added[id] == LogMessage(e);
    assert t.group.added[id] == LogMessage(e);
  }

  lemma OnlyResolversDelete(s: State, step: Step, k: Identity)
    requires Enabled(s, step) && k in s.buffer && k !in Apply(s, step).buffer
    ensures step.ResolverDelete? && s.buffer[k].id in ResolverAt(s, step.r).rowIds
  {
    hide SortLogs, Resolved, Unresolved, InsertLogs, BufferLogs, ReadBatch, ValidOnly, InvalidIds, Events, SetOf;
    if step.BufferRest? {
      BufferLogsExact(s.buffer, At(s, step.c).unresolved, |s.rowHistory|, step.now);
    }
  }

  /** A buffer row is deleted only after its job_logs row exists. */
  lemma DeletedOnlyWhenLogged(s: State, step: Step, k: Identity)
    requires Inv(s) && Enabled(s, step)
    requires k in s.buffer && k !in Apply(s, step).buffer
    ensures step.ResolverDelete? && Logged(s, k) && Logged(Apply(s, step), k)
  {
    OnlyResolversDelete(s, step, k);
    hide ConsumerInv, LogsInv, MessagesInv, SortLogs, Resolved, InsertLogs, BufferLogs, DeleteRows;
    assert ResolverInv(s, ResolverAt(s, step.r));
    assert s.rowHistory[s.buffer[k].id] == k;
  }

  lemma SafeStays(s: State, step: Step, k: Identity)
    requires Inv(s) && Enabled(s, step) && Safe(s, k)
    ensures Safe(Apply(s, step), k)
  {
    hide ConsumerInv, ResolverInv, BufferInv, LogsInv, MessagesInv, SortLogs, Resolved, InsertLogs;
    hide BufferLogs, Apply, Enabled;
    StepGrows(s, step);
    if k in s.buffer && k !in Apply(s, step).buffer { DeletedOnlyWhenLogged(s, step, k); }
  }

  /** A planned insert that has been carried out. */
  lemma InsertedIsLogged(s: State, rows: seq<ResolvedLog>, r: ResolvedLog)
    requires r in rows && Planned(s, r)
    ensures Logged(s.(logs := InsertLogs(s.logs, rows)), IdentityOf(r.event))
  {
    InsertLogsExact(s.logs, rows);
    assert Offers(rows, KeyOf(r));
  }

  // ---- The parts of the invariant, one at a time ----

  /** A process that does not take the step keeps its facts. */
  lemma OtherConsumer(s: State, step: Step, consumer: Consumer)
    requires Inv(s) && Enabled(s, step) && ConsumerInv(s, consumer)
    ensures ConsumerInv(Apply(s, step), consumer)
  {
    hide ResolverInv, BufferInv, LogsInv, MessagesInv, SortLogs, Resolved, InsertLogs, BufferLogs, Apply;
    hide Enabled, Safe, Known;
    var t := Apply(s, step);
    StepGrows(s, step);
    forall k | Safe(s, k) ensures Safe(t, k) { SafeStays(s, step, k); }
    forall e | Known(s, e) ensures Known(t, e) { KnownStays(s, t, e); }
  }

  lemma OtherResolver(s: State, step: Step, resolver: Resolver)
    requires Inv(s) && Enabled(s, step) && ResolverInv(s, resolver)
    ensures ResolverInv(Apply(s, step), resolver)
  {
    hide ConsumerInv, BufferInv, LogsInv, MessagesInv, SortLogs, Resolved, InsertLogs, BufferLogs, Apply;
    hide Enabled, Known;
    var t := Apply(s, step);
    StepGrows(s, step);
    forall e | Known(s, e) ensures Known(t, e) { KnownStays(s, t, e); }
    forall i | 0 <= i < |s.rowHistory| ensures t.rowHistory[i] == s.rowHistory[i] {
      assert t.rowHistory[..|s.rowHistory|][i] == s.rowHistory[i];
    }
  }

  /** Every event is planned under its own run or left over. */
  lemma ResolvePlan(runs: Runs, events: seq<LogEvent>)
    ensures forall r :: r in SortLogs(Resolved(runs, events)) ==>
              r.event in events && r.event.job in runs && r.runId == runs[r.event.job]
    ensures forall e :: e in Unresolved(runs, events) ==> e in events
    ensures forall e :: e in events ==>
              if e.job in runs then InTodo(SortLogs(Resolved(runs, events)), IdentityOf(e))
                  else e in Unresolved(runs, events)
  {
    hide Resolved, Unresolved;
    ResolvedExact(runs, events);
    Ordering.SortKeeps(Resolved(runs, events), LogBefore);
    forall e | e in events && e.job in runs ensures InTodo(SortLogs(Resolved(runs, events)), IdentityOf(e)) {
      assert ResolvedLog(e, runs[e.job]) in SortLogs(Resolved(runs, events));
    }
  }

  lemma ResolveFacts(s: State, c: nat)
    requires Inv(s) && Enabled(s, ResolveStep(c))
    ensures ConsumerInv(Apply(s, ResolveStep(c)), Apply(s, ResolveStep(c)).consumers[c])
  {
    hide ResolverInv, BufferInv, LogsInv, MessagesInv, SortLogs, Resolved, Unresolved, Safe, InTodo;
    var ids := At(s, c).ids;
    var events := Events(s.group.added, ids);
    ResolvePlan(s.runs, events);
    forall e | e in events ensures Known(s, e) {
      var i :| 0 <= i < |events| && events[i] == e;
      assert ids[i] in ids;
    }
    forall id | id in ids ensures s.group.added[id].event in events {
      var i :| 0 <= i < |ids| && ids[i] == id;
      assert events[i] == s.group.added[id].event;
    }
  }

  lemma InsertFacts(s: State, c: nat)
    requires Inv(s) && Enabled(s, InsertChunk(c))
    ensures ConsumerInv(Apply(s, InsertChunk(c)), Apply(s, InsertChunk(c)).consumers[c])
  {
    hide ResolverInv, BufferInv, LogsInv, MessagesInv, InsertLogs, Known, Logged;
    var t := Apply(s, InsertChunk(c));
    var at := At(s, c);
    var n := FirstChunk(at.todo);
    assert at.todo == at.todo[..n] + at.todo[n..];
    ChunkLogged(s, t, at.todo, n);
    forall k | Safe(s, k) ensures Safe(t, k) { SafeStays(s, InsertChunk(c), k); }
    forall e | Known(s, e) ensures Known(t, e) { StepGrows(s, InsertChunk(c)); KnownStays(s, t, e); }
    forall r | r in at.todo[n..] ensures r in at.todo {}
  }

  /** Inserting the first n planned rows: each identity of the plan is logged or still to do. */
  lemma ChunkLogged(s: State, t: State, todo: seq<ResolvedLog>, n: nat)
    requires n <= |todo| && forall r :: r in todo ==> Planned(s, r)
    requires t.runs == s.runs && t.logs == InsertLogs(s.logs, todo[..n])
    ensures forall k :: InTodo(todo, k) ==> Logged(t, k) || InTodo(todo[n..], k)
  {
    hide InsertLogs, Known;
    assert todo == todo[..n] + todo[n..];
    forall k | InTodo(todo, k) ensures Logged(t, k) || InTodo(todo[n..], k) {
      var r :| r in todo && IdentityOf(r.event) == k;
      if r in todo[..n] { InsertedIsLogged(s, todo[..n], r); }
    }
  }

  lemma BufferFacts(s: State, c: nat, now: int)
    requires Inv(s) && Enabled(s, BufferRest(c, now))
    ensures ConsumerInv(Apply(s, BufferRest(c, now)), Persisted(At(s, c).ids))
  {
    hide ResolverInv, BufferInv, LogsInv, MessagesInv, BufferLogs, Known, Logged;
    var t := Apply(s, BufferRest(c, now));
    BufferLogsExact(s.buffer, At(s, c).unresolved, |s.rowHistory|, now);
    forall id | id in At(s, c).ids ensures Safe(t, IdentityOf(s.group.added[id].event)) {
      var e := s.group.added[id].event;
      if Safe(s, IdentityOf(e)) {
        SafeStays(s, BufferRest(c, now), IdentityOf(e));
      } else {
        assert Names(At(s, c).unresolved, IdentityOf(e));
      }
    }
  }

  lemma DeleteInvalidFacts(s: State, c: nat)
    requires Inv(s) && Enabled(s, DeleteInvalid(c))
    ensures ConsumerInv(Apply(s, DeleteInvalid(c)), Apply(s, DeleteInvalid(c)).consumers[c])
  {
    hide ResolverInv, BufferInv, LogsInv, MessagesInv, Known;
    ValidInMembers(s.group.added, At(s, c).ids, Valid);
  }

  lemma AckFacts(s: State, c: nat)
    requires Inv(s) && Enabled(s, AckStep(c))
    ensures ConsumerInv(Apply(s, AckStep(c)), Acked(At(s, c).ids))
  {
    hide ResolverInv, BufferInv, LogsInv, MessagesInv, Known;
    assert ConsumerInv(s, At(s, c));
  }

  lemma ActingConsumer(s: State, step: Step, c: nat)
    requires Inv(s) && Enabled(s, step) && Actor(step) == Some(c)
    ensures ConsumerInv(Apply(s, step), Apply(s, step).consumers[c])
  {
    hide ResolverInv, BufferInv, LogsInv, MessagesInv, SortLogs, Resolved, InsertLogs, BufferLogs, Known, Safe;
    hide Planned, InTodo, Unresolved, ReadBatch, ValidOnly, Events, AllSafe;
    match step
    case ResolveStep(_) => ResolveFacts(s, c);
    case AckStep(_) => AckFacts(s, c);
    case InsertChunk(_) => InsertFacts(s, c);
    case BufferRest(_, now) => BufferFacts(s, c, now);
    case DeleteInvalid(_) => DeleteInvalidFacts(s, c);
    case _ =>
  }

  /** The consumer that takes the step, if a consumer does. */
  function Actor(step: Step): Option<nat> {
    match step
    case ReadNewStep(c, _) => Some(c)
    case ClaimStep(c, _) => Some(c)
    case AckInvalid(c) => Some(c)
    case DeleteInvalid(c) => Some(c)
    case ResolveStep(c) => Some(c)
    case InsertChunk(c) => Some(c)
    case BufferRest(c, _) => Some(c)
    case AckStep(c) => Some(c)
    case DeleteStep(c) => Some(c)
    case Crash(c) => Some(c)
    case _ => None
  }

  lemma ResolverReadFacts(s: State, r: nat, batch: seq<Identity>)
    requires Inv(s) && Enabled(s, ResolverRead(r, batch))
    ensures ResolverInv(Apply(s, ResolverRead(r, batch)), ReadRows(ReadBatch(s.buffer, batch)))
  {
    hide ConsumerInv, LogsInv, MessagesInv, Known;
    var t := Apply(s, ResolverRead(r, batch));
    var rows := ReadBatch(s.buffer, batch);
    forall row | row in rows
      ensures Known(t, row.1) && row.0 < |s.rowHistory| && s.rowHistory[row.0] == IdentityOf(row.1)
    {
      var i :| 0 <= i < |rows| && rows[i] == row;
      assert batch[i] in batch;
      StepGrows(s, ResolverRead(r, batch));
      KnownStays(s, t, row.1);
    }
  }

  lemma ResolverResolveFacts(s: State, r: nat)
    requires Inv(s) && Enabled(s, ResolverResolve(r))
    ensures ResolverInv(Apply(s, ResolverResolve(r)), Apply(s, ResolverResolve(r)).resolvers[r])
  {
    hide ConsumerInv, BufferInv, LogsInv, MessagesInv, SortLogs, Resolved, Known, InTodo;
    var t := Apply(s, ResolverResolve(r));
    var rows := ResolverAt(s, r).rows;
    var events := RowEvents(rows);
    ResolvePlan(s.runs, events);
    StepGrows(s, ResolverResolve(r));
    forall e | e in events ensures Known(t, e) {
      var i :| 0 <= i < |events| && events[i] == e;
      assert rows[i] in rows;
      KnownStays(s, t, e);
    }
    forall row | row in rows ensures row.1 in events {
      var i :| 0 <= i < |rows| && rows[i] == row;
      assert events[i] == row.1;
    }
  }

  lemma ResolverInsertFacts(s: State, r: nat)
    requires Inv(s) && Enabled(s, ResolverInsert(r))
    ensures ResolverInv(Apply(s, ResolverInsert(r)), Apply(s, ResolverInsert(r)).resolvers[r])
  {
    hide ConsumerInv, BufferInv, LogsInv, MessagesInv, InsertLogs, Known;
    var t := Apply(s, ResolverInsert(r));
    var at := ResolverAt(s, r);
    var n := FirstChunk(at.todo);
    assert at.todo == at.todo[..n] + at.todo[n..];
    ChunkLogged(s, t, at.todo, n);
    StepGrows(s, ResolverInsert(r));
    forall e | Known(s, e) ensures Known(t, e) { KnownStays(s, t, e); }
    forall x | x in at.todo[n..] ensures x in at.todo {}
    forall k | Logged(s, k) ensures Logged(t, k) {}
  }

  lemma ActingResolver(s: State, step: Step, r: nat)
    requires Inv(s) && Enabled(s, step) && ResolverActor(step) == Some(r)
    ensures ResolverInv(Apply(s, step), Apply(s, step).resolvers[r])
  {
    hide ConsumerInv, BufferInv, LogsInv, MessagesInv, SortLogs, Resolved, InsertLogs, BufferLogs, Known;
    match step
    case ResolverRead(_, batch) => ResolverReadFacts(s, r, batch);
    case ResolverResolve(_) => ResolverResolveFacts(s, r);
    case ResolverInsert(_) => ResolverInsertFacts(s, r);
    case _ =>
  }

  function ResolverActor(step: Step): Option<nat> {
    match step
    case ResolverRead(r, _) => Some(r)
    case ResolverResolve(r) => Some(r)
    case ResolverInsert(r) => Some(r)
    case ResolverDelete(r) => Some(r)
    case ResolverCrash(r) => Some(r)
    case _ => None
  }

  lemma BufferedRow(s: State, t: State, k: Identity)
    requires BufferInv(s) && Grows(s, t) && k in s.buffer && k in t.buffer && t.buffer[k] == s.buffer[k]
    ensures t.buffer[k].id < |t.rowHistory| && t.rowHistory[t.buffer[k].id] == k
    ensures Known(t, EventOf(k, t.buffer[k].content))
  {
    hide Known;
    var id := s.buffer[k].id;
    assert t.rowHistory[..|s.rowHistory|][id] == s.rowHistory[id];
    KnownStays(s, t, EventOf(k, t.buffer[k].content));
  }

  lemma BufferRestStep(s: State, c: nat, now: int)
    requires Inv(s) && Enabled(s, BufferRest(c, now))
    ensures BufferInv(Apply(s, BufferRest(c, now)))
  {
    hide ResolverInv, LogsInv, MessagesInv, BufferLogs, Known;
    var t := Apply(s, BufferRest(c, now));
    var unresolved := At(s, c).unresolved;
    StepGrows(s, BufferRest(c, now));
    BufferLogsExact(s.buffer, unresolved, |s.rowHistory|, now);
    forall k | k in t.buffer
      ensures t.buffer[k].id < |t.rowHistory| && t.rowHistory[t.buffer[k].id] == k
      ensures Known(t, EventOf(k, t.buffer[k].content))
    {
      if k in s.buffer {
        BufferedRow(s, t, k);
      } else {
        var row := t.buffer[k];
        assert unresolved[row.id - |s.rowHistory|] == EventOf(k, row.content);
        assert EventOf(k, row.content) in unresolved;
        KnownStays(s, t, EventOf(k, row.content));
      }
    }
  }

  lemma BufferStep(s: State, step: Step)
    requires Inv(s) && Enabled(s, step)
    ensures BufferInv(Apply(s, step))
  {
    hide ConsumerInv, ResolverInv, LogsInv, MessagesInv, SortLogs, Resolved, Unresolved, InsertLogs, BufferLogs, Known;
    hide Grows, ReadBatch, RowEvents, ResolvableRowIds, ValidOnly, InvalidIds, Events;
    var t := Apply(s, step);
    if step.BufferRest? {
      BufferRestStep(s, step.c, step.now);
    } else {
      StepGrows(s, step);
      forall k | k in t.buffer
        ensures t.buffer[k].id < |t.rowHistory| && t.rowHistory[t.buffer[k].id] == k
        ensures Known(t, EventOf(k, t.buffer[k].content))
      {
        BufferedRow(s, t, k);
      }
    }
  }

  lemma OriginStays(s: State, t: State, key: LogKey, content: Content)
    requires Grows(s, t) && HasOrigin(s, key, content)
    ensures HasOrigin(t, key, content)
  {
    var e :| Known(s, e) && e.job in s.runs && key == LogKey(s.runs[e.job], e.ts, e.logSeq) && content == ContentOf(e);
    KnownStays(s, t, e);
  }

  lemma InsertedHasOrigin(s: State, todo: seq<ResolvedLog>, n: nat, key: LogKey)
    requires n <= |todo| && forall r :: r in todo ==> Planned(s, r)
    requires key in InsertLogs(s.logs, todo[..n]) && key !in s.logs
    ensures HasOrigin(s, key, InsertLogs(s.logs, todo[..n])[key])
  {
    hide Known;
    InsertLogsExact(s.logs, todo[..n]);
    var r :| r in todo[..n] && KeyOf(r) == key && ContentOf(r.event) == InsertLogs(s.logs, todo[..n])[key];
    assert r in todo;
  }

  lemma LogsStep(s: State, step: Step)
    requires Inv(s) && Enabled(s, step)
    ensures LogsInv(Apply(s, step))
  {
    hide BufferInv, MessagesInv, SortLogs, Resolved, InsertLogs, BufferLogs, HasOrigin, Known;
    var t := Apply(s, step);
    StepGrows(s, step);
    forall key | key in t.logs ensures HasOrigin(t, key, t.logs[key]) {
      if key !in s.logs {
        var todo := if step.InsertChunk? then At(s, step.c).todo else ResolverAt(s, step.r).todo;
        InsertedHasOrigin(s, todo, FirstChunk(todo), key);
      }
      OriginStays(s, t, key, t.logs[key]);
    }
  }

  lemma MessagesStep(s: State, step: Step)
    requires Inv(s) && Enabled(s, step)
    ensures MessagesInv(Apply(s, step))
  {
    hide ResolverInv, BufferInv, LogsInv, SortLogs, Resolved, InsertLogs, BufferLogs, Safe, Known;
    var t := Apply(s, step);
    forall k | Safe(s, k) ensures Safe(t, k) { SafeStays(s, step, k); }
  }

  lemma StepKeepsInv(s: State, step: Step)
    requires Inv(s) && Enabled(s, step)
    ensures Inv(Apply(s, step))
  {
    hide ConsumerInv, ResolverInv, BufferInv, LogsInv, MessagesInv, SortLogs, Resolved, InsertLogs, BufferLogs;
    var t := Apply(s, step);
    StepConsistent(s, step);
    MessagesStep(s, step);
    BufferStep(s, step);
    LogsStep(s, step);
    forall c | c in t.consumers ensures ConsumerInv(t, t.consumers[c]) {
      if Actor(step) == Some(c) { ActingConsumer(s, step, c); } else { OtherConsumer(s, step, s.consumers[c]); }
    }
    forall r | r in t.resolvers ensures ResolverInv(t, t.resolvers[r]) {
      if ResolverActor(step) == Some(r) { ActingResolver(s, step, r); } else { OtherResolver(s, step, s.resolvers[r]); }
    }
  }

  lemma {:induction false} RunKeepsInv(states: seq<State>, steps: seq<Step>, i: nat)
    requires IsRun(states, steps) && i < |states|
    ensures Inv(states[i])
  {
    if i > 0 {
      RunKeepsInv(states, steps, i - 1);
      StepKeepsInv(states[i - 1], steps[i - 1]);
    }
  }

  // ---- The theorems ----

  /** No log is lost: in every reachable state each valid event ever published will still be delivered, or its identity
      is in the buffer, or it is in job_logs under its run. */
  lemma NoLogIsLost(states: seq<State>, steps: seq<Step>, i: nat, id: nat)
    requires IsRun(states, steps) && i < |states|
    requires id in states[i].group.added && states[i].group.added[id].LogMessage?
    ensures var s := states[i];
            Deliverable(s.group, id) || Safe(s, IdentityOf(s.group.added[id].event))
  {
    RunKeepsInv(states, steps, i);
  }

  /** A buffer row disappears only in a step before which its job_logs row already existed. */
  lemma BufferRowDeletedOnlyWhenLogged(states: seq<State>, steps: seq<Step>, i: nat, k: Identity)
    requires IsRun(states, steps) && i < |steps|
    requires k in states[i].buffer && k !in states[i + 1].buffer
    ensures Logged(states[i], k) && Logged(states[i + 1], k)
  {
    RunKeepsInv(states, steps, i);
    DeletedOnlyWhenLogged(states[i], steps[i], k);
  }

  /** Nothing is made up or attributed to another run: every job_logs row is a published event of its own run. */
  lemma LogsComeFromEvents(states: seq<State>, steps: seq<Step>, i: nat, key: LogKey)
    requires IsRun(states, steps) && i < |states| && key in states[i].logs
    ensures HasOrigin(states[i], key, states[i].logs[key])
  {
    RunKeepsInv(states, steps, i);
  }

  /** If events with one identity are redeliveries of one log, what is logged for an event is its own content. */
  lemma LoggedContentIsOwn(states: seq<State>, steps: seq<Step>, i: nat, e: LogEvent)
    requires IsRun(states, steps) && i < |states|
    requires Known(states[i], e) && Logged(states[i], IdentityOf(e))
    requires forall x, y :: Known(states[i], x) && Known(states[i], y) && IdentityOf(x) == IdentityOf(y) ==> x == y
    ensures states[i].logs[LogKey(states[i].runs[e.job], e.ts, e.logSeq)] == ContentOf(e)
  {
    var s := states[i];
    RunKeepsInv(states, steps, i);
    var key := LogKey(s.runs[e.job], e.ts, e.logSeq);
    assert HasOrigin(s, key, s.logs[key]);
    var o :| Known(s, o) && o.job in s.runs && key == LogKey(s.runs[o.job], o.ts, o.logSeq) &&
        s.logs[key] == ContentOf(o);
    assert IdentityOf(o) == IdentityOf(e);
  }
}
