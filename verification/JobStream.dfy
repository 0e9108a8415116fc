/** Job events from the stream into job_runs, step by step. Any number of consumers interleave, a consumer may
    crash between any two steps, and its unacknowledged messages are claimed by others. */
module JobStream {
  import opened Common
  import opened StreamGroup
  import opened JobRuns
  import opened JobUpsert
  import opened JobHistory

  datatype Message = Malformed | Event(event: JobEvent)

  predicate Valid(m: Message) {
    m.Event? && FormatJobRun(m.event).Ok?
  }

  function Row(m: Message): JobRun
    requires Valid(m)
  {
    FormatJobRun(m.event).value
  }

  /** Where a consumer is inside processMessages. */
  datatype Consumer =
    | Idle
    | Received(ids: seq<nat>)
    | InvalidAcked(ids: seq<nat>)
    | Parsed(ids: seq<nat>)
    | Written(ids: seq<nat>)
    | Acked(ids: seq<nat>)

  /** `written` remembers the keys of the rows that upserts left in job_runs, and `expired` the events that an upsert
      skipped because they were older than its cutoff. */
  datatype State = State(
    group: Group<Message>, table: Table, written: set<RunKey>, expired: set<nat>, consumers: map<nat, Consumer>)

  datatype Step =
    | Publish(id: nat, message: Message)
    | ReadNewStep(c: nat, ids: seq<nat>)
    | ClaimStep(c: nat, ids: seq<nat>)
    | AckInvalid(c: nat)
    | DeleteInvalid(c: nat)
    | Upsert(c: nat, cutoff: Option<int>)
    | AckStep(c: nat)
    | DeleteStep(c: nat)
    | Crash(c: nat)
    | OtherUpsert(batch: seq<JobRun>, cutoff: Option<int>)
    | RetentionDelete(before: int)

  function At(s: State, c: nat): Consumer {
    if c in s.consumers then s.consumers[c] else Idle
  }

  function ValidOnly(added: map<nat, Message>, ids: seq<nat>): seq<nat> {
    ValidIn(added, ids, Valid)
  }

  function InvalidIds(added: map<nat, Message>, ids: seq<nat>): set<nat> {
    InvalidIn(added, ids, Valid)
  }

  function Rows(added: map<nat, Message>, ids: seq<nat>): seq<JobRun>
    requires forall id :: id in ids ==> id in added && Valid(added[id])
  {
    seq(|ids|, i requires 0 <= i < |ids| => assert ids[i] in ids; Row(added[ids[i]]))
  }

  ghost predicate AllValid(added: map<nat, Message>, ids: seq<nat>) {
    forall id :: id in ids ==> id in added && Valid(added[id])
  }

  ghost predicate Enabled(s: State, step: Step) {
    match step
    case Publish(id, _) => id !in s.group.added
    case ReadNewStep(c, ids) => At(s, c).Idle? && SetOf(ids) <= s.group.undelivered
    case ClaimStep(c, ids) => At(s, c).Idle? && SetOf(ids) <= s.group.pending
    case AckInvalid(c) => At(s, c).Received?
    case DeleteInvalid(c) => At(s, c).InvalidAcked?
    case Upsert(c, _) => At(s, c).Parsed? && AllValid(s.group.added, At(s, c).ids)
    case AckStep(c) => At(s, c).Written?
    case DeleteStep(c) => At(s, c).Acked?
    case Crash(_) => true
    case OtherUpsert(batch, _) => FromEvents(batch)
    case RetentionDelete(_) => true
  }

  /** Rows made by formatJobRun: created when they were enqueued. */
  predicate FromEvents(batch: seq<JobRun>) {
    forall i :: 0 <= i < |batch| ==> batch[i].columns.createdAt == batch[i].key.enqueuedAt
  }

  /** DELETE FROM job_runs WHERE created_at < before */
  function DeleteOld(table: Table, before: int): Table {
    map k | k in table && table[k].columns.createdAt >= before :: table[k]
  }

  ghost function Apply(s: State, step: Step): State
    requires Enabled(s, step)
  {
    match step
    case Publish(id, message) => s.(group := Add(s.group, id, message))
    case ReadNewStep(c, ids) => s.(group := ReadNew(s.group, SetOf(ids)), consumers := s.consumers[c := Received(ids)])
    case ClaimStep(c, ids) => s.(consumers := s.consumers[c := Received(ids)])
    case AckInvalid(c) =>
      var ids := At(s, c).ids;
      s.(group := Ack(s.group, InvalidIds(s.group.added, ids)), consumers := s.consumers[c := InvalidAcked(ids)])
    case DeleteInvalid(c) =>
      var ids := At(s, c).ids;
      var valid := ValidOnly(s.group.added, ids);
      s.(group := Delete(s.group, InvalidIds(s.group.added, ids)),
         consumers := s.consumers[c := if valid == [] then Idle else Parsed(valid)])
    case Upsert(c, cutoff) =>
      var ids := At(s, c).ids;
      var table := UpsertBatch(s.table, Rows(s.group.added, ids), cutoff).0;
      s.(table := table,
         written := s.written + table.Keys,
         expired := s.expired + (set id | id in ids && !WithinRetention(Row(s.group.added[id]), cutoff)),
         consumers := s.consumers[c := Written(ids)])
    case AckStep(c) =>
      var ids := At(s, c).ids;
      s.(group := Ack(s.group, SetOf(ids)), consumers := s.consumers[c := Acked(ids)])
    case DeleteStep(c) =>
      s.(group := Delete(s.group, SetOf(At(s, c).ids)), consumers := s.consumers[c := Idle])
    case Crash(c) => s.(consumers := s.consumers[c := Idle])
    case OtherUpsert(batch, cutoff) =>
      var table := UpsertBatch(s.table, batch, cutoff).0;
      s.(table := table, written := s.written + table.Keys)
    case RetentionDelete(before) => s.(table := DeleteOld(s.table, before))
  }

  function Start(): State {
    State(Empty(), map[], {}, {}, map[])
  }

  ghost predicate Follows(states: seq<State>, steps: seq<Step>) {
    && |states| == |steps| + 1
    && forall i :: 0 <= i < |steps| ==> Enabled(states[i], steps[i]) && states[i + 1] == Apply(states[i], steps[i])
  }

  ghost predicate IsRun(states: seq<State>, steps: seq<Step>) {
    Follows(states, steps) && states[0] == Start()
  }

  /** The hypothesis on batches: within each upserted batch, different jobs print different dedupe keys. */
  ghost predicate InjectiveStep(s: State, step: Step) {
    step.Upsert? && Enabled(s, step) ==> KeysInjective(Rows(s.group.added, At(s, step.c).ids), step.cutoff)
  }

  ghost predicate Settled(s: State, id: nat) {
    && id in s.group.added && Valid(s.group.added[id])
    && (Row(s.group.added[id]).key in s.written || id in s.expired)
  }

  /** This step deletes the rows of the time of this one. */
  predicate RemovesOld(step: Step, k: RunKey) {
    step.RetentionDelete? && k.enqueuedAt < step.before
  }

  /** This step is the upsert that leaves out this event as too old. */
  ghost predicate SkipsOld(s: State, step: Step, id: nat) {
    && Enabled(s, step) && step.Upsert? && id in At(s, step.c).ids
    && !WithinRetention(Row(s.group.added[id]), step.cutoff)
  }

  predicate TimesAgree(table: Table) {
    forall k :: k in table ==> table[k].columns.createdAt == k.enqueuedAt
  }

  ghost predicate ConsumerInv(s: State, consumer: Consumer) {
    && (!consumer.Idle? ==> forall id :: id in consumer.ids ==> id in s.group.added && id !in s.group.undelivered)
    && (consumer.InvalidAcked? ==> InvalidIds(s.group.added, consumer.ids) !! s.group.pending)
    && (consumer.Parsed? || consumer.Written? || consumer.Acked? ==> AllValid(s.group.added, consumer.ids))
    && (consumer.Written? || consumer.Acked? ==> forall id :: id in consumer.ids ==> Settled(s, id))
    && (consumer.Acked? ==> SetOf(consumer.ids) !! s.group.pending)
  }

  ghost predicate Inv(s: State) {
    && Consistent(s.group) && TimesAgree(s.table) && s.table.Keys <= s.written
    && (forall id :: id in s.group.added && Valid(s.group.added[id]) ==> Deliverable(s.group, id) || Settled(s, id))
    && (forall c :: c in s.consumers ==> ConsumerInv(s, s.consumers[c]))
  }

  /** No upsert removes a row. */
  lemma UpsertKeepsKeys(table: Table, batch: seq<JobRun>, cutoff: Option<int>)
    ensures table.Keys <= UpsertBatch(table, batch, cutoff).0.Keys
  {
    ValuesSorted(batch, cutoff);
    UpsertAllRows(table, Values(batch, cutoff));
  }

  /** With distinct printed keys, the upsert settles every event of its batch. */
  lemma UpsertSettles(s: State, c: nat, cutoff: Option<int>)
    requires Inv(s) && Enabled(s, Upsert(c, cutoff)) && InjectiveStep(s, Upsert(c, cutoff))
    ensures forall id :: id in At(s, c).ids ==> Settled(Apply(s, Upsert(c, cutoff)), id)
  {
    hide Values, UpsertAll;
    var ids := At(s, c).ids;
    var rows := Rows(s.group.added, ids);
    AllJobsWrittenIff(rows, cutoff);
    ValuesSorted(rows, cutoff);
    UpsertAllRows(s.table, Values(rows, cutoff));
    forall id | id in ids ensures Settled(Apply(s, Upsert(c, cutoff)), id) {
      var i :| 0 <= i < |ids| && ids[i] == id;
      assert rows[i] == Row(s.group.added[id]);
      if WithinRetention(rows[i], cutoff) {
        assert Wrote(Values(rows, cutoff), rows[i].key);
      }
    }
  }

  lemma UpsertKeepsTimes(table: Table, batch: seq<JobRun>, cutoff: Option<int>)
    requires TimesAgree(table) && FromEvents(batch)
    ensures TimesAgree(UpsertBatch(table, batch, cutoff).0)
  {
    var values := Values(batch, cutoff);
    ValuesSorted(batch, cutoff);
    UpsertAllRows(table, values);
    hide Values, UpsertAll, LastWith;
    forall i | 0 <= i < |values|
      ensures Stored(table, values[i]).columns.createdAt == values[i].key.enqueuedAt
    {
      assert values[i] in values;
      LastWithIsMember(batch, cutoff, DedupeKey(values[i]));
    }
  }

  lemma LastWithIsMember(batch: seq<JobRun>, cutoff: Option<int>, d: string)
    ensures LastWith(batch, cutoff, d).Some? ==> LastWith(batch, cutoff, d).value in batch
  {
    LastWithExact(batch, cutoff, d);
  }

  lemma RowsAreFromEvents(added: map<nat, Message>, ids: seq<nat>)
    requires AllValid(added, ids)
    ensures FromEvents(Rows(added, ids))
  {
    forall i | 0 <= i < |ids|
      ensures Rows(added, ids)[i].columns.createdAt == Rows(added, ids)[i].key.enqueuedAt
    {
      assert ids[i] in ids;
      FormattedRowIsConsistent(added[ids[i]].event);
    }
  }

  lemma StepKeepsTimes(s: State, step: Step)
    requires TimesAgree(s.table) && Enabled(s, step)
    ensures TimesAgree(Apply(s, step).table)
  {
    hide UpsertBatch, FormatJobRun, FromEvents;
    match step
    case Upsert(c, cutoff) =>
      RowsAreFromEvents(s.group.added, At(s, c).ids);
      UpsertKeepsTimes(s.table, Rows(s.group.added, At(s, c).ids), cutoff);
    case OtherUpsert(batch, cutoff) => UpsertKeepsTimes(s.table, batch, cutoff);
    case _ =>
  }

  /** A row leaves job_runs only by a retention delete, and only when it is older than the date of that delete. */
  lemma DeletedRowIsOld(s: State, step: Step, k: RunKey)
    requires TimesAgree(s.table) && Enabled(s, step)
    requires k in s.table && k !in Apply(s, step).table
    ensures RemovesOld(step, k)
  {
    hide UpsertBatch, FormatJobRun;
    match step
    case Upsert(c, cutoff) => UpsertKeepsKeys(s.table, Rows(s.group.added, At(s, c).ids), cutoff);
    case OtherUpsert(batch, cutoff) => UpsertKeepsKeys(s.table, batch, cutoff);
    case _ =>
  }

  /** A retention delete takes exactly the rows older than its date. */
  lemma DeletesExactly(s: State, before: int, k: RunKey)
    requires TimesAgree(s.table)
    ensures var after := Apply(s, RetentionDelete(before));
            && (k in after.table <==> k in s.table && k.enqueuedAt >= before)
            && (k in after.table ==> after.table[k] == s.table[k])
            && after.group == s.group && after.consumers == s.consumers
  {
  }

  lemma SettledStays(s: State, step: Step, id: nat)
    requires Enabled(s, step) && Settled(s, id)
    ensures Settled(Apply(s, step), id)
  {
    hide UpsertBatch, FormatJobRun;
  }

  lemma WrittenStep(s: State, step: Step)
    requires Enabled(s, step) && s.table.Keys <= s.written
    ensures Apply(s, step).table.Keys <= Apply(s, step).written <= s.written + Apply(s, step).table.Keys
  {
    hide UpsertBatch, FormatJobRun;
  }

  lemma GroupStep(s: State, step: Step)
    requires Inv(s) && Enabled(s, step)
    ensures Consistent(Apply(s, step).group)
    ensures forall id :: id in s.group.added ==>
              id in Apply(s, step).group.added && Apply(s, step).group.added[id] == s.group.added[id]
    ensures Apply(s, step).group.undelivered * s.group.added.Keys <= s.group.undelivered
  {
    hide UpsertBatch, FormatJobRun;
  }

  /** Every other consumer's facts survive a step of one consumer. */
  lemma OtherConsumers(s: State, step: Step, consumer: Consumer)
    requires Inv(s) && Enabled(s, step) && ConsumerInv(s, consumer)
    ensures ConsumerInv(Apply(s, step), consumer)
  {
    hide UpsertBatch, FormatJobRun;
    GroupStep(s, step);
    var t := Apply(s, step);
    if !consumer.Idle? {
      forall id | id in consumer.ids && Settled(s, id) ensures Settled(t, id) { SettledStays(s, step, id); }
      assert t.group.pending
          <= s.group.pending + (s.group.undelivered - t.group.undelivered) + (t.group.added.Keys - s.group.added.Keys);
    }
  }

  lemma ActingConsumer(s: State, step: Step)
    requires Inv(s) && Enabled(s, step) && InjectiveStep(s, step)
    requires !step.Publish? && !step.OtherUpsert? && !step.RetentionDelete?
    ensures ConsumerInv(Apply(s, step), Apply(s, step).consumers[step.c])
  {
    hide UpsertBatch, KeysInjective, FormatJobRun;
    GroupStep(s, step);
    var ids := if At(s, step.c).Idle? then [] else At(s, step.c).ids;
    ValidInMembers(s.group.added, ids, Valid);
    if step.Upsert? { UpsertSettles(s, step.c, step.cutoff); }
    forall id | id in ids && Settled(s, id) ensures Settled(Apply(s, step), id) { SettledStays(s, step, id); }
  }

  lemma MessagesStep(s: State, step: Step, id: nat)
    requires Inv(s) && Enabled(s, step)
    requires id in Apply(s, step).group.added && Valid(Apply(s, step).group.added[id])
    ensures Deliverable(Apply(s, step).group, id) || Settled(Apply(s, step), id)
  {
    hide UpsertBatch, FormatJobRun;
    if id in s.group.added {
      if Settled(s, id) { SettledStays(s, step, id); }
    }
  }

  lemma StepKeepsInv(s: State, step: Step)
    requires Inv(s) && Enabled(s, step) && InjectiveStep(s, step)
    ensures Inv(Apply(s, step))
  {
    hide ConsumerInv, Settled, InjectiveStep, TimesAgree;
    var t := Apply(s, step);
    GroupStep(s, step);
    StepKeepsTimes(s, step);
    WrittenStep(s, step);
    forall id | id in t.group.added && Valid(t.group.added[id]) ensures Deliverable(t.group, id) || Settled(t, id) {
      MessagesStep(s, step, id);
    }
    forall c | c in t.consumers ensures ConsumerInv(t, t.consumers[c]) {
      if !step.Publish? && !step.OtherUpsert? && !step.RetentionDelete? && c == step.c {
        ActingConsumer(s, step);
      } else {
        OtherConsumers(s, step, s.consumers[c]);
      }
    }
  }

  lemma {:induction false} RunKeepsInv(states: seq<State>, steps: seq<Step>, i: nat)
    requires IsRun(states, steps) && i < |states|
    requires forall k :: 0 <= k < |steps| ==> InjectiveStep(states[k], steps[k])
    ensures Inv(states[i])
  {
    if i > 0 {
      RunKeepsInv(states, steps, i - 1);
      StepKeepsInv(states[i - 1], steps[i - 1]);
    }
  }

  lemma {:induction false} WrittenWasStored(states: seq<State>, steps: seq<Step>, i: nat, k: RunKey)
    requires IsRun(states, steps) && i < |states|
    requires forall m :: 0 <= m < |steps| ==> InjectiveStep(states[m], steps[m])
    requires k in states[i].written
    ensures exists j :: 0 <= j <= i && k in states[j].table
  {
    if k !in states[i].table && i > 0 {
      RunKeepsInv(states, steps, i - 1);
      WrittenStep(states[i - 1], steps[i - 1]);
      WrittenWasStored(states, steps, i - 1, k);
    }
  }

  lemma {:induction false} ExpiredWasSkipped(states: seq<State>, steps: seq<Step>, i: nat, id: nat)
    requires IsRun(states, steps) && i < |states|
    requires id in states[i].expired
    ensures exists m :: 0 <= m < i && SkipsOld(states[m], steps[m], id)
  {
    hide UpsertBatch, FormatJobRun, WithinRetention;
    if i > 0 {
      if id in states[i - 1].expired {
        ExpiredWasSkipped(states, steps, i - 1, id);
      } else {
        assert SkipsOld(states[i - 1], steps[i - 1], id);
      }
    }
  }

  /** Between a state that has a row and a later one that has not, a retention delete newer than the row happened. */
  lemma {:induction false} LeftByRetention(states: seq<State>, steps: seq<Step>, j: nat, i: nat, k: RunKey)
    requires IsRun(states, steps) && j <= i < |states|
    requires forall m :: 0 <= m < |steps| ==> InjectiveStep(states[m], steps[m])
    requires k in states[j].table && k !in states[i].table
    ensures exists m :: j <= m < i && RemovesOld(steps[m], k)
  {
    hide RemovesOld;
    if k in states[i - 1].table {
      RunKeepsInv(states, steps, i - 1);
      DeletedRowIsOld(states[i - 1], steps[i - 1], k);
    } else {
      LeftByRetention(states, steps, j, i - 1, k);
    }
  }

  /** In every reachable state, with retention deletes at any moment, a valid event that is no longer deliverable
      (acknowledged or deleted) was skipped by an upsert as older than its retention cutoff, or its row was in job_runs
      in an earlier state, and is still there unless a retention delete newer than the row came since. */
  lemma EventsLeaveOnlyWhenSettled(states: seq<State>, steps: seq<Step>, i: nat, id: nat)
    requires IsRun(states, steps) && i < |states|
    requires forall m :: 0 <= m < |steps| ==> InjectiveStep(states[m], steps[m])
    requires id in states[i].group.added && Valid(states[i].group.added[id])
    requires !Deliverable(states[i].group, id)
    ensures || (exists m :: 0 <= m < i && SkipsOld(states[m], steps[m], id))
            || StoredUntilRetention(states, steps, i, Row(states[i].group.added[id]).key)
  {
    hide SkipsOld, RemovesOld, InjectiveStep, FormatJobRun;
    var k := Row(states[i].group.added[id]).key;
    RunKeepsInv(states, steps, i);
    if id in states[i].expired {
      ExpiredWasSkipped(states, steps, i, id);
    } else {
      WrittenWasStored(states, steps, i, k);
      var j :| 0 <= j <= i && k in states[j].table;
      if k !in states[i].table { LeftByRetention(states, steps, j, i, k); }
    }
  }

  ghost predicate StoredUntilRetention(states: seq<State>, steps: seq<Step>, i: nat, k: RunKey)
    requires i < |states| && |states| == |steps| + 1
  {
    exists j :: 0 <= j <= i && k in states[j].table
                && (k in states[i].table || exists m :: j <= m < i && RemovesOld(steps[m], k))
  }

  // ---- One uninterrupted call ----

  /** The sequential program: ackAndDelete and processMessages over the shared stream and table. */
  class JobIngest {
    var group: Group<Message>
    var table: Table

    constructor (group: Group<Message>, table: Table)
      ensures this.group == group && this.table == table
    {
      this.group, this.table := group, table;
    }

    method AckAndDelete(ids: seq<nat>)
      modifies this`group
      ensures group == Dropped(old(group), SetOf(ids))
      ensures OnlyLeave(old(group), group, ids)
    {
      if |ids| == 0 {
        return;
      }
      group := Ack(group, SetOf(ids));
      group := Delete(group, SetOf(ids));
    }

    method ProcessMessages(ids: seq<nat>, cutoff: Option<int>)
      requires forall id :: id in ids ==> id in group.added
      modifies this
      ensures var added := old(group).added;
              var invalid, valid := InvalidIds(added, ids), ValidOnly(added, ids);
              && AllValid(added, valid)
              && group == Dropped(Dropped(old(group), invalid), SetOf(valid))
              && table == if valid == [] then old(table) else UpsertBatch(old(table), Rows(added, valid), cutoff).0
      ensures OnlyLeave(old(group), group, ids)
    {
      ProcessedLeaves(group, ids, Valid);
      hide UpsertBatch, FormatJobRun, OnlyLeave, SetOf, InvalidIn, Dropped, Rows, AllValid;
      NothingInvalid(group.added);
      var added := group.added;
      var valid: seq<nat> := [];
      var rows: seq<JobRun> := [];
      var invalidIds: seq<nat> := [];
      for i := 0 to |ids|
        invariant group == old(group) && table == old(table)
        invariant AllValid(added, valid)
        invariant valid == ValidOnly(added, ids[..i]) && rows == Rows(added, valid)
        invariant SetOf(invalidIds) == InvalidIds(added, ids[..i])
      {
        assert ids[i] in ids && ids[..i + 1] == ids[..i] + [ids[i]];
        ValidInAppend(added, ids[..i], ids[i], Valid);
        InvalidInAppend(added, ids[..i], ids[i], Valid);
        SetOfAppend(invalidIds, ids[i]);
        if Valid(added[ids[i]]) {
          RowsAppend(added, valid, ids[i]);
          valid := valid + [ids[i]];
          rows := rows + [Row(added[ids[i]])];
        } else {
          invalidIds := invalidIds + [ids[i]];
        }
      }
      assert ids[..|ids|] == ids;
      AckAndDelete(invalidIds);
      if |valid| == 0 {
        return;
      }
      var (after, _) := UpsertBatch(table, rows, cutoff);
      table := after;
      AckAndDelete(valid);
    }
  }

  lemma RowsAppend(added: map<nat, Message>, ids: seq<nat>, id: nat)
    requires AllValid(added, ids) && id in added && Valid(added[id])
    ensures AllValid(added, ids + [id]) && Rows(added, ids + [id]) == Rows(added, ids) + [Row(added[id])]
  {
    hide FormatJobRun;
    forall x | x in ids ensures x in ids + [id] {}
  }

  lemma NothingInvalid(added: map<nat, Message>)
    ensures InvalidIds(added, []) == {} == SetOf([])
    ensures forall g: Group<Message> :: Dropped(g, {}) == g
  {
  }

  /** A consumer that goes through its steps without interference does what the sequential program does. */
  lemma UninterruptedRun(states: seq<State>, c: nat, ids: seq<nat>, cutoff: Option<int>)
    requires |states| == 6 && At(states[0], c) == Received(ids)
    requires ValidOnly(states[0].group.added, ids) != []
    requires Follows(states, [AckInvalid(c), DeleteInvalid(c), Upsert(c, cutoff), AckStep(c), DeleteStep(c)])
    ensures var s, t := states[0], states[5];
            var invalid, valid := InvalidIds(s.group.added, ids), ValidOnly(s.group.added, ids);
            && AllValid(s.group.added, valid)
            && t.group == Dropped(Dropped(s.group, invalid), SetOf(valid))
            && t.table == UpsertBatch(s.table, Rows(s.group.added, valid), cutoff).0
            && At(t, c) == Idle
  {
    hide UpsertBatch, FormatJobRun;
    ValidInMembers(states[0].group.added, ids, Valid);
    var steps := [AckInvalid(c), DeleteInvalid(c), Upsert(c, cutoff), AckStep(c), DeleteStep(c)];
    assert states[1] == Apply(states[0], steps[0]);
    assert states[2] == Apply(states[1], steps[1]);
    assert states[3] == Apply(states[2], steps[2]);
    assert states[4] == Apply(states[3], steps[3]);
    assert states[5] == Apply(states[4], steps[4]);
  }

  /** Such a run exists from every state in which the consumer has received something valid. */
  lemma CallFinishes(s: State, c: nat, ids: seq<nat>, cutoff: Option<int>) returns (states: seq<State>)
    requires At(s, c) == Received(ids) && ValidOnly(s.group.added, ids) != []
    ensures |states| == 6 && states[0] == s
    ensures Follows(states, [AckInvalid(c), DeleteInvalid(c), Upsert(c, cutoff), AckStep(c), DeleteStep(c)])
  {
    hide UpsertBatch, FormatJobRun;
    ValidInMembers(s.group.added, ids, Valid);
    var s1 := Apply(s, AckInvalid(c));
    var s2 := Apply(s1, DeleteInvalid(c));
    var s3 := Apply(s2, Upsert(c, cutoff));
    var s4 := Apply(s3, AckStep(c));
    states := [s, s1, s2, s3, s4, Apply(s4, DeleteStep(c))];
  }

  /** With nothing valid the call ends after the invalid entries have left. */
  lemma InvalidCallFinishes(s: State, c: nat, ids: seq<nat>) returns (s1: State, t: State)
    requires At(s, c) == Received(ids) && ValidOnly(s.group.added, ids) == []
    ensures Follows([s, s1, t], [AckInvalid(c), DeleteInvalid(c)])
    ensures At(t, c) == Idle && t.table == s.table && t.group == Dropped(s.group, InvalidIds(s.group.added, ids))
  {
    hide UpsertBatch, FormatJobRun;
    s1 := Apply(s, AckInvalid(c));
    t := Apply(s1, DeleteInvalid(c));
  }

  /** An entry that is deliverable can be handed to any idle consumer. */
  lemma CanBeHandedOut(s: State, c: nat, id: nat)
    requires Deliverable(s.group, id) && At(s, c).Idle?
    ensures Enabled(s, ReadNewStep(c, [id])) || Enabled(s, ClaimStep(c, [id]))
  {
  }
}
