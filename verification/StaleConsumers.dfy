/** Removing stale consumers of a stream's group: one XINFO lists those that are idle and own nothing, and one XGROUP
    DELCONSUMER each removes them later. Deleting a consumer also drops the pending entries it owns by then, and a
    dropped entry is handed to nobody again. Consumers read, claim and acknowledge in between. */
module StaleConsumers {

  const STALE_CONSUMER_IDLE_MS := 60 * 60 * 1000

  /** `pending` gives the consumer that owns each delivered and unacknowledged entry, `seen` the time of each consumer's
      last command, and `cleanups` the names that each starting process still has to remove. */
  datatype State = State(
    now: int, added: set<nat>, undelivered: set<nat>, pending: map<nat, string>, acked: set<nat>,
    seen: map<string, int>, cleanups: map<nat, seq<string>>)

  datatype Step =
    | Publish(id: nat)
    | ReadNew(consumer: string, ids: set<nat>)
    | Claim(consumer: string, ids: set<nat>)
    | Acknowledge(ids: set<nat>)
    | Wait(ms: nat)
    | Inspect(process: nat, stale: seq<string>)
    | Remove(process: nat)
    | Stop(process: nat)

  function Left(s: State, process: nat): seq<string> {
    if process in s.cleanups then s.cleanups[process] else []
  }

  predicate Owns(s: State, consumer: string, id: nat) {
    id in s.pending && s.pending[id] == consumer
  }

  /** pending === 0 && idle >= STALE_CONSUMER_IDLE_MS */
  predicate Stale(s: State, consumer: string) {
    && consumer in s.seen && s.now - s.seen[consumer] >= STALE_CONSUMER_IDLE_MS
    && forall id :: id in s.pending ==> !Owns(s, consumer, id)
  }

  ghost predicate Enabled(s: State, step: Step) {
    match step
    case Publish(id) => id !in s.added
    case ReadNew(_, ids) => ids <= s.undelivered
    case Claim(_, ids) => ids <= s.pending.Keys
    case Acknowledge(_) => true
    case Wait(_) => true
    case Inspect(_, stale) => forall consumer :: consumer in stale <==> Stale(s, consumer)
    case Remove(process) => Left(s, process) != []
    case Stop(_) => true
  }

  function Given(pending: map<nat, string>, ids: set<nat>, consumer: string): map<nat, string> {
    pending + map id | id in ids :: consumer
  }

  function Without(pending: map<nat, string>, consumer: string): map<nat, string> {
    map id | id in pending && pending[id] != consumer :: pending[id]
  }

  ghost function Apply(s: State, step: Step): State
    requires Enabled(s, step)
  {
    match step
    case Publish(id) => s.(added := s.added + {id}, undelivered := s.undelivered + {id})
    case ReadNew(consumer, ids) =>
      s.(undelivered := s.undelivered - ids, pending := Given(s.pending, ids, consumer),
         seen := s.seen[consumer := s.now])
    case Claim(consumer, ids) => s.(pending := Given(s.pending, ids, consumer), seen := s.seen[consumer := s.now])
    case Acknowledge(ids) => s.(acked := s.acked + (s.pending.Keys * ids), pending := s.pending - ids)
    case Wait(ms) => s.(now := s.now + ms)
    case Inspect(process, stale) => s.(cleanups := s.cleanups[process := stale])
    case Remove(process) =>
      var left := Left(s, process);
      s.(pending := Without(s.pending, left[0]), seen := s.seen - {left[0]},
         cleanups := s.cleanups[process := left[1..]])
    case Stop(process) => s.(cleanups := s.cleanups[process := []])
  }

  function Start(): State {
    State(0, {}, {}, map[], {}, map[], map[])
  }

  ghost predicate IsRun(states: seq<State>, steps: seq<Step>) {
    && |states| == |steps| + 1 && states[0] == Start()
    && forall i :: 0 <= i < |steps| ==> Enabled(states[i], steps[i]) && states[i + 1] == Apply(states[i], steps[i])
  }

  /** Published and not acknowledged, and yet nobody will be handed it. */
  predicate Lost(s: State, id: nat) {
    id in s.added && id !in s.undelivered && id !in s.pending && id !in s.acked
  }

  ghost predicate Inv(s: State) {
    && s.undelivered <= s.added && s.pending.Keys <= s.added && s.acked <= s.added
    && s.undelivered !! s.pending.Keys && s.undelivered !! s.acked && s.pending.Keys !! s.acked
  }

  predicate Takes(step: Step, consumer: string, id: nat) {
    (step.ReadNew? || step.Claim?) && step.consumer == consumer && id in step.ids
  }

  predicate Removes(s: State, step: Step, consumer: string) {
    step.Remove? && Left(s, step.process) != [] && Left(s, step.process)[0] == consumer
  }

  /** The step ends the consumer's ownership of the entry. */
  predicate Frees(s: State, step: Step, consumer: string, id: nat) {
    || (step.Acknowledge? && id in step.ids)
    || (step.Claim? && id in step.ids && step.consumer != consumer)
    || Removes(s, step, consumer)
  }

  predicate Lists(step: Step, process: nat, consumer: string) {
    step.Inspect? && step.process == process && consumer in step.stale
  }

  /** The consumer took the entry in step m and has not given it up before step i. */
  ghost predicate HeldSince(states: seq<State>, steps: seq<Step>, m: nat, i: nat, consumer: string, id: nat)
    requires m < i <= |steps| < |states|
  {
    Takes(steps[m], consumer, id) && forall q :: m < q < i ==> !Frees(states[q], steps[q], consumer, id)
  }

  ghost predicate OnListSince(states: seq<State>, m: nat, i: nat, process: nat, consumer: string)
    requires i < |states|
  {
    forall q :: m <= q <= i ==> consumer in Left(states[q], process)
  }

  /** Step r removes a consumer that took the entry while its name was on the list, and owns it still. */
  ghost predicate TakenWhileListed(states: seq<State>, steps: seq<Step>, r: nat, id: nat)
    requires r < |steps| < |states|
  {
    && steps[r].Remove? && Left(states[r], steps[r].process) != []
    && var consumer := Left(states[r], steps[r].process)[0];
       exists m :: 0 <= m < r && HeldSince(states, steps, m, r, consumer, id)
                   && OnListSince(states, m, r, steps[r].process, consumer)
  }

  lemma StepKeepsInv(s: State, step: Step)
    requires Inv(s) && Enabled(s, step)
    ensures Inv(Apply(s, step))
  {
  }

  lemma {:induction false} RunKeepsInv(states: seq<State>, steps: seq<Step>, i: nat)
    requires IsRun(states, steps) && i < |states|
    ensures Inv(states[i])
  {
    if i > 0 {
      RunKeepsInv(states, steps, i - 1);
      StepKeepsInv(states[i - 1], steps[i - 1]);
    }
  }

  lemma StepOwns(s: State, step: Step, consumer: string, id: nat)
    requires Inv(s) && Enabled(s, step)
    ensures Owns(Apply(s, step), consumer, id) <==>
            Takes(step, consumer, id) || (Owns(s, consumer, id) && !Frees(s, step, consumer, id))
  {
    hide Stale;
  }

  lemma HeldStep(states: seq<State>, steps: seq<Step>, m: nat, i: nat, consumer: string, id: nat)
    requires m < i - 1 < |steps| < |states|
    ensures HeldSince(states, steps, m, i, consumer, id) <==>
            HeldSince(states, steps, m, i - 1, consumer, id) && !Frees(states[i - 1], steps[i - 1], consumer, id)
  {
    hide Takes, Frees;
  }

  /** From a state in which the consumer does not own the entry, it owns it later exactly when it took it since and has
      not given it up. */
  lemma {:induction false} OwnsIff(
      states: seq<State>, steps: seq<Step>, a: nat, i: nat, consumer: string, id: nat)
    requires IsRun(states, steps) && a <= i < |states|
    requires !Owns(states[a], consumer, id)
    ensures Owns(states[i], consumer, id) <==> exists m :: a <= m < i && HeldSince(states, steps, m, i, consumer, id)
  {
    hide Owns, Takes, Frees, Enabled, Apply;
    if i > a {
      OwnsIff(states, steps, a, i - 1, consumer, id);
      RunKeepsInv(states, steps, i - 1);
      StepOwns(states[i - 1], steps[i - 1], consumer, id);
      if Takes(steps[i - 1], consumer, id) {
        assert HeldSince(states, steps, i - 1, i, consumer, id);
      } else {
        var before := i - 1;
        forall m | a <= m < before
          ensures HeldSince(states, steps, m, i, consumer, id) <==>
                  HeldSince(states, steps, m, before, consumer, id)
                  && !Frees(states[before], steps[before], consumer, id)
        {
          HeldStep(states, steps, m, i, consumer, id);
        }
        assert !HeldSince(states, steps, before, i, consumer, id);
      }
    }
  }

  lemma {:induction false} HeldOwns(states: seq<State>, steps: seq<Step>, m: nat, i: nat, consumer: string, id: nat)
    requires IsRun(states, steps) && m < i < |states| && HeldSince(states, steps, m, i, consumer, id)
    ensures Owns(states[i], consumer, id)
  {
    hide Owns, Takes, Frees, Enabled, Apply;
    RunKeepsInv(states, steps, i - 1);
    StepOwns(states[i - 1], steps[i - 1], consumer, id);
    if m < i - 1 {
      assert HeldSince(states, steps, m, i - 1, consumer, id);
      HeldOwns(states, steps, m, i - 1, consumer, id);
    }
  }

  /** A name still to be removed was listed as stale, and has been on the list since. */
  lemma {:induction false} WasListed(states: seq<State>, steps: seq<Step>, i: nat, process: nat, consumer: string)
    returns (a: nat)
    requires IsRun(states, steps) && i < |states| && consumer in Left(states[i], process)
    ensures a < i && Lists(steps[a], process, consumer) && OnListSince(states, a + 1, i, process, consumer)
  {
    hide Stale;
    a := i - 1;
    if !Lists(steps[i - 1], process, consumer) {
      assert consumer in Left(states[i - 1], process);
      a := WasListed(states, steps, i - 1, process, consumer);
    }
  }

  /** The entries that a removal drops are those its consumer took after it was listed. */
  lemma DropsIff(states: seq<State>, steps: seq<Step>, r: nat, id: nat)
    requires IsRun(states, steps) && r < |steps| && steps[r].Remove?
    ensures Left(states[r], steps[r].process) != []
    ensures Owns(states[r], Left(states[r], steps[r].process)[0], id) <==> TakenWhileListed(states, steps, r, id)
  {
    hide HeldSince, Owns, Apply, Takes;
    var process := steps[r].process;
    assert Enabled(states[r], steps[r]);
    var consumer := Left(states[r], process)[0];
    if Owns(states[r], consumer, id) {
      var a := WasListed(states, steps, r, process, consumer);
      ListedOwnsNothing(states[a], steps[a], process, consumer, id);
      OwnsIff(states, steps, a, r, consumer, id);
      var m :| a <= m < r && HeldSince(states, steps, m, r, consumer, id);
      HeldIsTaken(states, steps, m, r, consumer, id);
      assert m != a;
    } else if TakenWhileListed(states, steps, r, id) {
      var m :| 0 <= m < r && HeldSince(states, steps, m, r, consumer, id);
      HeldOwns(states, steps, m, r, consumer, id);
    }
  }

  lemma {:induction false} TimeGoesOn(states: seq<State>, steps: seq<Step>, m: nat, i: nat)
    requires IsRun(states, steps) && m <= i < |states|
    ensures states[m].now <= states[i].now
  {
    hide Stale;
    if i > m { TimeGoesOn(states, steps, m, i - 1); }
  }

  lemma StepSees(s: State, step: Step, consumer: string)
    requires Enabled(s, step)
    ensures consumer in Apply(s, step).seen ==>
              if (step.ReadNew? || step.Claim?) && step.consumer == consumer then Apply(s, step).seen[consumer] == s.now
              else consumer in s.seen && Apply(s, step).seen[consumer] == s.seen[consumer]
  {
    hide Stale;
  }

  /** The group remembers when a consumer last read or claimed. */
  lemma {:induction false} SeenSince(states: seq<State>, steps: seq<Step>, m: nat, i: nat, consumer: string)
    requires IsRun(states, steps) && m < i < |states|
    requires (steps[m].ReadNew? || steps[m].Claim?) && steps[m].consumer == consumer
    ensures consumer in states[i].seen ==> states[m].now <= states[i].seen[consumer]
  {
    hide Enabled, Apply;
    TimeGoesOn(states, steps, m, i - 1);
    StepSees(states[i - 1], steps[i - 1], consumer);
    if i > m + 1 { SeenSince(states, steps, m, i - 1, consumer); }
  }

  /** Whoever is listed has not read or claimed for an hour, and owns nothing; and whoever the group knows, owns nothing
      and was last seen an hour ago is listed. */
  lemma ListedIsIdle(states: seq<State>, steps: seq<Step>, i: nat, process: nat, consumer: string)
    requires IsRun(states, steps) && i < |steps| && steps[i].Inspect? && steps[i].process == process
    ensures var s := states[i];
            Lists(steps[i], process, consumer) <==>
            consumer in s.seen && s.seen[consumer] + 3_600_000 <= s.now
            && forall id :: id in s.pending ==> s.pending[id] != consumer
    ensures Lists(steps[i], process, consumer) ==>
              forall m: nat :: m < i && (steps[m].ReadNew? || steps[m].Claim?) && steps[m].consumer == consumer ==>
                states[m].now + 3_600_000 <= states[i].now
  {
    assert Enabled(states[i], steps[i]);
    assert consumer in steps[i].stale <==> Stale(states[i], consumer);
    assert (forall id :: id in states[i].pending ==> !Owns(states[i], consumer, id)) <==>
           (forall id :: id in states[i].pending ==> states[i].pending[id] != consumer);
    if Lists(steps[i], process, consumer) {
      forall m: nat | m < i && (steps[m].ReadNew? || steps[m].Claim?) && steps[m].consumer == consumer
        ensures states[m].now + 3_600_000 <= states[i].now
      {
        SeenSince(states, steps, m, i, consumer);
      }
    }
  }

  lemma ListedOwnsNothing(s: State, step: Step, process: nat, consumer: string, id: nat)
    requires Enabled(s, step) && Lists(step, process, consumer)
    ensures !Owns(s, consumer, id)
  {
    assert Stale(s, consumer);
  }

  lemma HeldIsTaken(states: seq<State>, steps: seq<Step>, m: nat, i: nat, consumer: string, id: nat)
    requires m < i <= |steps| < |states| && HeldSince(states, steps, m, i, consumer, id)
    ensures steps[m].ReadNew? || steps[m].Claim?
  {
  }

  lemma StepLoses(s: State, step: Step, id: nat)
    requires Inv(s) && Enabled(s, step)
    ensures Lost(Apply(s, step), id) <==>
            Lost(s, id) || (step.Remove? && Owns(s, Left(s, step.process)[0], id))
  {
    hide Stale;
  }

  /** In every state of every run, an entry is lost exactly when, at some moment, a consumer was removed that had taken
      the entry while its name was on the list, and still owned it. */
  lemma {:induction false} EntryLostIff(states: seq<State>, steps: seq<Step>, i: nat, id: nat)
    requires IsRun(states, steps) && i < |states|
    ensures Lost(states[i], id) <==> exists r :: 0 <= r < i && TakenWhileListed(states, steps, r, id)
  {
    hide HeldSince, Owns, Lost;
    if i > 0 {
      RunKeepsInv(states, steps, i - 1);
      StepLoses(states[i - 1], steps[i - 1], id);
      if steps[i - 1].Remove? { DropsIff(states, steps, i - 1, id); }
      EntryLostIff(states, steps, i - 1, id);
    } else {
      NothingLostAtStart(id);
    }
  }

  lemma NothingLostAtStart(id: nat)
    ensures !Lost(Start(), id)
  {
  }

  ghost predicate ListedStayAway(states: seq<State>, steps: seq<Step>)
    requires |steps| < |states|
  {
    forall m: nat, process, consumer, id :: m < |steps| && consumer in Left(states[m], process) ==>
      !Takes(steps[m], consumer, id)
  }

  lemma AwayTakesNothing(states: seq<State>, steps: seq<Step>, r: nat, id: nat)
    requires r < |steps| < |states| && ListedStayAway(states, steps)
    ensures !TakenWhileListed(states, steps, r, id)
  {
    hide Takes, Left;
    if steps[r].Remove? && Left(states[r], steps[r].process) != [] {
      var process := steps[r].process;
      var consumer := Left(states[r], process)[0];
      forall m: nat | m < r && OnListSince(states, m, r, process, consumer)
        ensures !HeldSince(states, steps, m, r, consumer, id)
      {
        assert consumer in Left(states[m], process);
      }
    }
  }

  /** So nothing is lost when no consumer takes entries while a process still has its name on its list. */
  lemma NothingLost(states: seq<State>, steps: seq<Step>, i: nat, id: nat)
    requires IsRun(states, steps) && i < |states| && ListedStayAway(states, steps)
    ensures !Lost(states[i], id)
  {
    hide TakenWhileListed, Lost, ListedStayAway;
    EntryLostIff(states, steps, i, id);
    forall r: nat | r < i ensures !TakenWhileListed(states, steps, r, id) {
      AwayTakesNothing(states, steps, r, id);
    }
  }

  /** A consumer that was idle for an hour reads an entry after it was listed, and is then removed. */
  lemma CleanupLosesEntry() returns (states: seq<State>, steps: seq<Step>)
    ensures IsRun(states, steps)
    ensures steps == [ReadNew("worker", {}), Wait(STALE_CONSUMER_IDLE_MS), Inspect(0, ["worker"]), Publish(1),
                      ReadNew("worker", {1}), Remove(0)]
    ensures Lost(states[6], 1)
  {
    var hour := STALE_CONSUMER_IDLE_MS;
    steps := [ReadNew("worker", {}), Wait(hour), Inspect(0, ["worker"]), Publish(1), ReadNew("worker", {1}), Remove(0)];
    var s1 := Apply(Start(), steps[0]);
    var s2 := Apply(s1, steps[1]);
    assert Enabled(s2, steps[2]);
    var s3 := Apply(s2, steps[2]);
    var s4 := Apply(s3, steps[3]);
    var s5 := Apply(s4, steps[4]);
    var s6 := Apply(s5, steps[5]);
    states := [Start(), s1, s2, s3, s4, s5, s6];
  }
}
