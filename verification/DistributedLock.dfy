/** Concurrent `withLock` calls on one key: a clock, replies that may be late, bodies of any length. */
module DistributedLock {
  import opened Common
  import opened RedisKey

  /** `Granted`: the SET succeeded and its reply is on the way. Deadlines are the expiry the SET asked for. */
  datatype Phase = Idle | Granted(deadline: int) | Running(deadline: int) | Releasing(deadline: int)

  /** Calls are numbered; call c uses owners[c]. A call that ended may be made again. */
  datatype State = State(now: int, key: Option<Entry>, calls: seq<Phase>)

  datatype Event = Wait(ms: nat) | TryAcquire(c: nat) | Begin(c: nat) | End(c: nat) | Release(c: nat)

  predicate Enabled(s: State, e: Event) {
    match e
    case Wait(_) => true
    case TryAcquire(c) => c < |s.calls| && s.calls[c].Idle?
    case Begin(c) => c < |s.calls| && s.calls[c].Granted?
    case End(c) => c < |s.calls| && s.calls[c].Running?
    case Release(c) => c < |s.calls| && s.calls[c].Releasing?
  }

  function Next(owners: seq<string>, ttl: int, s: State, e: Event): State
    requires Enabled(s, e) && |s.calls| == |owners|
  {
    match e
    case Wait(ms) => s.(now := s.now + ms)
    case TryAcquire(c) =>
      if Present(s.key, s.now) then s
      else s.(key := SetNx(s.key, owners[c], ttl, s.now), calls := s.calls[c := Granted(s.now + ttl)])
    case Begin(c) => s.(calls := s.calls[c := Running(s.calls[c].deadline)])
    case End(c) => s.(calls := s.calls[c := Releasing(s.calls[c].deadline)])
    case Release(c) => s.(key := CompareDelete(s.key, owners[c], s.now), calls := s.calls[c := Idle])
  }

  function Initial(n: nat, now: int): State {
    State(now, None, seq(n, _ => Idle))
  }

  ghost predicate IsRun(owners: seq<string>, ttl: int, states: seq<State>, events: seq<Event>) {
    && |states| == |events| + 1
    && states[0] == Initial(|owners|, states[0].now)
    && forall i :: 0 <= i < |events| ==> Moves(owners, ttl, states[i], events[i], states[i + 1])
  }

  predicate Moves(owners: seq<string>, ttl: int, s: State, e: Event, t: State) {
    |s.calls| == |owners| && Enabled(s, e) && t == Next(owners, ttl, s, e)
  }

  ghost predicate Reachable(owners: seq<string>, ttl: int, s: State) {
    exists states, events :: IsRun(owners, ttl, states, events) && states[|events|] == s
  }

  /** How many tries of call c found no live key. */
  function Grants(states: seq<State>, events: seq<Event>, c: nat): nat
    requires |states| >= |events|
  {
    if events == [] then 0
    else
      var n := |events| - 1;
      Grants(states[..n], events[..n], c)
      + if events[n] == TryAcquire(c) && !Present(states[n].key, states[n].now) then 1 else 0
  }

  /** A call in this phase, after so many grants, begun and ended bodies and releases. */
  predicate InTurn(phase: Phase, granted: nat, begun: nat, ended: nat, released: nat) {
    && released <= ended <= begun <= granted <= released + 1
    && (phase.Running? <==> begun == ended + 1)
    && (phase.Idle? <==> granted == released)
    && (phase.Releasing? <==> ended == released + 1)
  }

  lemma OneMoreStage(
    owners: seq<string>, ttl: int, s: State, e: Event, c: nat, granted: nat, begun: nat, ended: nat, released: nat)
    requires c < |s.calls| == |owners| && Enabled(s, e) && InTurn(s.calls[c], granted, begun, ended, released)
    ensures InTurn(
              Next(owners, ttl, s, e).calls[c],
              granted + if e == TryAcquire(c) && !Present(s.key, s.now) then 1 else 0,
              begun + if e == Begin(c) then 1 else 0,
              ended + if e == End(c) then 1 else 0,
              released + if e == Release(c) then 1 else 0)
  {
    hide Present;
  }

  lemma CountLast(events: seq<Event>, i: nat, e: Event)
    requires 0 < i <= |events|
    ensures multiset(events[..i])[e] == multiset(events[..i - 1])[e] + if events[i - 1] == e then 1 else 0
  {
    assert events[..i] == events[..i - 1] + [events[i - 1]];
  }

  lemma GrantsLast(states: seq<State>, events: seq<Event>, i: nat, c: nat)
    requires 0 < i <= |events| <= |states|
    ensures Grants(states[..i], events[..i], c) == Grants(states[..i - 1], events[..i - 1], c)
            + if events[i - 1] == TryAcquire(c) && !Present(states[i - 1].key, states[i - 1].now) then 1 else 0
  {
    hide Present;
    assert states[..i][..i - 1] == states[..i - 1] && events[..i][..i - 1] == events[..i - 1];
  }

  /** A call goes through its stages in turn, over every run: a body begins only after a try that found no live key, a
      release comes only after a body has ended, and each of them once. */
  lemma {:induction false} StagesInTurn(
    owners: seq<string>, ttl: int, states: seq<State>, events: seq<Event>, i: nat, c: nat)
    requires IsRun(owners, ttl, states, events) && i < |states| && c < |owners|
    ensures |states[i].calls| == |owners|
    ensures var done := multiset(events[..i]);
            InTurn(states[i].calls[c], Grants(states[..i], events[..i], c), done[Begin(c)], done[End(c)],
                   done[Release(c)])
  {
    if i > 0 {
      hide InTurn, Grants, Enabled, Next;
      StagesInTurn(owners, ttl, states, events, i - 1, c);
      var s, e, done := states[i - 1], events[i - 1], multiset(events[..i - 1]);
      assert Moves(owners, ttl, s, e, states[i - 1 + 1]);
      CountLast(events, i, Begin(c));
      CountLast(events, i, End(c));
      CountLast(events, i, Release(c));
      GrantsLast(states, events, i, c);
      OneMoreStage(owners, ttl, s, e, c, Grants(states[..i - 1], events[..i - 1], c),
                   done[Begin(c)], done[End(c)], done[Release(c)]);
    }
  }

  predicate Distinct(owners: seq<string>) {
    forall c, d :: 0 <= c < d < |owners| ==> owners[c] != owners[d]
  }

  /** The call took the key and has not yet released it. */
  predicate Busy(s: State, c: nat)
    requires c < |s.calls|
  {
    !s.calls[c].Idle?
  }

  /** Within its time to live, a call that has not released holds the key. */
  predicate HoldsWithinTtl(owners: seq<string>, s: State)
    requires |s.calls| == |owners|
  {
    forall c :: 0 <= c < |owners| && Busy(s, c) && s.now < s.calls[c].deadline ==>
      s.key == Some(Entry(owners[c], s.calls[c].deadline))
  }

  ghost predicate Inv(owners: seq<string>, s: State) {
    |s.calls| == |owners| && HoldsWithinTtl(owners, s)
  }

  /** A deadline is never more than one time to live away. */
  predicate DeadlinesNear(owners: seq<string>, ttl: int, s: State) {
    |s.calls| == |owners| && forall c :: 0 <= c < |s.calls| && Busy(s, c) ==> s.calls[c].deadline <= s.now + ttl
  }

  lemma {:induction false} RunKeepsDeadlinesNear(
    owners: seq<string>, ttl: int, states: seq<State>, events: seq<Event>, i: nat)
    requires IsRun(owners, ttl, states, events) && i < |states|
    ensures DeadlinesNear(owners, ttl, states[i])
  {
    if i > 0 {
      RunKeepsDeadlinesNear(owners, ttl, states, events, i - 1);
      assert Moves(owners, ttl, states[i - 1], events[i - 1], states[i - 1 + 1]);
    }
  }

  lemma NextKeepsInv(owners: seq<string>, ttl: int, s: State, e: Event)
    requires Distinct(owners) && Inv(owners, s) && Enabled(s, e)
    ensures Inv(owners, Next(owners, ttl, s, e))
  {
  }

  lemma {:induction false} RunKeepsInv(owners: seq<string>, ttl: int, states: seq<State>, events: seq<Event>, i: nat)
    requires Distinct(owners) && IsRun(owners, ttl, states, events) && i < |states|
    ensures Inv(owners, states[i])
  {
    if i > 0 {
      RunKeepsInv(owners, ttl, states, events, i - 1);
      assert Moves(owners, ttl, states[i - 1], events[i - 1], states[i - 1 + 1]);
      NextKeepsInv(owners, ttl, states[i - 1], events[i - 1]);
    }
  }

  // ---- Mutual exclusion ----

  /** Every body under way is inside the time to live of its key, or past it by less than the slack. */
  predicate TimelyWithin(s: State, slack: int) {
    forall c :: 0 <= c < |s.calls| && s.calls[c].Running? ==> s.now < s.calls[c].deadline + slack
  }

  predicate Timely(s: State) {
    TimelyWithin(s, 0)
  }

  predicate AtMostOneBody(s: State) {
    forall c, d :: 0 <= c < |s.calls| && 0 <= d < |s.calls| && s.calls[c].Running? && s.calls[d].Running? ==> c == d
  }

  /** Distinct owners: in every reachable state whose bodies are inside their time to live, at most one body runs. */
  lemma MutualExclusion(owners: seq<string>, ttl: int, s: State)
    requires Distinct(owners) && Reachable(owners, ttl, s) && Timely(s)
    ensures AtMostOneBody(s)
  {
    var states, events :| IsRun(owners, ttl, states, events) && states[|events|] == s;
    RunKeepsInv(owners, ttl, states, events, |events|);
    forall c, d | 0 <= c < |s.calls| && 0 <= d < |s.calls| && s.calls[c].Running? && s.calls[d].Running?
      ensures c == d
    {
      assert Busy(s, c) && Busy(s, d);
    }
  }

  lemma Extend(owners: seq<string>, ttl: int, s: State, e: Event)
    requires Reachable(owners, ttl, s) && Enabled(s, e) && |s.calls| == |owners|
    ensures Reachable(owners, ttl, Next(owners, ttl, s, e))
  {
    var states, events :| IsRun(owners, ttl, states, events) && states[|events|] == s;
    var t := Next(owners, ttl, s, e);
    var states2, events2 := states + [t], events + [e];
    assert Moves(owners, ttl, s, e, t);
    hide Moves;
    forall i | 0 <= i < |events2|
      ensures Moves(owners, ttl, states2[i], events2[i], states2[i + 1])
    {
      if i < |events| {
        assert states2[i] == states[i] && states2[i + 1] == states[i + 1] && events2[i] == events[i];
      }
    }
    assert states2[|events2|] == t;
  }

  /** The hypothesis is needed: a body that overstays lets another call in as soon as it tries. */
  lemma OverstayAdmitsSecond(owners: seq<string>, ttl: int, s: State, c: nat, d: nat)
    requires Reachable(owners, ttl, s) && |s.calls| == |owners|
    requires c < |owners| && s.calls[c].Running? && d < |owners| && s.calls[d].Idle? && !Present(s.key, s.now)
    ensures exists t :: Reachable(owners, ttl, t) && t.now == s.now && |t.calls| == |owners|
                        && t.calls[c].Running? && t.calls[d].Running? && c != d
  {
    hide Reachable;
    var s1 := Next(owners, ttl, s, TryAcquire(d));
    Extend(owners, ttl, s, TryAcquire(d));
    var s2 := Next(owners, ttl, s1, Begin(d));
    Extend(owners, ttl, s1, Begin(d));
    assert s2.calls[c].Running? && s2.calls[d].Running?;
  }

  // ---- Exactly when the lock excludes ----

  /** In every reachable state whose bodies keep the schedule at most one body runs. */
  ghost predicate Excludes(owners: seq<string>, ttl: int, slack: int) {
    forall s :: Reachable(owners, ttl, s) && TimelyWithin(s, slack) ==> AtMostOneBody(s)
  }

  /** c's body ends in time, the key runs out, d takes it, c's late release deletes it, and c is let in beside d:
      both bodies are inside their time to live. */
  lemma SharedOwnerBreaksExclusion(owners: seq<string>, ttl: int, c: nat, d: nat) returns (s: State)
    requires ttl > 0 && c < |owners| && d < |owners| && c != d && owners[c] == owners[d]
    ensures Reachable(owners, ttl, s) && |s.calls| == |owners|
    ensures s.now == ttl && s.calls[c] == s.calls[d] == Running(2 * ttl)
    ensures forall e :: 0 <= e < |owners| && e != c && e != d ==> s.calls[e].Idle?
  {
    hide Reachable;
    var s0 := Initial(|owners|, 0);
    InitialReachable(owners, ttl);
    Extend(owners, ttl, s0, TryAcquire(c));
    var s1 := Next(owners, ttl, s0, TryAcquire(c));
    Extend(owners, ttl, s1, Begin(c));
    var s2 := Next(owners, ttl, s1, Begin(c));
    Extend(owners, ttl, s2, End(c));
    var s3 := Next(owners, ttl, s2, End(c));
    Extend(owners, ttl, s3, Wait(ttl));
    var s4 := Next(owners, ttl, s3, Wait(ttl));
    Extend(owners, ttl, s4, TryAcquire(d));
    var s5 := Next(owners, ttl, s4, TryAcquire(d));
    Extend(owners, ttl, s5, Begin(d));
    var s6 := Next(owners, ttl, s5, Begin(d));
    Extend(owners, ttl, s6, Release(c));
    var s7 := Next(owners, ttl, s6, Release(c));
    Extend(owners, ttl, s7, TryAcquire(c));
    var s8 := Next(owners, ttl, s7, TryAcquire(c));
    Extend(owners, ttl, s8, Begin(c));
    s := Next(owners, ttl, s8, Begin(c));
  }

  /** c's body is still running at its deadline when d takes the expired key. */
  lemma OverstayBreaksExclusion(owners: seq<string>, ttl: int, c: nat, d: nat) returns (s: State)
    requires ttl > 0 && c < |owners| && d < |owners| && c != d
    ensures Reachable(owners, ttl, s) && |s.calls| == |owners|
    ensures s.now == ttl && s.calls[c] == Running(ttl) && s.calls[d] == Running(2 * ttl)
    ensures forall e :: 0 <= e < |owners| && e != c && e != d ==> s.calls[e].Idle?
  {
    hide Reachable;
    var s0 := Initial(|owners|, 0);
    InitialReachable(owners, ttl);
    Extend(owners, ttl, s0, TryAcquire(c));
    var s1 := Next(owners, ttl, s0, TryAcquire(c));
    Extend(owners, ttl, s1, Begin(c));
    var s2 := Next(owners, ttl, s1, Begin(c));
    Extend(owners, ttl, s2, Wait(ttl));
    var s3 := Next(owners, ttl, s2, Wait(ttl));
    Extend(owners, ttl, s3, TryAcquire(d));
    var s4 := Next(owners, ttl, s3, TryAcquire(d));
    Extend(owners, ttl, s4, Begin(d));
    s := Next(owners, ttl, s4, Begin(d));
  }

  lemma ExcludesWhen(owners: seq<string>, ttl: int, slack: int)
    requires |owners| <= 1 || slack <= -ttl || (Distinct(owners) && slack <= 0)
    ensures Excludes(owners, ttl, slack)
  {
    forall s | Reachable(owners, ttl, s) && TimelyWithin(s, slack)
      ensures AtMostOneBody(s)
    {
      var states, events :| IsRun(owners, ttl, states, events) && states[|events|] == s;
      RunKeepsDeadlinesNear(owners, ttl, states, events, |events|);
      assert forall c :: 0 <= c < |s.calls| && s.calls[c].Running? ==> Busy(s, c);
      if |owners| > 1 && slack > -ttl {
        MutualExclusion(owners, ttl, s);
      }
    }
  }

  /** The lock excludes exactly when there is one call at most, or the calls' owners are distinct and no body outlives
      its key, or the schedule leaves no time to run at all. */
  lemma ExcludesIff(owners: seq<string>, ttl: int, slack: int)
    requires ttl > 0
    ensures Excludes(owners, ttl, slack) <==> |owners| <= 1 || slack <= -ttl || (Distinct(owners) && slack <= 0)
  {
    if |owners| <= 1 || slack <= -ttl || (Distinct(owners) && slack <= 0) {
      ExcludesWhen(owners, ttl, slack);
    } else if slack > 0 {
      var s := OverstayBreaksExclusion(owners, ttl, 0, 1);
      assert TimelyWithin(s, slack) && !AtMostOneBody(s);
    } else {
      var c, d :| 0 <= c < d < |owners| && owners[c] == owners[d];
      var s := SharedOwnerBreaksExclusion(owners, ttl, c, d);
      assert TimelyWithin(s, slack) && !AtMostOneBody(s);
    }
  }

  /** In particular: with bodies inside their time to live, exclusion is the distinctness of owners, and with distinct
      owners it is that bodies do not outlive their keys. */
  lemma ExclusionNeedsDistinctOwners(owners: seq<string>, ttl: int)
    requires ttl > 0
    ensures Excludes(owners, ttl, 0) <==> Distinct(owners)
  {
    ExcludesIff(owners, ttl, 0);
  }

  // ---- Release ----

  /** Call c, releasing, deletes a key that call d took and still holds. */
  predicate StealsKey(owners: seq<string>, s: State, c: nat, d: nat) {
    && |s.calls| == |owners| && c < |owners| && d < |owners| && c != d
    && s.calls[c].Releasing? && Busy(s, d) && s.now < s.calls[d].deadline
    && CompareDelete(s.key, owners[c], s.now) != s.key
  }

  ghost predicate CanSteal(owners: seq<string>, ttl: int) {
    exists s, c, d :: Reachable(owners, ttl, s) && StealsKey(owners, s, c, d)
  }

  lemma DistinctNeverSteal(owners: seq<string>, ttl: int, s: State, c: nat, d: nat)
    requires Distinct(owners) && Reachable(owners, ttl, s)
    ensures !StealsKey(owners, s, c, d)
  {
    var states, events :| IsRun(owners, ttl, states, events) && states[|events|] == s;
    RunKeepsInv(owners, ttl, states, events, |events|);
  }

  lemma InitialReachable(owners: seq<string>, ttl: int)
    ensures Reachable(owners, ttl, Initial(|owners|, 0))
  {
    var s := Initial(|owners|, 0);
    assert IsRun(owners, ttl, [s], []) && [s][0] == s;
  }

  /** Two calls of one owner: the first overstays, the second takes the expired key, the first releases it. */
  lemma SharedOwnerSteals(owners: seq<string>, ttl: int, c: nat, d: nat)
    requires ttl > 0 && c < |owners| && d < |owners| && c != d && owners[c] == owners[d]
    ensures CanSteal(owners, ttl)
  {
    hide Reachable;
    var s0 := Initial(|owners|, 0);
    InitialReachable(owners, ttl);
    Extend(owners, ttl, s0, TryAcquire(c));
    var s1 := Next(owners, ttl, s0, TryAcquire(c));
    Extend(owners, ttl, s1, Begin(c));
    var s2 := Next(owners, ttl, s1, Begin(c));
    Extend(owners, ttl, s2, Wait(ttl));
    var s3 := Next(owners, ttl, s2, Wait(ttl));
    Extend(owners, ttl, s3, TryAcquire(d));
    var s4 := Next(owners, ttl, s3, TryAcquire(d));
    Extend(owners, ttl, s4, End(c));
    var s5 := Next(owners, ttl, s4, End(c));
    assert StealsKey(owners, s5, c, d);
  }

  /** Releasing never frees another call's live key exactly when the calls' owners are distinct. */
  lemma ReleaseIsSafeIff(owners: seq<string>, ttl: int)
    requires ttl > 0
    ensures !CanSteal(owners, ttl) <==> Distinct(owners)
  {
    if Distinct(owners) {
      forall s, c: nat, d: nat | Reachable(owners, ttl, s)
        ensures !StealsKey(owners, s, c, d)
      {
        DistinctNeverSteal(owners, ttl, s, c, d);
      }
    } else {
      var c, d :| 0 <= c < d < |owners| && owners[c] == owners[d];
      SharedOwnerSteals(owners, ttl, c, d);
    }
  }

  // ---- The key as one client drives it ----

  class LockKey {
    var entry: Option<Entry>

    constructor ()
      ensures entry == None
    {
      entry := None;
    }

    method AcquireLock(owner: string, ttl: int, now: int) returns (acquired: bool)
      modifies this
      ensures acquired == !Present(old(entry), now)
      ensures entry == SetNx(old(entry), owner, ttl, now)
    {
      acquired := entry.None? || entry.value.expiresAt <= now;
      if acquired {
        entry := Some(Entry(owner, now + ttl));
      }
    }

    method ReleaseLock(owner: string, now: int)
      modifies this
      ensures entry == CompareDelete(old(entry), owner, now)
    {
      if entry.Some? && now < entry.value.expiresAt && entry.value.owner == owner {
        entry := None;
      }
    }

    /** GET at one instant, PEXPIRE at a later one; `meanwhile` is the key as other clients have left it by then. */
    method RenewLock(owner: string, ttl: int, now: int, meanwhile: Option<Entry>, later: int) returns (renewed: bool)
      requires now <= later
      modifies this
      ensures renewed == (Owner(old(entry), now) == Some(owner))
      ensures entry == if renewed then PExpire(meanwhile, ttl, later) else old(entry)
    {
      if entry.None? || entry.value.expiresAt <= now || entry.value.owner != owner {
        return false;
      }
      entry := meanwhile;
      entry := PExpire(entry, ttl, later);
      renewed := true;
    }
  }
}
