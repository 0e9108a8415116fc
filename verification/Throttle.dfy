/** The per-key broadcast throttle: a first message goes out at once, later ones of the window wait for one timer. */
module Throttle {
  import opened Common

  /** The key is the text of the message, so a key's pending message is always that message. Timers hold the time they
      are due. `broadcasts` and `sends` list what was asked for and what went out, with times. */
  datatype State = State(
    now: int, lastSent: map<string, int>, pending: map<string, string>, timers: map<string, int>,
    broadcasts: seq<Item>, sends: seq<Item>)

  datatype Item = Item(key: string, at: int)

  datatype Event = Broadcast(key: string, at: int) | Fire(key: string, at: int)

  function Last(lastSent: map<string, int>, key: string): int {
    if key in lastSent then lastSent[key] else 0
  }

  /** The clock does not go back and a timer does not fire early. */
  predicate Enabled(s: State, e: Event) {
    e.at >= s.now && (e.Fire? ==> e.key in s.timers && s.timers[e.key] <= e.at)
  }

  function AfterBroadcast(throttle: int, s: State, key: string, at: int): State {
    var last := Last(s.lastSent, key);
    var t := s.(now := at, broadcasts := s.broadcasts + [Item(key, at)]);
    if at - last >= throttle then t.(sends := s.sends + [Item(key, at)], lastSent := s.lastSent[key := at])
    else if key in s.timers then t.(pending := s.pending[key := key])
    else t.(pending := s.pending[key := key], timers := s.timers[key := at + (throttle - (at - last))])
  }

  function AfterFire(s: State, key: string, at: int): State {
    var t := s.(now := at, timers := s.timers - {key});
    if key in s.pending
    then t.(
      sends := s.sends + [Item(s.pending[key], at)], lastSent := s.lastSent[key := at], pending := s.pending - {key})
    else t
  }

  function Next(throttle: int, s: State, e: Event): State {
    match e
    case Broadcast(key, at) => AfterBroadcast(throttle, s, key, at)
    case Fire(key, at) => AfterFire(s, key, at)
  }

  function Initial(now: int): State {
    State(now, map[], map[], map[], [], [])
  }

  ghost predicate IsRun(throttle: int, states: seq<State>, events: seq<Event>) {
    && |states| == |events| + 1
    && states[0] == Initial(states[0].now) && states[0].now >= 0
    && forall i :: 0 <= i < |events| ==> Moves(throttle, states[i], events[i], states[i + 1])
  }

  predicate Moves(throttle: int, s: State, e: Event, t: State) {
    Enabled(s, e) && t == Next(throttle, s, e)
  }

  function Count(items: seq<Item>, key: string): nat {
    if items == [] then 0
    else Count(items[..|items| - 1], key) + if items[|items| - 1].key == key then 1 else 0
  }

  lemma CountSnoc(items: seq<Item>, item: Item, key: string)
    ensures Count(items + [item], key) == Count(items, key) + if item.key == key then 1 else 0
  {
    assert (items + [item])[..|items|] == items;
  }

  // ---- Every run ----

  predicate Waiting(s: State, key: string) {
    key in s.timers
  }

  predicate SentSince(s: State, key: string, at: int) {
    exists i :: 0 <= i < |s.sends| && s.sends[i].key == key && s.sends[i].at >= at
  }

  /** The broadcast has been followed by a send, or its timer is due within one window of it. */
  predicate Served(throttle: int, s: State, b: Item) {
    SentSince(s, b.key, b.at) || (b.key in s.timers && s.timers[b.key] <= b.at + throttle)
  }

  ghost predicate Inv(throttle: int, s: State) {
    Armed(throttle, s) && AllServed(throttle, s) && NeverMoreSends(s)
  }

  ghost predicate Armed(throttle: int, s: State) {
    && s.now >= 0
    && s.pending.Keys == s.timers.Keys
    && (forall k :: k in s.pending ==> s.pending[k] == k)
    && (forall k :: k in s.lastSent ==> 0 <= s.lastSent[k] <= s.now)
    && forall k :: k in s.timers ==> s.timers[k] <= s.now + throttle
  }

  predicate AllServed(throttle: int, s: State) {
    forall i :: 0 <= i < |s.broadcasts| ==> s.broadcasts[i].at <= s.now && Served(throttle, s, s.broadcasts[i])
  }

  ghost predicate NeverMoreSends(s: State) {
    forall k :: NoMoreSends(s, k)
  }

  lemma ServedStays(throttle: int, s: State, t: State, b: Item)
    requires Served(throttle, s, b) && s.sends <= t.sends
    requires b.key in s.timers ==>
        (b.key in t.timers && t.timers[b.key] == s.timers[b.key]) || SentSince(t, b.key, b.at)
    ensures Served(throttle, t, b)
  {
    if SentSince(s, b.key, b.at) {
      var i :| 0 <= i < |s.sends| && s.sends[i].key == b.key && s.sends[i].at >= b.at;
      assert t.sends[i] == s.sends[i];
    }
  }

  lemma SentSinceEarlier(t: State, key: string, at: int, earlier: int)
    requires SentSince(t, key, at) && earlier <= at
    ensures SentSince(t, key, earlier)
  {
  }

  lemma BroadcastIsServed(throttle: int, s: State, key: string, at: int)
    requires throttle >= 0 && Inv(throttle, s) && at >= s.now
    ensures AllServed(throttle, AfterBroadcast(throttle, s, key, at))
  {
    var t := AfterBroadcast(throttle, s, key, at);
    hide NeverMoreSends, SentSince;
    forall i | 0 <= i < |t.broadcasts|
      ensures t.broadcasts[i].at <= t.now && Served(throttle, t, t.broadcasts[i])
    {
      if i < |s.broadcasts| {
        ServedStays(throttle, s, t, s.broadcasts[i]);
      } else if at - Last(s.lastSent, key) >= throttle {
        JustSent(s.sends, t, Item(key, at));
      }
    }
  }

  lemma JustSent(before: seq<Item>, t: State, item: Item)
    requires t.sends == before + [item]
    ensures SentSince(t, item.key, item.at)
  {
    assert t.sends[|before|] == item;
  }

  predicate NoMoreSends(s: State, k: string) {
    Count(s.sends, k) + (if k in s.pending then 1 else 0) <= Count(s.broadcasts, k)
  }

  lemma BroadcastCounts(throttle: int, s: State, key: string, at: int, k: string)
    requires NoMoreSends(s, k)
    ensures NoMoreSends(AfterBroadcast(throttle, s, key, at), k)
  {
    hide Count;
    CountSnoc(s.broadcasts, Item(key, at), k);
    CountSnoc(s.sends, Item(key, at), k);
  }

  lemma FireCounts(s: State, key: string, at: int, k: string)
    requires NoMoreSends(s, k) && (key in s.pending ==> s.pending[key] == key)
    ensures NoMoreSends(AfterFire(s, key, at), k)
  {
    hide Count;
    CountSnoc(s.sends, Item(key, at), k);
  }

  lemma FireIsServed(throttle: int, s: State, key: string, at: int)
    requires Armed(throttle, s) && AllServed(throttle, s) && Enabled(s, Fire(key, at))
    ensures AllServed(throttle, AfterFire(s, key, at))
  {
    var t := AfterFire(s, key, at);
    JustSent(s.sends, t, Item(key, at));
    hide SentSince;
    forall i | 0 <= i < |t.broadcasts|
      ensures t.broadcasts[i].at <= t.now && Served(throttle, t, t.broadcasts[i])
    {
      if s.broadcasts[i].key == key {
        SentSinceEarlier(t, key, at, s.broadcasts[i].at);
      }
      ServedStays(throttle, s, t, s.broadcasts[i]);
    }
  }

  lemma NextKeepsArmed(throttle: int, s: State, e: Event)
    requires throttle >= 0 && Armed(throttle, s) && Enabled(s, e)
    ensures Armed(throttle, Next(throttle, s, e))
  {
  }

  lemma NextKeepsInv(throttle: int, s: State, e: Event)
    requires throttle >= 0 && Inv(throttle, s) && Enabled(s, e)
    ensures Inv(throttle, Next(throttle, s, e))
  {
    hide AllServed, NoMoreSends, AfterBroadcast, AfterFire;
    NextKeepsArmed(throttle, s, e);
    match e
    case Broadcast(key, at) =>
      BroadcastIsServed(throttle, s, key, at);
      forall k {
        BroadcastCounts(throttle, s, key, at, k);
      }
    case Fire(key, at) =>
      FireIsServed(throttle, s, key, at);
      forall k {
        FireCounts(s, key, at, k);
      }
  }

  lemma {:induction false} RunKeepsInv(throttle: int, states: seq<State>, events: seq<Event>, i: nat)
    requires throttle >= 0 && IsRun(throttle, states, events) && i < |states|
    ensures Inv(throttle, states[i])
  {
    if i > 0 {
      RunKeepsInv(throttle, states, events, i - 1);
      assert Moves(throttle, states[i - 1], events[i - 1], states[i - 1 + 1]);
      hide Inv;
      NextKeepsInv(throttle, states[i - 1], events[i - 1]);
    }
  }

  /** In every reachable state: a key is pending exactly when its timer is armed; sends and pending messages of a key
      never outnumber its broadcasts; and every broadcast was followed by a send, or its timer is
      due within a window. */
  lemma EveryBroadcastIsServed(throttle: int, states: seq<State>, events: seq<Event>, i: nat)
    requires throttle >= 0 && IsRun(throttle, states, events) && i < |states|
    ensures var s := states[i];
            && s.pending.Keys == s.timers.Keys
            && (forall k :: NoMoreSends(s, k))
            && (forall j :: 0 <= j < |s.broadcasts| ==> Served(throttle, s, s.broadcasts[j]))
            && (s.timers == map[] ==> forall j :: 0 <= j < |s.broadcasts| ==>
                SentSince(s, s.broadcasts[j].key, s.broadcasts[j].at))
  {
    RunKeepsInv(throttle, states, events, i);
    hide SentSince;
  }

  // ---- Spacing ----

  /** When a message of a key arrives, that key's timer has fired if it was due. */
  ghost predicate DueTimersFirst(states: seq<State>, events: seq<Event>) {
    forall i :: 0 <= i < |events| && i < |states| && events[i].Broadcast? && events[i].key in states[i].timers ==>
      states[i].timers[events[i].key] > events[i].at
  }

  predicate Spaced(throttle: int, sends: seq<Item>) {
    forall i, j :: 0 <= i < j < |sends| && sends[i].key == sends[j].key ==> sends[j].at - sends[i].at >= throttle
  }

  predicate LastIsLatest(lastSent: map<string, int>, sends: seq<Item>) {
    forall i :: 0 <= i < |sends| ==> sends[i].key in lastSent && sends[i].at <= lastSent[sends[i].key]
  }

  lemma OneMoreSend(throttle: int, lastSent: map<string, int>, sends: seq<Item>, key: string, at: int)
    requires Spaced(throttle, sends) && LastIsLatest(lastSent, sends) && at - Last(lastSent, key) >= throttle >= 0
    ensures Spaced(throttle, sends + [Item(key, at)]) && LastIsLatest(lastSent[key := at], sends + [Item(key, at)])
  {
  }

  ghost predicate SpacedInv(throttle: int, s: State) {
    && s.pending.Keys == s.timers.Keys && (forall k :: k in s.pending ==> s.pending[k] == k)
    && Spaced(throttle, s.sends) && LastIsLatest(s.lastSent, s.sends)
    && forall k :: k in s.timers ==> s.timers[k] == Last(s.lastSent, k) + throttle
  }

  lemma {:induction false} DueTimersFirstKeepsSpacing(throttle: int, states: seq<State>, events: seq<Event>, i: nat)
    requires throttle >= 0 && IsRun(throttle, states, events) && DueTimersFirst(states, events) && i < |states|
    ensures SpacedInv(throttle, states[i])
  {
    if i > 0 {
      DueTimersFirstKeepsSpacing(throttle, states, events, i - 1);
      var s, e := states[i - 1], events[i - 1];
      assert Moves(throttle, s, e, states[i - 1 + 1]);
      assert e.Broadcast? && e.key in s.timers ==> s.timers[e.key] > e.at;
      hide IsRun, DueTimersFirst, Moves;
      SpacedStep(throttle, s, e);
    }
  }

  lemma SpacedStep(throttle: int, s: State, e: Event)
    requires throttle >= 0 && SpacedInv(throttle, s) && Enabled(s, e)
    requires e.Broadcast? && e.key in s.timers ==> s.timers[e.key] > e.at
    ensures SpacedInv(throttle, Next(throttle, s, e))
  {
    hide Spaced, LastIsLatest;
    if e.at - Last(s.lastSent, e.key) >= throttle {
      OneMoreSend(throttle, s.lastSent, s.sends, e.key, e.at);
    }
  }

  /** If due timers fire before messages, two sends of a key are at least one window apart, over the whole run. */
  lemma SendsAreSpaced(throttle: int, states: seq<State>, events: seq<Event>, i: nat)
    requires throttle >= 0 && IsRun(throttle, states, events) && DueTimersFirst(states, events) && i < |states|
    ensures Spaced(throttle, states[i].sends)
  {
    DueTimersFirstKeepsSpacing(throttle, states, events, i);
  }

  /** A timer that fires finds its key's last send at least one window back. */
  predicate FiresSpaced(throttle: int, s: State, e: Event) {
    e.Fire? && e.key in s.lastSent ==> e.at - s.lastSent[e.key] >= throttle
  }

  ghost predicate LastIsSent(s: State) {
    && s.pending.Keys == s.timers.Keys && (forall k :: k in s.pending ==> s.pending[k] == k)
    && LastIsLatest(s.lastSent, s.sends)
    && forall k :: k in s.lastSent ==> Item(k, s.lastSent[k]) in s.sends
  }

  lemma SpacedPrefix(throttle: int, sends: seq<Item>, item: Item)
    requires Spaced(throttle, sends + [item])
    ensures Spaced(throttle, sends)
    ensures forall i :: 0 <= i < |sends| && sends[i].key == item.key ==> item.at - sends[i].at >= throttle
  {
    var longer := sends + [item];
    forall i, j | 0 <= i < j < |sends| && sends[i].key == sends[j].key
      ensures sends[j].at - sends[i].at >= throttle
    {
      assert longer[i] == sends[i] && longer[j] == sends[j];
    }
    forall i | 0 <= i < |sends| && sends[i].key == item.key
      ensures item.at - sends[i].at >= throttle
    {
      assert longer[i] == sends[i] && longer[|sends|] == item;
    }
  }

  lemma FirstSend(throttle: int, lastSent: map<string, int>, sends: seq<Item>, key: string, at: int)
    requires Spaced(throttle, sends) && LastIsLatest(lastSent, sends) && key !in lastSent
    ensures Spaced(throttle, sends + [Item(key, at)])
  {
  }

  lemma NextKeepsLast(throttle: int, s: State, e: Event)
    requires throttle >= 0 && LastIsSent(s) && Enabled(s, e)
    requires forall k :: k in s.lastSent ==> s.lastSent[k] <= s.now
    ensures LastIsSent(Next(throttle, s, e))
  {
  }

  /** One event leaves spaced sends exactly when they were spaced before and it is not a timer firing too close. */
  lemma SpacedStepIff(throttle: int, s: State, e: Event)
    requires throttle >= 0 && LastIsSent(s) && Enabled(s, e)
    ensures Spaced(throttle, Next(throttle, s, e).sends) <==> Spaced(throttle, s.sends) && FiresSpaced(throttle, s, e)
  {
    hide Spaced, LastIsLatest;
    var t := Next(throttle, s, e);
    if t.sends != s.sends {
      assert t.sends == s.sends + [Item(e.key, e.at)];
      if Spaced(throttle, t.sends) {
        SpacedPrefix(throttle, s.sends, Item(e.key, e.at));
        if e.key in s.lastSent {
          var i :| 0 <= i < |s.sends| && s.sends[i] == Item(e.key, s.lastSent[e.key]);
        }
      }
      if Spaced(throttle, s.sends) && FiresSpaced(throttle, s, e) {
        if e.key in s.lastSent {
          OneMoreSend(throttle, s.lastSent, s.sends, e.key, e.at);
        } else {
          FirstSend(throttle, s.lastSent, s.sends, e.key, e.at);
        }
      }
    }
  }

  /** Over every run: the sends of each key are at least one window apart exactly when no timer fired within a window
      of its key's last send. */
  lemma {:induction false} SpacedIff(throttle: int, states: seq<State>, events: seq<Event>, n: nat)
    requires throttle >= 0 && IsRun(throttle, states, events) && n < |states|
    ensures LastIsSent(states[n])
    ensures Spaced(throttle, states[n].sends) <==>
        forall i :: 0 <= i < n ==> FiresSpaced(throttle, states[i], events[i])
  {
    if n > 0 {
      SpacedIff(throttle, states, events, n - 1);
      RunKeepsInv(throttle, states, events, n - 1);
      assert Moves(throttle, states[n - 1], events[n - 1], states[n - 1 + 1]);
      hide IsRun, Spaced, FiresSpaced;
      NextKeepsLast(throttle, states[n - 1], events[n - 1]);
      SpacedStepIff(throttle, states[n - 1], events[n - 1]);
    }
  }

  /** A message that overtakes its due timer is sent twice at one instant. */
  lemma LateTimerSendsTwice(throttle: int, key: string)
    requires throttle > 1
    ensures exists states: seq<State>, events: seq<Event> ::
              && IsRun(throttle, states, events) && !DueTimersFirst(states, events)
              && states[|events|].sends == [Item(key, throttle), Item(key, 2 * throttle), Item(key, 2 * throttle)]
  {
    var events := [Broadcast(key, throttle), Broadcast(key, throttle + 1), Broadcast(key, 2 * throttle),
        Fire(key, 2 * throttle)];
    var s0 := Initial(0);
    var s1 := Next(throttle, s0, events[0]);
    var s2 := Next(throttle, s1, events[1]);
    var s3 := Next(throttle, s2, events[2]);
    var s4 := Next(throttle, s3, events[3]);
    var states := [s0, s1, s2, s3, s4];
    assert s1.sends == [Item(key, throttle)] && s1.lastSent[key] == throttle;
    assert s2.sends == s1.sends && s2.timers[key] == 2 * throttle;
    assert s3.sends == [Item(key, throttle), Item(key, 2 * throttle)] && s3.timers == s2.timers;
    assert s4.sends == [Item(key, throttle), Item(key, 2 * throttle), Item(key, 2 * throttle)];
    assert IsRun(throttle, states, events);
    assert events[2].Broadcast? && states[2].timers[events[2].key] <= events[2].at;
    assert !DueTimersFirst(states, events);
    assert states[|events|] == s4;
  }

  // ---- The server's maps ----

  class Broadcaster {
    const throttleMs: int
    var lastSent: map<string, int>
    var pending: map<string, string>
    var timers: map<string, int>
    ghost var now: int
    ghost var broadcasts: seq<Item>
    ghost var sends: seq<Item>

    constructor (throttleMs: int, now: int)
      ensures this.throttleMs == throttleMs && Contents() == Initial(now)
    {
      this.throttleMs := throttleMs;
      lastSent, pending, timers := map[], map[], map[];
      this.now, broadcasts, sends := now, [], [];
    }

    ghost function Contents(): State
      reads this
    {
      State(now, lastSent, pending, timers, broadcasts, sends)
    }

    method Broadcast(key: string, at: int)
      modifies this
      ensures Contents() == AfterBroadcast(throttleMs, old(Contents()), key, at)
    {
      now, broadcasts := at, broadcasts + [Item(key, at)];
      var last := Last(lastSent, key);
      if at - last >= throttleMs {
        sends := sends + [Item(key, at)];
        lastSent := lastSent[key := at];
      } else {
        pending := pending[key := key];
        if key !in timers {
          var wait := throttleMs - (at - last);
          timers := timers[key := at + wait];
        }
      }
    }

    method FireTimer(key: string, at: int)
      requires key in timers
      modifies this
      ensures Contents() == AfterFire(old(Contents()), key, at)
    {
      now := at;
      if key in pending {
        sends := sends + [Item(pending[key], at)];
        lastSent := lastSent[key := at];
        pending := pending - {key};
      }
      timers := timers - {key};
    }
  }
}
