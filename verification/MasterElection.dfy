/** Lease-based election: clients that take one Redis key and renew it on an interval. Replies may be late and renewal
    callbacks of one client may overlap. */
module MasterElection {
  import opened Common
  import opened RedisKey

  /** `believes` is the client's isMaster variable. `acquiring` and `extending` count callbacks about to send
      SET NX and PEXPIRE; `replies` are results not yet assigned. `lease` is the expiry this client
      last gave its own key. */
  datatype Node = Node(believes: bool, acquiring: nat, extending: nat, replies: multiset<bool>, lease: Option<int>)

  /** Client c uses the id `ids[c]`. */
  datatype State = State(now: int, key: Option<Entry>, nodes: seq<Node>)

  datatype Event = Wait(ms: nat) | Read(c: nat) | Acquire(c: nat) | Extend(c: nat) | Assign(c: nat, isMaster: bool)

  predicate Enabled(s: State, e: Event) {
    match e
    case Wait(_) => true
    case Read(c) => c < |s.nodes|
    case Acquire(c) => c < |s.nodes| && s.nodes[c].acquiring > 0
    case Extend(c) => c < |s.nodes| && s.nodes[c].extending > 0
    case Assign(c, b) => c < |s.nodes| && b in s.nodes[c].replies
  }

  /** The GET of a renewal and the branch it takes. */
  function AfterRead(s: State, id: string, n: Node): Node {
    var owner := Owner(s.key, s.now);
    if owner == Some(id) then n.(extending := n.extending + 1)
    else if owner.None? then n.(acquiring := n.acquiring + 1)
    else n.(replies := n.replies + multiset{false})
  }

  function AfterAcquire(s: State, ttl: int, n: Node): Node
    requires n.acquiring > 0
  {
    var won := !Present(s.key, s.now);
    n.(acquiring := n.acquiring - 1, replies := n.replies + multiset{won},
       lease := if won then Some(s.now + ttl) else n.lease)
  }

  /** PEXPIRE answers for whatever key is there, and the callback returns true in any case. */
  function AfterExtend(s: State, id: string, ttl: int, n: Node): Node
    requires n.extending > 0
  {
    n.(extending := n.extending - 1, replies := n.replies + multiset{true},
       lease := if Owner(s.key, s.now) == Some(id) then Some(s.now + ttl) else n.lease)
  }

  function Next(ids: seq<string>, ttl: int, s: State, e: Event): State
    requires Enabled(s, e) && |s.nodes| == |ids|
  {
    match e
    case Wait(ms) => s.(now := s.now + ms)
    case Read(c) => s.(nodes := s.nodes[c := AfterRead(s, ids[c], s.nodes[c])])
    case Acquire(c) =>
      s.(key := SetNx(s.key, ids[c], ttl, s.now), nodes := s.nodes[c := AfterAcquire(s, ttl, s.nodes[c])])
    case Extend(c) =>
      s.(key := PExpire(s.key, ttl, s.now), nodes := s.nodes[c := AfterExtend(s, ids[c], ttl, s.nodes[c])])
    case Assign(c, b) =>
      s.(nodes := s.nodes[c := s.nodes[c].(believes := b, replies := s.nodes[c].replies - multiset{b})])
  }

  /** Each client starts by sending one SET NX. */
  function Initial(n: nat, now: int): State {
    State(now, None, seq(n, _ => Node(false, 1, 0, multiset{}, None)))
  }

  predicate Moves(ids: seq<string>, ttl: int, s: State, e: Event, t: State) {
    |s.nodes| == |ids| && Enabled(s, e) && t == Next(ids, ttl, s, e)
  }

  ghost predicate IsRun(ids: seq<string>, ttl: int, states: seq<State>, events: seq<Event>) {
    && |states| == |events| + 1
    && states[0] == Initial(|ids|, states[0].now)
    && forall i :: 0 <= i < |events| ==> Moves(ids, ttl, states[i], events[i], states[i + 1])
  }

  ghost predicate Reachable(ids: seq<string>, ttl: int, s: State) {
    exists states, events :: IsRun(ids, ttl, states, events) && states[|events|] == s
  }

  /** What a command of client c answers its callback. */
  function Answer(ids: seq<string>, s: State, e: Event, c: nat): Option<bool>
    requires c < |ids|
  {
    if e == Extend(c) then Some(true)
    else if e == Acquire(c) then Some(!(s.key.Some? && s.now < s.key.value.expiresAt))
    else if e == Read(c) && s.key.Some? && s.now < s.key.value.expiresAt && s.key.value.owner != ids[c] then Some(false)
    else None
  }

  function Answers(ids: seq<string>, states: seq<State>, events: seq<Event>, c: nat, b: bool): nat
    requires |states| >= |events| && c < |ids|
  {
    if events == [] then 0
    else
      var n := |events| - 1;
      Answers(ids, states[..n], events[..n], c, b) + if Answer(ids, states[n], events[n], c) == Some(b) then 1 else 0
  }

  lemma ReadAnswers(s: State, id: string, n: Node, b: bool)
    ensures AfterRead(s, id, n).believes == n.believes
    ensures AfterRead(s, id, n).replies[b] == n.replies[b]
            + if s.key.Some? && s.now < s.key.value.expiresAt && s.key.value.owner != id && !b then 1 else 0
  {
  }

  lemma CommandsAnswer(s: State, id: string, ttl: int, n: Node, b: bool)
    ensures n.acquiring > 0 ==>
              AfterAcquire(s, ttl, n).believes == n.believes
              && AfterAcquire(s, ttl, n).replies[b] == n.replies[b]
              + if b == !(s.key.Some? && s.now < s.key.value.expiresAt) then 1 else 0
    ensures n.extending > 0 ==>
              AfterExtend(s, id, ttl, n).believes == n.believes
              && AfterExtend(s, id, ttl, n).replies[b] == n.replies[b] + if b then 1 else 0
  {
  }

  lemma AssignTakes(n: Node, x: bool, b: bool)
    requires x in n.replies
    ensures (n.replies - multiset{x})[b] == n.replies[b] - if x == b then 1 else 0
  {
  }

  /** The books of a node: what is assigned was a reply, and what is answered becomes one. */
  predicate Booked(n: Node, m: Node, put: Option<bool>, answered: Option<bool>, b: bool) {
    && m.replies[b] + (if put == Some(b) then 1 else 0) == n.replies[b] + (if answered == Some(b) then 1 else 0)
    && (m.believes ==> n.believes || put == Some(true))
  }

  lemma AssignBooked(n: Node, x: bool, b: bool)
    requires x in n.replies
    ensures Booked(n, n.(believes := x, replies := n.replies - multiset{x}), Some(x), None, b)
  {
    AssignTakes(n, x, b);
  }

  lemma OneMoreAnswer(ids: seq<string>, ttl: int, s: State, e: Event, c: nat, b: bool)
    requires c < |s.nodes| == |ids| && Enabled(s, e)
    ensures Booked(s.nodes[c], Next(ids, ttl, s, e).nodes[c],
                   if e.Assign? && e.c == c then Some(e.isMaster) else None, Answer(ids, s, e, c), b)
  {
    hide AfterRead, AfterAcquire, AfterExtend, SetNx, PExpire;
    var n := s.nodes[c];
    if e.Wait? || e.c != c {
      assert Answer(ids, s, e, c) == None && Next(ids, ttl, s, e).nodes[c] == n;
    } else if e.Read? {
      ReadAnswers(s, ids[c], n, b);
    } else if e.Assign? {
      AssignBooked(n, e.isMaster, b);
      assert Answer(ids, s, e, c) == None;
      hide Booked;
    } else {
      CommandsAnswer(s, ids[c], ttl, n, b);
    }
  }

  lemma AnswersLast(ids: seq<string>, states: seq<State>, events: seq<Event>, i: nat, c: nat, b: bool)
    requires 0 < i <= |events| <= |states| && c < |ids|
    ensures Answers(ids, states[..i], events[..i], c, b) == Answers(ids, states[..i - 1], events[..i - 1], c, b)
            + if Answer(ids, states[i - 1], events[i - 1], c) == Some(b) then 1 else 0
  {
    hide Answer;
    assert states[..i][..i - 1] == states[..i - 1] && events[..i][..i - 1] == events[..i - 1];
  }

  function Times(events: seq<Event>, e: Event): nat {
    if events == [] then 0
    else Times(events[..|events| - 1], e) + if events[|events| - 1] == e then 1 else 0
  }

  lemma TimesLast(events: seq<Event>, i: nat, e: Event)
    requires 0 < i <= |events|
    ensures Times(events[..i], e) == Times(events[..i - 1], e) + if events[i - 1] == e then 1 else 0
  {
    assert events[..i][..i - 1] == events[..i - 1];
  }

  /** isMaster is only ever assigned what a command answered, once for each answer: over every run, assignments made and
      replies still to be assigned are the answers given so far. So who believes to be master was told so. */
  lemma {:induction false} AnswersAssigned(
    ids: seq<string>, ttl: int, states: seq<State>, events: seq<Event>, i: nat, c: nat, b: bool)
    requires IsRun(ids, ttl, states, events) && i < |states| && c < |ids|
    ensures |states[i].nodes| == |ids|
    ensures Times(events[..i], Assign(c, b)) + states[i].nodes[c].replies[b]
            == Answers(ids, states[..i], events[..i], c, b)
    ensures states[i].nodes[c].believes ==> Times(events[..i], Assign(c, true)) > 0
  {
    if i > 0 {
      hide Answer, Answers, Enabled, Next, Times;
      AnswersAssigned(ids, ttl, states, events, i - 1, c, b);
      var s, e := states[i - 1], events[i - 1];
      assert Moves(ids, ttl, s, e, states[i - 1 + 1]);
      hide IsRun;
      TimesLast(events, i, Assign(c, b));
      TimesLast(events, i, Assign(c, true));
      AnswersLast(ids, states, events, i, c, b);
      OneMoreAnswer(ids, ttl, s, e, c, b);
    }
  }

  predicate Distinct(ids: seq<string>) {
    forall c, d :: 0 <= c < d < |ids| ==> ids[c] != ids[d]
  }

  predicate InLease(s: State, c: nat)
    requires c < |s.nodes|
  {
    s.nodes[c].lease.Some? && s.now < s.nodes[c].lease.value
  }

  /** Inside its lease a client owns the key, which lives at least as long; nobody's late PEXPIRE can shorten it. */
  predicate LeaseIsKey(ids: seq<string>, s: State)
    requires |s.nodes| == |ids|
  {
    forall c :: 0 <= c < |ids| && InLease(s, c) ==>
      s.key.Some? && s.key.value.owner == ids[c] && s.key.value.expiresAt >= s.nodes[c].lease.value
  }

  predicate Inv(ids: seq<string>, ttl: int, s: State) {
    && |s.nodes| == |ids|
    && LeaseIsKey(ids, s)
    && (s.key.Some? ==> s.key.value.expiresAt <= s.now + ttl)
  }

  lemma NextKeepsInv(ids: seq<string>, ttl: int, s: State, e: Event)
    requires ttl > 0 && Distinct(ids) && Inv(ids, ttl, s) && Enabled(s, e)
    ensures Inv(ids, ttl, Next(ids, ttl, s, e))
  {
    var t := Next(ids, ttl, s, e);
    forall c | 0 <= c < |ids| && InLease(t, c)
      ensures t.key.Some? && t.key.value.owner == ids[c] && t.key.value.expiresAt >= t.nodes[c].lease.value
    {
      if t.nodes[c].lease == s.nodes[c].lease {
        assert InLease(s, c);
      }
    }
  }

  lemma {:induction false} RunKeepsInv(ids: seq<string>, ttl: int, states: seq<State>, events: seq<Event>, i: nat)
    requires ttl > 0 && Distinct(ids) && IsRun(ids, ttl, states, events) && i < |states|
    ensures Inv(ids, ttl, states[i])
  {
    hide Inv;
    if i == 0 {
      InitialInv(ids, ttl, states[0].now);
    } else {
      RunKeepsInv(ids, ttl, states, events, i - 1);
      assert Moves(ids, ttl, states[i - 1], events[i - 1], states[i - 1 + 1]);
      NextKeepsInv(ids, ttl, states[i - 1], events[i - 1]);
    }
  }

  lemma InitialInv(ids: seq<string>, ttl: int, now: int)
    ensures Inv(ids, ttl, Initial(|ids|, now))
  {
  }

  // ---- At most one master ----

  /** Each believer's last lease has not run out by `slack` or more. */
  predicate RenewedWithin(s: State, slack: int) {
    forall c :: 0 <= c < |s.nodes| && s.nodes[c].believes ==>
      s.nodes[c].lease.Some? && s.now < s.nodes[c].lease.value + slack
  }

  /** No client still believes it is master after its lease ran out: each renewal landed before then. */
  predicate RenewedInTime(s: State) {
    RenewedWithin(s, 0)
  }

  predicate AtMostOneMaster(s: State) {
    forall c, d :: 0 <= c < |s.nodes| && 0 <= d < |s.nodes| && s.nodes[c].believes && s.nodes[d].believes ==> c == d
  }

  /** In every reachable state at most one client is inside a lease; so with renewals in time, at most one believes
      it is master. */
  lemma AtMostOneLease(ids: seq<string>, ttl: int, s: State)
    requires ttl > 0 && Distinct(ids) && Reachable(ids, ttl, s)
    ensures forall c, d :: 0 <= c < |s.nodes| && 0 <= d < |s.nodes| && InLease(s, c) && InLease(s, d) ==> c == d
    ensures RenewedInTime(s) ==> AtMostOneMaster(s)
  {
    var states, events :| IsRun(ids, ttl, states, events) && states[|events|] == s;
    RunKeepsInv(ids, ttl, states, events, |events|);
    forall c, d | 0 <= c < |s.nodes| && 0 <= d < |s.nodes| && InLease(s, c) && InLease(s, d)
      ensures c == d
    {
      assert s.key.value.owner == ids[c] && s.key.value.owner == ids[d];
    }
  }

  lemma Longer(ids: seq<string>, ttl: int, s: State, e: Event)
    requires Reachable(ids, ttl, s) && Enabled(s, e) && |s.nodes| == |ids|
    ensures Reachable(ids, ttl, Next(ids, ttl, s, e))
  {
    var states, events :| IsRun(ids, ttl, states, events) && states[|events|] == s;
    var t := Next(ids, ttl, s, e);
    var states2, events2 := states + [t], events + [e];
    assert Moves(ids, ttl, s, e, t);
    hide Moves;
    forall i | 0 <= i < |events2|
      ensures Moves(ids, ttl, states2[i], events2[i], states2[i + 1])
    {
      if i < |events| {
        assert states2[i] == states[i] && states2[i + 1] == states[i + 1] && events2[i] == events[i];
      }
    }
    assert states2[|events2|] == t;
  }

  lemma InitialReachable(ids: seq<string>, ttl: int)
    ensures Reachable(ids, ttl, Initial(|ids|, 0))
  {
    var s := Initial(|ids|, 0);
    assert IsRun(ids, ttl, [s], []) && [s][0] == s;
  }

  /** The hypothesis is needed: once a believer's key has run out, the next client to acquire makes a second one. */
  lemma LapseAdmitsSecond(ids: seq<string>, ttl: int, s: State, c: nat, d: nat)
    requires Reachable(ids, ttl, s) && |s.nodes| == |ids| && c < |ids| && d < |ids| && c != d
    requires s.nodes[c].believes && s.nodes[d].acquiring > 0 && !Present(s.key, s.now)
    ensures exists t :: Reachable(ids, ttl, t) && t.now == s.now && |t.nodes| == |ids|
                        && t.nodes[c].believes && t.nodes[d].believes
  {
    hide Reachable;
    Longer(ids, ttl, s, Acquire(d));
    var s1 := Next(ids, ttl, s, Acquire(d));
    Longer(ids, ttl, s1, Assign(d, true));
    var s2 := Next(ids, ttl, s1, Assign(d, true));
    assert s2.nodes[c].believes && s2.nodes[d].believes;
  }

  /** So may a client that has just renewed: its GET sees its own id, the key runs out, another client takes it, and
      the late PEXPIRE extends that client's key while the renewal returns true. */
  lemma LateExpireMakesTwoMasters(ids: seq<string>, ttl: int)
    requires ttl > 0 && |ids| >= 2 && Distinct(ids)
    ensures exists s :: Reachable(ids, ttl, s) && |s.nodes| == |ids| && s.nodes[0].believes && s.nodes[1].believes
                        && s.nodes[0].extending == 0 && Owner(s.key, s.now) == Some(ids[1])
  {
    hide Reachable;
    var s0 := Initial(|ids|, 0);
    InitialReachable(ids, ttl);
    Longer(ids, ttl, s0, Acquire(0));
    var s1 := Next(ids, ttl, s0, Acquire(0));
    Longer(ids, ttl, s1, Assign(0, true));
    var s2 := Next(ids, ttl, s1, Assign(0, true));
    Longer(ids, ttl, s2, Read(0));
    var s3 := Next(ids, ttl, s2, Read(0));
    Longer(ids, ttl, s3, Wait(ttl));
    var s4 := Next(ids, ttl, s3, Wait(ttl));
    Longer(ids, ttl, s4, Acquire(1));
    var s5 := Next(ids, ttl, s4, Acquire(1));
    Longer(ids, ttl, s5, Assign(1, true));
    var s6 := Next(ids, ttl, s5, Assign(1, true));
    Longer(ids, ttl, s6, Extend(0));
    var s7 := Next(ids, ttl, s6, Extend(0));
    assert Owner(s7.key, s7.now) == Some(ids[1]) && s7.nodes[0].believes && s7.nodes[1].believes &&
        s7.nodes[0].extending == 0;
  }

  // ---- Exactly when there is one master at most ----

  ghost predicate Elects(ids: seq<string>, ttl: int, slack: int) {
    forall s :: Reachable(ids, ttl, s) && RenewedWithin(s, slack) ==> AtMostOneMaster(s)
  }

  predicate LeasesNear(ids: seq<string>, ttl: int, s: State) {
    |s.nodes| == |ids| && forall c :: 0 <= c < |s.nodes| && s.nodes[c].lease.Some? ==>
        s.nodes[c].lease.value <= s.now + ttl
  }

  lemma {:induction false} RunKeepsLeasesNear(
      ids: seq<string>, ttl: int, states: seq<State>, events: seq<Event>, i: nat)
    requires IsRun(ids, ttl, states, events) && i < |states|
    ensures LeasesNear(ids, ttl, states[i])
  {
    if i > 0 {
      RunKeepsLeasesNear(ids, ttl, states, events, i - 1);
      assert Moves(ids, ttl, states[i - 1], events[i - 1], states[i - 1 + 1]);
    }
  }

  lemma ElectsWhen(ids: seq<string>, ttl: int, slack: int)
    requires ttl > 0
    requires |ids| <= 1 || slack <= -ttl || (Distinct(ids) && slack <= 0)
    ensures Elects(ids, ttl, slack)
  {
    forall s | Reachable(ids, ttl, s) && RenewedWithin(s, slack)
      ensures AtMostOneMaster(s)
    {
      var states, events :| IsRun(ids, ttl, states, events) && states[|events|] == s;
      RunKeepsLeasesNear(ids, ttl, states, events, |events|);
      if |ids| > 1 && slack > -ttl {
        AtMostOneLease(ids, ttl, s);
      }
    }
  }

  /** The second client reads its own id where the first wrote it, and extends: both are inside a lease. */
  lemma SharedIdMakesTwoMasters(ids: seq<string>, ttl: int, c: nat, d: nat) returns (s: State)
    requires ttl > 0 && c < |ids| && d < |ids| && c != d && ids[c] == ids[d]
    ensures Reachable(ids, ttl, s) && |s.nodes| == |ids| && s.now == 0
    ensures s.nodes[c].believes && s.nodes[d].believes && s.nodes[c].lease == s.nodes[d].lease == Some(ttl)
    ensures forall e :: 0 <= e < |ids| && e != c && e != d ==> !s.nodes[e].believes
  {
    hide Reachable;
    var s0 := Initial(|ids|, 0);
    InitialReachable(ids, ttl);
    Longer(ids, ttl, s0, Acquire(c));
    var s1 := Next(ids, ttl, s0, Acquire(c));
    Longer(ids, ttl, s1, Assign(c, true));
    var s2 := Next(ids, ttl, s1, Assign(c, true));
    Longer(ids, ttl, s2, Read(d));
    var s3 := Next(ids, ttl, s2, Read(d));
    Longer(ids, ttl, s3, Extend(d));
    var s4 := Next(ids, ttl, s3, Extend(d));
    Longer(ids, ttl, s4, Assign(d, true));
    s := Next(ids, ttl, s4, Assign(d, true));
  }

  /** The first client does not renew, the second acquires the key that has run out. */
  lemma MissedRenewalMakesTwoMasters(ids: seq<string>, ttl: int, c: nat, d: nat) returns (s: State)
    requires ttl > 0 && c < |ids| && d < |ids| && c != d
    ensures Reachable(ids, ttl, s) && |s.nodes| == |ids| && s.now == ttl
    ensures s.nodes[c].believes && s.nodes[d].believes && s.nodes[c].lease == Some(ttl) &&
        s.nodes[d].lease == Some(2 * ttl)
    ensures forall e :: 0 <= e < |ids| && e != c && e != d ==> !s.nodes[e].believes
  {
    hide Reachable;
    var s0 := Initial(|ids|, 0);
    InitialReachable(ids, ttl);
    Longer(ids, ttl, s0, Acquire(c));
    var s1 := Next(ids, ttl, s0, Acquire(c));
    Longer(ids, ttl, s1, Assign(c, true));
    var s2 := Next(ids, ttl, s1, Assign(c, true));
    Longer(ids, ttl, s2, Wait(ttl));
    var s3 := Next(ids, ttl, s2, Wait(ttl));
    Longer(ids, ttl, s3, Acquire(d));
    var s4 := Next(ids, ttl, s3, Acquire(d));
    Longer(ids, ttl, s4, Assign(d, true));
    s := Next(ids, ttl, s4, Assign(d, true));
  }

  /** There is never a second master exactly when there is one client at most, or ids are distinct and no believer
      outlives its lease, or the schedule leaves no time to be master at all. */
  lemma ElectsIff(ids: seq<string>, ttl: int, slack: int)
    requires ttl > 0
    ensures Elects(ids, ttl, slack) <==> |ids| <= 1 || slack <= -ttl || (Distinct(ids) && slack <= 0)
  {
    if |ids| <= 1 || slack <= -ttl || (Distinct(ids) && slack <= 0) {
      ElectsWhen(ids, ttl, slack);
    } else if slack > 0 {
      var s := MissedRenewalMakesTwoMasters(ids, ttl, 0, 1);
      assert RenewedWithin(s, slack) && !AtMostOneMaster(s);
    } else {
      var c, d :| 0 <= c < d < |ids| && ids[c] == ids[d];
      var s := SharedIdMakesTwoMasters(ids, ttl, c, d);
      assert RenewedWithin(s, slack) && !AtMostOneMaster(s);
    }
  }

  /** In particular: with renewals in time there is never a second master exactly when the clients' ids are distinct. */
  lemma ElectionNeedsDistinctIds(ids: seq<string>, ttl: int)
    requires ttl > 0
    ensures Elects(ids, ttl, 0) <==> Distinct(ids)
  {
    ElectsIff(ids, ttl, 0);
  }

  // ---- One client ----

  class Client {
    const id: string
    const ttl: int
    var isMaster: bool
    var key: Option<Entry>

    constructor (id: string, ttl: int, key: Option<Entry>, now: int)
      ensures this.id == id && this.ttl == ttl
      ensures isMaster == !Present(key, now) && this.key == SetNx(key, id, ttl, now)
    {
      this.id, this.ttl := id, ttl;
      var free := key.None? || key.value.expiresAt <= now;
      isMaster := free;
      this.key := if free then Some(Entry(id, now + ttl)) else key;
    }

    /** GET at one instant, SET or PEXPIRE at a later one; `meanwhile` is the key as other clients
        have left it by then. */
    method Renew(now: int, meanwhile: Option<Entry>, later: int)
      requires now <= later
      modifies this`isMaster, this`key
      ensures isMaster ==
          (Owner(old(key), now) == Some(id) || (Owner(old(key), now) == None && !Present(meanwhile, later)))
      ensures Owner(old(key), now) == Some(id) ==> key == PExpire(meanwhile, ttl, later)
      ensures Owner(old(key), now) == None ==> key == SetNx(meanwhile, id, ttl, later)
      ensures Owner(old(key), now) != Some(id) && Owner(old(key), now) != None ==> key == old(key)
      ensures isMaster && ttl > 0 && Owner(key, later) != Some(id) ==> Owner(meanwhile, later) != Some(id)
    {
      var owner := Owner(key, now);
      if owner == Some(id) {
        key := meanwhile;
        key := PExpire(key, ttl, later);
        isMaster := true;
      } else if owner.None? {
        key := meanwhile;
        isMaster := !Present(key, later);
        key := SetNx(key, id, ttl, later);
      } else {
        isMaster := false;
      }
    }
  }
}
