/** Workers sharing one index into a list of items. Between two awaits a worker runs alone; at its awaits any other
    worker may run. */
module WorkerPool {
  datatype Worker = Ready | Running(index: nat) | Ended | Failed

  /** `started` lists the indexes in the order their runs began; `finished` holds those whose run fulfilled. */
  datatype Pool = Pool(nextIndex: nat, workers: seq<Worker>, started: seq<nat>, finished: set<nat>)

  /** An item that is not run: the empty string. */
  predicate Truthy(item: string) {
    item != ""
  }

  function WorkerCount(concurrency: int, n: nat): nat {
    if concurrency <= 0 then 0 else if concurrency < n then concurrency else n
  }

  function Initial(items: seq<string>, concurrency: int): Pool {
    Pool(0, seq(WorkerCount(concurrency, |items|), _ => Ready), [], {})
  }

  /** The first index from i on holding an item to run, or the length. */
  function NextTruthy(items: seq<string>, i: nat): (k: nat)
    requires i <= |items|
    ensures i <= k <= |items|
    ensures forall j :: i <= j < k ==> !Truthy(items[j])
    ensures k < |items| ==> Truthy(items[k])
    decreases |items| - i
  {
    if i == |items| || Truthy(items[i]) then i else NextTruthy(items, i + 1)
  }

  /** The items to run among the first n, in order. */
  function TruthyBelow(items: seq<string>, n: nat): seq<nat>
    requires n <= |items|
  {
    if n == 0 then []
    else TruthyBelow(items, n - 1) + if Truthy(items[n - 1]) then [n - 1] else []
  }

  // ---- Steps ----

  /** Worker w goes from its loop head to its next await, or ends. */
  function Advance(items: seq<string>, p: Pool, w: nat): Pool
    requires w < |p.workers| && p.nextIndex <= |items|
  {
    var k := NextTruthy(items, p.nextIndex);
    if k < |items| then p.(nextIndex := k + 1, workers := p.workers[w := Running(k)], started := p.started + [k])
    else p.(nextIndex := k, workers := p.workers[w := Ended])
  }

  datatype Event = Resume(w: nat) | Fulfil(w: nat) | Reject(w: nat)

  predicate Enabled(p: Pool, e: Event) {
    && e.w < |p.workers|
    && match e
       case Resume(w) => p.workers[w].Ready?
       case Fulfil(w) => p.workers[w].Running?
       case Reject(w) => p.workers[w].Running?
  }

  function Next(items: seq<string>, p: Pool, e: Event): Pool
    requires Enabled(p, e) && p.nextIndex <= |items|
  {
    match e
    case Resume(w) => Advance(items, p, w)
    case Fulfil(w) => p.(workers := p.workers[w := Ready], finished := p.finished + {p.workers[w].index})
    case Reject(w) => p.(workers := p.workers[w := Failed])
  }

  ghost predicate IsRun(items: seq<string>, concurrency: int, states: seq<Pool>, events: seq<Event>) {
    && |states| == |events| + 1
    && states[0] == Initial(items, concurrency)
    && forall i :: 0 <= i < |events| ==>
         states[i].nextIndex <= |items| && Enabled(states[i], events[i]) &&
             states[i + 1] == Next(items, states[i], events[i])
  }

  // ---- The invariant ----

  predicate InFlightApart(p: Pool) {
    forall v, w :: 0 <= v < w < |p.workers| && p.workers[v].Running? && p.workers[w].Running? ==>
      p.workers[v].index != p.workers[w].index
  }

  predicate InFlightStarted(p: Pool) {
    forall w :: 0 <= w < |p.workers| && p.workers[w].Running? ==>
      p.workers[w].index in p.started && p.workers[w].index !in p.finished
  }

  /** A started run is finished, in flight, or was thrown out with its worker. */
  ghost predicate Settling(p: Pool) {
    (forall w :: 0 <= w < |p.workers| ==> !p.workers[w].Failed?) ==>
      forall k :: k in p.started ==> k in p.finished || InFlight(p, k)
  }

  predicate InFlight(p: Pool, k: nat) {
    exists w :: 0 <= w < |p.workers| && p.workers[w] == Running(k)
  }

  ghost predicate Inv(items: seq<string>, concurrency: int, p: Pool) {
    && p.nextIndex <= |items|
    && |p.workers| == WorkerCount(concurrency, |items|)
    && p.started == TruthyBelow(items, p.nextIndex)
    && (forall k :: k in p.finished ==> k in p.started)
    && InFlightApart(p) && InFlightStarted(p) && Settling(p)
    && forall w :: 0 <= w < |p.workers| && p.workers[w].Ended? ==> p.nextIndex == |items|
  }

  lemma {:induction false} TruthyBelowExact(items: seq<string>, n: nat)
    requires n <= |items|
    ensures forall k :: k in TruthyBelow(items, n) <==> 0 <= k < n && Truthy(items[k])
    ensures forall i, j :: 0 <= i < j < |TruthyBelow(items, n)| ==> TruthyBelow(items, n)[i] < TruthyBelow(items, n)[j]
  {
    if n > 0 {
      TruthyBelowExact(items, n - 1);
      var init := TruthyBelow(items, n - 1);
      forall i | 0 <= i < |init|
        ensures init[i] < n - 1
      {
        assert init[i] in init;
      }
    }
  }

  lemma {:induction false} SkipsFalsy(items: seq<string>, i: nat, k: nat)
    requires i <= k <= |items| && forall j :: i <= j < k ==> !Truthy(items[j])
    ensures TruthyBelow(items, k) == TruthyBelow(items, i)
    decreases k
  {
    if i < k {
      SkipsFalsy(items, i, k - 1);
    }
  }

  lemma AdvanceStarts(items: seq<string>, p: Pool, w: nat)
    requires p.nextIndex <= |items| && p.started == TruthyBelow(items, p.nextIndex)
    requires w < |p.workers| && p.workers[w].Ready?
    ensures var q, k := Advance(items, p, w), NextTruthy(items, p.nextIndex);
            && k !in p.started && q.nextIndex <= |items| && q.started == TruthyBelow(items, q.nextIndex)
  {
    var k := NextTruthy(items, p.nextIndex);
    SkipsFalsy(items, p.nextIndex, k);
    TruthyBelowExact(items, p.nextIndex);
    AppendNext(items, k);
  }

  /** A worker that took no item, or one that nobody has started, leaves the runs in flight as they should be. */
  lemma TakesNew(p: Pool, q: Pool, w: nat, worker: Worker)
    requires InFlightApart(p) && InFlightStarted(p)
    requires w < |p.workers| && !worker.Failed?
    requires q.workers == p.workers[w := worker] && q.finished == p.finished
    requires if worker.Running? then q.started == p.started + [worker.index] else q.started == p.started
    requires worker.Running? ==> worker.index !in p.started && worker.index !in p.finished
    ensures InFlightApart(q) && InFlightStarted(q)
  {
  }

  lemma StaysSettling(p: Pool, q: Pool, w: nat, worker: Worker)
    requires Settling(p) && w < |p.workers| && p.workers[w].Ready? && !worker.Failed?
    requires q.workers == p.workers[w := worker] && q.finished == p.finished
    requires if worker.Running? then q.started == p.started + [worker.index] else q.started == p.started
    ensures Settling(q)
  {
    forall j | InFlight(p, j)
      ensures InFlight(q, j)
    {
      var v :| 0 <= v < |p.workers| && p.workers[v] == Running(j);
      assert q.workers[v] == Running(j);
    }
    if worker.Running? {
      assert q.workers[w] == Running(worker.index);
    }
    if forall v :: 0 <= v < |q.workers| ==> !q.workers[v].Failed? {
      NoneFailed(p, q, w);
    }
  }

  lemma AdvanceKeepsInv(items: seq<string>, concurrency: int, p: Pool, w: nat)
    requires Inv(items, concurrency, p) && w < |p.workers| && p.workers[w].Ready?
    ensures Inv(items, concurrency, Advance(items, p, w))
  {
    var q := Advance(items, p, w);
    AdvanceStarts(items, p, w);
    hide TruthyBelow, NextTruthy, InFlightApart, InFlightStarted, Settling;
    TakesNew(p, q, w, q.workers[w]);
    StaysSettling(p, q, w, q.workers[w]);
  }

  lemma NoneFailed(p: Pool, q: Pool, w: nat)
    requires |p.workers| == |q.workers| && w < |p.workers| && !p.workers[w].Failed?
    requires forall v :: 0 <= v < |p.workers| && v != w ==> q.workers[v] == p.workers[v]
    requires forall v :: 0 <= v < |q.workers| ==> !q.workers[v].Failed?
    ensures forall v :: 0 <= v < |p.workers| ==> !p.workers[v].Failed?
  {
    forall v | 0 <= v < |p.workers|
      ensures !p.workers[v].Failed?
    {
      assert v != w ==> q.workers[v] == p.workers[v];
    }
  }

  lemma AppendNext(items: seq<string>, k: nat)
    requires k < |items| ==> Truthy(items[k])
    ensures k < |items| ==> TruthyBelow(items, k + 1) == TruthyBelow(items, k) + [k]
  {
  }

  lemma NextKeepsInv(items: seq<string>, concurrency: int, p: Pool, e: Event)
    requires Inv(items, concurrency, p) && Enabled(p, e)
    ensures Inv(items, concurrency, Next(items, p, e))
  {
    hide TruthyBelow;
    match e
    case Resume(w) => AdvanceKeepsInv(items, concurrency, p, w);
    case Fulfil(w) => FulfilKeepsInv(items, concurrency, p, w);
    case Reject(w) =>
      var q := Next(items, p, e);
      assert q.workers[w].Failed?;
  }

  lemma FulfilKeepsInv(items: seq<string>, concurrency: int, p: Pool, w: nat)
    requires Inv(items, concurrency, p) && Enabled(p, Fulfil(w))
    ensures Inv(items, concurrency, Next(items, p, Fulfil(w)))
  {
    hide TruthyBelow;
    var q := Next(items, p, Fulfil(w));
    if forall v :: 0 <= v < |q.workers| ==> !q.workers[v].Failed? {
      forall v | 0 <= v < |p.workers|
        ensures !p.workers[v].Failed?
      {
        assert v != w ==> p.workers[v] == q.workers[v];
      }
      forall k | k in q.started
        ensures k in q.finished || InFlight(q, k)
      {
        if k !in q.finished {
          assert InFlight(p, k);
          var v :| 0 <= v < |p.workers| && p.workers[v] == Running(k);
          assert q.workers[v] == Running(k);
        }
      }
    }
  }

  lemma {:induction false} RunKeepsInv(
      items: seq<string>, concurrency: int, states: seq<Pool>, events: seq<Event>, i: nat)
    requires IsRun(items, concurrency, states, events) && i < |states|
    ensures Inv(items, concurrency, states[i])
  {
    if i > 0 {
      RunKeepsInv(items, concurrency, states, events, i - 1);
      NextKeepsInv(items, concurrency, states[i - 1], events[i - 1]);
      hide Inv, Next, Enabled;
      assert states[i - 1 + 1] == Next(items, states[i - 1], events[i - 1]);
    }
  }

  // ---- What a run guarantees ----

  function RunningAmong(workers: seq<Worker>): set<nat> {
    if workers == [] then {}
    else
      RunningAmong(workers[..|workers| - 1])
      + if workers[|workers| - 1].Running? then {workers[|workers| - 1].index} else {}
  }

  lemma {:induction false} RunningMember(workers: seq<Worker>, k: nat)
    ensures k in RunningAmong(workers) <==> exists w :: 0 <= w < |workers| && workers[w] == Running(k)
  {
    if workers != [] {
      var init, last := workers[..|workers| - 1], workers[|workers| - 1];
      RunningMember(init, k);
      assert workers == init + [last];
      if w :| 0 <= w < |init| && init[w] == Running(k) {
        assert workers[w] == Running(k);
      }
    }
  }

  lemma {:induction false} RunningCount(workers: seq<Worker>)
    ensures |RunningAmong(workers)| <= |workers|
  {
    if workers != [] {
      RunningCount(workers[..|workers| - 1]);
    }
  }

  lemma RunningExact(workers: seq<Worker>)
    ensures forall k :: k in RunningAmong(workers) <==> exists w :: 0 <= w < |workers| && workers[w] == Running(k)
    ensures |RunningAmong(workers)| <= |workers|
  {
    hide RunningAmong;
    RunningCount(workers);
    forall k
      ensures k in RunningAmong(workers) <==> exists w :: 0 <= w < |workers| && workers[w] == Running(k)
    {
      RunningMember(workers, k);
    }
  }

  /** In every reachable state runs begin in index order, each index at most once and only for items to run; no more
      are in flight than the concurrency allows or than there are items, and they are on different items. */
  lemma ClaimsAndBound(items: seq<string>, concurrency: int, states: seq<Pool>, events: seq<Event>, i: nat)
    requires IsRun(items, concurrency, states, events) && i < |states|
    ensures var p := states[i];
            && (forall a, b :: 0 <= a < b < |p.started| ==> p.started[a] < p.started[b])
            && (forall k :: k in p.started ==> k < |items| && items[k] != "")
            && |RunningAmong(p.workers)| <= |items|
            && |RunningAmong(p.workers)| <= (if concurrency < 0 then 0 else concurrency)
            && InFlightApart(p)
  {
    RunKeepsInv(items, concurrency, states, events, i);
    var p := states[i];
    TruthyBelowExact(items, p.nextIndex);
    RunningExact(p.workers);
    hide TruthyBelow;
  }

  /** The pool after workers 0 to k - 1 have each begun an item. */
  function Begun(workers: nat, k: nat): Pool {
    Pool(k, seq(workers, (w: nat) => if w < k then Running(w) else Ready), seq(k, (i: nat) => i), {})
  }

  lemma BeginsNext(items: seq<string>, workers: nat, k: nat)
    requires k < workers <= |items| && items[k] != ""
    ensures Next(items, Begun(workers, k), Resume(k)) == Begun(workers, k + 1)
  {
    assert NextTruthy(items, k) == k;
    var p, q := Next(items, Begun(workers, k), Resume(k)), Begun(workers, k + 1);
    assert p.workers == q.workers && p.started == q.started;
  }

  function Below(k: nat): set<nat> {
    if k == 0 then {} else Below(k - 1) + {k - 1}
  }

  lemma {:induction false} BelowExact(k: nat)
    ensures forall i: nat :: i in Below(k) <==> i < k
    ensures |Below(k)| == k
  {
    if k > 0 {
      BelowExact(k - 1);
      assert k - 1 !in Below(k - 1);
    }
  }

  lemma BegunRunning(workers: nat, k: nat)
    requires k <= workers
    ensures |RunningAmong(Begun(workers, k).workers)| == k
  {
    var running := RunningAmong(Begun(workers, k).workers);
    RunningExact(Begun(workers, k).workers);
    BelowExact(k);
    forall i: nat
      ensures i in running <==> i in Below(k)
    {
      if i < k { assert Begun(workers, k).workers[i] == Running(i); }
    }
    assert running == Below(k);
  }

  /** And that many can be in flight: with every item to run, a run gets to the smaller of the two bounds. */
  lemma BoundIsReached(items: seq<string>, concurrency: nat)
    returns (states: seq<Pool>, events: seq<Event>)
    requires forall k :: 0 <= k < |items| ==> items[k] != ""
    ensures IsRun(items, concurrency, states, events)
    ensures |RunningAmong(states[|events|].workers)| == if concurrency <= |items| then concurrency else |items|
  {
    var n := if concurrency <= |items| then concurrency else |items|;
    states := seq(n + 1, k requires 0 <= k <= n => Begun(n, k));
    events := seq(n, k requires 0 <= k < n => Resume(k));
    assert states[0] == Initial(items, concurrency);
    forall k | 0 <= k < n
      ensures Enabled(states[k], events[k]) && states[k + 1] == Next(items, states[k], events[k])
    {
      BeginsNext(items, n, k);
    }
    BegunRunning(n, n);
  }

  predicate AllEnded(p: Pool) {
    forall w :: 0 <= w < |p.workers| ==> p.workers[w].Ended?
  }

  /** With concurrency at least 1, one worker ending normally means every item to run was begun; when all end
      normally, exactly those runs have finished. */
  lemma EndedMeansAllRun(items: seq<string>, concurrency: int, states: seq<Pool>, events: seq<Event>, i: nat)
    requires IsRun(items, concurrency, states, events) && i < |states| && concurrency >= 1
    ensures var p := states[i];
            && ((exists w :: 0 <= w < |p.workers| && p.workers[w].Ended?) ==>
                  forall k :: k in p.started <==> 0 <= k < |items| && items[k] != "")
            && (AllEnded(p) ==> forall k :: k in p.finished <==> 0 <= k < |items| && items[k] != "")
  {
    RunKeepsInv(items, concurrency, states, events, i);
    var p := states[i];
    TruthyBelowExact(items, p.nextIndex);
    hide TruthyBelow;
    if AllEnded(p) {
      assert items != [] ==> p.workers[0].Ended?;
      forall k
        ensures !InFlight(p, k)
      {
      }
    }
  }

  /** Ending normally without having run everything happens exactly when there are no workers and something to run. */
  lemma SilentlySkipsIff(items: seq<string>, concurrency: int)
    ensures (exists states, events, i: nat ::
               IsRun(items, concurrency, states, events) && i < |states| && LeavesOut(items, states[i]))
            <==> concurrency <= 0 && exists k :: 0 <= k < |items| && items[k] != ""
  {
    if concurrency <= 0 {
      if k :| 0 <= k < |items| && Truthy(items[k]) {
        var p := Initial(items, concurrency);
        assert IsRun(items, concurrency, [p], []) && LeavesOut(items, [p][0]);
      }
    } else {
      forall states, events, i: nat | IsRun(items, concurrency, states, events) && i < |states|
        ensures !LeavesOut(items, states[i])
      {
        EndedMeansAllRun(items, concurrency, states, events, i);
      }
    }
  }

  predicate LeavesOut(items: seq<string>, p: Pool) {
    AllEnded(p) && exists k :: 0 <= k < |items| && items[k] != "" && k !in p.finished
  }

  // ---- Every run ends ----

  function Cost(w: Worker): nat {
    match w
    case Ready => 1
    case Running(_) => 2
    case _ => 0
  }

  function TotalCost(workers: seq<Worker>): nat {
    if workers == [] then 0 else TotalCost(workers[..|workers| - 1]) + Cost(workers[|workers| - 1])
  }

  function Remaining(items: seq<string>, p: Pool): nat
    requires p.nextIndex <= |items|
  {
    3 * (|items| - p.nextIndex) + TotalCost(p.workers)
  }

  lemma {:induction false} CostUpdate(workers: seq<Worker>, w: nat, x: Worker)
    requires w < |workers|
    ensures TotalCost(workers[w := x]) + Cost(workers[w]) == TotalCost(workers) + Cost(x)
    decreases |workers|
  {
    var n := |workers| - 1;
    var updated := workers[w := x];
    if w < n {
      CostUpdate(workers[..n], w, x);
      assert updated[..n] == workers[..n][w := x];
    } else {
      assert updated[..n] == workers[..n];
    }
  }

  /** Every event brings the pool closer to its end, and a pool with an unsettled worker always has a next event. */
  lemma EveryEventUsesUp(items: seq<string>, p: Pool, e: Event)
    requires p.nextIndex <= |items| && Enabled(p, e)
    ensures Next(items, p, e).nextIndex <= |items| && Remaining(items, Next(items, p, e)) < Remaining(items, p)
  {
    CostUpdate(p.workers, e.w, Next(items, p, e).workers[e.w]);
    hide TotalCost;
  }

  lemma UnsettledCanMove(p: Pool, w: nat)
    requires w < |p.workers| && !p.workers[w].Ended? && !p.workers[w].Failed?
    ensures Enabled(p, Resume(w)) || Enabled(p, Fulfil(w))
  {
  }

  lemma {:induction false} FreshCost(workers: seq<Worker>)
    requires forall w :: 0 <= w < |workers| ==> workers[w].Ready?
    ensures TotalCost(workers) == |workers|
  {
    if workers != [] {
      FreshCost(workers[..|workers| - 1]);
    }
  }

  lemma {:induction false} RunsAreShort(items: seq<string>, concurrency: int, states: seq<Pool>, events: seq<Event>)
    requires IsRun(items, concurrency, states, events)
    ensures states[|events|].nextIndex <= |items|
    ensures |events| + Remaining(items, states[|events|]) <= 4 * |items|
    ensures concurrency >= 0 ==> |events| + Remaining(items, states[|events|]) <= 3 * |items| + concurrency
    decreases |events|
  {
    if events == [] {
      FreshCost(states[0].workers);
    } else {
      var n := |events| - 1;
      assert IsRun(items, concurrency, states[..n + 1], events[..n]);
      RunsAreShort(items, concurrency, states[..n + 1], events[..n]);
      EveryEventUsesUp(items, states[n], events[n]);
      assert states[n + 1] == Next(items, states[n], events[n]);
    }
  }

  // ---- The shared variables of one call ----

  class SharedPool {
    const items: seq<string>
    var nextIndex: nat
    var workers: seq<Worker>
    ghost var started: seq<nat>
    ghost var finished: set<nat>

    ghost predicate Valid()
      reads this
    {
      nextIndex <= |items|
    }

    ghost function Contents(): Pool
      reads this
    {
      Pool(nextIndex, workers, started, finished)
    }

    constructor (items: seq<string>, concurrency: int)
      ensures Valid() && this.items == items && Contents() == Initial(items, concurrency)
    {
      this.items := items;
      nextIndex := 0;
      workers := seq(WorkerCount(concurrency, |items|), _ => Ready);
      started := [];
      finished := {};
    }

    /** One uninterrupted stretch of worker w: the loop up to its next await, or to its end. */
    method RunToAwait(w: nat)
      requires Valid() && w < |workers| && workers[w].Ready?
      modifies this
      ensures Valid() && Contents() == Advance(items, old(Contents()), w)
    {
      while nextIndex < |items|
        invariant old(nextIndex) <= nextIndex <= |items|
        invariant NextTruthy(items, nextIndex) == NextTruthy(items, old(nextIndex))
        invariant workers == old(workers) && started == old(started) && finished == old(finished)
        decreases |items| - nextIndex
      {
        var item := items[nextIndex];
        nextIndex := nextIndex + 1;
        if Truthy(item) {
          workers := workers[w := Running(nextIndex - 1)];
          started := started + [nextIndex - 1];
          return;
        }
      }
      workers := workers[w := Ended];
    }
  }
}
