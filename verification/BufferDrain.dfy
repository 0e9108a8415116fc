/** Whether repeated resolver passes empty the buffer of everything that can be resolved. */
module BufferDrain {
  import opened FiniteSets
  import opened LogBuffer
  import Ordering

  function Resolvable(runs: Runs, buffer: Buffer): set<Identity> {
    set k | k in buffer && k.job in runs
  }

  function Orphans(runs: Runs, buffer: Buffer): set<Identity> {
    set k | k in buffer && k.job !in runs
  }

  /** The primary key of job_log_buffer. */
  ghost predicate DistinctRowIds(buffer: Buffer) {
    forall a, b :: a in buffer && b in buffer && buffer[a].id == buffer[b].id ==> a == b
  }

  ghost predicate Distinct(batch: seq<Identity>) {
    forall i, j :: 0 <= i < j < |batch| ==> batch[i] != batch[j]
  }

  /** A possible answer to ORDER BY created_at LIMIT n: rows with equal times may come in any order. */
  ghost predicate IsOldest(buffer: Buffer, batch: seq<Identity>, n: nat) {
    && Distinct(batch)
    && (forall k :: k in batch ==> k in buffer)
    && |batch| == (if |buffer| < n then |buffer| else n)
    && (forall k, o :: k in batch && o in buffer && o !in batch ==> buffer[k].createdAt <= buffer[o].createdAt)
  }

  function KeyFor(runs: Runs, k: Identity): LogKey
    requires k.job in runs
  {
    LogKey(runs[k.job], k.ts, k.logSeq)
  }

  /** The rows of the batch that a pass resolves, each with its own run's id. */
  lemma PassRows(runs: Runs, buffer: Buffer, batch: seq<Identity>)
    requires forall k :: k in batch ==> k in buffer
    ensures forall k :: k in batch && k.job in runs ==>
              ResolvedLog(EventOf(k, buffer[k].content), runs[k.job]) in Resolved(runs, ReadRows(buffer, batch))
    ensures forall r :: r in Resolved(runs, ReadRows(buffer, batch)) ==>
              IdentityOf(r.event) in batch && r.event.job in runs && KeyOf(r) == KeyFor(runs, IdentityOf(r.event))
  {
    var events := ReadRows(buffer, batch);
    ResolvedExact(runs, events);
    forall k | k in batch ensures EventOf(k, buffer[k].content) in events {
      var i :| 0 <= i < |batch| && batch[i] == k;
      assert events[i] == EventOf(k, buffer[k].content);
    }
    forall e | e in events ensures IdentityOf(e) in batch {
      var i :| 0 <= i < |events| && events[i] == e;
      assert IdentityOf(e) == batch[i];
    }
  }

  lemma PassLogs(runs: Runs, logs: Logs, buffer: Buffer, batch: seq<Identity>)
    requires forall k :: k in batch ==> k in buffer
    ensures var logs' := ResolverPass(runs, logs, buffer, batch).0;
            && (forall k :: k in batch && k.job in runs ==> KeyFor(runs, k) in logs')
            && (forall key :: key in logs ==> key in logs' && logs'[key] == logs[key])
            && (forall key :: key in logs' && key !in logs ==>
                exists k :: k in batch && k.job in runs && KeyFor(runs, k) == key)
  {
    hide SortLogs, Resolved, ReadRows;
    var resolved := Resolved(runs, ReadRows(buffer, batch));
    var sorted := SortLogs(resolved);
    PassRows(runs, buffer, batch);
    SortLogsMembers(resolved);
    InsertLogsExact(logs, sorted);
    forall k | k in batch && k.job in runs ensures Offers(sorted, KeyFor(runs, k)) {
      assert ResolvedLog(EventOf(k, buffer[k].content), runs[k.job]) in sorted;
    }
    forall key | key in InsertLogs(logs, sorted) && key !in logs
      ensures exists k :: k in batch && k.job in runs && KeyFor(runs, k) == key
    {
      var r :| r in sorted && KeyOf(r) == key;
      assert KeyFor(runs, IdentityOf(r.event)) == key;
    }
  }

  /** A pass deletes exactly the resolvable rows of its batch. */
  lemma PassBuffer(runs: Runs, logs: Logs, buffer: Buffer, batch: seq<Identity>)
    requires DistinctRowIds(buffer) && forall k :: k in batch ==> k in buffer
    ensures ResolverPass(runs, logs, buffer, batch).1
            == map k | k in buffer && !(k in batch && k.job in runs) :: buffer[k]
  {
    hide InsertLogs, SortLogs, Resolved, ReadRows;
    var resolved := Resolved(runs, ReadRows(buffer, batch));
    PassRows(runs, buffer, batch);
    forall k | k in buffer ensures buffer[k].id in RowIds(buffer, resolved) <==> k in batch && k.job in runs {
      if k in batch && k.job in runs {
        var r := ResolvedLog(EventOf(k, buffer[k].content), runs[k.job]);
        assert r in resolved && IdentityOf(r.event) == k;
      }
      if buffer[k].id in RowIds(buffer, resolved) {
        var r :| r in resolved && IdentityOf(r.event) in buffer && buffer[IdentityOf(r.event)].id == buffer[k].id;
        assert IdentityOf(r.event) == k;
      }
    }
  }

  lemma SortLogsMembers(rows: seq<ResolvedLog>)
    ensures forall r :: r in SortLogs(rows) <==> r in rows
  {
    Ordering.SortKeeps(rows, LogBefore);
  }

  lemma {:induction false} DistinctCount(batch: seq<Identity>)
    requires Distinct(batch)
    ensures |set k | k in batch| == |batch|
  {
    if batch != [] {
      var n := |batch| - 1;
      DistinctCount(batch[..n]);
      assert batch == batch[..n] + [batch[n]];
      assert (set k | k in batch) == (set k | k in batch[..n]) + {batch[n]};
      assert forall i :: 0 <= i < n ==> batch[i] != batch[n];
    }
  }

  /** Taking n elements, or all, out of good and fewer than n bad ones. */
  lemma TakingMakesProgress(good: set<Identity>, bad: set<Identity>, taken: set<Identity>, n: nat)
    requires good !! bad && taken <= good + bad && |bad| < n
    requires |taken| == if |good + bad| < n then |good + bad| else n
    ensures good - taken == {} || |good - taken| <= |good| - (n - |bad|)
  {
    if |taken| == |good + bad| {
      SubsetEqual(taken, good + bad);
    } else {
      assert taken == (taken * good) + (taken * bad);
      SubsetCount(taken * bad, bad);
      assert good == (good - taken) + (taken * good);
    }
  }

  lemma PassSets(runs: Runs, logs: Logs, buffer: Buffer, batch: seq<Identity>)
    requires DistinctRowIds(buffer) && forall k :: k in batch ==> k in buffer
    ensures var after := ResolverPass(runs, logs, buffer, batch).1;
            && DistinctRowIds(after)
            && Orphans(runs, after) == Orphans(runs, buffer)
            && Resolvable(runs, after) == Resolvable(runs, buffer) - set k | k in batch
  {
    hide ResolverPass;
    PassBuffer(runs, logs, buffer, batch);
  }

  lemma KeysSplit(runs: Runs, buffer: Buffer)
    ensures buffer.Keys == Resolvable(runs, buffer) + Orphans(runs, buffer)
    ensures Resolvable(runs, buffer) !! Orphans(runs, buffer)
  {
  }

  lemma OldestCount(buffer: Buffer, batch: seq<Identity>, n: nat)
    requires IsOldest(buffer, batch, n)
    ensures (set k | k in batch) <= buffer.Keys
    ensures |set k | k in batch| == if |buffer.Keys| < n then |buffer.Keys| else n
  {
    DistinctCount(batch);
    assert |buffer| == |buffer.Keys|;
  }

  /** With fewer orphans than the batch size, each pass resolves at least as many rows as the batch size exceeds the
      orphans by, or all that are left. Orphans stay. */
  lemma PassProgress(runs: Runs, logs: Logs, buffer: Buffer, batch: seq<Identity>, n: nat)
    requires DistinctRowIds(buffer) && IsOldest(buffer, batch, n) && |Orphans(runs, buffer)| < n
    ensures var after := ResolverPass(runs, logs, buffer, batch).1;
            && Orphans(runs, after) == Orphans(runs, buffer)
            && Resolvable(runs, after) <= Resolvable(runs, buffer)
            && (|| Resolvable(runs, after) == {}
                || |Resolvable(runs, after)| <= |Resolvable(runs, buffer)| - (n - |Orphans(runs, buffer)|))
  {
    hide ResolverPass, Resolvable, Orphans, DistinctRowIds;
    KeysSplit(runs, buffer);
    OldestCount(buffer, batch, n);
    PassSets(runs, logs, buffer, batch);
    TakingMakesProgress(Resolvable(runs, buffer), Orphans(runs, buffer), (set k | k in batch), n);
  }

  /** Exactly when a pass leaves the buffer as it was. */
  lemma PassStallsIff(runs: Runs, logs: Logs, buffer: Buffer, batch: seq<Identity>)
    requires DistinctRowIds(buffer) && forall k :: k in batch ==> k in buffer
    ensures ResolverPass(runs, logs, buffer, batch).1 == buffer <==> forall k :: k in batch ==> k.job !in runs
  {
    PassBuffer(runs, logs, buffer, batch);
    var after := ResolverPass(runs, logs, buffer, batch).1;
    if forall k :: k in batch ==> k.job !in runs {
      assert after == buffer;
    } else {
      var k :| k in batch && k.job in runs;
      assert k in buffer && k !in after;
    }
  }

  // ---- Which resolvable rows a pass reaches ----

  /** The orphans that may be read before k: older, or of the same age. */
  function NoYoungerOrphans(runs: Runs, buffer: Buffer, k: Identity): set<Identity>
    requires k in buffer
  {
    set o | o in buffer && o.job !in runs && buffer[o].createdAt <= buffer[k].createdAt
  }

  /** The orphans that are read before k in any case. */
  function OlderOrphans(runs: Runs, buffer: Buffer, k: Identity): set<Identity>
    requires k in buffer
  {
    set o | o in buffer && o.job !in runs && buffer[o].createdAt < buffer[k].createdAt
  }

  /** No resolvable row can have a whole batch of orphans read before it. */
  ghost predicate Unblocked(runs: Runs, buffer: Buffer, n: nat) {
    forall k :: k in Resolvable(runs, buffer) ==> |NoYoungerOrphans(runs, buffer, k)| < n
  }

  lemma BatchSize(buffer: Buffer, batch: seq<Identity>, n: nat, k: Identity)
    requires IsOldest(buffer, batch, n) && k in buffer && k !in batch
    ensures |set b | b in batch| == n
  {
    var taken := set b | b in batch;
    OldestCount(buffer, batch, n);
    if |taken| == |buffer.Keys| {
      SubsetEqual(taken, buffer.Keys);
    }
  }

  /** Unless a whole batch of orphans comes first, the pass reads something it can resolve. */
  lemma PassResolvesSome(runs: Runs, buffer: Buffer, batch: seq<Identity>, n: nat)
    requires IsOldest(buffer, batch, n) && Unblocked(runs, buffer, n) && Resolvable(runs, buffer) != {}
    ensures exists k :: k in batch && k.job in runs
  {
    var k :| k in Resolvable(runs, buffer);
    if k !in batch && forall b :: b in batch ==> b.job !in runs {
      BatchSize(buffer, batch, n, k);
      SubsetCount((set b | b in batch), NoYoungerOrphans(runs, buffer, k));
    }
  }

  lemma PassKeepsUnblocked(runs: Runs, logs: Logs, buffer: Buffer, batch: seq<Identity>, n: nat)
    requires DistinctRowIds(buffer) && Unblocked(runs, buffer, n) && forall k :: k in batch ==> k in buffer
    ensures Unblocked(runs, ResolverPass(runs, logs, buffer, batch).1, n)
  {
    hide ResolverPass;
    PassBuffer(runs, logs, buffer, batch);
    var after := ResolverPass(runs, logs, buffer, batch).1;
    forall k | k in Resolvable(runs, after)
      ensures k in Resolvable(runs, buffer) && NoYoungerOrphans(runs, after, k) == NoYoungerOrphans(runs, buffer, k)
    {
    }
  }

  /** Each pass over an unblocked buffer resolves at least one row. */
  lemma UnblockedProgress(runs: Runs, logs: Logs, buffer: Buffer, batch: seq<Identity>, n: nat)
    requires DistinctRowIds(buffer) && IsOldest(buffer, batch, n) && Unblocked(runs, buffer, n)
    ensures var after := ResolverPass(runs, logs, buffer, batch).1;
            && Resolvable(runs, after) <= Resolvable(runs, buffer)
            && (Resolvable(runs, buffer) != {} ==> |Resolvable(runs, after)| < |Resolvable(runs, buffer)|)
  {
    PassSets(runs, logs, buffer, batch);
    if Resolvable(runs, buffer) != {} {
      PassResolvesSome(runs, buffer, batch, n);
      var k :| k in batch && k.job in runs;
      hide ResolverPass, IsOldest, Unblocked;
      var after := ResolverPass(runs, logs, buffer, batch).1;
      assert k in Resolvable(runs, buffer) && k !in Resolvable(runs, after);
      SubsetCount(Resolvable(runs, after), Resolvable(runs, buffer) - {k});
    }
  }

  // ---- Draining ----

  /** Consecutive resolver passes with nothing else touching the buffer. */
  ghost predicate Passes(runs: Runs, logs: seq<Logs>, buffers: seq<Buffer>, batches: seq<seq<Identity>>, n: nat) {
    && |logs| == |buffers| == |batches| + 1
    && forall i :: 0 <= i < |batches| ==> IsPass(runs, logs[i], buffers[i], batches[i], n, logs[i + 1], buffers[i + 1])
  }

  ghost predicate IsPass(
    runs: Runs, logs: Logs, buffer: Buffer, batch: seq<Identity>, n: nat, logsAfter: Logs, bufferAfter: Buffer)
  {
    IsOldest(buffer, batch, n) && (logsAfter, bufferAfter) == ResolverPass(runs, logs, buffer, batch)
  }

  /** What any sequence of passes keeps: orphans, and every row in the buffer or in job_logs. */
  lemma {:induction false} PassesKeep(
    runs: Runs, logs: seq<Logs>, buffers: seq<Buffer>, batches: seq<seq<Identity>>, n: nat, i: nat)
    requires Passes(runs, logs, buffers, batches, n) && i <= |batches| && DistinctRowIds(buffers[0])
    ensures DistinctRowIds(buffers[i]) && Orphans(runs, buffers[i]) == Orphans(runs, buffers[0])
    ensures forall k :: k in buffers[i] ==> k in buffers[0] && buffers[i][k] == buffers[0][k]
    ensures forall k :: k in Resolvable(runs, buffers[0]) ==> k in buffers[i] || KeyFor(runs, k) in logs[i]
    ensures forall key :: key in logs[0] ==> key in logs[i] && logs[i][key] == logs[0][key]
  {
    if i > 0 {
      PassesKeep(runs, logs, buffers, batches, n, i - 1);
      assert IsPass(runs, logs[i - 1], buffers[i - 1], batches[i - 1], n, logs[i - 1 + 1], buffers[i - 1 + 1]);
      PassSets(runs, logs[i - 1], buffers[i - 1], batches[i - 1]);
      PassLogs(runs, logs[i - 1], buffers[i - 1], batches[i - 1]);
      PassBuffer(runs, logs[i - 1], buffers[i - 1], batches[i - 1]);
    }
  }

  lemma {:induction false} UnblockedPasses(
    runs: Runs, logs: seq<Logs>, buffers: seq<Buffer>, batches: seq<seq<Identity>>, n: nat, i: nat)
    requires Passes(runs, logs, buffers, batches, n) && i <= |batches|
    requires DistinctRowIds(buffers[0]) && Unblocked(runs, buffers[0], n)
    ensures Unblocked(runs, buffers[i], n)
    ensures Resolvable(runs, buffers[i]) == {} || |Resolvable(runs, buffers[i])| + i <= |Resolvable(runs, buffers[0])|
  {
    if i > 0 {
      UnblockedPasses(runs, logs, buffers, batches, n, i - 1);
      PassesKeep(runs, logs, buffers, batches, n, i - 1);
      assert IsPass(runs, logs[i - 1], buffers[i - 1], batches[i - 1], n, logs[i - 1 + 1], buffers[i - 1 + 1]);
      hide Passes, ResolverPass, Unblocked, Resolvable, Orphans;
      UnblockedProgress(runs, logs[i - 1], buffers[i - 1], batches[i - 1], n);
      PassKeepsUnblocked(runs, logs[i - 1], buffers[i - 1], batches[i - 1], n);
    }
  }

  /** Distinct identities have distinct keys in job_logs, as run ids are unique. */
  lemma KeysForDistinct(runs: Runs, a: Identity, b: Identity)
    requires forall x, y :: x in runs && y in runs && runs[x] == runs[y] ==> x == y
    requires a.job in runs && b.job in runs
    ensures KeyFor(runs, a) == KeyFor(runs, b) <==> a == b
  {
  }

  /** An unblocked buffer drains: after as many passes as there were resolvable rows none is left, the orphans are all
      still there, and every one of those rows is in job_logs under its run. Run ids being unique, each has a key of
      its own. */
  lemma BufferDrains(runs: Runs, logs: seq<Logs>, buffers: seq<Buffer>, batches: seq<seq<Identity>>, n: nat)
    requires Passes(runs, logs, buffers, batches, n)
    requires DistinctRowIds(buffers[0]) && Unblocked(runs, buffers[0], n)
    requires |batches| >= |Resolvable(runs, buffers[0])|
    ensures buffers[|batches|].Keys == Orphans(runs, buffers[0])
    ensures forall k :: k in Resolvable(runs, buffers[0]) ==> KeyFor(runs, k) in logs[|batches|]
    ensures (forall x, y :: x in runs && y in runs && runs[x] == runs[y] ==> x == y) ==>
              forall a, b :: a in Resolvable(runs, buffers[0]) && b in Resolvable(runs, buffers[0]) && a != b ==>
                KeyFor(runs, a) != KeyFor(runs, b)
  {
    hide IsPass, ResolverPass, Unblocked;
    var last := |batches|;
    PassesKeep(runs, logs, buffers, batches, n, last);
    UnblockedPasses(runs, logs, buffers, batches, n, last);
    KeysSplit(runs, buffers[last]);
    assert Resolvable(runs, buffers[last]) == {};
    if forall x, y :: x in runs && y in runs && runs[x] == runs[y] ==> x == y {
      forall a, b | a in Resolvable(runs, buffers[0]) && b in Resolvable(runs, buffers[0]) && a != b
        ensures KeyFor(runs, a) != KeyFor(runs, b)
      {
        KeysForDistinct(runs, a, b);
      }
    }
  }

  /** Fewer orphans than the batch size are enough, whatever their age. */
  lemma FewOrphansUnblock(runs: Runs, buffer: Buffer, n: nat)
    requires |Orphans(runs, buffer)| < n
    ensures Unblocked(runs, buffer, n)
  {
    forall k | k in Resolvable(runs, buffer)
      ensures |NoYoungerOrphans(runs, buffer, k)| < n
    {
      SubsetCount(NoYoungerOrphans(runs, buffer, k), Orphans(runs, buffer));
    }
  }

  // ---- Batches that break ties one way ----

  /** Age first; among rows of one age, orphans before or after the others. */
  function Rank(runs: Runs, buffer: Buffer, k: Identity, orphansFirst: bool): int
    requires k in buffer
  {
    2 * buffer[k].createdAt + if (k.job in runs) == orphansFirst then 1 else 0
  }

  ghost predicate Ranked(runs: Runs, buffer: Buffer, batch: seq<Identity>, orphansFirst: bool) {
    && (forall k :: k in batch ==> k in buffer)
    && forall k, o :: k in batch && o in buffer && o !in batch ==>
         Rank(runs, buffer, k, orphansFirst) <= Rank(runs, buffer, o, orphansFirst)
  }

  lemma {:induction false} LowestRank(s: set<Identity>, runs: Runs, buffer: Buffer, orphansFirst: bool)
    returns (x: Identity)
    requires s != {} && s <= buffer.Keys
    ensures x in s && forall y :: y in s ==> Rank(runs, buffer, x, orphansFirst) <= Rank(runs, buffer, y, orphansFirst)
    decreases |s|
  {
    x :| x in s;
    if s != {x} {
      assert s - {x} != {};
      var y := LowestRank(s - {x}, runs, buffer, orphansFirst);
      if Rank(runs, buffer, y, orphansFirst) < Rank(runs, buffer, x, orphansFirst) {
        x := y;
      }
    }
  }

  lemma {:induction false} RankedPrefix(runs: Runs, buffer: Buffer, orphansFirst: bool, m: nat)
    returns (batch: seq<Identity>)
    requires m <= |buffer|
    ensures |batch| == m && Distinct(batch) && Ranked(runs, buffer, batch, orphansFirst)
  {
    if m == 0 {
      batch := [];
    } else {
      var init := RankedPrefix(runs, buffer, orphansFirst, m - 1);
      var taken := set k | k in init;
      DistinctCount(init);
      assert |buffer.Keys| == |buffer|;
      assert taken <= buffer.Keys && taken != buffer.Keys;
      var left :| left in buffer.Keys && left !in taken;
      assert left in buffer.Keys - taken;
      var x := LowestRank(buffer.Keys - taken, runs, buffer, orphansFirst);
      batch := init + [x];
    }
  }

  /** The database may always answer with a batch that breaks ties the one way or the other. */
  lemma RankedBatch(runs: Runs, buffer: Buffer, orphansFirst: bool, n: nat) returns (batch: seq<Identity>)
    ensures IsOldest(buffer, batch, n) && Ranked(runs, buffer, batch, orphansFirst)
  {
    batch := RankedPrefix(runs, buffer, orphansFirst, if |buffer| < n then |buffer| else n);
    forall k, o | k in batch && o in buffer && o !in batch
      ensures buffer[k].createdAt <= buffer[o].createdAt
    {
      assert Rank(runs, buffer, k, orphansFirst) <= Rank(runs, buffer, o, orphansFirst);
    }
  }

  lemma BatchTooSmall(batch: seq<Identity>, before: set<Identity>, k: Identity, n: nat)
    requires Distinct(batch) && |batch| <= n <= |before| && k !in before
    requires k in batch ==> forall o :: o in before ==> o in batch
    ensures k !in batch
  {
    DistinctCount(batch);
    if k in batch {
      SubsetCount(before + {k}, (set b | b in batch));
    }
  }

  /** With a whole batch of orphans no younger, a batch that puts orphans first leaves the row out. */
  lemma OrphansFirstLeavesOut(runs: Runs, buffer: Buffer, batch: seq<Identity>, n: nat, k: Identity)
    requires IsOldest(buffer, batch, n) && Ranked(runs, buffer, batch, true)
    requires k in Resolvable(runs, buffer) && |NoYoungerOrphans(runs, buffer, k)| >= n
    ensures k !in batch
  {
    var before := NoYoungerOrphans(runs, buffer, k);
    forall o | k in batch && o in before
      ensures o in batch
    {
      assert Rank(runs, buffer, o, true) < Rank(runs, buffer, k, true);
    }
    BatchTooSmall(batch, before, k, n);
  }

  /** With a whole batch of orphans strictly older, every batch leaves the row out. */
  lemma OlderOrphansLeaveOut(runs: Runs, buffer: Buffer, batch: seq<Identity>, n: nat, k: Identity)
    requires IsOldest(buffer, batch, n) && k in Resolvable(runs, buffer) && |OlderOrphans(runs, buffer, k)| >= n
    ensures k !in batch
  {
    BatchTooSmall(batch, OlderOrphans(runs, buffer, k), k, n);
  }

  // ---- Exactly when the buffer drains ----

  ghost predicate StartsAt(logs: seq<Logs>, buffers: seq<Buffer>, logs0: Logs, buffer0: Buffer) {
    logs != [] && buffers != [] && logs[0] == logs0 && buffers[0] == buffer0
  }

  /** However the database breaks ties, enough passes resolve everything resolvable. */
  ghost predicate AlwaysDrains(runs: Runs, logs: Logs, buffer: Buffer, n: nat) {
    forall ls, bs, batches ::
      Passes(runs, ls, bs, batches, n) && StartsAt(ls, bs, logs, buffer) && |batches| >= |Resolvable(runs, buffer)| ==>
        Resolvable(runs, bs[|batches|]) == {}
  }

  /** Some sequence of passes resolves everything resolvable. */
  ghost predicate CanDrain(runs: Runs, logs: Logs, buffer: Buffer, n: nat) {
    exists ls, bs, batches ::
      Passes(runs, ls, bs, batches, n) && StartsAt(ls, bs, logs, buffer) && Resolvable(runs, bs[|batches|]) == {}
  }

  lemma PassBefore(
    runs: Runs, logs: Logs, buffer: Buffer, batch: seq<Identity>, n: nat,
    ls: seq<Logs>, bs: seq<Buffer>, batches: seq<seq<Identity>>)
    requires IsOldest(buffer, batch, n) && Passes(runs, ls, bs, batches, n)
    requires StartsAt(ls, bs, ResolverPass(runs, logs, buffer, batch).0, ResolverPass(runs, logs, buffer, batch).1)
    ensures Passes(runs, [logs] + ls, [buffer] + bs, [batch] + batches, n)
  {
    var ls2, bs2, batches2 := [logs] + ls, [buffer] + bs, [batch] + batches;
    assert IsPass(runs, logs, buffer, batch, n, ls[0], bs[0]);
    hide IsPass, ResolverPass, IsOldest;
    forall i | 0 <= i < |batches2|
      ensures IsPass(runs, ls2[i], bs2[i], batches2[i], n, ls2[i + 1], bs2[i + 1])
    {
      if i > 0 {
        assert IsPass(runs, ls[i - 1], bs[i - 1], batches[i - 1], n, ls[i - 1 + 1], bs[i - 1 + 1]);
      }
    }
  }

  lemma LeftOutStays(runs: Runs, logs: Logs, buffer: Buffer, batch: seq<Identity>, k: Identity)
    requires DistinctRowIds(buffer) && (forall b :: b in batch ==> b in buffer)
    requires k in Resolvable(runs, buffer) && k !in batch
    ensures var after := ResolverPass(runs, logs, buffer, batch).1;
            && k in Resolvable(runs, after) && DistinctRowIds(after)
            && NoYoungerOrphans(runs, after, k) == NoYoungerOrphans(runs, buffer, k)
            && OlderOrphans(runs, after, k) == OlderOrphans(runs, buffer, k)
  {
    PassSets(runs, logs, buffer, batch);
    PassBuffer(runs, logs, buffer, batch);
  }

  /** A row with a whole batch of orphans no younger can wait through any number of passes. */
  lemma {:induction false} BlockedPasses(runs: Runs, logs: Logs, buffer: Buffer, n: nat, k: Identity, m: nat)
    returns (ls: seq<Logs>, bs: seq<Buffer>, batches: seq<seq<Identity>>)
    requires DistinctRowIds(buffer) && k in Resolvable(runs, buffer) && |NoYoungerOrphans(runs, buffer, k)| >= n
    ensures Passes(runs, ls, bs, batches, n) && StartsAt(ls, bs, logs, buffer) && |batches| == m
    ensures k in Resolvable(runs, bs[m])
    decreases m
  {
    hide ResolverPass;
    if m == 0 {
      ls, bs, batches := [logs], [buffer], [];
    } else {
      var batch := RankedBatch(runs, buffer, true, n);
      OrphansFirstLeavesOut(runs, buffer, batch, n, k);
      LeftOutStays(runs, logs, buffer, batch, k);
      hide Resolvable, NoYoungerOrphans;
      var next := ResolverPass(runs, logs, buffer, batch);
      var ls1, bs1, batches1 := BlockedPasses(runs, next.0, next.1, n, k, m - 1);
      PassBefore(runs, logs, buffer, batch, n, ls1, bs1, batches1);
      ls, bs, batches := [logs] + ls1, [buffer] + bs1, [batch] + batches1;
    }
  }

  /** The buffer drains however ties are broken exactly when every resolvable row has fewer orphans no younger than the
      batch size. */
  lemma AlwaysDrainsIff(runs: Runs, logs: Logs, buffer: Buffer, n: nat)
    requires DistinctRowIds(buffer)
    ensures AlwaysDrains(runs, logs, buffer, n) <==> Unblocked(runs, buffer, n)
  {
    if Unblocked(runs, buffer, n) {
      forall ls, bs, batches |
        Passes(runs, ls, bs, batches, n) && StartsAt(ls, bs, logs, buffer) && |batches| >= |Resolvable(runs, buffer)|
        ensures Resolvable(runs, bs[|batches|]) == {}
      {
        UnblockedPasses(runs, ls, bs, batches, n, |batches|);
      }
    } else {
      var k :| k in Resolvable(runs, buffer) && |NoYoungerOrphans(runs, buffer, k)| >= n;
      var ls, bs, batches := BlockedPasses(runs, logs, buffer, n, k, |Resolvable(runs, buffer)|);
      hide Passes;
      assert Resolvable(runs, bs[|batches|]) != {};
    }
  }

  /** A row with a whole batch of strictly older orphans waits through every sequence of passes. */
  lemma {:induction false} NeverRead(
    runs: Runs, logs: seq<Logs>, buffers: seq<Buffer>, batches: seq<seq<Identity>>, n: nat, k: Identity, i: nat)
    requires Passes(runs, logs, buffers, batches, n) && i <= |batches| && DistinctRowIds(buffers[0])
    requires k in Resolvable(runs, buffers[0]) && |OlderOrphans(runs, buffers[0], k)| >= n
    ensures DistinctRowIds(buffers[i]) && k in Resolvable(runs, buffers[i])
    ensures OlderOrphans(runs, buffers[i], k) == OlderOrphans(runs, buffers[0], k)
  {
    if i > 0 {
      NeverRead(runs, logs, buffers, batches, n, k, i - 1);
      assert IsPass(runs, logs[i - 1], buffers[i - 1], batches[i - 1], n, logs[i - 1 + 1], buffers[i - 1 + 1]);
      OlderOrphansLeaveOut(runs, buffers[i - 1], batches[i - 1], n, k);
      LeftOutStays(runs, logs[i - 1], buffers[i - 1], batches[i - 1], k);
    }
  }

  /** Orphans last: such a batch holds something resolvable unless a whole batch of orphans is strictly older. */
  lemma OrphansLastResolvesSome(runs: Runs, buffer: Buffer, batch: seq<Identity>, n: nat, k: Identity)
    requires IsOldest(buffer, batch, n) && Ranked(runs, buffer, batch, false)
    requires k in Resolvable(runs, buffer) && |OlderOrphans(runs, buffer, k)| < n
    ensures exists b :: b in batch && b.job in runs
  {
    if k !in batch && forall b :: b in batch ==> b.job !in runs {
      BatchSize(buffer, batch, n, k);
      forall b | b in batch
        ensures b in OlderOrphans(runs, buffer, k)
      {
        assert Rank(runs, buffer, b, false) <= Rank(runs, buffer, k, false);
      }
      SubsetCount((set b | b in batch), OlderOrphans(runs, buffer, k));
    }
  }

  /** No resolvable row has a whole batch of strictly older orphans. */
  ghost predicate NotShadowed(runs: Runs, buffer: Buffer, n: nat) {
    forall k :: k in Resolvable(runs, buffer) ==> |OlderOrphans(runs, buffer, k)| < n
  }

  lemma OrphansLastProgress(runs: Runs, logs: Logs, buffer: Buffer, batch: seq<Identity>, n: nat)
    requires DistinctRowIds(buffer) && IsOldest(buffer, batch, n) && Ranked(runs, buffer, batch, false)
    requires NotShadowed(runs, buffer, n) && Resolvable(runs, buffer) != {}
    ensures var after := ResolverPass(runs, logs, buffer, batch).1;
            && DistinctRowIds(after) && NotShadowed(runs, after, n)
            && |Resolvable(runs, after)| < |Resolvable(runs, buffer)|
  {
    var k :| k in Resolvable(runs, buffer);
    OrphansLastResolvesSome(runs, buffer, batch, n, k);
    PassSets(runs, logs, buffer, batch);
    hide ResolverPass, OlderOrphans, Ranked;
    var after := ResolverPass(runs, logs, buffer, batch).1;
    forall r | r in Resolvable(runs, after)
      ensures |OlderOrphans(runs, after, r)| < n
    {
      LeftOutStays(runs, logs, buffer, batch, r);
    }
    var b :| b in batch && b.job in runs;
    SubsetCount(Resolvable(runs, after), Resolvable(runs, buffer) - {b});
  }

  lemma {:induction false} DrainingPasses(runs: Runs, logs: Logs, buffer: Buffer, n: nat)
    returns (ls: seq<Logs>, bs: seq<Buffer>, batches: seq<seq<Identity>>)
    requires DistinctRowIds(buffer) && NotShadowed(runs, buffer, n)
    ensures Passes(runs, ls, bs, batches, n) && StartsAt(ls, bs, logs, buffer)
    ensures Resolvable(runs, bs[|batches|]) == {}
    decreases |Resolvable(runs, buffer)|
  {
    hide ResolverPass, Resolvable, NotShadowed, IsOldest, Ranked;
    if Resolvable(runs, buffer) == {} {
      ls, bs, batches := [logs], [buffer], [];
    } else {
      var batch := RankedBatch(runs, buffer, false, n);
      assert forall k :: k in batch ==> k in buffer by {
        BatchIsStored(buffer, batch, n);
      }
      OrphansLastProgress(runs, logs, buffer, batch, n);
      var next := ResolverPass(runs, logs, buffer, batch);
      var ls1, bs1, batches1 := DrainingPasses(runs, next.0, next.1, n);
      PassBefore(runs, logs, buffer, batch, n, ls1, bs1, batches1);
      ls, bs, batches := [logs] + ls1, [buffer] + bs1, [batch] + batches1;
    }
  }

  lemma BatchIsStored(buffer: Buffer, batch: seq<Identity>, n: nat)
    requires IsOldest(buffer, batch, n)
    ensures forall k :: k in batch ==> k in buffer
  {
  }

  /** It can drain at all exactly when every resolvable row has fewer strictly older orphans than the batch size. */
  lemma CanDrainIff(runs: Runs, logs: Logs, buffer: Buffer, n: nat)
    requires DistinctRowIds(buffer)
    ensures CanDrain(runs, logs, buffer, n) <==> NotShadowed(runs, buffer, n)
  {
    hide IsPass;
    if NotShadowed(runs, buffer, n) {
      var ls, bs, batches := DrainingPasses(runs, logs, buffer, n);
    } else {
      var k :| k in Resolvable(runs, buffer) && |OlderOrphans(runs, buffer, k)| >= n;
      forall ls, bs, batches | Passes(runs, ls, bs, batches, n) && StartsAt(ls, bs, logs, buffer)
        ensures Resolvable(runs, bs[|batches|]) != {}
      {
        NeverRead(runs, ls, bs, batches, n, k, |batches|);
      }
    }
  }

  /** As many orphans as the batch size, all older than every resolvable row, leave no pass anything to do. */
  lemma OrphansBlock(runs: Runs, logs: Logs, buffer: Buffer, batch: seq<Identity>, n: nat)
    requires DistinctRowIds(buffer) && IsOldest(buffer, batch, n) && |Orphans(runs, buffer)| >= n
    requires forall o, k :: o in Orphans(runs, buffer) && k in Resolvable(runs, buffer) ==>
               buffer[o].createdAt < buffer[k].createdAt
    ensures ResolverPass(runs, logs, buffer, batch).1 == buffer
  {
    forall k | k in batch
      ensures k.job !in runs
    {
      if k.job in runs {
        assert OlderOrphans(runs, buffer, k) == Orphans(runs, buffer);
        OlderOrphansLeaveOut(runs, buffer, batch, n, k);
      }
    }
    PassStallsIff(runs, logs, buffer, batch);
  }
}
