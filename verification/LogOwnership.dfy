/** When a log keeps its own content: logs are told apart by job, timestamp and sequence number only. */
module LogOwnership {
  import opened Common
  import opened StreamGroup
  import opened LogBuffer
  import opened LogPipeline
  import opened LogIdentity
  import Ordering

  ghost predicate Reachable(s: State) {
    exists states, steps :: IsRun(states, steps) && states[|steps|] == s
  }

  ghost predicate OnlyPublished(s: State, published: set<LogEvent>) {
    forall e :: Known(s, e) ==> e in published
  }

  /** What is logged for the event, if anything, is its own content. */
  ghost predicate KeepsContent(s: State, e: LogEvent) {
    Logged(s, IdentityOf(e)) ==> s.logs[LogKey(s.runs[e.job], e.ts, e.logSeq)] == ContentOf(e)
  }

  ghost predicate AlwaysKeepsContent(published: set<LogEvent>) {
    forall s, e :: Reachable(s) && OnlyPublished(s, published) && Known(s, e) ==> KeepsContent(s, e)
  }

  /** No two different events look the same to the unique indexes. */
  predicate Unambiguous(published: set<LogEvent>) {
    forall x, y :: x in published && y in published && IdentityOf(x) == IdentityOf(y) ==> x == y
  }

  lemma StartReachable()
    ensures Reachable(Start())
  {
    assert IsRun([Start()], []) && [Start()][0] == Start();
  }

  lemma OneMoreStep(s: State, step: Step)
    requires Reachable(s) && Enabled(s, step)
    ensures Reachable(Apply(s, step))
  {
    var states, steps :| IsRun(states, steps) && states[|steps|] == s;
    var t := Apply(s, step);
    var states2, steps2 := states + [t], steps + [step];
    hide Enabled, Apply;
    forall i | 0 <= i < |steps2|
      ensures Enabled(states2[i], steps2[i]) && states2[i + 1] == Apply(states2[i], steps2[i])
    {
      if i < |steps| {
        assert states2[i] == states[i] && states2[i + 1] == states[i + 1] && steps2[i] == steps[i];
      }
    }
    assert states2[|steps2|] == t;
  }

  lemma UnambiguousKeeps(published: set<LogEvent>)
    requires Unambiguous(published)
    ensures AlwaysKeepsContent(published)
  {
    forall s, e | Reachable(s) && OnlyPublished(s, published) && Known(s, e)
      ensures KeepsContent(s, e)
    {
      var states, steps :| IsRun(states, steps) && states[|steps|] == s;
      hide IsRun, Known;
      if Logged(s, IdentityOf(e)) {
        LoggedContentIsOwn(states, steps, |steps|, e);
      }
    }
  }

  lemma LoneRow(r: ResolvedLog)
    ensures SortLogs([r]) == [r]
    ensures InsertLogs(map[], [r]) == map[KeyOf(r) := ContentOf(r.event)]
  {
    assert [r][1..] == [];
    assert Ordering.Sort([r], LogBefore) == Ordering.Insert(r, Ordering.Sort([], LogBefore), LogBefore);
  }

  /** x and y are published, x's run is created, and one consumer takes x through to job_logs. */
  lemma FirstOneLogged(x: LogEvent, y: LogEvent) returns (s: State)
    ensures Reachable(s) && x.job in s.runs
    ensures s.group.added == map[0 := LogMessage(x), 1 := LogMessage(y)]
    ensures s.logs == map[LogKey(s.runs[x.job], x.ts, x.logSeq) := ContentOf(x)]
  {
    hide Reachable;
    StartReachable();
    var s0 := Start();
    OneMoreStep(s0, Publish(0, LogMessage(x)));
    var s1 := Apply(s0, Publish(0, LogMessage(x)));
    OneMoreStep(s1, Publish(1, LogMessage(y)));
    var s2 := Apply(s1, Publish(1, LogMessage(y)));
    OneMoreStep(s2, CreateRun(x.job, "run"));
    var s3 := Apply(s2, CreateRun(x.job, "run"));
    s := Deliver(s3, x);
  }

  lemma Deliver(s3: State, x: LogEvent) returns (s: State)
    requires Reachable(s3) && s3.consumers == map[] && s3.logs == map[]
    requires 0 in s3.group.added && s3.group.added[0] == LogMessage(x) && 0 in s3.group.undelivered && x.job in s3.runs
    ensures Reachable(s) && s.runs == s3.runs && s.group.added == s3.group.added
    ensures s.logs == map[LogKey(s.runs[x.job], x.ts, x.logSeq) := ContentOf(x)]
  {
    hide Reachable;
    var s6 := Receive(s3, x);
    assert AllValid(s6.group.added, [0]);
    OneMoreStep(s6, ResolveStep(0));
    var s7 := Apply(s6, ResolveStep(0));
    OneResolved(s6.runs, x);
    var todo := [ResolvedLog(x, s6.runs[x.job])];
    LoneRow(todo[0]);
    assert Events(s6.group.added, [0]) == [x];
    assert At(s7, 0) == Inserting([0], todo, []);
    hide Resolved, Unresolved, SortLogs, InsertLogs;
    OneMoreStep(s7, InsertChunk(0));
    assert todo[..FirstChunk(todo)] == todo;
    s := Apply(s7, InsertChunk(0));
  }

  lemma Receive(s3: State, x: LogEvent) returns (s6: State)
    requires Reachable(s3) && s3.consumers == map[]
    requires 0 in s3.group.added && s3.group.added[0] == LogMessage(x) && 0 in s3.group.undelivered
    ensures Reachable(s6) && At(s6, 0) == Parsed([0])
    ensures s6.runs == s3.runs && s6.logs == s3.logs && s6.group.added == s3.group.added
  {
    hide Reachable;
    assert SetOf([0]) == {0};
    OneMoreStep(s3, ReadNewStep(0, [0]));
    var s4 := Apply(s3, ReadNewStep(0, [0]));
    OneMoreStep(s4, AckInvalid(0));
    var s5 := Apply(s4, AckInvalid(0));
    OneMoreStep(s5, DeleteInvalid(0));
    OneValid(s3.group.added, x);
    s6 := Apply(s5, DeleteInvalid(0));
  }

  lemma OneValid(added: map<nat, Message>, x: LogEvent)
    requires 0 in added && added[0] == LogMessage(x)
    ensures ValidOnly(added, [0]) == [0]
  {
    ValidInAppend(added, [], 0, Valid);
    assert [] + [0] == [0];
  }

  lemma OneResolved(runs: Runs, x: LogEvent)
    requires x.job in runs
    ensures Resolved(runs, [x]) == [ResolvedLog(x, runs[x.job])] && Unresolved(runs, [x]) == []
  {
    assert [x][1..] == [];
  }

  /** In every run over given events each keeps its own content exactly when no two of them share an identity. */
  lemma KeepsContentIff(published: set<LogEvent>)
    ensures AlwaysKeepsContent(published) <==> Unambiguous(published)
  {
    if Unambiguous(published) {
      UnambiguousKeeps(published);
    } else {
      var x, y :| x in published && y in published && IdentityOf(x) == IdentityOf(y) && x != y;
      var s := FirstOneLogged(x, y);
      hide Reachable;
      assert s.group.added[1] == LogMessage(y);
      assert Known(s, y) && OnlyPublished(s, published);
      assert !KeepsContent(s, y);
    }
  }

  // ---- Worker processes ----

  datatype Process = Process(clock: Clock, readings: seq<int>, emitted: seq<LogEvent>)

  /** The process stamps its logs one after another with a clock that never returns. */
  ghost predicate StampsInOrder(p: Process) {
    && (p.readings != [] ==> p.readings[0] != p.clock.lastTs)
    && NeverReturns(p.readings) && Emitted(p.clock, p.readings, p.emitted)
  }

  ghost predicate PublishedBy(published: set<LogEvent>, ps: seq<Process>) {
    forall e :: e in published <==> exists a :: 0 <= a < |ps| && e in ps[a].emitted
  }

  /** No two processes stamp different logs of one job alike. */
  ghost predicate NoSharedStamp(ps: seq<Process>) {
    forall a, b, x, y :: 0 <= a < b < |ps| && x in ps[a].emitted && y in ps[b].emitted && IdentityOf(x) == IdentityOf(y)
      ==> x == y
  }

  lemma OneProcessUnambiguous(p: Process, x: LogEvent, y: LogEvent)
    requires StampsInOrder(p) && x in p.emitted && y in p.emitted && IdentityOf(x) == IdentityOf(y)
    ensures x == y
  {
    DistinctIff(p.clock, p.readings);
    hide NeverReturns, Stamps;
    var i :| 0 <= i < |p.emitted| && p.emitted[i] == x;
    var j :| 0 <= j < |p.emitted| && p.emitted[j] == y;
  }

  /** With clocks that never return, every log of every process keeps its own content in every run exactly when no two
      processes stamp different logs of one job alike. */
  lemma ProcessesKeepContentIff(published: set<LogEvent>, ps: seq<Process>)
    requires PublishedBy(published, ps) && forall a :: 0 <= a < |ps| ==> StampsInOrder(ps[a])
    ensures AlwaysKeepsContent(published) <==> NoSharedStamp(ps)
  {
    KeepsContentIff(published);
    hide AlwaysKeepsContent, StampsInOrder;
    if NoSharedStamp(ps) {
      forall x, y | x in published && y in published && IdentityOf(x) == IdentityOf(y)
        ensures x == y
      {
        var a :| 0 <= a < |ps| && x in ps[a].emitted;
        var b :| 0 <= b < |ps| && y in ps[b].emitted;
        if a == b {
          OneProcessUnambiguous(ps[a], x, y);
        }
      }
    }
    if Unambiguous(published) {
      forall a, b, x, y | 0 <= a < b < |ps| && x in ps[a].emitted && y in ps[b].emitted &&
          IdentityOf(x) == IdentityOf(y)
        ensures x == y
      {
        assert x in published && y in published;
      }
    }
  }

  /** Two workers whose first logs of one job fall into one millisecond both stamp (t, 0): one of the logs is lost. */
  lemma TwoWorkersCollide(job: JobKey, t: int, first: string, second: string)
    requires t != 0 && first != second
    ensures var x, y := LogEvent(job, t, 0, Info, first), LogEvent(job, t, 0, Info, second);
            && StampsInOrder(Process(Clock(0, 0), [t], [x])) && StampsInOrder(Process(Clock(0, 0), [t], [y]))
            && !AlwaysKeepsContent({x, y})
  {
    var x, y := LogEvent(job, t, 0, Info, first), LogEvent(job, t, 0, Info, second);
    assert [t][1..] == [];
    assert Stamps(Clock(0, 0), [t]) == [Stamp(t, 0)];
    KeepsContentIff({x, y});
    hide AlwaysKeepsContent;
    assert IdentityOf(x) == IdentityOf(y);
  }
}
