/** Mixed runs are runs: what commands, scripts, script storage and Raft operations together do to Redis data is
    what the commands among them do one after the other. So refinement and lock exclusion hold for all of it. */
module Histories {
  import opened Octets
  import opened Store
  import opened Commands
  import opened Fsm
  import opened Refinement
  import opened DataRows
  import opened Scripts
  import opened Locks
  import opened RaftLog
  import opened Isolation
  import T = Typed

  // The commands of a mixed run.

  /** A storage request as the one call of a script. */
  function OneCall(c: Codec, rows: Rows, host: Host, env: Env, callee: Direct, argv: seq<Bytes>): seq<Scripts.Event> {
    [Scripts.Event(callee, argv, env, CallRedis(c, host, env, rows, callee, argv).result)]
  }

  /** The commands an event commits: those of a script that does not finish are taken back. */
  function CommandsIn(c: Codec, rows: Rows, e: Isolation.Event): seq<Step> {
    match e
    case Redis(step) => [step]
    case Script(host, now, p, calls) =>
      if Exec(c, host, now, rows, p, [], calls).Finished? then StepsOf(Events(c, host, now, rows, p, [], calls)) else []
    case Storage(host, env, callee, argv) => StepsOf(OneCall(c, rows, host, env, callee, argv))
    case _ => []
  }

  /** What they return, to the client or to the script that issued them. */
  function RepliesIn(c: Codec, rows: Rows, e: Isolation.Event): seq<Result> {
    match e
    case Redis(step) => [Apply(c, step.env, rows, step.cmd).result]
    case Script(host, now, p, calls) =>
      if Exec(c, host, now, rows, p, [], calls).Finished? then RepliesOf(Events(c, host, now, rows, p, [], calls))
      else []
    case Storage(host, env, callee, argv) => RepliesOf(OneCall(c, rows, host, env, callee, argv))
    case _ => []
  }

  function CommandsOf(c: Codec, lc: LogCodec, rows: Rows, events: seq<Isolation.Event>): seq<Step>
    decreases |events|
  {
    if events == [] then []
    else CommandsIn(c, rows, events[0]) + CommandsOf(c, lc, Happen(c, lc, rows, events[0]), events[1..])
  }

  function AllReplies(c: Codec, lc: LogCodec, rows: Rows, events: seq<Isolation.Event>): seq<Result>
    decreases |events|
  {
    if events == [] then []
    else RepliesIn(c, rows, events[0]) + AllReplies(c, lc, Happen(c, lc, rows, events[0]), events[1..])
  }

  lemma {:induction false} RunInTwo(c: Codec, rows: Rows, a: seq<Step>, b: seq<Step>)
    ensures Run(c, rows, a + b) == Run(c, Run(c, rows, a), b)
    ensures Results(c, rows, a + b) == Results(c, rows, a) + Results(c, Run(c, rows, a), b)
    decreases |a|
  {
    hide Apply;
    if a == [] {
      assert a + b == b;
    } else {
      assert (a + b)[1..] == a[1..] + b;
      RunInTwo(c, Apply(c, a[0].env, rows, a[0].cmd).rows, a[1..], b);
    }
  }

  lemma CommandIsRun(c: Codec, rows: Rows, other: Rows, step: Step)
    requires SameData(rows, other)
    ensures SameData(Apply(c, step.env, rows, step.cmd).rows, Run(c, other, [step]))
    ensures Results(c, other, [step]) == [Apply(c, step.env, rows, step.cmd).result]
  {
    hide Apply, SameData;
    ApplyRespects(c, step.env, rows, other, step.cmd);
    assert [step][1..] == [];
  }

  lemma CallIsRun(c: Codec, rows: Rows, other: Rows, host: Host, env: Env, callee: Direct, argv: seq<Bytes>)
    requires SameData(rows, other)
    ensures var call := OneCall(c, rows, host, env, callee, argv);
            && SameData(CallRedis(c, host, env, rows, callee, argv).rows, Run(c, other, StepsOf(call)))
            && Results(c, other, StepsOf(call)) == RepliesOf(call)
  {
    FailedCallWritesNothing(c, host, env, rows, callee, argv);
    hide CallRedis, SameData, Run, Results, StepsOf, RepliesOf;
    var call := OneCall(c, rows, host, env, callee, argv);
    assert call[1..] == [];
    assert Replays(c, host, rows, call);
    assert Commit(c, host, rows, call) == CallRedis(c, host, env, rows, callee, argv).rows;
    CommitIsRun(c, host, rows, other, call);
  }

  lemma EventIsRun(c: Codec, lc: LogCodec, rows: Rows, other: Rows, e: Isolation.Event)
    requires SameData(rows, other)
    ensures SameData(Happen(c, lc, rows, e), Run(c, other, CommandsIn(c, rows, e)))
    ensures Results(c, other, CommandsIn(c, rows, e)) == RepliesIn(c, rows, e)
  {
    if RaftEvent(e) {
      RaftChangesNoData(c, lc, rows, other, e);
    } else {
      hide Apply, Exec, Events, CallRedis, SameData, StepsOf, RepliesOf, OneCall;
      match e {
        case Redis(step) => CommandIsRun(c, rows, other, step);
        case Script(host, now, p, calls) =>
          ExecIsCommit(c, host, now, rows, p, [], calls);
          CommitIsRun(c, host, rows, other, Events(c, host, now, rows, p, [], calls));
        case Storage(host, env, callee, argv) => CallIsRun(c, rows, other, host, env, callee, argv);
        case _ =>
      }
    }
  }

  lemma RaftChangesNoData(c: Codec, lc: LogCodec, rows: Rows, other: Rows, e: Isolation.Event)
    requires RaftEvent(e) && SameData(rows, other)
    ensures SameData(Happen(c, lc, rows, e), other)
  {
    hide SameData;
    RaftKeepsRedis(c, lc, rows, other, e, false);
  }

  /** Mixed runs are runs. */
  lemma {:induction false} HistoryIsRun(c: Codec, lc: LogCodec, rows: Rows, other: Rows, events: seq<Isolation.Event>)
    requires SameData(rows, other)
    ensures SameData(History(c, lc, rows, events), Run(c, other, CommandsOf(c, lc, rows, events)))
    ensures Results(c, other, CommandsOf(c, lc, rows, events)) == AllReplies(c, lc, rows, events)
    decreases |events|
  {
    hide SameData, Happen, CommandsIn, RepliesIn, Run, Results;
    if events == [] {
      NoStepsNoRun(c, other);
    } else {
      var e, rows' := events[0], Happen(c, lc, rows, events[0]);
      EventIsRun(c, lc, rows, other, e);
      HistoryIsRun(c, lc, rows', Run(c, other, CommandsIn(c, rows, e)), events[1..]);
      RunInTwo(c, other, CommandsIn(c, rows, e), CommandsOf(c, lc, rows', events[1..]));
    }
  }

  lemma NoStepsNoRun(c: Codec, rows: Rows)
    ensures Run(c, rows, []) == rows && Results(c, rows, []) == []
  {
  }

  // The clock of a mixed run.

  /** An event's clock reading; a Raft operation takes none. */
  function TimeOf(e: Isolation.Event, start: nat): nat {
    match e
    case Redis(step) => step.env.now
    case Script(_, now, _, _) => now
    case Storage(_, env, _, _) => env.now
    case _ => start
  }

  ghost predicate OrderlyEvent(e: Isolation.Event) {
    match e
    case Redis(step) => Orderly(step.env)
    case Script(host, now, p, _) => OrderlyProgram(p, now) && OrderlyHost(host, now)
    case Storage(_, env, _, _) => Orderly(env)
    case _ => true
  }

  ghost predicate ClockedHistory(events: seq<Isolation.Event>, start: nat)
    decreases |events|
  {
    events != [] ==>
      && start <= TimeOf(events[0], start) && OrderlyEvent(events[0])
      && ClockedHistory(events[1..], TimeOf(events[0], start))
  }

  function EndTime(events: seq<Isolation.Event>, start: nat): nat
    decreases |events|
  {
    if events == [] then start else EndTime(events[1..], TimeOf(events[0], start))
  }

  lemma ClockedInTwo(a: seq<Step>, b: seq<Step>, start: nat, middle: nat)
    requires Clocked(a, start) && start <= middle && LastTime(a, start) <= middle && Clocked(b, middle)
    ensures Clocked(a + b, start) && LastTime(a + b, start) <= LastTime(b, middle)
  {
    hide Orderly;
  }

  lemma EventIsClocked(c: Codec, rows: Rows, e: Isolation.Event, start: nat)
    requires OrderlyEvent(e) && start <= TimeOf(e, start)
    ensures Clocked(CommandsIn(c, rows, e), start) && LastTime(CommandsIn(c, rows, e), start) <= TimeOf(e, start)
  {
    hide Orderly, OrderlyProgram, OrderlyHost, Exec, Events, StepsOf;
    match e {
      case Script(host, now, p, calls) =>
        EventsShareClock(c, host, now, rows, p, [], calls);
        ScriptIsClocked(Events(c, host, now, rows, p, [], calls), now);
      case Storage(host, env, callee, argv) => ScriptIsClocked(OneCall(c, rows, host, env, callee, argv), env.now);
      case _ =>
    }
  }

  lemma {:induction false} CommandsAreClocked(c: Codec, lc: LogCodec, rows: Rows, events: seq<Isolation.Event>,
                                              start: nat)
    requires ClockedHistory(events, start)
    ensures Clocked(CommandsOf(c, lc, rows, events), start)
    ensures LastTime(CommandsOf(c, lc, rows, events), start) <= EndTime(events, start)
    decreases |events|
  {
    hide Happen, CommandsIn, OrderlyEvent, TimeOf, Orderly;
    if events != [] {
      var e, rows' := events[0], Happen(c, lc, rows, events[0]);
      var middle := TimeOf(e, start);
      EventIsClocked(c, rows, e, start);
      CommandsAreClocked(c, lc, rows', events[1..], middle);
      ClockedInTwo(CommandsIn(c, rows, e), CommandsOf(c, lc, rows', events[1..]), start, middle);
    }
  }

  // What follows.

  /** Refinement over mixed runs: from states in step, every command that a mixed run commits, in a script or not,
      returns what the typed map answers, and the run ends in step with the typed run of those commands. */
  lemma HistoryRefines(c: Codec, lc: LogCodec, rows: Rows, db: T.Db, start: nat, events: seq<Isolation.Event>)
    requires Lawful(c) && ClockedHistory(events, start) && Simulates(c, rows, db, start)
    requires TypesOutlive(c, rows, CommandsOf(c, lc, rows, events))
    ensures AllReplies(c, lc, rows, events) == T.Results(db, CommandsOf(c, lc, rows, events))
    ensures Simulates(c, History(c, lc, rows, events), T.Run(db, CommandsOf(c, lc, rows, events)),
                      EndTime(events, start))
  {
    hide *;
    var steps, end := CommandsOf(c, lc, rows, events), History(c, lc, rows, events);
    SameDataReflexive(rows);
    HistoryIsRun(c, lc, rows, rows, events);
    CommandsAreClocked(c, lc, rows, events, start);
    RunRefines(c, rows, db, start, steps);
    SameDataFlips(end, Run(c, rows, steps), end);
    SameDataSimulates(c, Run(c, rows, steps), end, T.Run(db, steps), LastTime(steps, start));
    SimulatesLater(c, end, T.Run(db, steps), LastTime(steps, start), EndTime(events, start));
  }

  lemma SimulatesLater(c: Codec, rows: Rows, db: T.Db, now: nat, later: nat)
    requires Simulates(c, rows, db, now) && now <= later
    ensures Simulates(c, rows, db, later)
  {
    hide InStep;
    forall key ensures InStep(c, rows, db, later, key) { InStepLater(c, rows, db, now, later, key); }
  }

  /** Lock exclusion over mixed runs: between two OK answers to `SET k v NX` some committed command, in a script or
      not, is a DEL naming k or a FLUSHDB, or a deadline of k passed. */
  lemma HistoryExcludes(c: Codec, lc: LogCodec, rows: Rows, first: Step, between: seq<Isolation.Event>, second: Step,
                        key: Bytes)
    requires IsLock(first.cmd, key) && IsLock(second.cmd, key)
    requires ClockedHistory(between, first.env.now) && EndTime(between, first.env.now) <= second.env.now
    ensures var o := Apply(c, first.env, rows, first.cmd);
            && o.result == Success(Ok)
            && Apply(c, second.env, History(c, lc, o.rows, between), second.cmd).result == Success(Ok)
            ==> Freed(c, o.rows, CommandsOf(c, lc, o.rows, between), second.env.now, key)
  {
    hide *;
    var taken := Apply(c, first.env, rows, first.cmd).rows;
    var steps := CommandsOf(c, lc, taken, between);
    SameDataReflexive(taken);
    HistoryIsRun(c, lc, taken, taken, between);
    ApplyRespects(c, second.env, History(c, lc, taken, between), Run(c, taken, steps), second.cmd);
    CommandsAreClocked(c, lc, taken, between, first.env.now);
    LockExcludes(c, rows, first, steps, second, key);
  }
}
