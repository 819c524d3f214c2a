/** The Lua bridge: script storage, redis.call inside a script, and the atomicity of EVAL.

    A script is a strategy: from the results of the calls it has made so far it decides on its next
    move. A script can call further scripts. */
module Scripts {
  import opened Octets
  import opened Decimal
  import opened Store
  import opened Commands
  import opened Fsm
  import opened SetOptions
  import opened Readers
  import opened DataRows
  import Refinement
  import T = Typed

  const SCRIPT_PREFIX: Bytes := [83, 67, 82, 73, 80, 84, 58]

  /** "none", the bridge's answer to TYPE without a type row. */
  const NO_TYPE: Bytes := [110, 111, 110, 101]

  function ScriptKey(sha: Bytes): Bytes { SCRIPT_PREFIX + sha }

  /** What a script can call: the three reads the bridge answers itself, a command of the state machine,
      script storage, or another script, by its text or by its digest; `Nobody` is a call without a name. */
  datatype Callee =
    | Nobody | GetKey | ExistsKeys | TypeOfKey | Do(op: Op)
    | LoadScript | ScriptsExist | FlushScripts | EvalText | EvalStored

  predicate CallsScript(callee: Callee) { callee.EvalText? || callee.EvalStored? }

  /** Everything but another script: what the bridge answers without running Lua again. */
  type Direct = callee: Callee | !CallsScript(callee) witness Nobody

  /** How a call is guarded against errors: by nothing, by redis.pcall, or by a pcall of Lua's own around it. */
  datatype Guard = Unguarded | RedisPcall | LuaPcall

  datatype Move =
    | Call(guard: Guard, callee: Callee, argv: seq<Bytes>, order: set<Bytes> -> seq<Bytes>)
    | Finish(value: Reply)
    | Abort

  type Program = seq<Result> -> Move

  /** The SHA-1 digest and the Lua interpreter, which the state machine does not define. */
  datatype Host = Host(sha: Bytes -> Bytes, load: (Bytes, seq<Bytes>, seq<Bytes>) -> Program)

  function NextMove(p: Program, history: seq<Result>): Move { p(history) }
  function Digest(host: Host, script: Bytes): Bytes { host.sha(script) }
  function Load(host: Host, script: Bytes, keys: seq<Bytes>, argv: seq<Bytes>): Program {
    host.load(script, keys, argv)
  }

  /** parseCommandForLua: `argv` is what follows the command name. */
  function LuaCommand(op: Op, argv: seq<Bytes>): Parse {
    if op == Set then
      if |argv| < 2 then Rejected(WrongArity) else LuaReading(argv[2..], Bare(argv[0], argv[1]))
    else
      Accepted(Command(op, if argv == [] then [] else argv[0], if argv == [] then [] else argv[1..], 0, Always, false))
  }

  function FaultOf(why: Rejection): Fault { if why == NotAnInteger then NotInteger else BadArity }

  function ScriptFlags(rows: Rows, now: nat, shas: seq<Bytes>): seq<int> {
    seq(|shas|, i requires 0 <= i < |shas| => if Sees(rows, now, ScriptKey(shas[i])) then 1 else 0)
  }

  /** What the bridge passes on as arguments: the first word after the name goes into the key field. */
  function PassedOn(argv: seq<Bytes>): seq<Bytes> { if argv == [] then [] else argv[1..] }

  /** luaRedisCall on everything but another script, with the storage commands of handleLuaCommand. */
  function CallRedis(c: Codec, host: Host, env: Env, rows: Rows, callee: Direct, argv: seq<Bytes>): Outcome {
    var args := PassedOn(argv);
    match callee
    case Nobody => Outcome(rows, Failure(BadArity))
    case GetKey => Outcome(rows, if |argv| != 1 then Failure(BadArity) else Success(BridgeGet(rows, env.now, argv[0])))
    case ExistsKeys =>
      if |argv| < 1 then Outcome(rows, Failure(BadArity))
      else Outcome(rows, Success(Int(CountVisible(rows, env.now, argv))))
    case TypeOfKey =>
      Outcome(rows, if |argv| != 1 then Failure(BadArity) else Success(BridgeType(rows, env.now, argv[0])))
    case Do(op) =>
      (match LuaCommand(op, argv)
       case Rejected(why) => Outcome(rows, Failure(FaultOf(why)))
       case Accepted(cmd) => ApplyInTxn(c, env, rows, cmd))
    case LoadScript => StoreScript(host, rows, args)
    case ScriptsExist => Outcome(rows, Success(Ints(ScriptFlags(rows, env.now, args))))
    case FlushScripts => Outcome(Flush(rows, env.now, SCRIPT_PREFIX), Success(Ok))
  }

  /** The bridge's GET: the value row, whatever its type. */
  function BridgeGet(rows: Rows, now: nat, key: Bytes): Reply {
    match Get(rows, now, UserKey(key)) case None => Nil case Some(row) => Bulk(row.value)
  }

  /** The bridge's TYPE: the type row, whether or not there is a value row. */
  function BridgeType(rows: Rows, now: nat, key: Bytes): Reply {
    match Get(rows, now, TypeKey(key)) case None => Bulk(NO_TYPE) case Some(row) => Bulk(row.value)
  }

  function StoreScript(host: Host, rows: Rows, args: seq<Bytes>): Outcome {
    if |args| != 1 then Outcome(rows, Failure(BadArity))
    else
      var sha := Digest(host, args[0]);
      Outcome(rows[ScriptKey(sha) := Row(args[0], 0)], Success(Bulk(sha)))
  }

  /** A call of anything but a script that fails has written nothing. */
  lemma FailedCallWritesNothing(c: Codec, host: Host, env: Env, rows: Rows, callee: Direct, argv: seq<Bytes>)
    ensures var o := CallRedis(c, host, env, rows, callee, argv); o.result.Failure? ==> o.rows == rows
  {
    if callee.Do? && LuaCommand(callee.op, argv).Accepted? {
      FailureWritesNothing(c, env, rows, LuaCommand(callee.op, argv).cmd);
    }
  }

  // Requests for a script.

  datatype EvalRequest = Eval(script: Bytes, keys: seq<Bytes>, argv: seq<Bytes>) | BadEval(fault: Fault)

  /** The arguments after the script: a count of keys, the keys, the rest. */
  function SplitArgs(script: Bytes, args: seq<Bytes>): EvalRequest
    requires args != []
  {
    match ParseInt(args[0])
    case Good(n) =>
      if n < 0 || |args| - 1 < n then BadEval(NotInteger) else Eval(script, args[1..1 + n], args[1 + n..])
    case _ => BadEval(NotInteger)
  }

  function EvalOf(args: seq<Bytes>): EvalRequest {
    if |args| < 2 then BadEval(BadArity) else SplitArgs(args[0], args[1..])
  }

  function EvalShaOf(rows: Rows, now: nat, args: seq<Bytes>): EvalRequest {
    if |args| < 2 then BadEval(BadArity)
    else match Get(rows, now, ScriptKey(args[0]))
         case None => BadEval(NoScript)
         case Some(row) => SplitArgs(row.value, args[1..])
  }

  /** A well-formed request names its keys and arguments in order, after their number. */
  lemma EvalSplits(script: Bytes, keys: seq<Bytes>, argv: seq<Bytes>)
    requires |keys| <= INT64_MAX
    ensures EvalOf([script, FormatInt(|keys|)] + keys + argv) == Eval(script, keys, argv)
  {
    ParseFormat(|keys|);
    hide ParseInt, FormatInt;
    var args := [script, FormatInt(|keys|)] + keys + argv;
    var rest := args[1..];
    assert rest == [FormatInt(|keys|)] + keys + argv;
    assert rest[1..1 + |keys|] == keys && rest[1 + |keys|..] == argv;
  }

  /** A request is turned away for its length, or for a number of keys that is none or too great. */
  lemma EvalTurnedAway(args: seq<Bytes>)
    ensures EvalOf(args) == BadEval(BadArity) <==> |args| < 2
    ensures |args| >= 2 ==>
              (EvalOf(args) == BadEval(NotInteger) <==>
                 forall n: nat :: Numeral(args[1], n) ==> n > |args| - 2 || n > INT64_MAX)
  {
    if |args| >= 2 {
      assert args[1..][0] == args[1];
      forall n: int ensures ParseInt(args[1]) == Good(n) <==> Numeral(args[1], n) && IsInt64(n) {
        ParseIsNumeral(args[1], n);
      }
      hide ParseInt, Numeral;
    }
  }

  // The run of a script.

  /** A finished call of something other than a script. */
  datatype Event = Event(callee: Direct, argv: seq<Bytes>, env: Env, result: Result)

  datatype Ending = Finished(rows: Rows, value: Reply) | Failed(rows: Rows) | Unfinished(rows: Rows)

  /** What a call comes to: a result, or no result within the bound on calls. */
  datatype Reached = Answered(rows: Rows, result: Result) | Hanging(rows: Rows)

  /** An error ends the script unless the call was guarded; redis.pcall does not stop a panic. */
  predicate Fatal(guard: Guard, result: Result) {
    result.Failure? && (guard.Unguarded? || (guard.RedisPcall? && result.fault == Panic))
  }

  function RequestOf(rows: Rows, now: nat, callee: Callee, argv: seq<Bytes>): EvalRequest {
    if callee.EvalStored? then EvalShaOf(rows, now, PassedOn(argv)) else EvalOf(PassedOn(argv))
  }

  /** The script from a given point on, with at most `calls` more calls at each level of nesting. */
  function Exec(c: Codec, host: Host, now: nat, rows: Rows, p: Program, history: seq<Result>, calls: nat): Ending
    decreases calls, 0
  {
    match NextMove(p, history)
    case Finish(value) => Finished(rows, value)
    case Abort => Failed(rows)
    case Call(guard, callee, argv, order) =>
      if calls == 0 then Unfinished(rows) else
      match Reach(c, host, Env(now, order), rows, callee, argv, calls - 1)
      case Hanging(rows') => Unfinished(rows')
      case Answered(rows', result) =>
        if Fatal(guard, result) then Failed(rows')
        else Exec(c, host, now, rows', p, history + [result], calls - 1)
  }

  /** One call. A script that fails inside another has not been rolled back: what it wrote stays. */
  function Reach(c: Codec, host: Host, env: Env, rows: Rows, callee: Callee, argv: seq<Bytes>, calls: nat): Reached
    decreases calls, 1
  {
    if !CallsScript(callee) then
      var o := CallRedis(c, host, env, rows, callee, argv);
      Answered(o.rows, o.result)
    else
      match RequestOf(rows, env.now, callee, argv)
      case BadEval(fault) => Answered(rows, Failure(fault))
      case Eval(script, keys, args) =>
        match Exec(c, host, env.now, rows, Load(host, script, keys, args), [], calls)
        case Finished(rows', value) => Answered(rows', Success(value))
        case Failed(rows') => Answered(rows', Failure(ScriptError))
        case Unfinished(rows') => Hanging(rows')
  }

  /** The calls it makes, those of the scripts it calls included, in order, with what they returned. */
  function Events(c: Codec, host: Host, now: nat, rows: Rows, p: Program, history: seq<Result>, calls: nat): seq<Event>
    decreases calls, 0
  {
    match NextMove(p, history)
    case Finish(_) => []
    case Abort => []
    case Call(guard, callee, argv, order) =>
      if calls == 0 then [] else
      ReachEvents(c, host, Env(now, order), rows, callee, argv, calls - 1)
      + match Reach(c, host, Env(now, order), rows, callee, argv, calls - 1)
        case Hanging(_) => []
        case Answered(rows', result) =>
          if Fatal(guard, result) then [] else Events(c, host, now, rows', p, history + [result], calls - 1)
  }

  function ReachEvents(c: Codec, host: Host, env: Env, rows: Rows, callee: Callee, argv: seq<Bytes>,
                       calls: nat): seq<Event>
    decreases calls, 1
  {
    if !CallsScript(callee) then
      [Event(callee, argv, env, CallRedis(c, host, env, rows, callee, argv).result)]
    else
      match RequestOf(rows, env.now, callee, argv)
      case BadEval(_) => []
      case Eval(script, keys, args) => Events(c, host, env.now, rows, Load(host, script, keys, args), [], calls)
  }

  /** One move of a script. */
  lemma ExecStep(c: Codec, host: Host, now: nat, rows: Rows, p: Program, history: seq<Result>, calls: nat)
    ensures var m := NextMove(p, history);
            Exec(c, host, now, rows, p, history, calls)
            == if m.Finish? then Finished(rows, m.value)
               else if m.Abort? then Failed(rows)
               else if calls == 0 then Unfinished(rows)
               else
                 var r := Reach(c, host, Env(now, m.order), rows, m.callee, m.argv, calls - 1);
                 if r.Hanging? then Unfinished(r.rows)
                 else if Fatal(m.guard, r.result) then Failed(r.rows)
                 else Exec(c, host, now, r.rows, p, history + [r.result], calls - 1)
  {
    hide Reach;
  }

  lemma EventsStep(c: Codec, host: Host, now: nat, rows: Rows, p: Program, history: seq<Result>, calls: nat)
    ensures var m := NextMove(p, history);
            Events(c, host, now, rows, p, history, calls)
            == if !m.Call? || calls == 0 then []
               else
                 var r := Reach(c, host, Env(now, m.order), rows, m.callee, m.argv, calls - 1);
                 ReachEvents(c, host, Env(now, m.order), rows, m.callee, m.argv, calls - 1)
                 + if r.Hanging? || Fatal(m.guard, r.result) then []
                   else Events(c, host, now, r.rows, p, history + [r.result], calls - 1)
  {
    hide Reach, ReachEvents;
  }

  /** The in-order fold of the calls that returned no error, starting from `rows`. */
  function Commit(c: Codec, host: Host, rows: Rows, events: seq<Event>): Rows
    decreases |events|
  {
    if events == [] then rows
    else if events[0].result.Failure? then Commit(c, host, rows, events[1..])
    else Commit(c, host, CallRedis(c, host, events[0].env, rows, events[0].callee, events[0].argv).rows, events[1..])
  }

  /** On that path every call, a failing one too, returns what it returned in the script. */
  predicate Replays(c: Codec, host: Host, rows: Rows, events: seq<Event>)
    decreases |events|
  {
    events == [] ||
    var o := CallRedis(c, host, events[0].env, rows, events[0].callee, events[0].argv);
    o.result == events[0].result && Replays(c, host, if o.result.Failure? then rows else o.rows, events[1..])
  }

  lemma {:induction false} CommitInTwo(c: Codec, host: Host, rows: Rows, a: seq<Event>, b: seq<Event>)
    ensures Commit(c, host, rows, a + b) == Commit(c, host, Commit(c, host, rows, a), b)
    ensures Replays(c, host, rows, a + b) <==>
            Replays(c, host, rows, a) && Replays(c, host, Commit(c, host, rows, a), b)
    decreases |a|
  {
    hide CallRedis;
    if a == [] {
      assert a + b == b;
    } else {
      assert (a + b)[1..] == a[1..] + b && (a + b)[0] == a[0];
      var o := CallRedis(c, host, a[0].env, rows, a[0].callee, a[0].argv);
      CommitInTwo(c, host, if a[0].result.Failure? then rows else o.rows, a[1..], b);
    }
  }

  /** The rows a script has reached are the fold of the calls made so far that returned no error. */
  lemma {:induction false} ExecIsCommit(c: Codec, host: Host, now: nat, rows: Rows, p: Program, history: seq<Result>,
                                        calls: nat)
    ensures var events := Events(c, host, now, rows, p, history, calls);
            && Exec(c, host, now, rows, p, history, calls).rows == Commit(c, host, rows, events)
            && Replays(c, host, rows, events)
    decreases calls, 0
  {
    hide CallRedis, Exec, Events, Reach, ReachEvents, Fatal;
    ExecStep(c, host, now, rows, p, history, calls);
    EventsStep(c, host, now, rows, p, history, calls);
    var move := NextMove(p, history);
    if move.Call? && calls > 0 {
      var env := Env(now, move.order);
      var reached := Reach(c, host, env, rows, move.callee, move.argv, calls - 1);
      var first := ReachEvents(c, host, env, rows, move.callee, move.argv, calls - 1);
      ReachIsCommit(c, host, env, rows, move.callee, move.argv, calls - 1);
      if reached.Answered? && !Fatal(move.guard, reached.result) {
        var history' := history + [reached.result];
        ExecIsCommit(c, host, now, reached.rows, p, history', calls - 1);
        CommitInTwo(c, host, rows, first, Events(c, host, now, reached.rows, p, history', calls - 1));
      } else {
        assert Events(c, host, now, rows, p, history, calls) == first + [] == first;
      }
    }
  }

  /** A call of a script, one that fails included, leaves exactly the fold of the error-free calls it made: nothing
      of a failing script is taken back as long as the outer one goes on. */
  lemma {:induction false} ReachIsCommit(c: Codec, host: Host, env: Env, rows: Rows, callee: Callee,
                                         argv: seq<Bytes>, calls: nat)
    ensures var events := ReachEvents(c, host, env, rows, callee, argv, calls);
            && Reach(c, host, env, rows, callee, argv, calls).rows == Commit(c, host, rows, events)
            && Replays(c, host, rows, events)
    decreases calls, 1
  {
    if !CallsScript(callee) {
      FailedCallWritesNothing(c, host, env, rows, callee, argv);
      hide CallRedis;
    } else {
      var req := RequestOf(rows, env.now, callee, argv);
      if req.Eval? { ExecIsCommit(c, host, env.now, rows, Load(host, req.script, req.keys, req.argv), [], calls); }
    }
  }

  // The bound on calls.

  /** The bound does not matter: a script that ends within it ends the same way, with the same calls, within any
      greater one. */
  lemma {:induction false} ExecSettled(c: Codec, host: Host, now: nat, rows: Rows, p: Program, history: seq<Result>,
                                       calls: nat, more: nat)
    requires calls <= more && !Exec(c, host, now, rows, p, history, calls).Unfinished?
    ensures Exec(c, host, now, rows, p, history, more) == Exec(c, host, now, rows, p, history, calls)
    ensures Events(c, host, now, rows, p, history, more) == Events(c, host, now, rows, p, history, calls)
    decreases calls, 0
  {
    hide Exec, Events, Reach, ReachEvents, Fatal;
    ExecStep(c, host, now, rows, p, history, calls);
    ExecStep(c, host, now, rows, p, history, more);
    EventsStep(c, host, now, rows, p, history, calls);
    EventsStep(c, host, now, rows, p, history, more);
    var move := NextMove(p, history);
    if move.Call? {
      var env := Env(now, move.order);
      var reached := Reach(c, host, env, rows, move.callee, move.argv, calls - 1);
      ReachSettled(c, host, env, rows, move.callee, move.argv, calls - 1, more - 1);
      if !Fatal(move.guard, reached.result) {
        ExecSettled(c, host, now, reached.rows, p, history + [reached.result], calls - 1, more - 1);
      }
    }
  }

  lemma {:induction false} ReachSettled(c: Codec, host: Host, env: Env, rows: Rows, callee: Callee, argv: seq<Bytes>,
                                        calls: nat, more: nat)
    requires calls <= more && Reach(c, host, env, rows, callee, argv, calls).Answered?
    ensures Reach(c, host, env, rows, callee, argv, more) == Reach(c, host, env, rows, callee, argv, calls)
    ensures ReachEvents(c, host, env, rows, callee, argv, more) == ReachEvents(c, host, env, rows, callee, argv, calls)
    decreases calls, 1
  {
    hide CallRedis;
    if CallsScript(callee) {
      var req := RequestOf(rows, env.now, callee, argv);
      if req.Eval? {
        ExecSettled(c, host, env.now, rows, Load(host, req.script, req.keys, req.argv), [], calls, more);
      }
    }
  }

  // Errors.

  /** What a script does about the result of a call: success goes into its history and it goes on; an error ends it
      under redis.call, goes into its history under redis.pcall unless the call panicked, and always under a pcall of
      Lua's own. */
  lemma AfterACall(c: Codec, host: Host, now: nat, rows: Rows, p: Program, history: seq<Result>, calls: nat)
    requires NextMove(p, history).Call? && calls > 0
    ensures var m := NextMove(p, history);
            var r := Reach(c, host, Env(now, m.order), rows, m.callee, m.argv, calls - 1);
            r.Answered? ==>
              var end := Exec(c, host, now, rows, p, history, calls);
              var next := Exec(c, host, now, r.rows, p, history + [r.result], calls - 1);
              match r.result
              case Success(_) => end == next
              case Failure(fault) =>
                match m.guard
                case Unguarded => end == Failed(r.rows)
                case RedisPcall => end == if fault == Panic then Failed(r.rows) else next
                case LuaPcall => end == next
  {
    hide Exec, Reach;
    ExecStep(c, host, now, rows, p, history, calls);
  }

  /** The results of the calls a script makes itself, in order. */
  function OwnResults(c: Codec, host: Host, now: nat, rows: Rows, p: Program, history: seq<Result>,
                      calls: nat): seq<Result>
    decreases calls
  {
    match NextMove(p, history)
    case Call(guard, callee, argv, order) =>
      if calls == 0 then [] else
      (match Reach(c, host, Env(now, order), rows, callee, argv, calls - 1)
       case Hanging(_) => []
       case Answered(rows', result) =>
         [result] + if Fatal(guard, result) then []
                    else OwnResults(c, host, now, rows', p, history + [result], calls - 1))
    case _ => []
  }

  /** A script that guards none of its calls. */
  ghost predicate Strict(p: Program) {
    forall history :: NextMove(p, history).Call? ==> NextMove(p, history).guard == Unguarded
  }

  predicate OnlyTheLastFails(own: seq<Result>, end: Ending) {
    forall i :: 0 <= i < |own| && own[i].Failure? ==> i == |own| - 1 && end.Failed?
  }

  lemma OneMoreSuccess(r: Result, own: seq<Result>, end: Ending)
    requires r.Success? && OnlyTheLastFails(own, end)
    ensures OnlyTheLastFails([r] + own, end)
  {
    var all := [r] + own;
    forall i | 0 <= i < |all| && all[i].Failure? ensures i == |all| - 1 && end.Failed? {
      assert all[i] == own[i - 1];
    }
  }

  /** Such a script does not survive an error: a call that failed was the last one, and the script failed. */
  lemma {:induction false} StrictStops(c: Codec, host: Host, now: nat, rows: Rows, p: Program, history: seq<Result>,
                                       calls: nat)
    requires Strict(p)
    ensures OnlyTheLastFails(OwnResults(c, host, now, rows, p, history, calls),
                             Exec(c, host, now, rows, p, history, calls))
    decreases calls
  {
    hide Exec, Reach;
    ExecStep(c, host, now, rows, p, history, calls);
    var m := NextMove(p, history);
    if m.Call? && calls > 0 {
      assert m.guard == Unguarded;
      hide Strict;
      var r := Reach(c, host, Env(now, m.order), rows, m.callee, m.argv, calls - 1);
      if r.Answered? && r.result.Success? {
        StrictStops(c, host, now, r.rows, p, history + [r.result], calls - 1);
        OneMoreSuccess(r.result, OwnResults(c, host, now, r.rows, p, history + [r.result], calls - 1),
                       Exec(c, host, now, r.rows, p, history + [r.result], calls - 1));
      }
    }
  }

  // EVAL and EVALSHA as transactions.

  /** One script transaction: commit when the script finishes, roll back when it fails. A script that
      makes more than `calls` calls has no outcome yet. */
  function ApplyEval(c: Codec, host: Host, now: nat, rows: Rows, req: EvalRequest, calls: nat): Option<Outcome> {
    match req
    case BadEval(fault) => Some(Outcome(rows, Failure(fault)))
    case Eval(script, keys, argv) =>
      match Exec(c, host, now, rows, Load(host, script, keys, argv), [], calls)
      case Finished(rows', value) => Some(Outcome(rows', Success(value)))
      case Failed(_) => Some(Outcome(rows, Failure(ScriptError)))
      case Unfinished(_) => None
  }

  /** Script atomicity: an EVAL that ends either fails and leaves the store as it was, or commits exactly
      the in-order fold of its calls that returned no error, whatever failed in between. */
  lemma ScriptIsAtomic(c: Codec, host: Host, now: nat, rows: Rows, req: EvalRequest, calls: nat)
    requires ApplyEval(c, host, now, rows, req, calls).Some?
    ensures var o := ApplyEval(c, host, now, rows, req, calls).value;
            if o.result.Failure? then o.rows == rows
            else
              && req.Eval?
              && var events := Events(c, host, now, rows, Load(host, req.script, req.keys, req.argv), [], calls);
                 o.rows == Commit(c, host, rows, events) && Replays(c, host, rows, events)
  {
    if req.Eval? { ExecIsCommit(c, host, now, rows, Load(host, req.script, req.keys, req.argv), [], calls); }
  }

  /** An EVAL of a script that guards no call: it commits only if every call it made succeeded. */
  lemma StrictEval(c: Codec, host: Host, now: nat, rows: Rows, req: EvalRequest, calls: nat)
    requires req.Eval? && Strict(Load(host, req.script, req.keys, req.argv))
    requires ApplyEval(c, host, now, rows, req, calls).Some?
    ensures var o := ApplyEval(c, host, now, rows, req, calls).value;
            var own := OwnResults(c, host, now, rows, Load(host, req.script, req.keys, req.argv), [], calls);
            if exists i :: 0 <= i < |own| && own[i].Failure? then o == Outcome(rows, Failure(ScriptError))
            else forall i :: 0 <= i < |own| ==> own[i].Success?
  {
    hide Exec, OwnResults, Strict;
    StrictStops(c, host, now, rows, Load(host, req.script, req.keys, req.argv), [], calls);
  }

  /** An EVAL has at most one outcome, whatever bounds are put on its calls. */
  lemma OneOutcome(c: Codec, host: Host, now: nat, rows: Rows, req: EvalRequest, calls: nat, more: nat)
    requires ApplyEval(c, host, now, rows, req, calls).Some? && ApplyEval(c, host, now, rows, req, more).Some?
    ensures ApplyEval(c, host, now, rows, req, calls) == ApplyEval(c, host, now, rows, req, more)
  {
    hide Exec, Events;
    if req.Eval? {
      var p := Load(host, req.script, req.keys, req.argv);
      if calls <= more {
        ExecSettled(c, host, now, rows, p, [], calls, more);
      } else {
        ExecSettled(c, host, now, rows, p, [], more, calls);
      }
    }
  }

  // A script that fails inside another.

  /** SET key value, then an error. */
  function WriteThenFail(key: Bytes, value: Bytes, order: set<Bytes> -> seq<Bytes>): Program {
    history => if history == [] then Call(Unguarded, Do(Set), [key, value], order) else Abort
  }

  /** redis.pcall of the script with the empty text, then an end. */
  function CallThenFinish(order: set<Bytes> -> seq<Bytes>): Program {
    history => if history == [] then Call(RedisPcall, EvalText, [[], [], [48]], order) else Finish(Ok)
  }

  /** Under the empty text lies the script that fails, under any other the one that calls it. */
  function NestedHost(key: Bytes, value: Bytes, order: set<Bytes> -> seq<Bytes>): Host {
    Host(text => text,
         (text, keys, argv) => if text == [] then WriteThenFail(key, value, order) else CallThenFinish(order))
  }

  /** A failing call of a script has written what it wrote: SET inside, an error inside, and the outer script
      that went on commits the SET. */
  lemma FailedScriptWrites(c: Codec, now: nat, key: Bytes, value: Bytes, order: set<Bytes> -> seq<Bytes>)
    ensures var host, env := NestedHost(key, value, order), Env(now, order);
            var inner := Reach(c, host, env, map[], EvalText, [[], [], [48]], 1);
            var outer := ApplyEval(c, host, now, map[], Eval([1], [], []), 2);
            && inner.Answered? && inner.result == Failure(ScriptError)
            && Get(inner.rows, now, UserKey(key)) == Some(Row(value, 0))
            && outer == Some(Outcome(inner.rows, Success(Ok)))
  {
    var host, env := NestedHost(key, value, order), Env(now, order);
    var rows := SetValue(map[], now, key, value, Tag(StringKind), 0);
    assert Get(rows, now, UserKey(key)) == Some(Row(value, 0));
    hide Exec, Reach, NestedHost, SetValue, Get;
    InnerReached(c, now, key, value, order);
    OuterEnds(c, host, now, order, rows);
  }

  lemma InnerReached(c: Codec, now: nat, key: Bytes, value: Bytes, order: set<Bytes> -> seq<Bytes>)
    ensures var host := NestedHost(key, value, order);
            && Load(host, [1], [], []) == CallThenFinish(order)
            && Reach(c, host, Env(now, order), map[], EvalText, [[], [], [48]], 1)
               == Answered(SetValue(map[], now, key, value, Tag(StringKind), 0), Failure(ScriptError))
  {
    InnerFails(c, now, key, value, order);
    AskForEmptyText(now);
    hide Exec, RequestOf, SetValue;
  }

  lemma OuterEnds(c: Codec, host: Host, now: nat, order: set<Bytes> -> seq<Bytes>, rows: Rows)
    requires Load(host, [1], [], []) == CallThenFinish(order)
    requires Reach(c, host, Env(now, order), map[], EvalText, [[], [], [48]], 1) == Answered(rows, Failure(ScriptError))
    ensures ApplyEval(c, host, now, map[], Eval([1], [], []), 2) == Some(Outcome(rows, Success(Ok)))
  {
    hide Exec, Reach;
    var failed: seq<Result> := [Failure(ScriptError)];
    ExecStep(c, host, now, map[], CallThenFinish(order), [], 2);
    ExecStep(c, host, now, rows, CallThenFinish(order), failed, 1);
    assert [] + failed == failed;
  }

  lemma InnerFails(c: Codec, now: nat, key: Bytes, value: Bytes, order: set<Bytes> -> seq<Bytes>)
    ensures var host := NestedHost(key, value, order);
            Exec(c, host, now, map[], Load(host, [], [], []), [], 1)
            == Failed(SetValue(map[], now, key, value, Tag(StringKind), 0))
  {
    var host, env := NestedHost(key, value, order), Env(now, order);
    var inner, rows := Load(host, [], [], []), SetValue(map[], now, key, value, Tag(StringKind), 0);
    SetFromScript(c, host, env, key, value);
    assert Reach(c, host, env, map[], Do(Set), [key, value], 0) == Answered(rows, Success(Ok)) by { hide CallRedis; }
    ExecStep(c, host, now, map[], inner, [], 1);
    ExecStep(c, host, now, rows, inner, [Success(Ok)], 0);
    hide Exec, Reach;
    assert [] + [Success(Ok)] == [Success(Ok)];
  }

  lemma SetFromScript(c: Codec, host: Host, env: Env, key: Bytes, value: Bytes)
    ensures CallRedis(c, host, env, map[], Do(Set), [key, value])
            == Outcome(SetValue(map[], env.now, key, value, Tag(StringKind), 0), Success(Ok))
  {
    assert [key, value][2..] == [];
    assert LuaCommand(Set, [key, value]) == Accepted(Bare(key, value));
  }

  lemma AskForEmptyText(now: nat)
    ensures RequestOf(map[], now, EvalText, [[], [], [48]]) == Eval([], [], [])
  {
    var argv: seq<Bytes> := [[], [], [48]];
    assert PassedOn(argv) == [[], [48]] && PassedOn(argv)[1..] == [[48]];
    assert ParseInt([48]) == Good(0) by { ParseFormat(0); }
  }

  // What a script does to Redis data is a run.

  predicate IsCommand(e: Event) { e.callee.Do? && LuaCommand(e.callee.op, e.argv).Accepted? }

  /** The state machine commands among the calls, those that failed included. */
  function StepsOf(events: seq<Event>): seq<Step> {
    if events == [] then []
    else if !IsCommand(events[0]) then StepsOf(events[1..])
    else [Step(events[0].env, LuaCommand(events[0].callee.op, events[0].argv).cmd)] + StepsOf(events[1..])
  }

  /** What those commands returned to the script. */
  function RepliesOf(events: seq<Event>): seq<Result> {
    if events == [] then []
    else if !IsCommand(events[0]) then RepliesOf(events[1..])
    else [events[0].result] + RepliesOf(events[1..])
  }

  lemma ScriptKeysAreNoData(sha: Bytes)
    ensures !DataKey(ScriptKey(sha))
  {
    assert ScriptKey(sha)[0] == 83;
  }

  /** A call other than a command leaves Redis data alone. */
  lemma OtherCallsLeaveData(c: Codec, host: Host, env: Env, rows: Rows, callee: Direct, argv: seq<Bytes>)
    requires !callee.Do?
    ensures SameData(rows, CallRedis(c, host, env, rows, callee, argv).rows)
  {
    forall key | DataKey(key) ensures SameAt(rows, CallRedis(c, host, env, rows, callee, argv).rows, key) {
      if callee.LoadScript? && |PassedOn(argv)| == 1 { ScriptKeysAreNoData(Digest(host, PassedOn(argv)[0])); }
      if callee.FlushScripts? { assert key[0] != SCRIPT_PREFIX[0]; }
    }
  }

  lemma SameDataFlips(a: Rows, b: Rows, c: Rows)
    requires SameData(a, b)
    ensures SameData(b, a) && (SameData(a, c) ==> SameData(b, c))
  {
    forall key | DataKey(key) ensures SameAt(b, a, key) && (SameAt(a, c, key) ==> SameAt(b, c, key)) {
      assert SameAt(a, b, key);
    }
  }

  /** A call that is no command, a word list the bridge rejects included. */
  lemma NoCommandLeavesData(c: Codec, host: Host, rows: Rows, e: Event)
    requires !IsCommand(e)
    ensures SameData(rows, CallRedis(c, host, e.env, rows, e.callee, e.argv).rows)
  {
    hide SameData;
    if e.callee.Do? { SameDataReflexive(rows); } else { OtherCallsLeaveData(c, host, e.env, rows, e.callee, e.argv); }
  }

  /** What a script commits to Redis data, and what its commands return to it, is what the commands would do and
      return one by one, from any store with the same data: so every theorem about runs covers scripts. */
  lemma {:induction false} CommitIsRun(c: Codec, host: Host, rows: Rows, other: Rows, events: seq<Event>)
    requires Replays(c, host, rows, events) && SameData(rows, other)
    ensures SameData(Commit(c, host, rows, events), Run(c, other, StepsOf(events)))
    ensures Results(c, other, StepsOf(events)) == RepliesOf(events)
    decreases |events|
  {
    hide SameData, ApplyInTxn, LuaCommand;
    if events != [] {
      var e, rest := events[0], events[1..];
      var o := CallRedis(c, host, e.env, rows, e.callee, e.argv);
      var rows' := if e.result.Failure? then rows else o.rows;
      if IsCommand(e) {
        var cmd := LuaCommand(e.callee.op, e.argv).cmd;
        var other' := Apply(c, e.env, other, cmd).rows;
        assert Apply(c, e.env, rows, cmd) == Outcome(rows', o.result);
        ApplyRespects(c, e.env, rows, other, cmd);
        CommitIsRun(c, host, rows', other', rest);
        assert StepsOf(events)[1..] == StepsOf(rest);
      } else {
        NoCommandLeavesData(c, host, rows, e);
        hide CallRedis;
        SameDataFlips(rows, o.rows, other);
        CommitIsRun(c, host, rows', other, rest);
      }
    }
  }

  lemma SameDataReflexive(a: Rows)
    ensures SameData(a, a)
  {
  }

  /** Whatever has happened so far, the next call meets map keys in some proper order. */
  ghost predicate OrderlyProgram(p: Program, now: nat) {
    forall history :: NextMove(p, history).Call? ==> Orderly(Env(now, NextMove(p, history).order))
  }

  ghost predicate OrderlyHost(host: Host, now: nat) {
    forall script, keys, argv :: OrderlyProgram(Load(host, script, keys, argv), now)
  }

  ghost predicate AllAt(events: seq<Event>, now: nat) {
    forall i :: 0 <= i < |events| ==> events[i].env.now == now && Orderly(events[i].env)
  }

  lemma {:induction false} EventsShareClock(c: Codec, host: Host, now: nat, rows: Rows, p: Program,
                                            history: seq<Result>, calls: nat)
    requires OrderlyProgram(p, now) && OrderlyHost(host, now)
    ensures AllAt(Events(c, host, now, rows, p, history, calls), now)
    decreases calls, 0
  {
    hide Exec, Events, Reach, ReachEvents, Fatal, Orderly, OrderlyHost;
    EventsStep(c, host, now, rows, p, history, calls);
    var move := NextMove(p, history);
    if move.Call? && calls > 0 {
      var env := Env(now, move.order);
      var reached := Reach(c, host, env, rows, move.callee, move.argv, calls - 1);
      assert Orderly(env);
      ReachSharesClock(c, host, env, rows, move.callee, move.argv, calls - 1);
      if reached.Answered? && !Fatal(move.guard, reached.result) {
        EventsShareClock(c, host, now, reached.rows, p, history + [reached.result], calls - 1);
      }
    }
  }

  lemma {:induction false} ReachSharesClock(c: Codec, host: Host, env: Env, rows: Rows, callee: Callee,
                                            argv: seq<Bytes>, calls: nat)
    requires Orderly(env) && OrderlyHost(host, env.now)
    ensures AllAt(ReachEvents(c, host, env, rows, callee, argv, calls), env.now)
    decreases calls, 1
  {
    hide CallRedis, Orderly;
    if CallsScript(callee) {
      var req := RequestOf(rows, env.now, callee, argv);
      if req.Eval? {
        assert OrderlyProgram(Load(host, req.script, req.keys, req.argv), env.now);
        EventsShareClock(c, host, env.now, rows, Load(host, req.script, req.keys, req.argv), [], calls);
      }
    }
  }

  /** The commands of a script share its one clock reading. */
  lemma {:induction false} StepsShareClock(events: seq<Event>, now: nat)
    requires AllAt(events, now)
    ensures forall step :: step in StepsOf(events) ==> step.env.now == now && Orderly(step.env)
    decreases |events|
  {
    hide LuaCommand, Orderly;
    if events != [] {
      StepsShareClock(events[1..], now);
      assert events[0].env.now == now && Orderly(events[0].env);
    }
  }

  lemma ScriptIsClocked(events: seq<Event>, now: nat)
    requires AllAt(events, now)
    ensures Clocked(StepsOf(events), now) && LastTime(StepsOf(events), now) == now
  {
    hide StepsOf, Orderly;
    StepsShareClock(events, now);
    assert forall i :: 0 <= i < |StepsOf(events)| ==> StepsOf(events)[i] in StepsOf(events);
  }

  /** Scripts refine: every command of a script returns to it what the typed map answers, and the script leaves
      the rows in step with the typed run of its commands. */
  lemma ScriptRefines(c: Codec, host: Host, now: nat, rows: Rows, db: T.Db, p: Program, calls: nat)
    requires Lawful(c) && OrderlyProgram(p, now) && OrderlyHost(host, now) && Refinement.Simulates(c, rows, db, now)
    requires Refinement.TypesOutlive(c, rows, StepsOf(Events(c, host, now, rows, p, [], calls)))
    ensures var events := Events(c, host, now, rows, p, [], calls);
            && RepliesOf(events) == T.Results(db, StepsOf(events))
            && Refinement.Simulates(c, Exec(c, host, now, rows, p, [], calls).rows, T.Run(db, StepsOf(events)), now)
  {
    hide *;
    var events := Events(c, host, now, rows, p, [], calls);
    var steps, end := StepsOf(events), Exec(c, host, now, rows, p, [], calls).rows;
    ExecIsCommit(c, host, now, rows, p, [], calls);
    SameDataReflexive(rows);
    CommitIsRun(c, host, rows, rows, events);
    assert Clocked(steps, now) && LastTime(steps, now) == now by {
      EventsShareClock(c, host, now, rows, p, [], calls);
      ScriptIsClocked(events, now);
    }
    Refinement.RunRefines(c, rows, db, now, steps);
    SameDataFlips(end, Run(c, rows, steps), end);
    SameDataSimulates(c, Run(c, rows, steps), end, T.Run(db, steps), now);
  }

  // The bridge's own reads.

  /** GET as the typed map answers it. */
  function TypedGet(entry: Option<T.Entry>): Result {
    match StringOf(entry)
    case Error(fault) => Failure(fault)
    case Value(None) => Success(Nil)
    case Value(Some(bytes)) => Success(Bulk(bytes))
  }

  /** EXISTS inside a script is the typed one. GET is, if and only if the key holds no collection, which it reads
      as bytes. TYPE is, if and only if the two rows of the key are seen together, because it looks at the type
      row alone. */
  lemma BridgeReadsAgree(c: Codec, rows: Rows, db: T.Db, now: nat, key: Bytes)
    requires Refinement.InStep(c, rows, db, now, key)
    requires Sees(rows, now, TypeKey(key)) ==> rows[TypeKey(key)].value != NO_TYPE
    ensures var entry := T.Lookup(db, now, key);
            && CountVisible(rows, now, [key]) == (if entry.Some? then 1 else 0)
            && (Success(BridgeGet(rows, now, key)) == TypedGet(entry) <==> entry.None? || entry.value.value.Str?)
            && (BridgeType(rows, now, key)
                == Bulk(if entry.None? then NO_TYPE else Tag(TypedKind(entry.value.value)))
                <==> (Sees(rows, now, UserKey(key)) <==> Sees(rows, now, TypeKey(key))))
  {
    KeyReadsAgree(c, rows, db, now, key, 1);
    assert [key][1..] == [];
    assert forall kind: Kind :: Tag(kind)[0] != NO_TYPE[0];
  }

  /** A script's own DEL of one key takes the value row only: TYPE goes on naming the old type of a key that is
      gone. */
  lemma DelLeavesTheType(c: Codec, host: Host, env: Env, rows: Rows, key: Bytes)
    requires key != [] && Sees(rows, env.now, UserKey(key)) && Sees(rows, env.now, TypeKey(key))
    ensures var o := CallRedis(c, host, env, rows, Do(Del), [key]);
            && o.result == Success(Int(1)) && !Sees(o.rows, env.now, UserKey(key))
            && BridgeType(o.rows, env.now, key) == Bulk(rows[TypeKey(key)].value)
  {
    var cmd := Command(Del, key, [], 0, Always, false);
    assert LuaCommand(Del, [key]) == Accepted(cmd);
    assert Decide(c, env, Look(rows, env.now, key), cmd) == Decision(Unlink, Success(Int(1)));
  }
}
