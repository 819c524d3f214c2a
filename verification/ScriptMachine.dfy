/** The Lua bridge as the source runs it: calls that update the transaction's rows in place. */
module ScriptMachine {
  import opened Octets
  import opened Store
  import opened Commands
  import opened Fsm
  import opened SetOptions
  import opened Scripts
  import opened Database
  import Machine
  import Queries

  /** The loop of SCRIPT EXISTS. */
  method FlagScripts(db: Database, now: nat, shas: seq<Bytes>) returns (flags: seq<int>)
    ensures flags == ScriptFlags(db.rows, now, shas)
  {
    flags := [];
    for i := 0 to |shas|
      invariant flags == ScriptFlags(db.rows, now, shas)[..i]
    {
      flags := flags + [if Sees(db.rows, now, ScriptKey(shas[i])) then 1 else 0];
    }
  }

  /** A command a script asks for: parsed, then applied to the same transaction. */
  method DoCommand(db: Database, c: Codec, env: Env, op: Op, argv: seq<Bytes>) returns (result: Result)
    requires Orderly(env)
    modifies db
    ensures match LuaCommand(op, argv)
            case Rejected(why) => db.rows == old(db.rows) && result == Failure(FaultOf(why))
            case Accepted(cmd) => Outcome(db.rows, result) == ApplyInTxn(c, env, old(db.rows), cmd)
  {
    var cmd := Command(op, [], [], 0, Always, false);
    if op == Set {
      var request: seq<Bytes> := [[83, 69, 84]] + argv;
      assert |argv| >= 2 ==> request[3..] == argv[2..];
      var parsed := ParseLua(request);
      if parsed.Rejected? { return Failure(FaultOf(parsed.why)); }
      cmd := parsed.cmd;
    } else if |argv| > 0 {
      cmd := cmd.(key := argv[0], args := argv[1..]);
    }
    result := Machine.ApplyCmdInTxn(db, c, env, cmd);
  }

  /** luaRedisCall on everything but another script. */
  method LuaRedisCall(db: Database, c: Codec, host: Host, env: Env, callee: Direct, argv: seq<Bytes>)
    returns (result: Result)
    requires Orderly(env)
    modifies db
    ensures Outcome(db.rows, result) == CallRedis(c, host, env, old(db.rows), callee, argv)
  {
    var args := PassedOn(argv);
    match callee {
      case Nobody => return Failure(BadArity);
      case GetKey =>
        if |argv| != 1 { return Failure(BadArity); }
        var item := Get(db.rows, env.now, UserKey(argv[0]));
        return Success(if item.None? then Nil else Bulk(item.value.value));
      case ExistsKeys =>
        if |argv| < 1 { return Failure(BadArity); }
        var count := Queries.Exists(db, env.now, argv);
        return Success(Int(count));
      case TypeOfKey =>
        if |argv| != 1 { return Failure(BadArity); }
        var item := Get(db.rows, env.now, TypeKey(argv[0]));
        return Success(if item.None? then Bulk(NO_TYPE) else Bulk(item.value.value));
      case Do(op) =>
        result := DoCommand(db, c, env, op, argv);
      case LoadScript =>
        if |args| != 1 { return Failure(BadArity); }
        var sha := Digest(host, args[0]);
        db.SetEntry(ScriptKey(sha), Row(args[0], 0));
        return Success(Bulk(sha));
      case ScriptsExist =>
        var flags := FlagScripts(db, env.now, args);
        return Success(Ints(flags));
      case FlushScripts =>
        Machine.FlushPrefix(db, env.now, SCRIPT_PREFIX);
        return Success(Ok);
    }
  }

  /** One call, another script included. */
  method ReachCall(db: Database, c: Codec, host: Host, env: Env, callee: Callee, argv: seq<Bytes>, calls: nat)
    returns (reached: Reached)
    requires Orderly(env) && OrderlyHost(host, env.now)
    modifies db
    ensures reached == Reach(c, host, env, old(db.rows), callee, argv, calls) && db.rows == reached.rows
    decreases calls, 1
  {
    if !CallsScript(callee) {
      var result := LuaRedisCall(db, c, host, env, callee, argv);
      return Answered(db.rows, result);
    }
    var req := RequestOf(db.rows, env.now, callee, argv);
    if req.BadEval? { return Answered(db.rows, Failure(req.fault)); }
    assert OrderlyProgram(Load(host, req.script, req.keys, req.argv), env.now);
    var ending := RunLua(db, c, host, env.now, Load(host, req.script, req.keys, req.argv), calls);
    match ending {
      case Finished(_, value) => return Answered(db.rows, Success(value));
      case Failed(_) => return Answered(db.rows, Failure(ScriptError));
      case Unfinished(_) => return Hanging(db.rows);
    }
  }

  /** runLua: move after move until the script finishes, fails or has made `calls` calls. */
  method RunLua(db: Database, c: Codec, host: Host, now: nat, p: Program, calls: nat) returns (ending: Ending)
    requires OrderlyProgram(p, now) && OrderlyHost(host, now)
    modifies db
    ensures ending == Exec(c, host, now, old(db.rows), p, [], calls)
    ensures db.rows == ending.rows
    decreases calls, 0
  {
    hide Reach, CallRedis, Orderly;
    var history: seq<Result> := [];
    var left: nat := calls;
    var move := NextMove(p, history);
    while move.Call? && left > 0
      invariant left <= calls && move == NextMove(p, history)
      invariant Exec(c, host, now, db.rows, p, history, left) == Exec(c, host, now, old(db.rows), p, [], calls)
      decreases left
    {
      left := left - 1;
      var reached := ReachCall(db, c, host, Env(now, move.order), move.callee, move.argv, left);
      if reached.Hanging? { return Unfinished(db.rows); }
      if Fatal(move.guard, reached.result) { return Failed(db.rows); }
      history := history + [reached.result];
      move := NextMove(p, history);
    }
    if move.Finish? { return Finished(db.rows, move.value); }
    if move.Abort? { return Failed(db.rows); }
    return Unfinished(db.rows);
  }

  /** EVAL, and EVALSHA on a stored script, inside Apply: the transaction commits only when the script
      finishes. */
  method ApplyScript(db: Database, c: Codec, host: Host, now: nat, bySha: bool, args: seq<Bytes>, calls: nat)
    returns (outcome: Option<Result>)
    requires OrderlyHost(host, now)
    modifies db
    ensures var req := if bySha then EvalShaOf(old(db.rows), now, args) else EvalOf(args);
            match ApplyEval(c, host, now, old(db.rows), req, calls)
            case None => outcome == None
            case Some(o) => outcome == Some(o.result) && db.rows == o.rows
  {
    var req := if bySha then EvalShaOf(db.rows, now, args) else EvalOf(args);
    if req.BadEval? { return Some(Failure(req.fault)); }
    var snapshot := db.rows;
    var ending := RunLua(db, c, host, now, Load(host, req.script, req.keys, req.argv), calls);
    match ending {
      case Finished(_, value) => return Some(Success(value));
      case Failed(_) =>
        db.rows := snapshot;
        return Some(Failure(ScriptError));
      case Unfinished(_) => return None;
    }
  }
}
