/** One keyspace, four tenants: Redis data, scripts, the Raft log and the Raft stable store do not
    disturb each other, over whole mixed runs. */
module Isolation {
  import opened Octets
  import opened Store
  import opened Commands
  import opened Fsm
  import opened Readers
  import opened DataRows
  import opened Scripts
  import opened RaftLog

  predicate ScriptRow(key: Bytes) { SCRIPT_PREFIX <= key }

  // Redis commands and scripts leave everything else alone.

  lemma CallTouchesData(c: Codec, host: Host, env: Env, rows: Rows, callee: Direct, argv: seq<Bytes>, other: Bytes)
    requires !DataKey(other) && !ScriptRow(other)
    ensures SameAt(rows, CallRedis(c, host, env, rows, callee, argv).rows, other)
  {
    if callee.Do? && LuaCommand(callee.op, argv).Accepted? {
      CommandTouchesData(c, env, rows, LuaCommand(callee.op, argv).cmd, other);
    } else if callee.LoadScript? {
      assert forall sha :: ScriptRow(ScriptKey(sha));
    }
  }

  lemma {:induction false} CommitTouchesData(c: Codec, host: Host, rows: Rows, calls: seq<Scripts.Event>, other: Bytes)
    requires !DataKey(other) && !ScriptRow(other)
    ensures SameAt(rows, Commit(c, host, rows, calls), other)
    decreases |calls|
  {
    hide CallRedis;
    if calls != [] {
      var e := calls[0];
      CallTouchesData(c, host, e.env, rows, e.callee, e.argv, other);
      var o := CallRedis(c, host, e.env, rows, e.callee, e.argv);
      CommitTouchesData(c, host, if e.result.Failure? then rows else o.rows, calls[1..], other);
    }
  }

  // Mixed runs.

  datatype Event =
    | Redis(step: Step)
    | Script(host: Host, now: nat, program: Program, calls: nat)
    | Storage(host: Host, env: Env, callee: Direct, argv: seq<Bytes>)
    | StoreEntries(logs: seq<Log>)
    | DeleteEntries(min: nat, max: nat)
    | Stable(key: Bytes, value: Bytes)

  predicate RaftEvent(e: Event) { e.StoreEntries? || e.DeleteEntries? || e.Stable? }

  /** The rows after one event; a script that has not finished, or fails, commits nothing. */
  function Happen(c: Codec, lc: LogCodec, rows: Rows, e: Event): Rows {
    match e
    case Redis(step) => Apply(c, step.env, rows, step.cmd).rows
    case Script(host, now, p, calls) =>
      var ending := Exec(c, host, now, rows, p, [], calls);
      if ending.Finished? then ending.rows else rows
    case Storage(host, env, callee, argv) => CallRedis(c, host, env, rows, callee, argv).rows
    case StoreEntries(logs) => StoreAll(lc, rows, logs)
    case DeleteEntries(min, max) => DeleteAll(rows, min, max)
    case Stable(key, value) => rows[StableKey(key) := Row(value, 0)]
  }

  function History(c: Codec, lc: LogCodec, rows: Rows, events: seq<Event>): Rows
    decreases |events|
  {
    if events == [] then rows else History(c, lc, Happen(c, lc, rows, events[0]), events[1..])
  }

  /** No Redis command and no script changes a Raft log row, or a stable row outside "CRIPT:". */
  lemma {:induction false} RedisLeavesRaftAlone(c: Codec, lc: LogCodec, rows: Rows, events: seq<Event>, key: Bytes)
    requires forall i :: 0 <= i < |events| ==> !RaftEvent(events[i])
    requires !DataKey(key) && !ScriptRow(key)
    ensures SameAt(rows, History(c, lc, rows, events), key)
    decreases |events|
  {
    hide Happen;
    if events != [] {
      RedisEventLeaves(c, lc, rows, events[0], key);
      RedisLeavesRaftAlone(c, lc, Happen(c, lc, rows, events[0]), events[1..], key);
    }
  }

  lemma RedisEventLeaves(c: Codec, lc: LogCodec, rows: Rows, e: Event, key: Bytes)
    requires !RaftEvent(e) && !DataKey(key) && !ScriptRow(key)
    ensures SameAt(rows, Happen(c, lc, rows, e), key)
  {
    hide Exec, Events, Commit, CallRedis, ApplyInTxn;
    match e {
      case Redis(step) => CommandTouchesData(c, step.env, rows, step.cmd, key);
      case Script(host, now, p, calls) =>
        ExecIsCommit(c, host, now, rows, p, [], calls);
        CommitTouchesData(c, host, rows, Events(c, host, now, rows, p, [], calls), key);
      case Storage(host, env, callee, argv) => CallTouchesData(c, host, env, rows, callee, argv, key);
      case _ =>
    }
  }

  /** The rows this protects: every log row, and the stable rows whose key does not begin with "CRIPT:". */
  lemma RaftRowsAreOutside(index: nat, key: Bytes)
    ensures !DataKey(LogKey(index)) && !ScriptRow(LogKey(index))
    ensures !DataKey(StableKey(key)) && (ScriptRow(StableKey(key)) <==> SCRIPT_PREFIX[1..] <= key)
  {
    assert SCRIPT_PREFIX[0] == PREFIX_STABLE != PREFIX_LOG;
    assert SCRIPT_PREFIX == [PREFIX_STABLE] + SCRIPT_PREFIX[1..];
    if ScriptRow(StableKey(key)) {
      assert StableKey(key)[1..7] == SCRIPT_PREFIX[1..];
      assert key[..6] == StableKey(key)[1..7];
    }
    if SCRIPT_PREFIX[1..] <= key {
      assert StableKey(key)[..7] == [PREFIX_STABLE] + key[..6];
    }
  }

  lemma {:induction false} StoreAllLeaves(lc: LogCodec, rows: Rows, logs: seq<Log>, key: Bytes)
    requires key == [] || key[0] != PREFIX_LOG
    ensures SameAt(rows, StoreAll(lc, rows, logs), key)
    decreases |logs|
  {
    if logs != [] {
      StoreAllLeaves(lc, rows[LogKey(logs[0].index) := Row(PackLog(lc, logs[0]), 0)], logs[1..], key);
    }
  }

  /** A Raft operation leaves alone every row outside the log, but for the one stable row it writes. */
  lemma RaftEventLeaves(c: Codec, lc: LogCodec, rows: Rows, e: Event, key: Bytes)
    requires RaftEvent(e) && (key == [] || key[0] != PREFIX_LOG) && (e.Stable? ==> key != StableKey(e.key))
    ensures SameAt(rows, Happen(c, lc, rows, e), key)
  {
    match e {
      case StoreEntries(logs) => StoreAllLeaves(lc, rows, logs, key);
      case DeleteEntries(min, max) => DeleteAllRow(rows, min, max, key);
      case _ =>
    }
  }

  /** A stable value survives: over any mixed run that does not write its key again, and whose key does not begin
      with "CRIPT:", the row stays and so does what it reads as. */
  lemma {:induction false} StableSurvives(c: Codec, lc: LogCodec, rows: Rows, events: seq<Event>, key: Bytes,
                                          value: Bytes)
    requires !(SCRIPT_PREFIX[1..] <= key) && HoldsStable(rows, key, value)
    requires forall i :: 0 <= i < |events| ==> !(events[i].Stable? && events[i].key == key)
    ensures HoldsStable(History(c, lc, rows, events), key, value)
    decreases |events|
  {
    hide Happen;
    if events != [] {
      var e := events[0];
      RaftRowsAreOutside(0, key);
      if RaftEvent(e) {
        assert e.Stable? ==> StableKey(e.key)[1..] != StableKey(key)[1..];
        RaftEventLeaves(c, lc, rows, e, StableKey(key));
      } else {
        RedisEventLeaves(c, lc, rows, e, StableKey(key));
      }
      StableSurvives(c, lc, Happen(c, lc, rows, e), events[1..], key, value);
    }
  }

  /** What a Raft write does to the scripts: a stable key that begins with "CRIPT:" becomes a script, any
      other leaves every script as it was. */
  lemma StableAndScripts(rows: Rows, key: Bytes, value: Bytes, now: nat, sha: Bytes)
    ensures var rows' := rows[StableKey(key) := Row(value, 0)];
            if SCRIPT_PREFIX[1..] <= key
            then Get(rows', now, ScriptKey(key[6..])) == Some(Row(value, 0))
            else Get(rows', now, ScriptKey(sha)) == Get(rows, now, ScriptKey(sha))
  {
    RaftRowsAreOutside(0, key);
    if SCRIPT_PREFIX[1..] <= key {
      assert key == key[..6] + key[6..];
      assert SCRIPT_PREFIX + key[6..] == StableKey(key);
    } else {
      assert ScriptRow(ScriptKey(sha));
    }
  }

  // A loaded script stays callable.

  predicate HoldsScript(rows: Rows, sha: Bytes, script: Bytes) {
    ScriptKey(sha) in rows && rows[ScriptKey(sha)] == Row(script, 0)
  }

  /** A call that neither flushes the scripts nor loads another text under this digest. */
  predicate CallSpares(host: Host, callee: Callee, argv: seq<Bytes>, sha: Bytes, script: Bytes) {
    && !callee.FlushScripts?
    && (callee.LoadScript? && |PassedOn(argv)| == 1 && Digest(host, PassedOn(argv)[0]) == sha ==>
          PassedOn(argv)[0] == script)
  }

  predicate CallsSpare(host: Host, calls: seq<Scripts.Event>, sha: Bytes, script: Bytes) {
    forall i :: 0 <= i < |calls| ==> CallSpares(host, calls[i].callee, calls[i].argv, sha, script)
  }

  /** ... and an event that makes only such calls and does not write the row as a stable one. */
  predicate Spares(c: Codec, rows: Rows, e: Event, sha: Bytes, script: Bytes) {
    match e
    case Script(host, now, p, calls) => CallsSpare(host, Events(c, host, now, rows, p, [], calls), sha, script)
    case Storage(host, env, callee, argv) => CallSpares(host, callee, argv, sha, script)
    case Stable(key, value) => StableKey(key) != ScriptKey(sha)
    case _ => true
  }

  ghost predicate AllSpare(c: Codec, lc: LogCodec, rows: Rows, events: seq<Event>, sha: Bytes, script: Bytes)
    decreases |events|
  {
    events != [] ==>
      && Spares(c, rows, events[0], sha, script)
      && AllSpare(c, lc, Happen(c, lc, rows, events[0]), events[1..], sha, script)
  }

  lemma CallKeepsScript(c: Codec, host: Host, env: Env, rows: Rows, callee: Direct, argv: seq<Bytes>,
                        sha: Bytes, script: Bytes)
    requires HoldsScript(rows, sha, script) && CallSpares(host, callee, argv, sha, script)
    ensures HoldsScript(CallRedis(c, host, env, rows, callee, argv).rows, sha, script)
  {
    ScriptKeysAreNoData(sha);
    if callee.Do? {
      if LuaCommand(callee.op, argv).Accepted? {
        CommandTouchesData(c, env, rows, LuaCommand(callee.op, argv).cmd, ScriptKey(sha));
      }
    } else if callee.LoadScript? && |PassedOn(argv)| == 1 {
      var loaded := Digest(host, PassedOn(argv)[0]);
      if loaded != sha { assert ScriptKey(loaded)[7..] == loaded && ScriptKey(sha)[7..] == sha; }
    }
  }

  lemma {:induction false} CommitKeepsScript(c: Codec, host: Host, rows: Rows, calls: seq<Scripts.Event>,
                                             sha: Bytes, script: Bytes)
    requires HoldsScript(rows, sha, script) && CallsSpare(host, calls, sha, script)
    ensures HoldsScript(Commit(c, host, rows, calls), sha, script)
    decreases |calls|
  {
    hide CallRedis, HoldsScript, CallSpares;
    if calls != [] {
      var e := calls[0];
      assert CallSpares(host, calls[0].callee, calls[0].argv, sha, script);
      CallKeepsScript(c, host, e.env, rows, e.callee, e.argv, sha, script);
      var o := CallRedis(c, host, e.env, rows, e.callee, e.argv);
      CommitKeepsScript(c, host, if e.result.Failure? then rows else o.rows, calls[1..], sha, script);
    }
  }

  lemma EventKeepsScript(c: Codec, lc: LogCodec, rows: Rows, e: Event, sha: Bytes, script: Bytes)
    requires HoldsScript(rows, sha, script) && Spares(c, rows, e, sha, script)
    ensures HoldsScript(Happen(c, lc, rows, e), sha, script)
  {
    hide Exec, Events, Commit, CallRedis, ApplyInTxn, CallSpares, CallsSpare;
    ScriptKeysAreNoData(sha);
    assert ScriptKey(sha)[0] != PREFIX_LOG;
    match e {
      case Redis(step) => CommandTouchesData(c, step.env, rows, step.cmd, ScriptKey(sha));
      case Script(host, now, p, calls) =>
        ExecIsCommit(c, host, now, rows, p, [], calls);
        CommitKeepsScript(c, host, rows, Events(c, host, now, rows, p, [], calls), sha, script);
      case Storage(host, env, callee, argv) => CallKeepsScript(c, host, env, rows, callee, argv, sha, script);
      case _ => RaftEventLeaves(c, lc, rows, e, ScriptKey(sha));
    }
  }

  lemma {:induction false} ScriptSurvives(c: Codec, lc: LogCodec, rows: Rows, events: seq<Event>, sha: Bytes,
                                          script: Bytes)
    requires HoldsScript(rows, sha, script) && AllSpare(c, lc, rows, events, sha, script)
    ensures HoldsScript(History(c, lc, rows, events), sha, script)
    decreases |events|
  {
    hide Happen, Spares, HoldsScript;
    if events != [] {
      EventKeepsScript(c, lc, rows, events[0], sha, script);
      ScriptSurvives(c, lc, Happen(c, lc, rows, events[0]), events[1..], sha, script);
    }
  }

  /** After SCRIPT LOAD, any mixed run that spares the script and any time, EVALSHA with the digest asks for what
      EVAL with the text asks for. */
  lemma EvalShaIsEval(c: Codec, lc: LogCodec, host: Host, rows: Rows, script: Bytes, events: seq<Event>, later: nat,
                      rest: seq<Bytes>)
    requires AllSpare(c, lc, StoreScript(host, rows, [script]).rows, events, Digest(host, script), script)
    ensures var loaded, sha := StoreScript(host, rows, [script]).rows, Digest(host, script);
            EvalShaOf(History(c, lc, loaded, events), later, [sha] + rest) == EvalOf([script] + rest)
  {
    var loaded, sha := StoreScript(host, rows, [script]).rows, Digest(host, script);
    ScriptSurvives(c, lc, loaded, events, sha, script);
    assert ([sha] + rest)[1..] == rest && ([script] + rest)[1..] == rest;
  }

  // Redis does not notice the Raft traffic.

  /** The same Redis data and, where `scripts` says so, the same stored scripts. */
  ghost predicate SameRedis(a: Rows, b: Rows, scripts: bool) {
    SameData(a, b) && (scripts ==> SameScripts(a, b))
  }

  ghost predicate SameScripts(a: Rows, b: Rows) { forall key :: ScriptRow(key) ==> SameAt(a, b, key) }

  /** Calls whose answer depends on which scripts are stored. */
  predicate AsksForScripts(callee: Callee) { callee.ScriptsExist? || callee.EvalStored? }

  ghost predicate BlindProgram(p: Program) {
    forall history :: NextMove(p, history).Call? ==> !AsksForScripts(NextMove(p, history).callee)
  }

  ghost predicate BlindHost(host: Host) {
    forall script, keys, argv :: BlindProgram(Load(host, script, keys, argv))
  }

  lemma {:induction false} SameCount(a: Rows, b: Rows, now: nat, keys: seq<Bytes>)
    requires SameData(a, b)
    ensures CountVisible(a, now, keys) == CountVisible(b, now, keys)
  {
    hide SameData;
    if keys != [] {
      SameLook(a, b, now, keys[0]);
      SameCount(a, b, now, keys[1..]);
    }
  }

  lemma DoRespects(c: Codec, host: Host, env: Env, a: Rows, b: Rows, op: Op, argv: seq<Bytes>)
    requires SameData(a, b)
    ensures var x, y := CallRedis(c, host, env, a, Do(op), argv), CallRedis(c, host, env, b, Do(op), argv);
            x.result == y.result && SameData(x.rows, y.rows)
  {
    hide SameData, ApplyInTxn, LuaCommand;
    var parsed := LuaCommand(op, argv);
    if parsed.Accepted? {
      InTxnRespects(c, env, a, b, parsed.cmd);
    }
  }

  lemma InTxnRespects(c: Codec, env: Env, a: Rows, b: Rows, cmd: Command)
    requires SameData(a, b)
    ensures ApplyInTxn(c, env, a, cmd).result == ApplyInTxn(c, env, b, cmd).result
    ensures SameData(ApplyInTxn(c, env, a, cmd).rows, ApplyInTxn(c, env, b, cmd).rows)
  {
    hide SameData, ApplyInTxn;
    ApplyRespects(c, env, a, b, cmd);
    FailureWritesNothing(c, env, a, cmd);
    FailureWritesNothing(c, env, b, cmd);
  }

  lemma SameFlags(a: Rows, b: Rows, now: nat, shas: seq<Bytes>)
    requires SameScripts(a, b)
    ensures ScriptFlags(a, now, shas) == ScriptFlags(b, now, shas)
  {
    forall i | 0 <= i < |shas| ensures ScriptFlags(a, now, shas)[i] == ScriptFlags(b, now, shas)[i] {
      assert ScriptRow(ScriptKey(shas[i]));
    }
  }

  lemma StorageAnswers(c: Codec, host: Host, env: Env, a: Rows, b: Rows, callee: Direct, argv: seq<Bytes>,
                       scripts: bool)
    requires SameRedis(a, b, scripts) && !callee.Do? && (scripts || !AsksForScripts(callee))
    ensures CallRedis(c, host, env, a, callee, argv).result == CallRedis(c, host, env, b, callee, argv).result
  {
    if |argv| == 1 { assert DataKey(UserKey(argv[0])) && DataKey(TypeKey(argv[0])); }
    SameCount(a, b, env.now, argv);
    if scripts { SameFlags(a, b, env.now, PassedOn(argv)); }
    hide ScriptFlags, CountVisible;
  }

  lemma StorageRespects(c: Codec, host: Host, env: Env, a: Rows, b: Rows, callee: Direct, argv: seq<Bytes>)
    requires SameData(a, b) && !callee.Do?
    ensures SameData(CallRedis(c, host, env, a, callee, argv).rows, CallRedis(c, host, env, b, callee, argv).rows)
  {
    OtherCallsLeaveData(c, host, env, a, callee, argv);
    OtherCallsLeaveData(c, host, env, b, callee, argv);
    hide SameData, CallRedis;
    var x, y := CallRedis(c, host, env, a, callee, argv), CallRedis(c, host, env, b, callee, argv);
    SameDataFlips(a, x.rows, b);
    SameDataFlips(b, y.rows, x.rows);
    SameDataFlips(x.rows, b, y.rows);
  }

  lemma ScriptsRespect(c: Codec, host: Host, env: Env, a: Rows, b: Rows, callee: Direct, argv: seq<Bytes>)
    requires SameScripts(a, b)
    ensures SameScripts(CallRedis(c, host, env, a, callee, argv).rows, CallRedis(c, host, env, b, callee, argv).rows)
  {
    hide LuaCommand, ApplyInTxn;
    var x, y := CallRedis(c, host, env, a, callee, argv).rows, CallRedis(c, host, env, b, callee, argv).rows;
    forall key | ScriptRow(key) ensures SameAt(x, y, key) {
      assert SameAt(a, b, key);
      if callee.Do? && LuaCommand(callee.op, argv).Accepted? {
        assert key[0] == SCRIPT_PREFIX[0];
        CommandTouchesData(c, env, a, LuaCommand(callee.op, argv).cmd, key);
        CommandTouchesData(c, env, b, LuaCommand(callee.op, argv).cmd, key);
      }
    }
  }

  lemma CallRespects(c: Codec, host: Host, env: Env, a: Rows, b: Rows, callee: Direct, argv: seq<Bytes>, scripts: bool)
    requires SameRedis(a, b, scripts) && (scripts || !AsksForScripts(callee))
    ensures var x, y := CallRedis(c, host, env, a, callee, argv), CallRedis(c, host, env, b, callee, argv);
            x.result == y.result && SameRedis(x.rows, y.rows, scripts)
  {
    hide CallRedis, SameData, SameScripts;
    if callee.Do? {
      DoRespects(c, host, env, a, b, callee.op, argv);
    } else {
      StorageAnswers(c, host, env, a, b, callee, argv, scripts);
      StorageRespects(c, host, env, a, b, callee, argv);
    }
    if scripts { ScriptsRespect(c, host, env, a, b, callee, argv); }
  }

  /** The same end, and the same rows as far as Redis can tell. */
  ghost predicate SameEnding(x: Ending, y: Ending, scripts: bool) {
    && SameRedis(x.rows, y.rows, scripts)
    && (x.Finished? <==> y.Finished?) && (x.Failed? <==> y.Failed?) && (x.Finished? ==> x.value == y.value)
  }

  ghost predicate SameReached(x: Reached, y: Reached, scripts: bool) {
    SameRedis(x.rows, y.rows, scripts) && (x.Answered? <==> y.Answered?) && (x.Answered? ==> x.result == y.result)
  }

  lemma {:induction false} ExecRespects(c: Codec, host: Host, now: nat, a: Rows, b: Rows, p: Program,
                                        history: seq<Result>, calls: nat, scripts: bool)
    requires SameRedis(a, b, scripts) && (scripts || (BlindProgram(p) && BlindHost(host)))
    ensures SameEnding(Exec(c, host, now, a, p, history, calls), Exec(c, host, now, b, p, history, calls), scripts)
    decreases calls, 0
  {
    hide SameRedis, CallRedis, BlindHost;
    var move := NextMove(p, history);
    if move.Call? && calls > 0 {
      var env := Env(now, move.order);
      assert scripts || !AsksForScripts(move.callee);
      var x := Reach(c, host, env, a, move.callee, move.argv, calls - 1);
      var y := Reach(c, host, env, b, move.callee, move.argv, calls - 1);
      ReachRespects(c, host, env, a, b, move.callee, move.argv, calls - 1, scripts);
      hide Reach;
      if x.Answered? && !Fatal(move.guard, x.result) {
        ExecRespects(c, host, now, x.rows, y.rows, p, history + [x.result], calls - 1, scripts);
      }
    }
  }

  lemma RequestRespects(a: Rows, b: Rows, now: nat, callee: Callee, argv: seq<Bytes>, scripts: bool)
    requires SameRedis(a, b, scripts) && CallsScript(callee) && (scripts || !AsksForScripts(callee))
    ensures RequestOf(a, now, callee, argv) == RequestOf(b, now, callee, argv)
  {
    hide SameData;
    var args := PassedOn(argv);
    if callee.EvalStored? && |args| >= 2 { assert ScriptRow(ScriptKey(args[0])); }
  }

  lemma {:induction false} ReachRespects(c: Codec, host: Host, env: Env, a: Rows, b: Rows, callee: Callee,
                                         argv: seq<Bytes>, calls: nat, scripts: bool)
    requires SameRedis(a, b, scripts) && (scripts || (!AsksForScripts(callee) && BlindHost(host)))
    ensures SameReached(Reach(c, host, env, a, callee, argv, calls), Reach(c, host, env, b, callee, argv, calls),
                        scripts)
    decreases calls, 1
  {
    hide SameRedis, CallRedis;
    if !CallsScript(callee) {
      CallRespects(c, host, env, a, b, callee, argv, scripts);
    } else {
      var req := RequestOf(a, env.now, callee, argv);
      RequestRespects(a, b, env.now, callee, argv, scripts);
      hide RequestOf;
      if req.Eval? {
        assert scripts || BlindProgram(Load(host, req.script, req.keys, req.argv));
        ExecRespects(c, host, env.now, a, b, Load(host, req.script, req.keys, req.argv), [], calls, scripts);
      }
    }
  }

  /** What an event answers to its client: nothing for a Raft operation or a script that has not ended. */
  function AnswerTo(c: Codec, rows: Rows, e: Event): seq<Result> {
    match e
    case Redis(step) => [Apply(c, step.env, rows, step.cmd).result]
    case Storage(host, env, callee, argv) => [CallRedis(c, host, env, rows, callee, argv).result]
    case Script(host, now, p, calls) =>
      (match Exec(c, host, now, rows, p, [], calls)
       case Finished(_, value) => [Success(value)]
       case Failed(_) => [Failure(ScriptError)]
       case Unfinished(_) => [])
    case _ => []
  }

  function Answers(c: Codec, lc: LogCodec, rows: Rows, events: seq<Event>): seq<Result>
    decreases |events|
  {
    if events == [] then []
    else AnswerTo(c, rows, events[0]) + Answers(c, lc, Happen(c, lc, rows, events[0]), events[1..])
  }

  /** The run without its Raft operations. */
  function WithoutRaft(events: seq<Event>): seq<Event> {
    if events == [] then []
    else (if RaftEvent(events[0]) then [] else [events[0]]) + WithoutRaft(events[1..])
  }

  /** An event that does not ask which scripts are stored. */
  ghost predicate Blind(e: Event) {
    match e
    case Script(host, _, p, _) => BlindProgram(p) && BlindHost(host)
    case Storage(_, _, callee, _) => !AsksForScripts(callee)
    case _ => true
  }

  /** What a mixed run needs for its Raft operations to go unnoticed: no stable write lands among the scripts, or
      nothing asks for them. */
  ghost predicate Discreet(e: Event, scripts: bool) {
    if scripts then !(e.Stable? && SCRIPT_PREFIX[1..] <= e.key) else Blind(e)
  }

  lemma EventRespects(c: Codec, lc: LogCodec, a: Rows, b: Rows, e: Event, scripts: bool)
    requires SameRedis(a, b, scripts) && Discreet(e, scripts) && !RaftEvent(e)
    ensures AnswerTo(c, a, e) == AnswerTo(c, b, e)
    ensures SameRedis(Happen(c, lc, a, e), Happen(c, lc, b, e), scripts)
  {
    hide SameData, SameScripts, CallRedis, Exec, Apply, BlindProgram, BlindHost;
    match e {
      case Redis(step) =>
        ApplyRespects(c, step.env, a, b, step.cmd);
        if scripts { ApplyKeepsScripts(c, step.env, a, b, step.cmd); }
      case Script(host, now, p, calls) => ExecRespects(c, host, now, a, b, p, [], calls, scripts);
      case Storage(host, env, callee, argv) => CallRespects(c, host, env, a, b, callee, argv, scripts);
      case _ =>
    }
  }

  lemma ApplyKeepsScripts(c: Codec, env: Env, a: Rows, b: Rows, cmd: Command)
    requires SameScripts(a, b)
    ensures SameScripts(Apply(c, env, a, cmd).rows, Apply(c, env, b, cmd).rows)
  {
    hide ApplyInTxn;
    forall key | ScriptRow(key) ensures SameAt(Apply(c, env, a, cmd).rows, Apply(c, env, b, cmd).rows, key) {
      assert SameAt(a, b, key) && key[0] == SCRIPT_PREFIX[0];
      CommandTouchesData(c, env, a, cmd, key);
      CommandTouchesData(c, env, b, cmd, key);
    }
  }

  /** Non-interference: the answers and the Redis data of a mixed run of commands, scripts, script storage and
      Raft operations are those of the run without the Raft operations, from any store with the same data. So are
      the stored scripts, if no stable key begins with "CRIPT:"; otherwise nothing may ask for them. */
  lemma {:induction false} RaftIsInvisible(c: Codec, lc: LogCodec, a: Rows, b: Rows, events: seq<Event>, scripts: bool)
    requires (forall i :: 0 <= i < |events| ==> Discreet(events[i], scripts)) && SameRedis(a, b, scripts)
    ensures Answers(c, lc, a, events) == Answers(c, lc, b, WithoutRaft(events))
    ensures SameRedis(History(c, lc, a, events), History(c, lc, b, WithoutRaft(events)), scripts)
    decreases |events|
  {
    hide SameRedis, Happen, AnswerTo, Discreet;
    if events != [] {
      var e, rest := events[0], events[1..];
      var a' := Happen(c, lc, a, e);
      assert Discreet(events[0], scripts) && forall i :: 0 <= i < |rest| ==> rest[i] == events[i + 1];
      if RaftEvent(e) {
        RaftKeepsRedis(c, lc, a, b, e, scripts);
        RaftIsInvisible(c, lc, a', b, rest, scripts);
        assert WithoutRaft(events) == WithoutRaft(rest);
      } else {
        EventRespects(c, lc, a, b, e, scripts);
        RaftIsInvisible(c, lc, a', Happen(c, lc, b, e), rest, scripts);
        assert WithoutRaft(events)[1..] == WithoutRaft(rest) && WithoutRaft(events)[0] == e;
      }
    }
  }

  lemma RaftKeepsRedis(c: Codec, lc: LogCodec, a: Rows, b: Rows, e: Event, scripts: bool)
    requires RaftEvent(e) && SameRedis(a, b, scripts) && Discreet(e, scripts)
    ensures AnswerTo(c, a, e) == [] && SameRedis(Happen(c, lc, a, e), b, scripts)
  {
    hide Happen, Blind;
    forall key | DataKey(key) ensures SameAt(Happen(c, lc, a, e), b, key) {
      assert key[0] != PREFIX_LOG && (e.Stable? ==> key[0] != StableKey(e.key)[0]);
      RaftEventLeaves(c, lc, a, e, key);
      assert SameAt(a, b, key);
    }
    if scripts {
      forall key | ScriptRow(key) ensures SameAt(Happen(c, lc, a, e), b, key) {
        assert key[0] == SCRIPT_PREFIX[0] != PREFIX_LOG;
        if e.Stable? { RaftRowsAreOutside(0, e.key); }
        RaftEventLeaves(c, lc, a, e, key);
        assert SameAt(a, b, key);
      }
    }
  }

  // The Raft log through mixed runs.

  /** What one event does to the log. */
  function ViewAfter(v: LogView, e: Event): LogView {
    match e
    case StoreEntries(logs) => Stored(v, logs)
    case DeleteEntries(min, max) => Deleted(v, min, max)
    case _ => v
  }

  /** What Raft asks of its store: contiguous entries, and deletion from one end. */
  predicate Legal(v: LogView, e: Event) {
    match e
    case StoreEntries(logs) => Storable(v, logs)
    case DeleteEntries(min, max) => FromAnEnd(v, min, max) && max < 0xFFFF_FFFF_FFFF_FFFF
    case _ => true
  }

  ghost predicate LegalRun(v: LogView, events: seq<Event>)
    decreases |events|
  {
    events != [] ==> Legal(v, events[0]) && LegalRun(ViewAfter(v, events[0]), events[1..])
  }

  function FinalView(v: LogView, events: seq<Event>): LogView
    decreases |events|
  {
    if events == [] then v else FinalView(ViewAfter(v, events[0]), events[1..])
  }

  lemma EventKeepsHoused(c: Codec, lc: LogCodec, rows: Rows, e: Event, key: Bytes)
    requires Namespaced(rows) && key in Happen(c, lc, rows, e)
    ensures Housed(key)
  {
    if !DataKey(key) && !ScriptRow(key) {
      match e {
        case StoreEntries(logs) => StoreAllKeys(lc, rows, logs, key);
        case DeleteEntries(min, max) => DeleteAllRow(rows, min, max, key);
        case Stable(_, _) =>
        case _ => RedisEventLeaves(c, lc, rows, e, key);
      }
    } else if ScriptRow(key) {
      assert key[0] == SCRIPT_PREFIX[0];
    }
  }

  lemma {:induction false} StoreAllKeys(lc: LogCodec, rows: Rows, logs: seq<Log>, key: Bytes)
    requires Namespaced(rows) && key in StoreAll(lc, rows, logs)
    ensures Housed(key)
    decreases |logs|
  {
    if logs != [] { StoreAllKeys(lc, rows[LogKey(logs[0].index) := Row(PackLog(lc, logs[0]), 0)], logs[1..], key); }
  }

  lemma EventKeepsLog(c: Codec, lc: LogCodec, rows: Rows, v: LogView, e: Event)
    requires HoldsLog(lc, rows, v) && Legal(v, e)
    ensures HoldsLog(lc, Happen(c, lc, rows, e), ViewAfter(v, e))
  {
    match e {
      case StoreEntries(logs) => StoreAllHolds(lc, rows, v, logs);
      case DeleteEntries(min, max) => DeleteAllHolds(lc, rows, v, min, max);
      case _ =>
        forall i: nat | IsUint64(i) ensures HoldsAt(lc, Happen(c, lc, rows, e), v, i) {
          assert HoldsAt(lc, rows, v, i);
          RaftRowsAreOutside(i, []);
          if !e.Stable? { RedisEventLeaves(c, lc, rows, e, LogKey(i)); }
        }
    }
  }

  /** The log interval theorem: over every mixed run of legal Raft operations, Redis commands, scripts and
      stable writes, the log rows are one interval with the stored entries, and every row stays in its
      name space. So FirstIndex, LastIndex and GetLog answer from that interval. */
  lemma {:induction false} LogStaysAnInterval(c: Codec, lc: LogCodec, rows: Rows, v: LogView, events: seq<Event>)
    requires HoldsLog(lc, rows, v) && Namespaced(rows) && LegalRun(v, events)
    ensures HoldsLog(lc, History(c, lc, rows, events), FinalView(v, events))
    ensures Namespaced(History(c, lc, rows, events))
    decreases |events|
  {
    if events != [] {
      var e := events[0];
      EventKeepsLog(c, lc, rows, v, e);
      forall key | key in Happen(c, lc, rows, e) ensures Housed(key) { EventKeepsHoused(c, lc, rows, e, key); }
      LogStaysAnInterval(c, lc, Happen(c, lc, rows, e), ViewAfter(v, e), events[1..]);
    }
  }

  lemma FreshStoreHoldsNoLog(lc: LogCodec)
    ensures HoldsLog(lc, map[], LogView(0, [])) && Namespaced(map[])
  {
  }
}
