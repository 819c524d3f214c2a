/** The Lua bridge beside the request handlers: where a command in a script is the command a client would have sent,
    and where it is not. */
module Bridge {
  import opened Octets
  import opened Decimal
  import opened Store
  import opened Commands
  import opened Fsm
  import opened Refinement
  import opened Readers
  import opened SetOptions
  import opened TypeRows
  import opened Handlers
  import opened DataRows
  import opened Scripts
  import opened Isolation
  import RaftLog

  /** What the bridge and a handler read alike: every command but SET, whose options have laws of their own, and
      four that have no key as their first word, or a number in their last. */
  predicate Alike(op: Op) { op != Set && op != MSet && op != Del && op != FlushDb && op != Expire && op != Unknown }

  /** The words of a request, sent from a script, become the command the handler builds from them. */
  lemma BridgeIsHandler(op: Op, name: Bytes, argv: seq<Bytes>, nowMs: int)
    requires Alike(op) && Arity(op, |argv| + 1) && Readable(op, [name] + argv, nowMs)
    ensures var parsed := LuaCommand(op, argv);
            && parsed.Accepted? && parsed.cmd.op == op
            && HandlerBuilt(parsed.cmd) && Says(parsed.cmd, [name] + argv, nowMs)
  {
    hide ParseInt;
    var request := [name] + argv;
    assert request[2..] == argv[1..] && request[1] == argv[0];
  }

  /** DEL of two and more keys in a script spares the first. */
  lemma DelSparesTheFirst(c: Codec, host: Host, env: Env, rows: Rows, key: Bytes, others: seq<Bytes>)
    requires others != [] && key !in others
    ensures var o := CallRedis(c, host, env, rows, Do(Del), [key] + others);
            && o.result == Success(Int(|VisibleKeys(rows, env.now, others)|))
            && SameRows(rows, o.rows, key)
            && forall k :: k in others ==> !Sees(o.rows, env.now, UserKey(k))
  {
    var argv := [key] + others;
    assert argv[1..] == others;
    DelAllEffect(rows, env.now, others, key);
    forall k | k in others ensures !Sees(DelAll(rows, env.now, others), env.now, UserKey(k)) {
      DelAllEffect(rows, env.now, others, k);
    }
    hide DelAll, VisibleKeys;
  }

  /** MSET of pairs in a script is always turned away, because the first key does not count as an argument. */
  lemma MSetIsTurnedAway(c: Codec, host: Host, env: Env, rows: Rows, pairs: seq<Bytes>)
    requires pairs != [] && |pairs| % 2 == 0
    ensures CallRedis(c, host, env, rows, Do(MSet), pairs) == Outcome(rows, Failure(BadArity))
  {
  }

  /** EXPIRE in a script loses its seconds: after second 0 of the clock it ends the key at once. */
  lemma ExpireEndsTheKey(c: Codec, host: Host, env: Env, rows: Rows, key: Bytes, rest: seq<Bytes>)
    requires Sees(rows, env.now, UserKey(key)) && 0 < Second(env.now) < 0x1_0000_0000_0000_0000
    ensures var o := CallRedis(c, host, env, rows, Do(Expire), [key] + rest);
            o.result == Success(Int(1)) && !Sees(o.rows, env.now, UserKey(key))
  {
    assert Deadline(env.now, 0) == Second(env.now);
    hide Deadline;
    var cmd := LuaCommand(Expire, [key] + rest).cmd;
    ApplyOnKey(c, env, rows, cmd);
  }

  // Script storage.

  /** SCRIPT EXISTS tells what EVALSHA will find, digest by digest. */
  lemma ExistsTellsEvalSha(rows: Rows, now: nat, shas: seq<Bytes>, i: nat, rest: seq<Bytes>)
    requires i < |shas| && rest != []
    ensures |ScriptFlags(rows, now, shas)| == |shas|
    ensures ScriptFlags(rows, now, shas)[i]
            == if EvalShaOf(rows, now, [shas[i]] + rest) == BadEval(NoScript) then 0 else 1
  {
    hide ParseInt;
    assert ([shas[i]] + rest)[0] == shas[i];
  }

  /** After SCRIPT LOAD the digest is flagged; after SCRIPT FLUSH none is, and data is as before. */
  lemma FlushForgetsScripts(c: Codec, host: Host, env: Env, rows: Rows, argv: seq<Bytes>, sha: Bytes)
    ensures var o := CallRedis(c, host, env, rows, FlushScripts, argv);
            o.result == Success(Ok) && !Sees(o.rows, env.now, ScriptKey(sha)) && SameData(rows, o.rows)
  {
    OtherCallsLeaveData(c, host, env, rows, FlushScripts, argv);
    hide SameData;
    assert SCRIPT_PREFIX <= ScriptKey(sha);
  }

  lemma LoadedIsThere(c: Codec, host: Host, env: Env, rows: Rows, name: Bytes, script: Bytes, now: nat)
    ensures var o, sha := CallRedis(c, host, env, rows, LoadScript, [name, script]), Digest(host, script);
            && o.result == Success(Bulk(sha)) && ScriptFlags(o.rows, now, [sha]) == [1]
            && Get(o.rows, now, ScriptKey(sha)) == Some(Row(script, 0))
  {
    assert PassedOn([name, script]) == [script];
  }

  /** A script that calls EVAL has its first word dropped, like the key of any other command. */
  lemma NestedEvalDropsAWord(rows: Rows, now: nat, word: Bytes, args: seq<Bytes>)
    ensures Scripts.RequestOf(rows, now, EvalText, [word] + args) == EvalOf(args)
    ensures Scripts.RequestOf(rows, now, EvalStored, [word] + args) == EvalShaOf(rows, now, args)
  {
    assert PassedOn([word] + args) == args;
    hide ParseInt;
  }

  // Events of a mixed run are the operations.

  /** A script event is the EVAL of its request, and a stable event leaves its value. */
  lemma EventIsOperation(c: Codec, lc: RaftLog.LogCodec, host: Host, now: nat, rows: Rows, req: EvalRequest, calls: nat,
                         key: Bytes, value: Bytes)
    requires req.Eval?
    ensures var e := Script(host, now, Load(host, req.script, req.keys, req.argv), calls);
            match ApplyEval(c, host, now, rows, req, calls)
            case None => Happen(c, lc, rows, e) == rows && AnswerTo(c, rows, e) == []
            case Some(o) => Happen(c, lc, rows, e) == o.rows && AnswerTo(c, rows, e) == [o.result]
    ensures RaftLog.HoldsStable(Happen(c, lc, rows, Stable(key, value)), key, value)
  {
    hide Exec;
  }

  /** A SET in a script is turned away for its arity, for a missing or a bad number, and writes nothing then. */
  lemma BadSetInScript(c: Codec, host: Host, env: Env, rows: Rows, argv: seq<Bytes>)
    ensures var o := CallRedis(c, host, env, rows, Do(Set), argv);
            match LuaCommand(Set, argv)
            case Rejected(why) => o == Outcome(rows, Failure(if why == NotAnInteger then NotInteger else BadArity))
            case Accepted(cmd) => cmd.op == Set ==> o == ApplyInTxn(c, env, rows, cmd)
    ensures |argv| < 2 <==> LuaCommand(Set, argv) == Rejected(WrongArity)
    ensures |argv| >= 2 ==> (LuaCommand(Set, argv).Accepted? <==> NumbersParse(argv[2..]))
  {
    hide LuaReading, ApplyInTxn, NumbersParse;
    if |argv| >= 2 {
      AcceptedLists(argv[2..], Bare(argv[0], argv[1]), 0);
      NoArityInOptions(argv[2..], Bare(argv[0], argv[1]));
    }
  }

  lemma {:induction false} NoArityInOptions(tokens: seq<Bytes>, cmd: Command)
    ensures LuaReading(tokens, cmd) != Rejected(WrongArity)
    decreases |tokens|
  {
    hide ParseInt, OptionOf, Ttl;
    if tokens != [] {
      match OptionOf(tokens[0]) {
        case Condition(c) => NoArityInOptions(tokens[1..], cmd.(condition := c));
        case ReturnOld => NoArityInOptions(tokens[1..], cmd.(returnOld := true));
        case Seconds | Millis =>
          if |tokens| > 1 && ParseInt(tokens[1]).Good? {
            NoArityInOptions(tokens[2..], cmd.(ttlMs := Ttl(OptionOf(tokens[0]), ParseInt(tokens[1]).n, 0)));
          }
        case _ => NoArityInOptions(tokens[1..], cmd);
      }
    }
  }
}
