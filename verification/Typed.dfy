/** The reference semantics: one map from a key to a typed value with a deadline.

    No rows, no encoding, no type row, no iteration order (except for which members SPOP
    takes): this is what a client of the state machine is meant to see. */
module Typed {
  import opened Octets
  import opened Decimal
  import opened Collections
  import opened Store
  import opened Commands
  import Fsm

  datatype Value =
    | Str(bytes: Bytes)
    | Hash(fields: map<Bytes, Bytes>)
    | List(items: seq<Bytes>)
    | Members(members: set<Bytes>)

  datatype Entry = Entry(value: Value, deadline: nat)
  type Db = map<Bytes, Entry>

  function Lookup(db: Db, now: nat, key: Bytes): Option<Entry> {
    if key in db && Unexpired(db[key].deadline, now) then Some(db[key]) else None
  }

  /** What becomes of one key, and the answer. */
  datatype Verdict = Verdict(entry: Option<Entry>, result: Result)

  function Refuse(cur: Option<Entry>, fault: Fault): Verdict { Verdict(cur, Failure(fault)) }
  function Answer(cur: Option<Entry>, reply: Reply): Verdict { Verdict(cur, Success(reply)) }

  /** A value written over `cur`, keeping its deadline. */
  function Rewrite(env: Env, cur: Option<Entry>, value: Value, reply: Reply): Verdict {
    var deadline := if cur.Some? then Carried(cur.value.deadline, env.now) else 0;
    Verdict(Some(Entry(value, deadline)), Success(reply))
  }

  predicate IsEmpty(value: Value) {
    match value
    case Str(_) => false
    case Hash(h) => h == map[]
    case List(l) => l == []
    case Members(s) => s == {}
  }

  /** As Rewrite, but an empty collection is no key at all. */
  function RewriteOrRemove(env: Env, cur: Option<Entry>, value: Value, reply: Reply): Verdict {
    if IsEmpty(value) then Verdict(None, Success(reply)) else Rewrite(env, cur, value, reply)
  }

  function StringStep(env: Env, cur: Option<Entry>, cmd: Command): Verdict {
    if |cmd.args| == 0 then Refuse(cur, BadArity)
    else if cur.Some? && !cur.value.value.Str? then Refuse(cur, WrongType)
    else
      var old_ := if cur.Some? then cur.value.value.bytes else [];
      if cmd.op == Append then
        var value := old_ + cmd.args[0];
        if (cmd.condition == IfAbsent && cur.Some?) || (cmd.condition == IfPresent && cur.None?)
        then Answer(cur, Int(|value|))
        else if cmd.ttlMs == 0 then Rewrite(env, cur, Str(value), Int(|value|))
        else Verdict(Some(Entry(Str(value), DeadlineFor(env.now, cmd.ttlMs))), Success(Int(|value|)))
      else
        var before := if cur.Some? then Bulk(old_) else Nil;
        var wantsOld := cmd.returnOld || cmd.op == GetSet;
        if (cmd.condition == IfAbsent && cur.Some?) || (cmd.condition == IfPresent && cur.None?)
        then Answer(cur, if wantsOld then before else Nil)
        else Verdict(Some(Entry(Str(cmd.args[0]), DeadlineFor(env.now, cmd.ttlMs))),
                     Success(if wantsOld then before else Ok))
  }

  function CounterStep(env: Env, cur: Option<Entry>, cmd: Command): Verdict {
    if cur.Some? && !cur.value.value.Str? then Refuse(cur, WrongType) else
    var old_ := if cur.Some? then ParseInt(cur.value.value.bytes) else Good(0);
    if !old_.Good? then Refuse(cur, NotInteger) else
    match Fsm.Delta(cmd)
    case Failure(fault) => Refuse(cur, fault)
    case Success(delta) =>
      var n := Fsm.Bumped(cmd.op, old_.n, if delta.Int? then delta.n else 0);
      Rewrite(env, cur, Str(FormatInt(n)), Int(n))
  }

  function ExpireStep(env: Env, cur: Option<Entry>, cmd: Command): Verdict {
    if cur.None? then Answer(cur, Int(0))
    else Verdict(Some(Entry(cur.value.value, Deadline(env.now, cmd.ttlMs))), Success(Int(1)))
  }

  function PersistStep(cur: Option<Entry>): Verdict {
    if cur.None? || cur.value.deadline == 0 then Answer(cur, Int(0))
    else Verdict(Some(Entry(cur.value.value, 0)), Success(Int(1)))
  }

  function LegacyDelStep(cur: Option<Entry>, cmd: Command): Verdict {
    if cmd.key != [] && cur.Some? then Verdict(None, Success(Int(1))) else Answer(cur, Int(0))
  }

  function HSetStep(env: Env, cur: Option<Entry>, cmd: Command): Verdict {
    if |cmd.args| % 2 != 0 then Refuse(cur, BadArity)
    else if cur.Some? && !cur.value.value.Hash? then Refuse(cur, WrongType)
    else
      var old_ := if cur.Some? then cur.value.value.fields else map[];
      var h := PutAll(old_, cmd.args, cmd.op == HSetNx);
      Rewrite(env, cur, Hash(h), Int(|h| - |old_|))
  }

  function HDelStep(env: Env, cur: Option<Entry>, cmd: Command): Verdict {
    if cur.None? then Answer(cur, Int(0))
    else if !cur.value.value.Hash? then Refuse(cur, WrongType)
    else
      var old_ := cur.value.value.fields;
      var h := old_ - ToSet(cmd.args);
      RewriteOrRemove(env, cur, Hash(h), Int(|old_| - |h|))
  }

  function PushStep(env: Env, cur: Option<Entry>, cmd: Command): Verdict {
    if cur.Some? && !cur.value.value.List? then Refuse(cur, WrongType)
    else if cur.None? && (cmd.op == LPushX || cmd.op == RPushX) then Answer(cur, Int(0))
    else
      var l := Push(if cur.Some? then cur.value.value.items else [], cmd.args, Fsm.AtFront(cmd.op));
      Rewrite(env, cur, List(l), Int(|l|))
  }

  function PopStep(env: Env, cur: Option<Entry>, cmd: Command): Verdict {
    if cur.None? then Answer(cur, Nil)
    else if !cur.value.value.List? then Refuse(cur, WrongType)
    else
      var old_ := cur.value.value.items;
      if old_ == [] then Answer(cur, Nil)
      else if Fsm.PopCount(cmd.args).None? then Refuse(cur, NotInteger)
      else
        var count := Fsm.PopCount(cmd.args).value;
        var n := if count > |old_| then |old_| else count;
        var popped := Popped(old_, n, Fsm.AtFront(cmd.op));
        RewriteOrRemove(env, cur, List(AfterPop(old_, n, Fsm.AtFront(cmd.op))),
                        if cmd.args != [] then Multi(popped) else Bulk(popped[0]))
  }

  function TrimStep(env: Env, cur: Option<Entry>, cmd: Command): Verdict {
    if cur.Some? && !cur.value.value.List? then Refuse(cur, WrongType)
    else if |cmd.args| < 2 then Refuse(cur, Panic)
    else
      var old_ := if cur.Some? then cur.value.value.items else [];
      RewriteOrRemove(env, cur, List(Slice(old_, Atoi(cmd.args[0]), Atoi(cmd.args[1]))), Ok)
  }

  function RemStep(env: Env, cur: Option<Entry>, cmd: Command): Verdict {
    if cur.Some? && !cur.value.value.List? then Refuse(cur, WrongType)
    else if |cmd.args| < 2 then Refuse(cur, Panic)
    else
      var old_ := if cur.Some? then cur.value.value.items else [];
      var l := Kept(old_, Atoi(cmd.args[0]), cmd.args[1]);
      RewriteOrRemove(env, cur, List(l), Int(|old_| - |l|))
  }

  function SAddStep(env: Env, cur: Option<Entry>, cmd: Command): Verdict {
    if cur.Some? && !cur.value.value.Members? then Refuse(cur, WrongType)
    else
      var old_ := if cur.Some? then cur.value.value.members else {};
      Rewrite(env, cur, Members(old_ + ToSet(cmd.args)), Int(Added(old_, cmd.args)))
  }

  function SRemStep(env: Env, cur: Option<Entry>, cmd: Command): Verdict {
    if cur.None? then Answer(cur, Int(0))
    else if !cur.value.value.Members? then Refuse(cur, WrongType)
    else
      var old_ := cur.value.value.members;
      var s := old_ - ToSet(cmd.args);
      RewriteOrRemove(env, cur, Members(s), Int(|old_| - |s|))
  }

  function SPopStep(env: Env, cur: Option<Entry>, cmd: Command): Verdict {
    if cur.None? then Answer(cur, if cmd.args != [] then Multi([]) else Nil)
    else if !cur.value.value.Members? then Refuse(cur, WrongType)
    else
      var old_ := cur.value.value.members;
      var taken := Fsm.Taken(env, old_, cmd.args);
      RewriteOrRemove(env, cur, Members(old_ - ToSet(taken)),
                      if cmd.args != [] then Multi(taken) else if taken == [] then Nil else Bulk(taken[0]))
  }

  function KeyStep(env: Env, cur: Option<Entry>, cmd: Command): Verdict {
    match Fsm.FamilyOf(cmd.op)
    case Strings => StringStep(env, cur, cmd)
    case Counters => CounterStep(env, cur, cmd)
    case Expiring => ExpireStep(env, cur, cmd)
    case Persisting => PersistStep(cur)
    case Deletion => LegacyDelStep(cur, cmd)
    case HashWrites => HSetStep(env, cur, cmd)
    case HashDrops => HDelStep(env, cur, cmd)
    case Pushes => PushStep(env, cur, cmd)
    case Pops => PopStep(env, cur, cmd)
    case Trims => TrimStep(env, cur, cmd)
    case Removals => RemStep(env, cur, cmd)
    case SetWrites => SAddStep(env, cur, cmd)
    case SetDrops => SRemStep(env, cur, cmd)
    case SetPops => SPopStep(env, cur, cmd)
    case _ => Refuse(cur, UnknownOp)
  }

  function Assign(db: Db, key: Bytes, entry: Option<Entry>): Db {
    match entry
    case None => db - {key}
    case Some(e) => db[key := e]
  }

  function PutStrings(db: Db, pairs: seq<Bytes>): Db
    requires |pairs| % 2 == 0
    decreases |pairs|
  {
    if pairs == [] then db else PutStrings(db[pairs[0] := Entry(Str(pairs[1]), 0)], pairs[2..])
  }

  datatype Outcome = Outcome(db: Db, result: Result)

  function Apply(env: Env, db: Db, cmd: Command): Outcome {
    if cmd.op == MSet then
      if |cmd.args| % 2 != 0 then Outcome(db, Failure(BadArity))
      else Outcome(PutStrings(db, cmd.args), Success(Ok))
    else if cmd.op == Del && cmd.args != [] then
      var gone := set k | k in cmd.args && Lookup(db, env.now, k).Some?;
      Outcome(db - ToSet(cmd.args), Success(Int(|gone|)))
    else if cmd.op == FlushDb then
      Outcome(map[], Success(Ok))
    else
      var v := KeyStep(env, Lookup(db, env.now, cmd.key), cmd);
      Outcome(Assign(db, cmd.key, v.entry), v.result)
  }

  function Run(db: Db, steps: seq<Fsm.Step>): Db
    decreases |steps|
  {
    if steps == [] then db else Run(Apply(steps[0].env, db, steps[0].cmd).db, steps[1..])
  }

  function Results(db: Db, steps: seq<Fsm.Step>): (r: seq<Result>)
    ensures |r| == |steps|
    decreases |steps|
  {
    if steps == [] then []
    else
      var o := Apply(steps[0].env, db, steps[0].cmd);
      [o.result] + Results(o.db, steps[1..])
  }
}
