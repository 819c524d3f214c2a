/** The replicated state machine of store/fsm.go, row by row.

    A command on one key looks at the key's two rows, decides on one effect and a result, and
    performs the effect. MSET, DEL and FLUSHDB reach several keys. */
module Fsm {
  import opened Octets
  import opened Decimal
  import opened Collections
  import opened Store
  import opened Commands

  /** What a transaction sees of a key: its value, the type it reads as and its deadline. */
  datatype Cell = Absent | Cell(value: Bytes, kind: Bytes, deadline: nat)

  /** The visible type row, or "string" where there is none. */
  function ExistingType(rows: Rows, now: nat, key: Bytes): Bytes {
    match Get(rows, now, TypeKey(key))
    case None => Tag(StringKind)
    case Some(row) => row.value
  }

  function Look(rows: Rows, now: nat, key: Bytes): Cell {
    match Get(rows, now, UserKey(key))
    case None => Absent
    case Some(row) => Cell(row.value, ExistingType(rows, now, key), row.deadline)
  }

  /** `Retime` and `Unlink` touch the value row only. */
  datatype Effect =
    | Keep
    | Put(value: Bytes, kind: Bytes, ttlMs: int)
    | Remove
    | Retime(ttlMs: int)
    | Unlink

  function Perform(rows: Rows, now: nat, key: Bytes, e: Effect): Rows {
    match e
    case Keep => rows
    case Put(value, kind, ttlMs) => SetValue(rows, now, key, value, kind, ttlMs)
    case Remove => DropKey(rows, key)
    case Retime(ttlMs) =>
      if UserKey(key) in rows
      then rows[UserKey(key) := Row(rows[UserKey(key)].value, Deadline(now, ttlMs))]
      else rows
    case Unlink => rows - {UserKey(key)}
  }

  datatype Decision = Decision(effect: Effect, result: Result)

  function Refuse(fault: Fault): Decision { Decision(Keep, Failure(fault)) }
  function Answer(reply: Reply): Decision { Decision(Keep, Success(reply)) }
  function Write(value: Bytes, kind: Kind, ttlMs: int, reply: Reply): Decision {
    Decision(Put(value, Tag(kind), ttlMs), Success(reply))
  }

  /** A collection read back for a command: missing, refused, or decoded with its TTL. */
  datatype Fetched<T> = Missing | Refused(fault: Fault) | Found(value: T, ttlMs: int)

  function FetchHash(c: Codec, env: Env, cell: Cell): Fetched<map<Bytes, Bytes>> {
    match cell
    case Absent => Missing
    case Cell(value, kind, deadline) =>
      if kind != Tag(HashKind) then Refused(WrongType) else
      match UnpackHash(c, value)
      case None => Refused(Corrupt)
      case Some(h) => Found(h, RemainingMs(deadline, env.now))
  }

  function FetchItems(c: Codec, env: Env, cell: Cell, want: Kind): Fetched<seq<Bytes>> {
    match cell
    case Absent => Missing
    case Cell(value, kind, deadline) =>
      if kind != Tag(want) then Refused(WrongType) else
      match UnpackList(c, value)
      case None => Refused(Corrupt)
      case Some(l) => Found(l, RemainingMs(deadline, env.now))
  }

  function WriteHash(c: Codec, env: Env, h: map<Bytes, Bytes>, ttlMs: int, reply: Reply): Decision {
    Write(PackHash(c, h, Enumerate(env, h.Keys)), HashKind, ttlMs, reply)
  }

  function WriteList(c: Codec, l: seq<Bytes>, ttlMs: int, reply: Reply): Decision {
    Write(PackList(c, l), ListKind, ttlMs, reply)
  }

  function WriteOrRemoveList(c: Codec, l: seq<Bytes>, ttlMs: int, reply: Reply): Decision {
    if l == [] then Decision(Remove, Success(reply)) else WriteList(c, l, ttlMs, reply)
  }

  function WriteSet(c: Codec, env: Env, s: set<Bytes>, ttlMs: int, reply: Reply): Decision {
    Write(PackList(c, Enumerate(env, s)), SetKind, ttlMs, reply)
  }

  function WriteOrRemoveSet(c: Codec, env: Env, s: set<Bytes>, ttlMs: int, reply: Reply): Decision {
    if s == {} then Decision(Remove, Success(reply)) else WriteSet(c, env, s, ttlMs, reply)
  }

  /** SET, GETSET and APPEND. */
  function DecideString(env: Env, cell: Cell, cmd: Command): Decision {
    if |cmd.args| == 0 then Refuse(BadArity)
    else if cell.Cell? && cell.kind != Tag(StringKind) then Refuse(WrongType)
    else
      var exists_ := cell.Cell?;
      var skip := (cmd.condition == IfAbsent && exists_) || (cmd.condition == IfPresent && !exists_);
      var old_ := if exists_ then cell.value else [];
      var value := if cmd.op == Append then old_ + cmd.args[0] else cmd.args[0];
      var ttlMs := if cmd.ttlMs == 0 && cmd.op == Append && exists_
                   then RemainingMs(cell.deadline, env.now) else cmd.ttlMs;
      var reply :=
        if cmd.op == Append then Int(|value|)
        else if cmd.returnOld || cmd.op == GetSet then (if exists_ then Bulk(old_) else Nil)
        else if skip then Nil
        else Ok;
      if skip then Answer(reply) else Write(value, StringKind, ttlMs, reply)
  }

  /** The operand of a counter command: INCRBY and DECRBY take it from their argument. */
  function Delta(cmd: Command): Result {
    if cmd.op != IncrBy && cmd.op != DecrBy then Success(Int(1))
    else if |cmd.args| == 0 then Failure(Panic)
    else match ParseInt(cmd.args[0])
         case Good(n) => Success(Int(n))
         case _ => Failure(NotInteger)
  }

  function Bumped(op: Op, value: int, delta: int): int {
    if op == Incr || op == IncrBy then Wrap64(value + delta) else Wrap64(value - delta)
  }

  function DecideCounter(env: Env, cell: Cell, cmd: Command): Decision {
    if cell.Cell? && cell.kind != Tag(StringKind) then Refuse(WrongType) else
    var old_ := if cell.Cell? then ParseInt(cell.value) else Good(0);
    if !old_.Good? then Refuse(NotInteger) else
    match Delta(cmd)
    case Failure(fault) => Refuse(fault)
    case Success(delta) =>
      var value := Bumped(cmd.op, old_.n, if delta.Int? then delta.n else 0);
      var ttlMs := if cell.Cell? then RemainingMs(cell.deadline, env.now) else 0;
      Write(FormatInt(value), StringKind, ttlMs, Int(value))
  }

  function DecideExpire(cell: Cell, cmd: Command): Decision {
    if cell.Absent? then Answer(Int(0)) else Decision(Retime(cmd.ttlMs), Success(Int(1)))
  }

  function DecidePersist(cell: Cell): Decision {
    if cell.Absent? || cell.deadline == 0 then Answer(Int(0))
    else Decision(Put(cell.value, cell.kind, 0), Success(Int(1)))
  }

  /** DEL with no arguments: the key field names the one key, and only its value row goes. */
  function DecideLegacyDel(cell: Cell, cmd: Command): Decision {
    if cmd.key != [] && cell.Cell? then Decision(Unlink, Success(Int(1))) else Answer(Int(0))
  }

  function DecideHSet(c: Codec, env: Env, cell: Cell, cmd: Command): Decision {
    if |cmd.args| % 2 != 0 then Refuse(BadArity) else
    match FetchHash(c, env, cell)
    case Refused(fault) => Refuse(fault)
    case Missing =>
      var h := PutAll(map[], cmd.args, cmd.op == HSetNx);
      WriteHash(c, env, h, 0, Int(|h|))
    case Found(old_, ttlMs) =>
      var h := PutAll(old_, cmd.args, cmd.op == HSetNx);
      WriteHash(c, env, h, ttlMs, Int(|h| - |old_|))
  }

  function DecideHDel(c: Codec, env: Env, cell: Cell, cmd: Command): Decision {
    match FetchHash(c, env, cell)
    case Refused(fault) => Refuse(fault)
    case Missing => Answer(Int(0))
    case Found(old_, ttlMs) =>
      var h := old_ - ToSet(cmd.args);
      if h == map[] then Decision(Remove, Success(Int(|old_|)))
      else WriteHash(c, env, h, ttlMs, Int(|old_| - |h|))
  }

  predicate AtFront(op: Op) { op == LPush || op == LPushX || op == LPop }

  function DecidePush(c: Codec, env: Env, cell: Cell, cmd: Command): Decision {
    match FetchItems(c, env, cell, ListKind)
    case Refused(fault) => Refuse(fault)
    case Missing =>
      if cmd.op == LPushX || cmd.op == RPushX then Answer(Int(0))
      else var l := Push([], cmd.args, AtFront(cmd.op)); WriteList(c, l, 0, Int(|l|))
    case Found(old_, ttlMs) =>
      var l := Push(old_, cmd.args, AtFront(cmd.op));
      WriteList(c, l, ttlMs, Int(|l|))
  }

  /** The count argument of LPOP and RPOP: 1 when left out, refused when not a natural. */
  function PopCount(args: seq<Bytes>): Option<nat> {
    if args == [] then Some(1)
    else match ParseInt(args[0])
         case Good(n) => if n < 0 then None else Some(n)
         case _ => None
  }

  function DecidePop(c: Codec, env: Env, cell: Cell, cmd: Command): Decision {
    match FetchItems(c, env, cell, ListKind)
    case Refused(fault) => Refuse(fault)
    case Missing => Answer(Nil)
    case Found(old_, ttlMs) =>
      if old_ == [] then Answer(Nil) else
      match PopCount(cmd.args)
      case None => Refuse(NotInteger)
      case Some(count) =>
        var n := if count > |old_| then |old_| else count;
        var popped := Popped(old_, n, AtFront(cmd.op));
        var reply := if cmd.args != [] then Multi(popped) else Bulk(popped[0]);
        WriteOrRemoveList(c, AfterPop(old_, n, AtFront(cmd.op)), ttlMs, reply)
  }

  function DecideTrim(c: Codec, env: Env, cell: Cell, cmd: Command): Decision {
    match FetchItems(c, env, cell, ListKind)
    case Refused(fault) => Refuse(fault)
    case fetched =>
      if |cmd.args| < 2 then Refuse(Panic) else
      var old_ := if fetched.Found? then fetched.value else [];
      var ttlMs := if fetched.Found? then fetched.ttlMs else 0;
      WriteOrRemoveList(c, Slice(old_, Atoi(cmd.args[0]), Atoi(cmd.args[1])), ttlMs, Ok)
  }

  function DecideRem(c: Codec, env: Env, cell: Cell, cmd: Command): Decision {
    match FetchItems(c, env, cell, ListKind)
    case Refused(fault) => Refuse(fault)
    case fetched =>
      if |cmd.args| < 2 then Refuse(Panic) else
      var old_ := if fetched.Found? then fetched.value else [];
      var ttlMs := if fetched.Found? then fetched.ttlMs else 0;
      var l := Kept(old_, Atoi(cmd.args[0]), cmd.args[1]);
      WriteOrRemoveList(c, l, ttlMs, Int(|old_| - |l|))
  }

  function DecideSAdd(c: Codec, env: Env, cell: Cell, cmd: Command): Decision {
    match FetchItems(c, env, cell, SetKind)
    case Refused(fault) => Refuse(fault)
    case fetched =>
      var old_ := if fetched.Found? then ToSet(fetched.value) else {};
      var ttlMs := if fetched.Found? then fetched.ttlMs else 0;
      WriteSet(c, env, old_ + ToSet(cmd.args), ttlMs, Int(Added(old_, cmd.args)))
  }

  function DecideSRem(c: Codec, env: Env, cell: Cell, cmd: Command): Decision {
    match FetchItems(c, env, cell, SetKind)
    case Refused(fault) => Refuse(fault)
    case Missing => Answer(Int(0))
    case Found(members, ttlMs) =>
      var s := ToSet(members) - ToSet(cmd.args);
      WriteOrRemoveSet(c, env, s, ttlMs, Int(|ToSet(members)| - |s|))
  }

  /** The members SPOP takes: the first `count` in the iteration order of the set. */
  function Taken(env: Env, s: set<Bytes>, args: seq<Bytes>): seq<Bytes> {
    var count := if args == [] then 1 else Atoi(args[0]);
    var order := Enumerate(env, s);
    if count <= 0 then [] else if count >= |order| then order else order[..count]
  }

  function DecideSPop(c: Codec, env: Env, cell: Cell, cmd: Command): Decision {
    match FetchItems(c, env, cell, SetKind)
    case Refused(fault) => Refuse(fault)
    case Missing => Answer(if cmd.args != [] then Multi([]) else Nil)
    case Found(members, ttlMs) =>
      var taken := Taken(env, ToSet(members), cmd.args);
      var reply := if cmd.args != [] then Multi(taken) else if taken == [] then Nil else Bulk(taken[0]);
      WriteOrRemoveSet(c, env, ToSet(members) - ToSet(taken), ttlMs, reply)
  }

  /** The cases of the command switch. */
  datatype Family =
    | Strings | ManyStrings | Deletion | Flushing | Counters | Expiring | Persisting
    | HashWrites | HashDrops | Pushes | Pops | Trims | Removals | SetWrites | SetDrops | SetPops | NoFamily

  function FamilyOf(op: Op): Family {
    match op
    case Set | GetSet | Append => Strings
    case MSet => ManyStrings
    case Del => Deletion
    case FlushDb => Flushing
    case Incr | Decr | IncrBy | DecrBy => Counters
    case Expire => Expiring
    case Persist => Persisting
    case HSet | HSetNx => HashWrites
    case HDel => HashDrops
    case LPush | RPush | LPushX | RPushX => Pushes
    case LPop | RPop => Pops
    case LTrim => Trims
    case LRem => Removals
    case SAdd => SetWrites
    case SRem => SetDrops
    case SPop => SetPops
    case Unknown => NoFamily
  }

  /** Every command whose rows are those of `cmd.key`. */
  function Decide(c: Codec, env: Env, cell: Cell, cmd: Command): Decision {
    match FamilyOf(cmd.op)
    case Strings => DecideString(env, cell, cmd)
    case Counters => DecideCounter(env, cell, cmd)
    case Expiring => DecideExpire(cell, cmd)
    case Persisting => DecidePersist(cell)
    case Deletion => DecideLegacyDel(cell, cmd)
    case HashWrites => DecideHSet(c, env, cell, cmd)
    case HashDrops => DecideHDel(c, env, cell, cmd)
    case Pushes => DecidePush(c, env, cell, cmd)
    case Pops => DecidePop(c, env, cell, cmd)
    case Trims => DecideTrim(c, env, cell, cmd)
    case Removals => DecideRem(c, env, cell, cmd)
    case SetWrites => DecideSAdd(c, env, cell, cmd)
    case SetDrops => DecideSRem(c, env, cell, cmd)
    case SetPops => DecideSPop(c, env, cell, cmd)
    case _ => Refuse(UnknownOp)
  }

  /** DEL with arguments: the keys still there go one by one, both rows of each. */
  function DelAll(rows: Rows, now: nat, keys: seq<Bytes>): Rows {
    if keys == [] then rows
    else if Sees(rows, now, UserKey(keys[0])) then DelAll(DropKey(rows, keys[0]), now, keys[1..])
    else DelAll(rows, now, keys[1..])
  }

  /** The number of different visible keys among `keys`, which is what DEL answers. */
  function VisibleKeys(rows: Rows, now: nat, keys: seq<Bytes>): set<Bytes> {
    set k | k in keys && Sees(rows, now, UserKey(k))
  }

  function MSetAll(rows: Rows, now: nat, pairs: seq<Bytes>): Rows
    requires |pairs| % 2 == 0
    decreases |pairs|
  {
    if pairs == [] then rows
    else MSetAll(SetValue(rows, now, pairs[0], pairs[1], Tag(StringKind), 0), now, pairs[2..])
  }

  /** The rows left when every visible row under a prefix has been deleted. */
  function Flush(rows: Rows, now: nat, prefix: Bytes): Rows {
    map key | key in rows && !(prefix <= key && Sees(rows, now, key)) :: rows[key]
  }

  function FlushDbRows(rows: Rows, now: nat): Rows {
    Flush(Flush(rows, now, [PREFIX_USER]), now, [PREFIX_TYPE])
  }

  datatype Outcome = Outcome(rows: Rows, result: Result)

  /** applyCmdInTxn on every command that is not a script command. */
  function ApplyInTxn(c: Codec, env: Env, rows: Rows, cmd: Command): Outcome {
    if cmd.op == MSet then
      if |cmd.args| % 2 != 0 then Outcome(rows, Failure(BadArity))
      else Outcome(MSetAll(rows, env.now, cmd.args), Success(Ok))
    else if cmd.op == Del && cmd.args != [] then
      Outcome(DelAll(rows, env.now, cmd.args), Success(Int(|VisibleKeys(rows, env.now, cmd.args)|)))
    else if cmd.op == FlushDb then
      Outcome(FlushDbRows(rows, env.now), Success(Ok))
    else
      var d := Decide(c, env, Look(rows, env.now, cmd.key), cmd);
      Outcome(Perform(rows, env.now, cmd.key, d.effect), d.result)
  }

  /** Apply: the transaction commits unless the command failed. */
  function Apply(c: Codec, env: Env, rows: Rows, cmd: Command): Outcome {
    var o := ApplyInTxn(c, env, rows, cmd);
    if o.result.Failure? then Outcome(rows, o.result) else o
  }

  datatype Step = Step(env: Env, cmd: Command)

  function Run(c: Codec, rows: Rows, steps: seq<Step>): Rows
    decreases |steps|
  {
    if steps == [] then rows
    else Run(c, Apply(c, steps[0].env, rows, steps[0].cmd).rows, steps[1..])
  }

  function Results(c: Codec, rows: Rows, steps: seq<Step>): (r: seq<Result>)
    ensures |r| == |steps|
    decreases |steps|
  {
    if steps == [] then []
    else
      var o := Apply(c, steps[0].env, rows, steps[0].cmd);
      [o.result] + Results(c, o.rows, steps[1..])
  }

  /** A run's clock never goes back and its map orders enumerate their sets. */
  ghost predicate Clocked(steps: seq<Step>, start: nat) {
    && (forall i :: 0 <= i < |steps| ==> Orderly(steps[i].env) && start <= steps[i].env.now)
    && (forall i, j :: 0 <= i < j < |steps| ==> steps[i].env.now <= steps[j].env.now)
  }

  function LastTime(steps: seq<Step>, start: nat): nat {
    if steps == [] then start else steps[|steps| - 1].env.now
  }

  /** A command that fails has written nothing, so a failed call inside a script leaves no trace. */
  lemma FailureWritesNothing(c: Codec, env: Env, rows: Rows, cmd: Command)
    ensures ApplyInTxn(c, env, rows, cmd).result.Failure? ==> ApplyInTxn(c, env, rows, cmd).rows == rows
  {
    RefusalsKeep(c, env, Look(rows, env.now, cmd.key), cmd);
  }

  lemma RefusalsKeep(c: Codec, env: Env, cell: Cell, cmd: Command)
    ensures var d := Decide(c, env, cell, cmd); d.result.Failure? ==> d.effect.Keep?
  {
    match FamilyOf(cmd.op) {
      case Pushes | Pops | Trims | Removals => ListRefusalsKeep(c, env, cell, cmd);
      case SetWrites | SetDrops | SetPops => SetRefusalsKeep(c, env, cell, cmd);
      case _ =>
    }
  }

  predicate RefusalKeeps(d: Decision) { d.result.Failure? ==> d.effect.Keep? }

  lemma ListRefusalsKeep(c: Codec, env: Env, cell: Cell, cmd: Command)
    ensures RefusalKeeps(DecidePush(c, env, cell, cmd))
    ensures RefusalKeeps(DecidePop(c, env, cell, cmd))
    ensures RefusalKeeps(DecideTrim(c, env, cell, cmd))
    ensures RefusalKeeps(DecideRem(c, env, cell, cmd))
  {
  }

  lemma SetRefusalsKeep(c: Codec, env: Env, cell: Cell, cmd: Command)
    ensures RefusalKeeps(DecideSAdd(c, env, cell, cmd))
    ensures RefusalKeeps(DecideSRem(c, env, cell, cmd))
    ensures RefusalKeeps(DecideSPop(c, env, cell, cmd))
  {
  }

  predicate OnOneKey(cmd: Command) {
    cmd.op != MSet && cmd.op != FlushDb && (cmd.op == Del ==> cmd.args == [])
  }

  /** A command on one key is its decision, performed. */
  lemma ApplyOnKey(c: Codec, env: Env, rows: Rows, cmd: Command)
    requires OnOneKey(cmd)
    ensures var d := Decide(c, env, Look(rows, env.now, cmd.key), cmd);
            Apply(c, env, rows, cmd) == Outcome(Perform(rows, env.now, cmd.key, d.effect), d.result)
  {
    RefusalsKeep(c, env, Look(rows, env.now, cmd.key), cmd);
  }
}
