/** What every clocked run keeps between the value row and the type row of a key. */
module TypeRows {
  import opened Octets
  import opened Decimal
  import opened Collections
  import opened Store
  import opened Commands
  import opened Fsm
  import opened Refinement

  /** A visible value row has a visible type row that lasts at least as long. */
  predicate OutlivedAt(rows: Rows, now: nat, key: Bytes) {
    Sees(rows, now, UserKey(key)) ==>
      && Sees(rows, now, TypeKey(key))
      && var v, t := rows[UserKey(key)].deadline, rows[TypeKey(key)].deadline;
         t == 0 || (v != 0 && v <= t)
  }

  /** The EXPIRE this excludes: one that sets a later deadline than the type row's. */
  predicate WithinType(rows: Rows, now: nat, cmd: Command) {
    cmd.op == Expire && Sees(rows, now, UserKey(cmd.key)) && Sees(rows, now, TypeKey(cmd.key))
    && rows[TypeKey(cmd.key)].deadline != 0
    ==>
      var d := Deadline(now, cmd.ttlMs);
      d != 0 && d <= rows[TypeKey(cmd.key)].deadline
  }

  lemma OutlivedLater(rows: Rows, now: nat, later: nat, key: Bytes)
    requires OutlivedAt(rows, now, key) && now <= later
    ensures OutlivedAt(rows, later, key)
  {
    assert Second(now) <= Second(later);
  }

  lemma {:induction false} MSetKeepsOutlived(rows: Rows, now: nat, pairs: seq<Bytes>, key: Bytes)
    requires |pairs| % 2 == 0 && OutlivedAt(rows, now, key)
    ensures OutlivedAt(MSetAll(rows, now, pairs), now, key)
    decreases |pairs|
  {
    if pairs != [] {
      var e := Put(pairs[1], Tag(StringKind), 0);
      if key != pairs[0] { PerformFrame(rows, now, pairs[0], e, key); }
      MSetKeepsOutlived(Perform(rows, now, pairs[0], e), now, pairs[2..], key);
    }
  }

  /** Every command keeps the type row outliving the value row, at every key. */
  lemma ApplyKeepsOutlived(c: Codec, env: Env, rows: Rows, cmd: Command, key: Bytes)
    requires OutlivedAt(rows, env.now, key) && (cmd.key == key ==> WithinType(rows, env.now, cmd))
    ensures OutlivedAt(Apply(c, env, rows, cmd).rows, env.now, key)
  {
    if cmd.op == MSet {
      if |cmd.args| % 2 == 0 { MSetKeepsOutlived(rows, env.now, cmd.args, key); }
    } else if cmd.op == Del && cmd.args != [] {
      DelAllEffect(rows, env.now, cmd.args, key);
    } else if cmd.op == FlushDb {
      FlushHidesKey(rows, env.now, key);
    } else {
      var d := Decide(c, env, Look(rows, env.now, cmd.key), cmd);
      ApplyOnKey(c, env, rows, cmd);
      if cmd.key == key {
        RetimeOnlyByExpire(c, env, Look(rows, env.now, key), cmd);
        EffectKeepsOutlived(rows, env.now, key, d.effect);
      } else {
        PerformFrame(rows, env.now, cmd.key, d.effect, key);
      }
    }
  }

  lemma EffectKeepsOutlived(rows: Rows, now: nat, key: Bytes, e: Effect)
    requires OutlivedAt(rows, now, key)
    requires e.Retime? ==>
               && Sees(rows, now, UserKey(key))
               && (rows[TypeKey(key)].deadline != 0 ==>
                     0 < Deadline(now, e.ttlMs) <= rows[TypeKey(key)].deadline)
    ensures OutlivedAt(Perform(rows, now, key, e), now, key)
  {
  }

  /** For EXPIRE the condition is exact: past the type row's deadline the invariant is lost at once. */
  lemma ExpireOutlivedExactly(c: Codec, env: Env, rows: Rows, cmd: Command)
    requires cmd.op == Expire && OutlivedAt(rows, env.now, cmd.key)
    ensures OutlivedAt(Apply(c, env, rows, cmd).rows, env.now, cmd.key) <==> WithinType(rows, env.now, cmd)
  {
    if WithinType(rows, env.now, cmd) {
      ApplyKeepsOutlived(c, env, rows, cmd, cmd.key);
    }
  }

  ghost predicate AllWithinType(c: Codec, rows: Rows, steps: seq<Step>)
    decreases |steps|
  {
    steps != [] ==>
      && WithinType(rows, steps[0].env.now, steps[0].cmd)
      && AllWithinType(c, Apply(c, steps[0].env, rows, steps[0].cmd).rows, steps[1..])
  }

  /** Over every clocked run, and at every later moment, type rows outlive value rows. */
  lemma {:induction false} RunKeepsOutlived(c: Codec, rows: Rows, start: nat, steps: seq<Step>, later: nat, key: Bytes)
    requires Clocked(steps, start) && AllWithinType(c, rows, steps) && LastTime(steps, start) <= later
    requires forall k :: OutlivedAt(rows, start, k)
    ensures OutlivedAt(Run(c, rows, steps), later, key)
    decreases |steps|
  {
    if steps == [] {
      OutlivedLater(rows, start, later, key);
    } else {
      ClockedTail(steps, start);
      var env, cmd := steps[0].env, steps[0].cmd;
      var rows' := Apply(c, env, rows, cmd).rows;
      forall k ensures OutlivedAt(rows', env.now, k) {
        OutlivedLater(rows, start, env.now, k);
        ApplyKeepsOutlived(c, env, rows, cmd, k);
      }
      RunKeepsOutlived(c, rows', env.now, steps[1..], later, key);
    }
  }

  // Without EXPIRE and the legacy DEL the rows are twins, expired or not.

  predicate TwinsAt(rows: Rows, key: Bytes) {
    && (UserKey(key) in rows <==> TypeKey(key) in rows)
    && (UserKey(key) in rows ==> rows[UserKey(key)].deadline == rows[TypeKey(key)].deadline)
  }

  /** The payload of a value row decodes as its type row says, and no collection is empty. */
  predicate Sound(c: Codec, bytes: Bytes, kind: Bytes) {
    || kind == Tag(StringKind)
    || (kind == Tag(HashKind) && UnpackHash(c, bytes).Some? && UnpackHash(c, bytes).value != map[])
    || (kind == Tag(ListKind) && UnpackList(c, bytes).Some? && UnpackList(c, bytes).value != [])
    || (kind == Tag(SetKind) && UnpackList(c, bytes).Some? && UnpackList(c, bytes).value != []
        && NoDuplicates(UnpackList(c, bytes).value))
  }

  predicate SoundAt(c: Codec, rows: Rows, key: Bytes) {
    UserKey(key) in rows && TypeKey(key) in rows ==>
      Sound(c, rows[UserKey(key)].value, rows[TypeKey(key)].value)
  }

  predicate Paired(c: Codec, rows: Rows, key: Bytes) { TwinsAt(rows, key) && SoundAt(c, rows, key) }

  /** What the request handlers build: their arity checks and the fields they fill in. */
  predicate HandlerBuilt(cmd: Command) {
    && (cmd.op != Set ==> cmd.condition == Always && !cmd.returnOld)
    && (cmd.op != Set && cmd.op != Expire ==> cmd.ttlMs == 0)
    && match cmd.op
       case Set | GetSet | Append | IncrBy | DecrBy => |cmd.args| == 1
       case MSet => |cmd.args| >= 2 && |cmd.args| % 2 == 0
       case Del | HDel | SAdd | SRem | LPush | RPush | LPushX | RPushX => |cmd.args| >= 1
       case FlushDb | Incr | Decr | Expire | Persist => cmd.args == []
       case HSet => |cmd.args| >= 2 && |cmd.args| % 2 == 0
       case HSetNx => |cmd.args| == 2
       case LPop | RPop => |cmd.args| <= 1
       case LTrim => |cmd.args| == 2 && ParseInt(cmd.args[0]).Good? && ParseInt(cmd.args[1]).Good?
       case LRem => |cmd.args| == 2 && ParseInt(cmd.args[0]).Good?
       case SPop =>
         |cmd.args| <= 1 && (cmd.args != [] ==> ParseInt(cmd.args[0]).Good? && ParseInt(cmd.args[0]).n >= 0)
       case Unknown => false
  }

  /** Not a failure, or one that the data or a value in the request explains. */
  predicate Explained(r: Result) {
    r.Failure? ==> r.fault == WrongType || r.fault == NotInteger || r.fault == Corrupt
  }

  lemma FetchesAreExplained(c: Codec, env: Env, cell: Cell, want: Kind)
    ensures var f := FetchHash(c, env, cell); f.Refused? ==> Explained(Failure(f.fault))
    ensures var f := FetchItems(c, env, cell, want); f.Refused? ==> Explained(Failure(f.fault))
  {
  }

  lemma HashResultsAreExplained(c: Codec, env: Env, cell: Cell, cmd: Command)
    ensures |cmd.args| % 2 == 0 ==> Explained(DecideHSet(c, env, cell, cmd).result)
    ensures Explained(DecideHDel(c, env, cell, cmd).result)
  {
    hide FetchHash, FetchItems, WriteHash, PutAll;
    FetchesAreExplained(c, env, cell, HashKind);
    WritesSucceed(c, env);
  }

  lemma WritesSucceed(c: Codec, env: Env)
    ensures forall h, ttlMs, reply :: WriteHash(c, env, h, ttlMs, reply).result == Success(reply)
    ensures forall l, ttlMs, reply :: WriteList(c, l, ttlMs, reply).result == Success(reply)
    ensures forall l, ttlMs, reply :: WriteOrRemoveList(c, l, ttlMs, reply).result == Success(reply)
    ensures forall s, ttlMs, reply :: WriteSet(c, env, s, ttlMs, reply).result == Success(reply)
    ensures forall s, ttlMs, reply :: WriteOrRemoveSet(c, env, s, ttlMs, reply).result == Success(reply)
  {
  }

  lemma ListResultsAreExplained(c: Codec, env: Env, cell: Cell, cmd: Command)
    ensures Explained(DecidePush(c, env, cell, cmd).result)
    ensures Explained(DecidePop(c, env, cell, cmd).result)
    ensures |cmd.args| >= 2 ==> Explained(DecideTrim(c, env, cell, cmd).result)
    ensures |cmd.args| >= 2 ==> Explained(DecideRem(c, env, cell, cmd).result)
  {
    hide FetchHash, FetchItems, WriteList, WriteOrRemoveList, Slice, Kept, Push;
    FetchesAreExplained(c, env, cell, ListKind);
    WritesSucceed(c, env);
  }

  lemma SetResultsAreExplained(c: Codec, env: Env, cell: Cell, cmd: Command)
    ensures Explained(DecideSAdd(c, env, cell, cmd).result)
    ensures Explained(DecideSRem(c, env, cell, cmd).result)
    ensures Explained(DecideSPop(c, env, cell, cmd).result)
  {
    hide FetchHash, FetchItems, WriteSet, WriteOrRemoveSet, Taken, Added, ToSet;
    FetchesAreExplained(c, env, cell, SetKind);
    WritesSucceed(c, env);
  }

  lemma StringResultsAreExplained(env: Env, cell: Cell, cmd: Command)
    ensures |cmd.args| > 0 ==> Explained(DecideString(env, cell, cmd).result)
    ensures |cmd.args| > 0 || (cmd.op != IncrBy && cmd.op != DecrBy) ==> Explained(DecideCounter(env, cell, cmd).result)
  {
    hide ParseInt, FormatInt, RemainingMs, Bumped;
  }

  /** No command a handler builds indexes past its arguments or is turned away for its arity. */
  lemma HandlersBuildWholeCommands(c: Codec, env: Env, rows: Rows, cmd: Command)
    requires HandlerBuilt(cmd)
    ensures var r := Apply(c, env, rows, cmd).result;
            r.Failure? ==> r.fault == WrongType || r.fault == NotInteger || r.fault == Corrupt
  {
    var cell := Look(rows, env.now, cmd.key);
    hide DecideString, DecideCounter, DecideHSet, DecideHDel, DecidePush, DecidePop, DecideTrim, DecideRem, DecideSAdd,
      DecideSRem, DecideSPop, Look, Perform, ParseInt, MSetAll, DelAll, FlushDbRows;
    StringResultsAreExplained(env, cell, cmd);
    HashResultsAreExplained(c, env, cell, cmd);
    ListResultsAreExplained(c, env, cell, cmd);
    SetResultsAreExplained(c, env, cell, cmd);
  }

  predicate LeavesSound(c: Codec, e: Effect) {
    !e.Retime? && !e.Unlink? && (e.Put? ==> Sound(c, e.value, e.kind))
  }

  lemma StoredHashIsSound(c: Codec, env: Env, h: map<Bytes, Bytes>, ttlMs: int, reply: Reply)
    requires Lawful(c) && Orderly(env) && h != map[]
    ensures LeavesSound(c, WriteHash(c, env, h, ttlMs, reply).effect)
  {
    assert Enumerates(Enumerate(env, h.Keys), h.Keys);
  }

  lemma HSetEffectIsSound(c: Codec, env: Env, cell: Cell, cmd: Command)
    requires Lawful(c) && Orderly(env) && cmd.args != []
    ensures LeavesSound(c, DecideHSet(c, env, cell, cmd).effect)
  {
    hide PutAll, Orderly, Lawful, Sound, FetchHash, WriteHash;
    if |cmd.args| % 2 == 0 {
      var fetched := FetchHash(c, env, cell);
      var old_ := if fetched.Found? then fetched.value else map[];
      PutAllGrows(old_, cmd.args, cmd.op == HSetNx);
      var h := PutAll(old_, cmd.args, cmd.op == HSetNx);
      if fetched.Found? {
        StoredHashIsSound(c, env, h, fetched.ttlMs, Int(|h| - |old_|));
      } else {
        StoredHashIsSound(c, env, h, 0, Int(|h|));
      }
    }
  }

  lemma HDelEffectIsSound(c: Codec, env: Env, cell: Cell, cmd: Command)
    requires Lawful(c) && Orderly(env)
    ensures LeavesSound(c, DecideHDel(c, env, cell, cmd).effect)
  {
    hide Orderly, Lawful, Sound, FetchHash, WriteHash;
    var fetched := FetchHash(c, env, cell);
    if fetched.Found? {
      var h := fetched.value - ToSet(cmd.args);
      if h != map[] { StoredHashIsSound(c, env, h, fetched.ttlMs, Int(|fetched.value| - |h|)); }
    }
  }

  lemma StoredListsAreSound(c: Codec)
    requires Lawful(c)
    ensures forall l, ttlMs, reply :: LeavesSound(c, WriteOrRemoveList(c, l, ttlMs, reply).effect)
    ensures forall l, ttlMs, reply :: l != [] ==> LeavesSound(c, WriteList(c, l, ttlMs, reply).effect)
  {
  }

  lemma PushEffectIsSound(c: Codec, env: Env, cell: Cell, cmd: Command)
    requires Lawful(c) && cmd.args != []
    ensures LeavesSound(c, DecidePush(c, env, cell, cmd).effect)
  {
    hide Sound, Lawful, FetchItems, WriteList;
    StoredListsAreSound(c);
  }

  lemma ListEffectsAreSound(c: Codec, env: Env, cell: Cell, cmd: Command)
    requires Lawful(c)
    ensures LeavesSound(c, DecidePop(c, env, cell, cmd).effect)
    ensures LeavesSound(c, DecideTrim(c, env, cell, cmd).effect)
    ensures LeavesSound(c, DecideRem(c, env, cell, cmd).effect)
  {
    hide Sound, Lawful, FetchItems, WriteOrRemoveList, Slice, Kept;
    StoredListsAreSound(c);
  }

  lemma StoredSetsAreSound(c: Codec, env: Env)
    requires Lawful(c) && Orderly(env)
    ensures forall s: set<Bytes> :: s != {} ==> Sound(c, PackList(c, Enumerate(env, s)), Tag(SetKind))
  {
    forall s: set<Bytes> | s != {} ensures Sound(c, PackList(c, Enumerate(env, s)), Tag(SetKind)) {
      assert Enumerates(Enumerate(env, s), s);
      var x :| x in s;
      assert x in ToSet(Enumerate(env, s));
    }
  }

  lemma SAddEffectIsSound(c: Codec, env: Env, cell: Cell, cmd: Command)
    requires Lawful(c) && Orderly(env) && cmd.args != []
    ensures LeavesSound(c, DecideSAdd(c, env, cell, cmd).effect)
  {
    assert cmd.args[0] in ToSet(cmd.args);
    StoredSetsAreSound(c, env);
  }

  lemma SetEffectsAreSound(c: Codec, env: Env, cell: Cell, cmd: Command)
    requires Lawful(c) && Orderly(env)
    ensures LeavesSound(c, DecideSRem(c, env, cell, cmd).effect)
    ensures LeavesSound(c, DecideSPop(c, env, cell, cmd).effect)
  {
    StoredSetsAreSound(c, env);
  }

  lemma EffectsAreSound(c: Codec, env: Env, cell: Cell, cmd: Command)
    requires Lawful(c) && Orderly(env) && HandlerBuilt(cmd) && OnOneKey(cmd) && cmd.op != Expire
    requires cell.Cell? ==> Sound(c, cell.value, cell.kind)
    ensures LeavesSound(c, Decide(c, env, cell, cmd).effect)
  {
    match FamilyOf(cmd.op) {
      case HashWrites => HSetEffectIsSound(c, env, cell, cmd);
      case HashDrops => HDelEffectIsSound(c, env, cell, cmd);
      case Pushes => PushEffectIsSound(c, env, cell, cmd);
      case Pops | Trims | Removals => ListEffectsAreSound(c, env, cell, cmd);
      case SetWrites => SAddEffectIsSound(c, env, cell, cmd);
      case SetDrops | SetPops => SetEffectsAreSound(c, env, cell, cmd);
      case _ =>
    }
  }

  lemma PerformKeepsPaired(c: Codec, rows: Rows, now: nat, key: Bytes, e: Effect)
    requires Paired(c, rows, key) && LeavesSound(c, e)
    ensures Paired(c, Perform(rows, now, key, e), key)
  {
  }

  lemma PairedFrame(c: Codec, rows: Rows, rows': Rows, key: Bytes)
    requires Paired(c, rows, key) && SameRows(rows, rows', key)
    ensures Paired(c, rows', key)
  {
  }

  lemma {:induction false} MSetKeepsPaired(c: Codec, rows: Rows, now: nat, pairs: seq<Bytes>, key: Bytes)
    requires |pairs| % 2 == 0 && Paired(c, rows, key)
    ensures Paired(c, MSetAll(rows, now, pairs), key)
    decreases |pairs|
  {
    if pairs != [] {
      var e := Put(pairs[1], Tag(StringKind), 0);
      if key == pairs[0] {
        PerformKeepsPaired(c, rows, now, key, e);
      } else {
        PerformFrame(rows, now, pairs[0], e, key);
        PairedFrame(c, rows, Perform(rows, now, pairs[0], e), key);
      }
      MSetKeepsPaired(c, Perform(rows, now, pairs[0], e), now, pairs[2..], key);
    }
  }

  lemma {:induction false} DelKeepsPaired(c: Codec, rows: Rows, now: nat, keys: seq<Bytes>, key: Bytes)
    requires Paired(c, rows, key)
    ensures Paired(c, DelAll(rows, now, keys), key)
    decreases |keys|
  {
    if keys != [] {
      var rows' := if Sees(rows, now, UserKey(keys[0])) then DropKey(rows, keys[0]) else rows;
      if key == keys[0] {
        PerformKeepsPaired(c, rows, now, key, Remove);
      } else {
        PerformFrame(rows, now, keys[0], Remove, key);
        PairedFrame(c, rows, rows', key);
      }
      DelKeepsPaired(c, rows', now, keys[1..], key);
    }
  }

  lemma FlushKeepsPaired(c: Codec, rows: Rows, now: nat, key: Bytes)
    requires Paired(c, rows, key)
    ensures Paired(c, FlushDbRows(rows, now), key)
  {
  }

  lemma ApplyKeepsPaired(c: Codec, env: Env, rows: Rows, cmd: Command, key: Bytes)
    requires Lawful(c) && Orderly(env) && HandlerBuilt(cmd) && cmd.op != Expire && Paired(c, rows, key)
    ensures Paired(c, Apply(c, env, rows, cmd).rows, key)
  {
    if cmd.op == MSet {
      MSetKeepsPaired(c, rows, env.now, cmd.args, key);
    } else if cmd.op == Del {
      DelKeepsPaired(c, rows, env.now, cmd.args, key);
    } else if cmd.op == FlushDb {
      FlushKeepsPaired(c, rows, env.now, key);
    } else {
      var cell := Look(rows, env.now, cmd.key);
      var d := Decide(c, env, cell, cmd);
      ApplyOnKey(c, env, rows, cmd);
      if cmd.key == key {
        EffectsAreSound(c, env, cell, cmd);
        PerformKeepsPaired(c, rows, env.now, key, d.effect);
      } else {
        PerformFrame(rows, env.now, cmd.key, d.effect, key);
        PairedFrame(c, rows, Perform(rows, env.now, cmd.key, d.effect), key);
      }
    }
  }

  /** Over every run of handler-built commands without EXPIRE, the two rows of a key are there
      together with one deadline, the payload is what the type row says, and no stored hash,
      list or set is empty. */
  lemma {:induction false} RunKeepsPaired(c: Codec, rows: Rows, start: nat, steps: seq<Step>, key: Bytes)
    requires Lawful(c) && Clocked(steps, start) && Paired(c, rows, key)
    requires forall i :: 0 <= i < |steps| ==> HandlerBuilt(steps[i].cmd) && steps[i].cmd.op != Expire
    ensures Paired(c, Run(c, rows, steps), key)
    decreases |steps|
  {
    if steps != [] {
      ClockedTail(steps, start);
      ApplyKeepsPaired(c, steps[0].env, rows, steps[0].cmd, key);
      RunKeepsPaired(c, Apply(c, steps[0].env, rows, steps[0].cmd).rows, steps[0].env.now, steps[1..], key);
    }
  }
}
