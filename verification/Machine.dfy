/** applyCmdInTxn and Apply as the source runs them: rows updated in place, one method a command
    family, each against the functions of module Fsm. */
module Machine {
  import opened Octets
  import opened Decimal
  import opened Collections
  import opened Store
  import opened Commands
  import opened Fsm
  import opened Database
  import Loops

  method SetRows(db: Database, now: nat, key: Bytes, value: Bytes, kind: Bytes, ttlMs: int)
    modifies db
    ensures db.rows == SetValue(old(db.rows), now, key, value, kind, ttlMs)
  {
    var deadline := 0;
    if ttlMs > 0 { deadline := Deadline(now, ttlMs); }
    db.SetEntry(UserKey(key), Row(value, deadline));
    db.SetEntry(TypeKey(key), Row(kind, deadline));
  }

  method DeleteRows(db: Database, key: Bytes)
    modifies db
    ensures db.rows == DropKey(old(db.rows), key)
  {
    db.Delete(UserKey(key));
    db.Delete(TypeKey(key));
  }

  /** The rows and the result are those of a decision. */
  predicate Executed(was: Rows, rows: Rows, result: Result, env: Env, cmd: Command, d: Decision) {
    rows == Perform(was, env.now, cmd.key, d.effect) && result == d.result
  }

  /** SET, GETSET, APPEND. */
  method ApplyString(db: Database, c: Codec, env: Env, cmd: Command) returns (result: Result)
    requires FamilyOf(cmd.op) == Strings
    modifies db
    ensures Executed(old(db.rows), db.rows, result, env, cmd,
                     DecideString(env, Look(old(db.rows), env.now, cmd.key), cmd))
  {
    if |cmd.args| == 0 { return Failure(BadArity); }
    var oldVal: Bytes, present, oldTtlMs := [], false, 0;
    var item := Get(db.rows, env.now, UserKey(cmd.key));
    if item.Some? {
      present := true;
      if ExistingType(db.rows, env.now, cmd.key) != Tag(StringKind) { return Failure(WrongType); }
      oldTtlMs := RemainingMs(item.value.deadline, env.now);
      if cmd.returnOld || cmd.op == GetSet || cmd.op == Append { oldVal := item.value.value; }
    }
    var setKey := true;
    if cmd.condition == IfAbsent && present { setKey := false; }
    if cmd.condition == IfPresent && !present { setKey := false; }
    var newVal := cmd.args[0];
    if cmd.op == Append { newVal := oldVal + cmd.args[0]; }
    if setKey {
      var ttlMs := cmd.ttlMs;
      if ttlMs == 0 && cmd.op == Append { ttlMs := oldTtlMs; }
      SetRows(db, env.now, cmd.key, newVal, Tag(StringKind), ttlMs);
    }
    if cmd.op == Append { return Success(Int(|newVal|)); }
    if cmd.returnOld || cmd.op == GetSet {
      return Success(if present then Bulk(oldVal) else Nil);
    }
    return Success(if setKey then Ok else Nil);
  }

  method ApplyMSet(db: Database, c: Codec, env: Env, cmd: Command) returns (result: Result)
    requires cmd.op == MSet
    modifies db
    ensures Outcome(db.rows, result) == ApplyInTxn(c, env, old(db.rows), cmd)
  {
    if |cmd.args| % 2 != 0 { return Failure(BadArity); }
    var i := 0;
    while i < |cmd.args|
      invariant 0 <= i <= |cmd.args| && i % 2 == 0
      invariant MSetAll(db.rows, env.now, cmd.args[i..]) == MSetAll(old(db.rows), env.now, cmd.args)
    {
      assert cmd.args[i..][2..] == cmd.args[i + 2..];
      SetRows(db, env.now, cmd.args[i], cmd.args[i + 1], Tag(StringKind), 0);
      i := i + 2;
    }
    return Success(Ok);
  }

  /** A DEL in progress: the visible keys among those still to come. */
  lemma DelCountStep(rows: Rows, now: nat, keys: seq<Bytes>)
    requires keys != []
    ensures var rows' := if Sees(rows, now, UserKey(keys[0])) then DropKey(rows, keys[0]) else rows;
            |VisibleKeys(rows, now, keys)|
            == |VisibleKeys(rows', now, keys[1..])| + (if Sees(rows, now, UserKey(keys[0])) then 1 else 0)
  {
    var key := keys[0];
    var rows' := if Sees(rows, now, UserKey(key)) then DropKey(rows, key) else rows;
    var later := VisibleKeys(rows', now, keys[1..]);
    forall k ensures k != key ==> (Sees(rows', now, UserKey(k)) <==> Sees(rows, now, UserKey(k))) {
      assert k != key ==> UserKey(k)[1..] != UserKey(key)[1..];
    }
    if Sees(rows, now, UserKey(key)) {
      assert key !in later;
      assert VisibleKeys(rows, now, keys) == later + {key};
    } else {
      assert VisibleKeys(rows, now, keys) == later;
    }
  }

  method ApplyDel(db: Database, c: Codec, env: Env, cmd: Command) returns (result: Result)
    requires cmd.op == Del
    modifies db
    ensures Outcome(db.rows, result) == ApplyInTxn(c, env, old(db.rows), cmd)
  {
    var count := 0;
    for i := 0 to |cmd.args|
      invariant DelAll(db.rows, env.now, cmd.args[i..]) == DelAll(old(db.rows), env.now, cmd.args)
      invariant count + |VisibleKeys(db.rows, env.now, cmd.args[i..])| == |VisibleKeys(old(db.rows), env.now, cmd.args)|
      invariant cmd.args == [] ==> db.rows == old(db.rows) && count == 0
    {
      assert cmd.args[i..][1..] == cmd.args[i + 1..];
      DelCountStep(db.rows, env.now, cmd.args[i..]);
      if Sees(db.rows, env.now, UserKey(cmd.args[i])) {
        DeleteRows(db, cmd.args[i]);
        count := count + 1;
      }
    }
    if |cmd.args| == 0 && cmd.key != [] {
      if Sees(db.rows, env.now, UserKey(cmd.key)) {
        db.Delete(UserKey(cmd.key));
        count := count + 1;
      }
    }
    return Success(Int(count));
  }

  lemma FlushComplete(rows: Rows, now: nat, prefix: Bytes, found: Option<Bytes>, key: Bytes)
    requires FirstBeyond(rows, now, prefix, false, found)
    requires found.Some? ==> !(prefix <= found.value)
    ensures !(prefix <= key && Sees(rows, now, key))
  {
    if prefix <= key && Sees(rows, now, key) {
      PrefixInterval(prefix, key);
      PrefixIntervalEnd(prefix, key, found.value);
      LessAsymmetric(key, found.value);
    }
  }

  /** The iterator loop over one prefix: delete what it stands on, then step on. */
  method FlushPrefix(db: Database, now: nat, prefix: Bytes)
    modifies db
    ensures db.rows == Flush(old(db.rows), now, prefix)
  {
    ghost var was := db.rows;
    var found := db.Seek(now, prefix, false);
    while found.Some? && prefix <= found.value
      invariant FirstBeyond(db.rows, now, prefix, false, found)
      invariant forall k :: k in db.rows ==> k in was && db.rows[k] == was[k]
      invariant forall k :: k in was && k !in db.rows ==> prefix <= k && Sees(was, now, k)
      decreases |db.rows.Keys|
    {
      var key := found.value;
      ghost var before := db.rows;
      db.Delete(key);
      assert db.rows.Keys == before.Keys - {key};
      found := db.Seek(now, key, true);
      StepIsNext(before, now, prefix, key, db.rows, found);
    }
    forall k ensures !(prefix <= k && Sees(db.rows, now, k)) {
      FlushComplete(db.rows, now, prefix, found, k);
    }
    assert forall k :: k in db.rows ==> (Sees(db.rows, now, k) <==> Sees(was, now, k));
    assert db.rows == Flush(was, now, prefix);
  }

  /** With the row under the iterator deleted, its successor is the first row again. */
  lemma StepIsNext(before: Rows, now: nat, prefix: Bytes, key: Bytes, after: Rows, found: Option<Bytes>)
    requires FirstBeyond(before, now, prefix, false, Some(key)) && after == before - {key}
    requires FirstBeyond(after, now, key, true, found)
    ensures FirstBeyond(after, now, prefix, false, found)
  {
    forall k | Sees(after, now, k) && AtMost(prefix, k) ensures Less(key, k) {
      assert AtMost(key, k);
    }
    if found.Some? { AtMostTransitive(prefix, key, found.value); }
  }

  method ApplyFlushDb(db: Database, c: Codec, env: Env, cmd: Command) returns (result: Result)
    requires cmd.op == FlushDb
    modifies db
    ensures Outcome(db.rows, result) == ApplyInTxn(c, env, old(db.rows), cmd)
  {
    FlushPrefix(db, env.now, [PREFIX_USER]);
    FlushPrefix(db, env.now, [PREFIX_TYPE]);
    return Success(Ok);
  }

  method ApplyCounter(db: Database, c: Codec, env: Env, cmd: Command) returns (result: Result)
    requires FamilyOf(cmd.op) == Counters
    modifies db
    ensures Executed(old(db.rows), db.rows, result, env, cmd,
                     DecideCounter(env, Look(old(db.rows), env.now, cmd.key), cmd))
  {
    hide ParseInt, FormatInt, Wrap64, RemainingMs, DeadlineFor, SetValue, Tag;
    var val, oldTtlMs := 0, 0;
    var item := Get(db.rows, env.now, UserKey(cmd.key));
    if item.Some? {
      if ExistingType(db.rows, env.now, cmd.key) != Tag(StringKind) { return Failure(WrongType); }
      oldTtlMs := RemainingMs(item.value.deadline, env.now);
      var parsed := ParseInt(item.value.value);
      if !parsed.Good? { return Failure(NotInteger); }
      val := parsed.n;
    }
    var delta := 1;
    if cmd.op == IncrBy || cmd.op == DecrBy {
      if |cmd.args| == 0 { return Failure(Panic); }
      var parsed := ParseInt(cmd.args[0]);
      if !parsed.Good? { return Failure(NotInteger); }
      delta := parsed.n;
    }
    if cmd.op == Incr || cmd.op == IncrBy {
      val := Wrap64(val + delta);
    } else {
      val := Wrap64(val - delta);
    }
    SetRows(db, env.now, cmd.key, FormatInt(val), Tag(StringKind), oldTtlMs);
    return Success(Int(val));
  }

  method ApplyExpire(db: Database, c: Codec, env: Env, cmd: Command) returns (result: Result)
    requires FamilyOf(cmd.op) == Expiring
    modifies db
    ensures Executed(old(db.rows), db.rows, result, env, cmd, DecideExpire(Look(old(db.rows), env.now, cmd.key), cmd))
  {
    var item := Get(db.rows, env.now, UserKey(cmd.key));
    if item.None? { return Success(Int(0)); }
    db.SetEntry(UserKey(cmd.key), Row(item.value.value, Deadline(env.now, cmd.ttlMs)));
    return Success(Int(1));
  }

  method ApplyPersist(db: Database, c: Codec, env: Env, cmd: Command) returns (result: Result)
    requires FamilyOf(cmd.op) == Persisting
    modifies db
    ensures Executed(old(db.rows), db.rows, result, env, cmd, DecidePersist(Look(old(db.rows), env.now, cmd.key)))
  {
    var item := Get(db.rows, env.now, UserKey(cmd.key));
    if item.None? { return Success(Int(0)); }
    if item.value.deadline == 0 { return Success(Int(0)); }
    var typ := Tag(StringKind);
    var typeItem := Get(db.rows, env.now, TypeKey(cmd.key));
    if typeItem.Some? { typ := typeItem.value.value; }
    SetRows(db, env.now, cmd.key, item.value.value, typ, 0);
    return Success(Int(1));
  }

  /** The reading half of the hash commands. */
  method ReadHash(db: Database, c: Codec, env: Env, key: Bytes) returns (fetched: Fetched<map<Bytes, Bytes>>)
    ensures fetched == FetchHash(c, env, Look(db.rows, env.now, key))
  {
    var item := Get(db.rows, env.now, UserKey(key));
    if item.None? { return Missing; }
    if ExistingType(db.rows, env.now, key) != Tag(HashKind) { return Refused(WrongType); }
    var decoded := UnpackHash(c, item.value.value);
    if decoded.None? { return Refused(Corrupt); }
    return Found(decoded.value, RemainingMs(item.value.deadline, env.now));
  }

  lemma HSetDecides(c: Codec, env: Env, cell: Cell, cmd: Command, hash: map<Bytes, Bytes>, count: int)
    requires |cmd.args| % 2 == 0
    ensures var f, d := FetchHash(c, env, cell), DecideHSet(c, env, cell, cmd);
            var old_ := if f.Found? then f.value else map[];
            && (f.Refused? ==> d == Refuse(f.fault))
            && (!f.Refused? && hash == PutAll(old_, cmd.args, cmd.op == HSetNx) && count == |hash| - |old_| ==>
                  d == WriteHash(c, env, hash, if f.Found? then f.ttlMs else 0, Int(count)))
  {
    hide FetchHash, WriteHash, PutAll;
  }

  method ApplyHSet(db: Database, c: Codec, env: Env, cmd: Command) returns (result: Result)
    requires FamilyOf(cmd.op) == HashWrites
    modifies db
    ensures Executed(old(db.rows), db.rows, result, env, cmd,
                     DecideHSet(c, env, Look(old(db.rows), env.now, cmd.key), cmd))
  {
    if |cmd.args| % 2 != 0 { return Failure(BadArity); }
    ghost var cell := Look(db.rows, env.now, cmd.key);
    HSetDecides(c, env, cell, cmd, map[], 0);
    hide DecideHSet, FetchHash, Look, PutAll, SetValue, Tag;
    var fetched := ReadHash(db, c, env, cmd.key);
    if fetched.Refused? { return Failure(fetched.fault); }
    var hash := if fetched.Found? then fetched.value else map[];
    var ttlMs := if fetched.Found? then fetched.ttlMs else 0;
    var count;
    hash, count := Loops.PutFields(hash, cmd.args, cmd.op == HSetNx);
    HSetDecides(c, env, cell, cmd, hash, count);
    SetRows(db, env.now, cmd.key, PackHash(c, hash, Enumerate(env, hash.Keys)), Tag(HashKind), ttlMs);
    return Success(Int(count));
  }

  lemma HDelDecides(c: Codec, env: Env, cell: Cell, cmd: Command, hash: map<Bytes, Bytes>, count: int)
    ensures var f, d := FetchHash(c, env, cell), DecideHDel(c, env, cell, cmd);
            && (f.Refused? ==> d == Refuse(f.fault))
            && (f.Missing? ==> d == Answer(Int(0)))
            && (f.Found? && hash == f.value - ToSet(cmd.args) && count == |f.value| - |hash| ==>
                  d == if hash == map[] then Decision(Remove, Success(Int(count)))
                       else WriteHash(c, env, hash, f.ttlMs, Int(count)))
  {
    hide FetchHash, WriteHash, ToSet;
  }

  method ApplyHDel(db: Database, c: Codec, env: Env, cmd: Command) returns (result: Result)
    requires FamilyOf(cmd.op) == HashDrops
    modifies db
    ensures Executed(old(db.rows), db.rows, result, env, cmd,
                     DecideHDel(c, env, Look(old(db.rows), env.now, cmd.key), cmd))
  {
    ghost var cell := Look(db.rows, env.now, cmd.key);
    HDelDecides(c, env, cell, cmd, map[], 0);
    hide DecideHDel, FetchHash, Look, SetValue, DropKey, Tag, ToSet;
    var fetched := ReadHash(db, c, env, cmd.key);
    if fetched.Refused? { return Failure(fetched.fault); }
    if fetched.Missing? { return Success(Int(0)); }
    var hash, count := Loops.DropFields(fetched.value, cmd.args);
    HDelDecides(c, env, cell, cmd, hash, count);
    StoreOrDelete(db, env, cmd.key, hash == map[], PackHash(c, hash, Enumerate(env, hash.Keys)), HashKind,
                  fetched.ttlMs);
    return Success(Int(count));
  }

  /** The reading half of every list and set command. */
  method ReadItems(db: Database, c: Codec, env: Env, key: Bytes, want: Kind) returns (fetched: Fetched<seq<Bytes>>)
    ensures fetched == FetchItems(c, env, Look(db.rows, env.now, key), want)
  {
    var item := Get(db.rows, env.now, UserKey(key));
    if item.None? { return Missing; }
    if ExistingType(db.rows, env.now, key) != Tag(want) { return Refused(WrongType); }
    var decoded := UnpackList(c, item.value.value);
    if decoded.None? { return Refused(Corrupt); }
    return Found(decoded.value, RemainingMs(item.value.deadline, env.now));
  }

  /** The writing half of the commands that drop an emptied collection. */
  method StoreOrDelete(db: Database, env: Env, key: Bytes, empty: bool, payload: Bytes, kind: Kind, ttlMs: int)
    modifies db
    ensures db.rows == Perform(old(db.rows), env.now, key, if empty then Remove else Put(payload, Tag(kind), ttlMs))
  {
    if empty {
      DeleteRows(db, key);
    } else {
      SetRows(db, env.now, key, payload, Tag(kind), ttlMs);
    }
  }

  method ApplyPush(db: Database, c: Codec, env: Env, cmd: Command) returns (result: Result)
    requires FamilyOf(cmd.op) == Pushes
    modifies db
    ensures Executed(old(db.rows), db.rows, result, env, cmd,
                     DecidePush(c, env, Look(old(db.rows), env.now, cmd.key), cmd))
  {
    hide FetchItems, Look, RemainingMs, DeadlineFor, SetValue, DropKey, Tag, Push;
    var fetched := ReadItems(db, c, env, cmd.key, ListKind);
    if fetched.Refused? { return Failure(fetched.fault); }
    if fetched.Missing? && (cmd.op == LPushX || cmd.op == RPushX) { return Success(Int(0)); }
    var list := if fetched.Found? then fetched.value else [];
    var ttlMs := if fetched.Found? then fetched.ttlMs else 0;
    list := Loops.PushEach(list, cmd.args, cmd.op == LPush || cmd.op == LPushX);
    SetRows(db, env.now, cmd.key, PackList(c, list), Tag(ListKind), ttlMs);
    return Success(Int(|list|));
  }

  /** How many elements a pop of `count` takes. */
  function PopSize(count: nat, list: seq<Bytes>): nat { if count > |list| then |list| else count }

  lemma PopDecides(c: Codec, env: Env, cell: Cell, cmd: Command, n: nat, popped: seq<Bytes>, list: seq<Bytes>)
    ensures var f, d, k := FetchItems(c, env, cell, ListKind), DecidePop(c, env, cell, cmd), PopCount(cmd.args);
            && (f.Refused? ==> d == Refuse(f.fault))
            && (f.Missing? || (f.Found? && f.value == []) ==> d == Answer(Nil))
            && (f.Found? && f.value != [] && k.None? ==> d == Refuse(NotInteger))
            && (f.Found? && f.value != [] && k.Some? && n == PopSize(k.value, f.value)
                && popped == Popped(f.value, n, AtFront(cmd.op)) && list == AfterPop(f.value, n, AtFront(cmd.op)) ==>
                  && (cmd.args == [] ==> popped != [])
                  && var reply := if cmd.args != [] then Multi(popped) else Bulk(popped[0]);
                     d == WriteOrRemoveList(c, list, f.ttlMs, reply))
  {
    hide FetchItems, WriteOrRemoveList;
  }

  method ApplyPop(db: Database, c: Codec, env: Env, cmd: Command) returns (result: Result)
    requires FamilyOf(cmd.op) == Pops
    modifies db
    ensures Executed(old(db.rows), db.rows, result, env, cmd,
                     DecidePop(c, env, Look(old(db.rows), env.now, cmd.key), cmd))
  {
    ghost var cell := Look(db.rows, env.now, cmd.key);
    PopDecides(c, env, cell, cmd, 0, [], []);
    hide DecidePop, FetchItems, Look, SetValue, DropKey, Tag, Popped, AfterPop, ParseInt;
    var fetched := ReadItems(db, c, env, cmd.key, ListKind);
    if fetched.Refused? { return Failure(fetched.fault); }
    if fetched.Missing? || fetched.value == [] { return Success(Nil); }
    var list := fetched.value;
    var count: nat := 1;
    if |cmd.args| > 0 {
      var parsed := ParseInt(cmd.args[0]);
      if !parsed.Good? || parsed.n < 0 { return Failure(NotInteger); }
      count := parsed.n;
    }
    if count > |list| { count := |list|; }
    var popped;
    popped, list := Loops.PopEach(list, count, cmd.op == LPop);
    PopDecides(c, env, cell, cmd, count, popped, list);
    StoreOrDelete(db, env, cmd.key, list == [], PackList(c, list), ListKind, fetched.ttlMs);
    if |cmd.args| > 0 { return Success(Multi(popped)); }
    return Success(Bulk(popped[0]));
  }

  method ApplyTrim(db: Database, c: Codec, env: Env, cmd: Command) returns (result: Result)
    requires FamilyOf(cmd.op) == Trims
    modifies db
    ensures Executed(old(db.rows), db.rows, result, env, cmd,
                     DecideTrim(c, env, Look(old(db.rows), env.now, cmd.key), cmd))
  {
    hide FetchItems, Look, RemainingMs, DeadlineFor, SetValue, DropKey, Tag;
    var fetched := ReadItems(db, c, env, cmd.key, ListKind);
    if fetched.Refused? { return Failure(fetched.fault); }
    var list := if fetched.Found? then fetched.value else [];
    var ttlMs := if fetched.Found? then fetched.ttlMs else 0;
    if |cmd.args| < 2 { return Failure(Panic); }
    list := Loops.SliceList(list, Atoi(cmd.args[0]), Atoi(cmd.args[1]));
    StoreOrDelete(db, env, cmd.key, list == [], PackList(c, list), ListKind, ttlMs);
    return Success(Ok);
  }

  method ApplyRem(db: Database, c: Codec, env: Env, cmd: Command) returns (result: Result)
    requires FamilyOf(cmd.op) == Removals
    modifies db
    ensures Executed(old(db.rows), db.rows, result, env, cmd,
                     DecideRem(c, env, Look(old(db.rows), env.now, cmd.key), cmd))
  {
    hide FetchItems, Look, RemainingMs, DeadlineFor, SetValue, DropKey, Tag;
    var fetched := ReadItems(db, c, env, cmd.key, ListKind);
    if fetched.Refused? { return Failure(fetched.fault); }
    var list := if fetched.Found? then fetched.value else [];
    var ttlMs := if fetched.Found? then fetched.ttlMs else 0;
    if |cmd.args| < 2 { return Failure(Panic); }
    var limit := Atoi(cmd.args[0]);
    var kept, count := [], 0;
    if limit >= 0 {
      kept, count := Loops.RemoveForwards(list, limit, cmd.args[1]);
    } else {
      kept, count := Loops.RemoveBackwards(list, limit, cmd.args[1]);
    }
    StoreOrDelete(db, env, cmd.key, kept == [], PackList(c, kept), ListKind, ttlMs);
    return Success(Int(count));
  }

  lemma SAddDecides(c: Codec, env: Env, cell: Cell, cmd: Command, members: set<Bytes>, count: int)
    ensures var f, d := FetchItems(c, env, cell, SetKind), DecideSAdd(c, env, cell, cmd);
            var old_ := if f.Found? then ToSet(f.value) else {};
            && (f.Refused? ==> d == Refuse(f.fault))
            && (!f.Refused? && members == old_ + ToSet(cmd.args) && count == Added(old_, cmd.args) ==>
                  d == WriteSet(c, env, members, if f.Found? then f.ttlMs else 0, Int(count)))
  {
    hide FetchItems, WriteSet, ToSet, Added;
  }

  method ApplySAdd(db: Database, c: Codec, env: Env, cmd: Command) returns (result: Result)
    requires FamilyOf(cmd.op) == SetWrites
    modifies db
    ensures Executed(old(db.rows), db.rows, result, env, cmd,
                     DecideSAdd(c, env, Look(old(db.rows), env.now, cmd.key), cmd))
  {
    ghost var cell := Look(db.rows, env.now, cmd.key);
    SAddDecides(c, env, cell, cmd, {}, 0);
    hide DecideSAdd, FetchItems, Look, SetValue, Tag, ToSet;
    var fetched := ReadItems(db, c, env, cmd.key, SetKind);
    if fetched.Refused? { return Failure(fetched.fault); }
    var old_: set<Bytes> := if fetched.Found? then ToSet(fetched.value) else {};
    var ttlMs := if fetched.Found? then fetched.ttlMs else 0;
    var s, count := Loops.AddMembers(old_, cmd.args);
    SAddDecides(c, env, cell, cmd, s, count);
    SetRows(db, env.now, cmd.key, PackList(c, Enumerate(env, s)), Tag(SetKind), ttlMs);
    return Success(Int(count));
  }

  lemma SRemDecides(c: Codec, env: Env, cell: Cell, cmd: Command, members: set<Bytes>, count: int)
    ensures var f, d := FetchItems(c, env, cell, SetKind), DecideSRem(c, env, cell, cmd);
            && (f.Refused? ==> d == Refuse(f.fault))
            && (f.Missing? ==> d == Answer(Int(0)))
            && (f.Found? && members == ToSet(f.value) - ToSet(cmd.args) && count == |ToSet(f.value)| - |members| ==>
                  d == WriteOrRemoveSet(c, env, members, f.ttlMs, Int(count)))
  {
    hide FetchItems, WriteOrRemoveSet, ToSet;
  }

  method ApplySRem(db: Database, c: Codec, env: Env, cmd: Command) returns (result: Result)
    requires FamilyOf(cmd.op) == SetDrops
    modifies db
    ensures Executed(old(db.rows), db.rows, result, env, cmd,
                     DecideSRem(c, env, Look(old(db.rows), env.now, cmd.key), cmd))
  {
    ghost var cell := Look(db.rows, env.now, cmd.key);
    SRemDecides(c, env, cell, cmd, {}, 0);
    hide DecideSRem, FetchItems, Look, SetValue, DropKey, Tag, ToSet;
    var fetched := ReadItems(db, c, env, cmd.key, SetKind);
    if fetched.Refused? { return Failure(fetched.fault); }
    if fetched.Missing? { return Success(Int(0)); }
    var s, count := Loops.RemoveMembers(ToSet(fetched.value), cmd.args);
    SRemDecides(c, env, cell, cmd, s, count);
    StoreOrDelete(db, env, cmd.key, s == {}, PackList(c, Enumerate(env, s)), SetKind, fetched.ttlMs);
    return Success(Int(count));
  }

  method ApplySPop(db: Database, c: Codec, env: Env, cmd: Command) returns (result: Result)
    requires FamilyOf(cmd.op) == SetPops && Orderly(env)
    modifies db
    ensures Executed(old(db.rows), db.rows, result, env, cmd,
                     DecideSPop(c, env, Look(old(db.rows), env.now, cmd.key), cmd))
  {
    hide FetchItems, Look, RemainingMs, DeadlineFor, SetValue, DropKey, Tag;
    var fetched := ReadItems(db, c, env, cmd.key, SetKind);
    if fetched.Refused? { return Failure(fetched.fault); }
    if fetched.Missing? { return Success(if |cmd.args| > 0 then Multi([]) else Nil); }
    var count := 1;
    if |cmd.args| > 0 { count := Atoi(cmd.args[0]); }
    var order := Enumerate(env, ToSet(fetched.value));
    assert Enumerates(order, ToSet(fetched.value));
    var popped, s := Loops.TakeMembers(order, count);
    assert popped == Taken(env, ToSet(fetched.value), cmd.args);
    StoreOrDelete(db, env, cmd.key, s == {}, PackList(c, Enumerate(env, s)), SetKind, fetched.ttlMs);
    if |cmd.args| > 0 { return Success(Multi(popped)); }
    return Success(if popped == [] then Nil else Bulk(popped[0]));
  }

  /** applyCmdInTxn: the dispatch on the command name. */
  method ApplyCmdInTxn(db: Database, c: Codec, env: Env, cmd: Command) returns (result: Result)
    requires Orderly(env)
    modifies db
    ensures Outcome(db.rows, result) == ApplyInTxn(c, env, old(db.rows), cmd)
  {
    match FamilyOf(cmd.op) {
      case Strings => result := ApplyString(db, c, env, cmd);
      case ManyStrings => result := ApplyMSet(db, c, env, cmd);
      case Deletion => result := ApplyDel(db, c, env, cmd);
      case Flushing => result := ApplyFlushDb(db, c, env, cmd);
      case Counters => result := ApplyCounter(db, c, env, cmd);
      case Expiring => result := ApplyExpire(db, c, env, cmd);
      case Persisting => result := ApplyPersist(db, c, env, cmd);
      case HashWrites => result := ApplyHSet(db, c, env, cmd);
      case HashDrops => result := ApplyHDel(db, c, env, cmd);
      case Pushes => result := ApplyPush(db, c, env, cmd);
      case Pops => result := ApplyPop(db, c, env, cmd);
      case Trims => result := ApplyTrim(db, c, env, cmd);
      case Removals => result := ApplyRem(db, c, env, cmd);
      case SetWrites => result := ApplySAdd(db, c, env, cmd);
      case SetDrops => result := ApplySRem(db, c, env, cmd);
      case SetPops => result := ApplySPop(db, c, env, cmd);
      case NoFamily => result := Failure(UnknownOp);
    }
  }

  /** Apply: commit on success, roll back on failure. */
  method ApplyLog(db: Database, c: Codec, env: Env, cmd: Command) returns (result: Result)
    requires Orderly(env)
    modifies db
    ensures Outcome(db.rows, result) == Apply(c, env, old(db.rows), cmd)
  {
    var snapshot := db.rows;
    result := ApplyCmdInTxn(db, c, env, cmd);
    if result.Failure? { db.rows := snapshot; }
  }
}
