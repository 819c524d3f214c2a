/** The two-row encoding refines the typed map: at every key, in every clocked run, what the rows
    show is the typed entry, and every answer is the typed answer. */
module Refinement {
  import opened Octets
  import opened Decimal
  import opened Collections
  import opened Store
  import opened Commands
  import opened Fsm
  import T = Typed

  predicate Encodes(c: Codec, bytes: Bytes, kind: Bytes, value: T.Value) {
    match value
    case Str(b) => kind == Tag(StringKind) && bytes == b
    case Hash(h) => kind == Tag(HashKind) && UnpackHash(c, bytes) == Some(h)
    case List(l) => kind == Tag(ListKind) && UnpackList(c, bytes) == Some(l)
    case Members(s) =>
      kind == Tag(SetKind) && UnpackList(c, bytes).Some? && Enumerates(UnpackList(c, bytes).value, s)
  }

  predicate Shows(c: Codec, cell: Cell, entry: Option<T.Entry>) {
    match cell
    case Absent => entry.None?
    case Cell(bytes, kind, deadline) =>
      entry.Some? && entry.value.deadline == deadline && Encodes(c, bytes, kind, entry.value.value)
  }

  /** A non-string value never outlives the type row that says what it is. */
  predicate Durable(rows: Rows, now: nat, key: Bytes) {
    Sees(rows, now, UserKey(key)) && Sees(rows, now, TypeKey(key))
    && rows[TypeKey(key)].value != Tag(StringKind)
    ==>
      var v, t := rows[UserKey(key)].deadline, rows[TypeKey(key)].deadline;
      t == 0 || (v != 0 && v <= t)
  }

  predicate InStep(c: Codec, rows: Rows, db: T.Db, now: nat, key: Bytes) {
    Shows(c, Look(rows, now, key), T.Lookup(db, now, key)) && Durable(rows, now, key)
  }

  ghost predicate Simulates(c: Codec, rows: Rows, db: T.Db, now: nat) {
    forall key :: InStep(c, rows, db, now, key)
  }

  /** The one thing a client must not do: EXPIRE a collection past the deadline of its type row. */
  predicate TypeOutlives(rows: Rows, now: nat, cmd: Command) {
    cmd.op == Expire && Sees(rows, now, UserKey(cmd.key)) && Sees(rows, now, TypeKey(cmd.key))
    && rows[TypeKey(cmd.key)].value != Tag(StringKind) && rows[TypeKey(cmd.key)].deadline != 0
    ==>
      var d := Deadline(now, cmd.ttlMs);
      d != 0 && d <= rows[TypeKey(cmd.key)].deadline
  }

  /** Time passing hides an entry from both sides at once and changes no type. */
  lemma InStepLater(c: Codec, rows: Rows, db: T.Db, now: nat, later: nat, key: Bytes)
    requires InStep(c, rows, db, now, key) && now <= later
    ensures InStep(c, rows, db, later, key)
  {
    assert Second(now) <= Second(later);
  }

  /** The effect on the rows and the new typed entry are the same change. */
  predicate Fits(c: Codec, now: nat, cell: Cell, cur: Option<T.Entry>, e: Effect, entry: Option<T.Entry>) {
    match e
    case Keep => entry == cur
    case Put(bytes, kind, ttlMs) =>
      entry.Some? && entry.value.deadline == DeadlineFor(now, ttlMs) && Encodes(c, bytes, kind, entry.value.value)
    case Remove => entry.None?
    case Unlink => entry.None?
    case Retime(ttlMs) =>
      cell.Cell? && cur.Some? && entry == Some(T.Entry(cur.value.value, Deadline(now, ttlMs)))
  }

  predicate Matches(c: Codec, env: Env, cell: Cell, cur: Option<T.Entry>, d: Decision, v: T.Verdict) {
    d.result == v.result && Fits(c, env.now, cell, cur, d.effect, v.entry)
  }

  lemma StringsMatch(c: Codec, env: Env, cell: Cell, cur: Option<T.Entry>, cmd: Command)
    requires Shows(c, cell, cur)
    ensures Matches(c, env, cell, cur, DecideString(env, cell, cmd), T.StringStep(env, cur, cmd))
    ensures Matches(c, env, cell, cur, DecideCounter(env, cell, cmd), T.CounterStep(env, cur, cmd))
  {
    KindsDiffer();
  }

  lemma KindsDiffer()
    ensures forall a: Kind, b: Kind :: Tag(a) == Tag(b) <==> a == b
  {
    forall a: Kind, b: Kind ensures Tag(a) == Tag(b) <==> a == b { TagInjective(a, b); }
  }

  lemma DeadlinesMatch(c: Codec, env: Env, cell: Cell, cur: Option<T.Entry>, cmd: Command)
    requires Shows(c, cell, cur)
    ensures Matches(c, env, cell, cur, DecideExpire(cell, cmd), T.ExpireStep(env, cur, cmd))
    ensures Matches(c, env, cell, cur, DecidePersist(cell), T.PersistStep(cur))
    ensures Matches(c, env, cell, cur, DecideLegacyDel(cell, cmd), T.LegacyDelStep(cur, cmd))
  {
  }

  lemma FetchHashMatches(c: Codec, env: Env, cell: Cell, cur: Option<T.Entry>)
    requires Shows(c, cell, cur)
    ensures FetchHash(c, env, cell)
            == if cur.None? then Missing
               else if cur.value.value.Hash?
                 then Found(cur.value.value.fields, RemainingMs(cur.value.deadline, env.now))
               else Refused(WrongType)
  {
    KindsDiffer();
  }

  lemma FetchListMatches(c: Codec, env: Env, cell: Cell, cur: Option<T.Entry>)
    requires Shows(c, cell, cur)
    ensures FetchItems(c, env, cell, ListKind)
            == if cur.None? then Missing
               else if cur.value.value.List? then Found(cur.value.value.items, RemainingMs(cur.value.deadline, env.now))
               else Refused(WrongType)
  {
    KindsDiffer();
  }

  lemma FetchSetMatches(c: Codec, env: Env, cell: Cell, cur: Option<T.Entry>)
    requires Shows(c, cell, cur)
    ensures var fetched := FetchItems(c, env, cell, SetKind);
            if cur.None? then fetched == Missing
            else if cur.value.value.Members? then
              && fetched.Found? && ToSet(fetched.value) == cur.value.value.members
              && fetched.ttlMs == RemainingMs(cur.value.deadline, env.now)
            else fetched == Refused(WrongType)
  {
    KindsDiffer();
  }

  /** A hash written back in some order of its fields, on both sides. */
  lemma HashWriteMatches(c: Codec, env: Env, cell: Cell, cur: Option<T.Entry>, h: map<Bytes, Bytes>, reply: Reply)
    requires Lawful(c) && Orderly(env) && Shows(c, cell, cur)
    ensures var ttlMs := if cur.Some? then RemainingMs(cur.value.deadline, env.now) else 0;
            Matches(c, env, cell, cur, WriteHash(c, env, h, ttlMs, reply), T.Rewrite(env, cur, T.Hash(h), reply))
  {
    assert Enumerates(Enumerate(env, h.Keys), h.Keys);
  }

  function HashIn(cur: Option<T.Entry>): map<Bytes, Bytes> {
    if cur.Some? && cur.value.value.Hash? then cur.value.value.fields else map[]
  }

  lemma HSetMatches(c: Codec, env: Env, cell: Cell, cur: Option<T.Entry>, cmd: Command)
    requires Lawful(c) && Orderly(env) && Shows(c, cell, cur)
    ensures Matches(c, env, cell, cur, DecideHSet(c, env, cell, cmd), T.HSetStep(env, cur, cmd))
  {
    hide PutAll, Lawful, Orderly, Shows, FetchHash, WriteHash, T.Rewrite, RemainingMs, Encodes;
    FetchHashMatches(c, env, cell, cur);
    if |cmd.args| % 2 == 0 {
      var h := PutAll(HashIn(cur), cmd.args, cmd.op == HSetNx);
      HashWriteMatches(c, env, cell, cur, h, Int(|h| - |HashIn(cur)|));
    }
  }

  lemma HDelMatches(c: Codec, env: Env, cell: Cell, cur: Option<T.Entry>, cmd: Command)
    requires Lawful(c) && Orderly(env) && Shows(c, cell, cur)
    ensures Matches(c, env, cell, cur, DecideHDel(c, env, cell, cmd), T.HDelStep(env, cur, cmd))
  {
    hide Lawful, Orderly, Shows, FetchHash, WriteHash, T.Rewrite, RemainingMs, Encodes;
    FetchHashMatches(c, env, cell, cur);
    var h := HashIn(cur) - ToSet(cmd.args);
    HashWriteMatches(c, env, cell, cur, h, Int(|HashIn(cur)| - |h|));
  }

  /** A list written back, or dropped when empty, on both sides. */
  lemma ListWriteMatches(c: Codec, env: Env, cell: Cell, cur: Option<T.Entry>, l: seq<Bytes>, reply: Reply)
    requires Lawful(c) && Shows(c, cell, cur)
    ensures var ttlMs := if cur.Some? then RemainingMs(cur.value.deadline, env.now) else 0;
            && Matches(c, env, cell, cur, WriteList(c, l, ttlMs, reply), T.Rewrite(env, cur, T.List(l), reply))
            && Matches(c, env, cell, cur, WriteOrRemoveList(c, l, ttlMs, reply),
                       T.RewriteOrRemove(env, cur, T.List(l), reply))
  {
  }

  lemma PushMatches(c: Codec, env: Env, cell: Cell, cur: Option<T.Entry>, cmd: Command)
    requires Lawful(c) && Shows(c, cell, cur)
    ensures Matches(c, env, cell, cur, DecidePush(c, env, cell, cmd), T.PushStep(env, cur, cmd))
  {
    FetchListMatches(c, env, cell, cur);
    var l := Push(ListIn(cur), cmd.args, AtFront(cmd.op));
    ListWriteMatches(c, env, cell, cur, l, Int(|l|));
  }

  function ListIn(cur: Option<T.Entry>): seq<Bytes> {
    if cur.Some? && cur.value.value.List? then cur.value.value.items else []
  }

  lemma PopMatches(c: Codec, env: Env, cell: Cell, cur: Option<T.Entry>, cmd: Command)
    requires Lawful(c) && Shows(c, cell, cur)
    ensures Matches(c, env, cell, cur, DecidePop(c, env, cell, cmd), T.PopStep(env, cur, cmd))
  {
    FetchListMatches(c, env, cell, cur);
    var old_ := ListIn(cur);
    if old_ != [] && PopCount(cmd.args).Some? {
      var count := PopCount(cmd.args).value;
      var n := if count > |old_| then |old_| else count;
      var popped := Popped(old_, n, AtFront(cmd.op));
      var reply := if cmd.args != [] then Multi(popped) else Bulk(popped[0]);
      ListWriteMatches(c, env, cell, cur, AfterPop(old_, n, AtFront(cmd.op)), reply);
    }
  }

  lemma TrimMatches(c: Codec, env: Env, cell: Cell, cur: Option<T.Entry>, cmd: Command)
    requires Lawful(c) && Shows(c, cell, cur)
    ensures Matches(c, env, cell, cur, DecideTrim(c, env, cell, cmd), T.TrimStep(env, cur, cmd))
  {
    FetchListMatches(c, env, cell, cur);
    if |cmd.args| >= 2 {
      ListWriteMatches(c, env, cell, cur, Slice(ListIn(cur), Atoi(cmd.args[0]), Atoi(cmd.args[1])), Ok);
    }
  }

  lemma RemMatches(c: Codec, env: Env, cell: Cell, cur: Option<T.Entry>, cmd: Command)
    requires Lawful(c) && Shows(c, cell, cur)
    ensures Matches(c, env, cell, cur, DecideRem(c, env, cell, cmd), T.RemStep(env, cur, cmd))
  {
    FetchListMatches(c, env, cell, cur);
    if |cmd.args| >= 2 {
      var l := Kept(ListIn(cur), Atoi(cmd.args[0]), cmd.args[1]);
      ListWriteMatches(c, env, cell, cur, l, Int(|ListIn(cur)| - |l|));
    }
  }

  /** A set written back in some order, or dropped when empty, on both sides. */
  lemma SetWriteMatches(c: Codec, env: Env, cell: Cell, cur: Option<T.Entry>, s: set<Bytes>, reply: Reply)
    requires Lawful(c) && Orderly(env) && Shows(c, cell, cur)
    ensures var ttlMs := if cur.Some? then RemainingMs(cur.value.deadline, env.now) else 0;
            && Matches(c, env, cell, cur, WriteSet(c, env, s, ttlMs, reply), T.Rewrite(env, cur, T.Members(s), reply))
            && Matches(c, env, cell, cur, WriteOrRemoveSet(c, env, s, ttlMs, reply),
                       T.RewriteOrRemove(env, cur, T.Members(s), reply))
  {
    assert Enumerates(Enumerate(env, s), s);
  }

  function MembersIn(cur: Option<T.Entry>): set<Bytes> {
    if cur.Some? && cur.value.value.Members? then cur.value.value.members else {}
  }

  lemma SAddMatches(c: Codec, env: Env, cell: Cell, cur: Option<T.Entry>, cmd: Command)
    requires Lawful(c) && Orderly(env) && Shows(c, cell, cur)
    ensures Matches(c, env, cell, cur, DecideSAdd(c, env, cell, cmd), T.SAddStep(env, cur, cmd))
  {
    FetchSetMatches(c, env, cell, cur);
    var s := MembersIn(cur) + ToSet(cmd.args);
    var reply := Int(Added(MembersIn(cur), cmd.args));
    SetWriteMatches(c, env, cell, cur, s, reply);
    if cur.None? || cur.value.value.Members? {
      var ttlMs := if cur.Some? then RemainingMs(cur.value.deadline, env.now) else 0;
      assert DecideSAdd(c, env, cell, cmd) == WriteSet(c, env, s, ttlMs, reply);
      assert T.SAddStep(env, cur, cmd) == T.Rewrite(env, cur, T.Members(s), reply);
    }
  }

  lemma SRemMatches(c: Codec, env: Env, cell: Cell, cur: Option<T.Entry>, cmd: Command)
    requires Lawful(c) && Orderly(env) && Shows(c, cell, cur)
    ensures Matches(c, env, cell, cur, DecideSRem(c, env, cell, cmd), T.SRemStep(env, cur, cmd))
  {
    FetchSetMatches(c, env, cell, cur);
    var s := MembersIn(cur) - ToSet(cmd.args);
    SetWriteMatches(c, env, cell, cur, s, Int(|MembersIn(cur)| - |s|));
  }

  lemma SPopMatches(c: Codec, env: Env, cell: Cell, cur: Option<T.Entry>, cmd: Command)
    requires Lawful(c) && Orderly(env) && Shows(c, cell, cur)
    ensures Matches(c, env, cell, cur, DecideSPop(c, env, cell, cmd), T.SPopStep(env, cur, cmd))
  {
    FetchSetMatches(c, env, cell, cur);
    var taken := Taken(env, MembersIn(cur), cmd.args);
    var reply := if cmd.args != [] then Multi(taken) else if taken == [] then Nil else Bulk(taken[0]);
    SetWriteMatches(c, env, cell, cur, MembersIn(cur) - ToSet(taken), reply);
  }

  lemma DecisionsMatch(c: Codec, env: Env, cell: Cell, cur: Option<T.Entry>, cmd: Command)
    requires Lawful(c) && Orderly(env) && Shows(c, cell, cur)
    ensures Matches(c, env, cell, cur, Decide(c, env, cell, cmd), T.KeyStep(env, cur, cmd))
  {
    match FamilyOf(cmd.op) {
      case Strings | Counters => StringsMatch(c, env, cell, cur, cmd);
      case Expiring | Persisting | Deletion => DeadlinesMatch(c, env, cell, cur, cmd);
      case HashWrites => HSetMatches(c, env, cell, cur, cmd);
      case HashDrops => HDelMatches(c, env, cell, cur, cmd);
      case Pushes => PushMatches(c, env, cell, cur, cmd);
      case Pops => PopMatches(c, env, cell, cur, cmd);
      case Trims => TrimMatches(c, env, cell, cur, cmd);
      case Removals => RemMatches(c, env, cell, cur, cmd);
      case SetWrites => SAddMatches(c, env, cell, cur, cmd);
      case SetDrops => SRemMatches(c, env, cell, cur, cmd);
      case SetPops => SPopMatches(c, env, cell, cur, cmd);
      case _ =>
    }
  }

  /** Performing a fitting effect keeps the key in step. */
  lemma PerformKeepsStep(c: Codec, rows: Rows, db: T.Db, now: nat, key: Bytes, e: Effect, entry: Option<T.Entry>)
    requires InStep(c, rows, db, now, key)
    requires Fits(c, now, Look(rows, now, key), T.Lookup(db, now, key), e, entry)
    requires e.Retime? ==> Durable(Perform(rows, now, key, e), now, key)
    ensures InStep(c, Perform(rows, now, key, e), T.Assign(db, key, entry), now, key)
  {
  }

  predicate SameRows(rows: Rows, rows': Rows, key: Bytes) {
    && (UserKey(key) in rows <==> UserKey(key) in rows')
    && (TypeKey(key) in rows <==> TypeKey(key) in rows')
    && (UserKey(key) in rows ==> rows[UserKey(key)] == rows'[UserKey(key)])
    && (TypeKey(key) in rows ==> rows[TypeKey(key)] == rows'[TypeKey(key)])
  }

  lemma FrameKeepsStep(c: Codec, rows: Rows, rows': Rows, db: T.Db, db': T.Db, now: nat, key: Bytes)
    requires InStep(c, rows, db, now, key)
    requires SameRows(rows, rows', key) && T.Lookup(db, now, key) == T.Lookup(db', now, key)
    ensures InStep(c, rows', db', now, key)
  {
  }

  /** An effect on one key leaves the rows of every other key alone. */
  lemma PerformFrame(rows: Rows, now: nat, key: Bytes, e: Effect, other: Bytes)
    requires other != key
    ensures SameRows(rows, Perform(rows, now, key, e), other)
  {
    assert UserKey(other)[1..] != UserKey(key)[1..] && TypeKey(other)[1..] != TypeKey(key)[1..];
  }

  lemma {:induction false} MSetKeepsStep(c: Codec, rows: Rows, db: T.Db, now: nat, pairs: seq<Bytes>, key: Bytes)
    requires |pairs| % 2 == 0 && InStep(c, rows, db, now, key)
    ensures InStep(c, MSetAll(rows, now, pairs), T.PutStrings(db, pairs), now, key)
    decreases |pairs|
  {
    if pairs != [] {
      var e := Put(pairs[1], Tag(StringKind), 0);
      var rows' := Perform(rows, now, pairs[0], e);
      var entry := T.Entry(T.Str(pairs[1]), 0);
      var db' := db[pairs[0] := entry];
      if key == pairs[0] {
        PerformKeepsStep(c, rows, db, now, key, e, Some(entry));
      } else {
        PerformFrame(rows, now, pairs[0], e, key);
        FrameKeepsStep(c, rows, rows', db, db', now, key);
      }
      MSetKeepsStep(c, rows', db', now, pairs[2..], key);
    }
  }

  lemma {:induction false} DelAllEffect(rows: Rows, now: nat, keys: seq<Bytes>, key: Bytes)
    ensures key in keys ==> !Sees(DelAll(rows, now, keys), now, UserKey(key))
    ensures key !in keys ==> SameRows(rows, DelAll(rows, now, keys), key)
    ensures !Sees(rows, now, UserKey(key)) ==> !Sees(DelAll(rows, now, keys), now, UserKey(key))
    decreases |keys|
  {
    if keys != [] {
      if key != keys[0] { PerformFrame(rows, now, keys[0], Remove, key); }
      var rows' := if Sees(rows, now, UserKey(keys[0])) then DropKey(rows, keys[0]) else rows;
      DelAllEffect(rows', now, keys[1..], key);
    }
  }

  lemma FlushHidesKey(rows: Rows, now: nat, key: Bytes)
    ensures !Sees(FlushDbRows(rows, now), now, UserKey(key))
  {
  }

  /** One command keeps a key in step, whatever happens at the other keys. */
  lemma ApplyKeepsStep(c: Codec, env: Env, rows: Rows, db: T.Db, cmd: Command, key: Bytes)
    requires Lawful(c) && Orderly(env) && InStep(c, rows, db, env.now, key)
    requires cmd.key == key ==> TypeOutlives(rows, env.now, cmd)
    ensures InStep(c, Apply(c, env, rows, cmd).rows, T.Apply(env, db, cmd).db, env.now, key)
  {
    if cmd.op == MSet {
      if |cmd.args| % 2 == 0 { MSetKeepsStep(c, rows, db, env.now, cmd.args, key); }
    } else if cmd.op == Del && cmd.args != [] {
      DelAllEffect(rows, env.now, cmd.args, key);
      if key !in cmd.args {
        FrameKeepsStep(c, rows, DelAll(rows, env.now, cmd.args), db, db - ToSet(cmd.args), env.now, key);
      }
    } else if cmd.op == FlushDb {
      FlushHidesKey(rows, env.now, key);
    } else {
      KeyCommandKeepsStep(c, env, rows, db, cmd, key);
    }
  }

  lemma KeyCommandKeepsStep(c: Codec, env: Env, rows: Rows, db: T.Db, cmd: Command, key: Bytes)
    requires Lawful(c) && Orderly(env) && OnOneKey(cmd) && InStep(c, rows, db, env.now, key)
    requires cmd.key == key ==> TypeOutlives(rows, env.now, cmd)
    ensures InStep(c, Apply(c, env, rows, cmd).rows, T.Apply(env, db, cmd).db, env.now, key)
    ensures cmd.key == key ==> Apply(c, env, rows, cmd).result == T.Apply(env, db, cmd).result
  {
    var d := Decide(c, env, Look(rows, env.now, cmd.key), cmd);
    var v := T.KeyStep(env, T.Lookup(db, env.now, cmd.key), cmd);
    ApplyOnKey(c, env, rows, cmd);
    if cmd.key == key {
      DecisionsMatch(c, env, Look(rows, env.now, key), T.Lookup(db, env.now, key), cmd);
      RetimeOnlyByExpire(c, env, Look(rows, env.now, key), cmd);
      PerformKeepsStep(c, rows, db, env.now, key, d.effect, v.entry);
    } else {
      PerformFrame(rows, env.now, cmd.key, d.effect, key);
      FrameKeepsStep(c, rows, Perform(rows, env.now, cmd.key, d.effect), db, T.Assign(db, cmd.key, v.entry), env.now,
                     key);
    }
  }

  lemma RetimeOnlyByExpire(c: Codec, env: Env, cell: Cell, cmd: Command)
    ensures var d := Decide(c, env, cell, cmd);
            d.effect.Retime? ==> cmd.op == Expire && cell.Cell? && d.effect.ttlMs == cmd.ttlMs
  {
  }

  /** Every answer is the typed answer. */
  lemma ApplyAnswers(c: Codec, env: Env, rows: Rows, db: T.Db, cmd: Command)
    requires Lawful(c) && Orderly(env) && Simulates(c, rows, db, env.now)
    requires TypeOutlives(rows, env.now, cmd)
    ensures Apply(c, env, rows, cmd).result == T.Apply(env, db, cmd).result
  {
    if OnOneKey(cmd) {
      KeyCommandKeepsStep(c, env, rows, db, cmd, cmd.key);
    } else if cmd.op == Del {
      forall key ensures Sees(rows, env.now, UserKey(key)) <==> T.Lookup(db, env.now, key).Some? {
        assert InStep(c, rows, db, env.now, key);
      }
      assert VisibleKeys(rows, env.now, cmd.args) == set k | k in cmd.args && T.Lookup(db, env.now, k).Some?;
    }
  }

  /** No step of the run expires a collection past its type row. */
  ghost predicate TypesOutlive(c: Codec, rows: Rows, steps: seq<Step>)
    decreases |steps|
  {
    steps != [] ==>
      && TypeOutlives(rows, steps[0].env.now, steps[0].cmd)
      && TypesOutlive(c, Apply(c, steps[0].env, rows, steps[0].cmd).rows, steps[1..])
  }

  lemma ClockedTail(steps: seq<Step>, start: nat)
    requires Clocked(steps, start) && steps != []
    ensures start <= steps[0].env.now && Orderly(steps[0].env)
    ensures Clocked(steps[1..], steps[0].env.now)
    ensures LastTime(steps[1..], steps[0].env.now) == LastTime(steps, start)
  {
  }

  /** The refinement theorem: from any pair of states in step, every clocked run of the rows gives
      the answers of the typed map and ends in step with it. */
  lemma {:induction false} RunRefines(c: Codec, rows: Rows, db: T.Db, start: nat, steps: seq<Step>)
    requires Lawful(c) && Clocked(steps, start) && TypesOutlive(c, rows, steps)
    requires Simulates(c, rows, db, start)
    ensures Results(c, rows, steps) == T.Results(db, steps)
    ensures Simulates(c, Run(c, rows, steps), T.Run(db, steps), LastTime(steps, start))
    decreases |steps|
  {
    if steps != [] {
      ClockedTail(steps, start);
      var env, cmd := steps[0].env, steps[0].cmd;
      forall key ensures InStep(c, rows, db, env.now, key) {
        assert InStep(c, rows, db, start, key);
        InStepLater(c, rows, db, start, env.now, key);
      }
      ApplyAnswers(c, env, rows, db, cmd);
      forall key ensures InStep(c, Apply(c, env, rows, cmd).rows, T.Apply(env, db, cmd).db, env.now, key) {
        ApplyKeepsStep(c, env, rows, db, cmd, key);
      }
      RunRefines(c, Apply(c, env, rows, cmd).rows, T.Apply(env, db, cmd).db, env.now, steps[1..]);
    }
  }

  /** From the empty store. */
  lemma FreshStoreSimulates(c: Codec, now: nat)
    ensures Simulates(c, map[], map[], now)
  {
    forall key ensures InStep(c, map[], map[], now, key) {
      assert Look(map[], now, key) == Absent;
    }
  }

  /** The guard is exact: after an EXPIRE the rows show the typed entry at every later moment if and
      only if the deadline stays within the type row's. Otherwise, once the type row is gone, the
      collection reads as a string. */
  lemma ExpireRefinesExactly(c: Codec, env: Env, rows: Rows, db: T.Db, cmd: Command)
    requires Lawful(c) && Orderly(env) && cmd.op == Expire && InStep(c, rows, db, env.now, cmd.key)
    ensures TypeOutlives(rows, env.now, cmd) <==>
            forall later :: env.now <= later ==>
              Shows(c, Look(Apply(c, env, rows, cmd).rows, later, cmd.key),
                    T.Lookup(T.Apply(env, db, cmd).db, later, cmd.key))
  {
    var key := cmd.key;
    var rows', db' := Apply(c, env, rows, cmd).rows, T.Apply(env, db, cmd).db;
    if TypeOutlives(rows, env.now, cmd) {
      ApplyKeepsStep(c, env, rows, db, cmd, key);
      forall later: nat | env.now <= later
        ensures Shows(c, Look(rows', later, key), T.Lookup(db', later, key))
      {
        InStepLater(c, rows', db', env.now, later, key);
      }
    } else {
      var later := rows[TypeKey(key)].deadline * NS_PER_SEC;
      assert Second(later) == rows[TypeKey(key)].deadline > Second(env.now);
      assert Look(rows', later, key).Cell? && Look(rows', later, key).kind == Tag(StringKind);
      assert T.Lookup(db', later, key).Some? && !T.Lookup(db', later, key).value.value.Str?;
      KindsDiffer();
      assert !Shows(c, Look(rows', later, key), T.Lookup(db', later, key));
    }
  }

  /** No EXPIRE in the run pushes this one key past its type row. */
  ghost predicate TypeOutlivesAt(c: Codec, rows: Rows, steps: seq<Step>, key: Bytes)
    decreases |steps|
  {
    steps != [] ==>
      && (steps[0].cmd.key == key ==> TypeOutlives(rows, steps[0].env.now, steps[0].cmd))
      && TypeOutlivesAt(c, Apply(c, steps[0].env, rows, steps[0].cmd).rows, steps[1..], key)
  }

  /** Refinement is local: one key stays in step in every run that respects its own type row. */
  lemma {:induction false} RunRefinesAt(c: Codec, rows: Rows, db: T.Db, start: nat, steps: seq<Step>, key: Bytes)
    requires Lawful(c) && Clocked(steps, start) && TypeOutlivesAt(c, rows, steps, key)
    requires InStep(c, rows, db, start, key)
    ensures InStep(c, Run(c, rows, steps), T.Run(db, steps), LastTime(steps, start), key)
    decreases |steps|
  {
    if steps != [] {
      ClockedTail(steps, start);
      var env, cmd := steps[0].env, steps[0].cmd;
      InStepLater(c, rows, db, start, env.now, key);
      ApplyKeepsStep(c, env, rows, db, cmd, key);
      RunRefinesAt(c, Apply(c, env, rows, cmd).rows, T.Apply(env, db, cmd).db, env.now, steps[1..], key);
    }
  }

  /** A run of commands on one key. */
  ghost predicate AllOn(steps: seq<Step>, key: Bytes) {
    forall i :: 0 <= i < |steps| ==> steps[i].cmd.key == key && OnOneKey(steps[i].cmd)
  }

  /** Such a run answers as the typed map does as soon as that one key is in step, unless an EXPIRE outlasts its
      type row. */
  lemma {:induction false} KeyRunRefines(c: Codec, rows: Rows, db: T.Db, start: nat, steps: seq<Step>, key: Bytes)
    requires Lawful(c) && Clocked(steps, start) && AllOn(steps, key) && TypeOutlivesAt(c, rows, steps, key)
    requires InStep(c, rows, db, start, key)
    ensures Results(c, rows, steps) == T.Results(db, steps)
    ensures InStep(c, Run(c, rows, steps), T.Run(db, steps), LastTime(steps, start), key)
    decreases |steps|
  {
    if steps != [] {
      ClockedTail(steps, start);
      var env, cmd := steps[0].env, steps[0].cmd;
      InStepLater(c, rows, db, start, env.now, key);
      KeyCommandKeepsStep(c, env, rows, db, cmd, key);
      KeyRunRefines(c, Apply(c, env, rows, cmd).rows, T.Apply(env, db, cmd).db, env.now, steps[1..], key);
    }
  }

  predicate NoExpire(steps: seq<Step>) { forall i :: 0 <= i < |steps| ==> steps[i].cmd.op != Expire }

  /** Without EXPIRE there is nothing to ask for. */
  lemma {:induction false} NoExpireAt(c: Codec, rows: Rows, steps: seq<Step>, key: Bytes)
    requires NoExpire(steps)
    ensures TypeOutlivesAt(c, rows, steps, key)
    decreases |steps|
  {
    if steps != [] { NoExpireAt(c, Apply(c, steps[0].env, rows, steps[0].cmd).rows, steps[1..], key); }
  }
}
