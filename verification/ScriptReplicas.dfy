/** Replica agreement with scripts: two replicas that apply one log of commands, scripts and script storage stay
    alike row by row up to the order their hashes and sets are written in, and answer the same, as long as no script
    reads such a row raw. */
module ScriptReplicas {
  import opened Octets
  import opened Decimal
  import opened Collections
  import opened Store
  import opened Commands
  import opened Fsm
  import opened Refinement
  import opened Readers
  import opened Replicas
  import opened DataRows
  import opened Scripts
  import opened RaftLog
  import opened Isolation
  import opened Histories
  import T = Typed

  // Rows that differ only in the order of a hash or a set.

  predicate PayloadsAlike(c: Codec, kind: Bytes, x: Bytes, y: Bytes) {
    if kind == Tag(HashKind) then UnpackHash(c, x) == UnpackHash(c, y)
    else if kind == Tag(SetKind) then
      && UnpackList(c, x).Some? && UnpackList(c, y).Some?
      && Enumerates(UnpackList(c, x).value, ToSet(UnpackList(c, y).value)) && NoDuplicates(UnpackList(c, y).value)
    else x == y
  }

  predicate CellsAlike(c: Codec, x: Cell, y: Cell) {
    match x
    case Absent => y.Absent?
    case Cell(value, kind, deadline) =>
      y.Cell? && y.kind == kind && deadline == 0 == y.deadline && PayloadsAlike(c, kind, value, y.value)
  }

  /** The type a key reads as when nothing expires. */
  function KindAt(rows: Rows, key: Bytes): Bytes {
    if TypeKey(key) in rows then rows[TypeKey(key)].value else Tag(StringKind)
  }

  predicate AlikeAt(c: Codec, a: Rows, b: Rows, key: Bytes) {
    && SameAt(a, b, TypeKey(key)) && (TypeKey(key) in a ==> a[TypeKey(key)].deadline == 0)
    && (UserKey(key) in a <==> UserKey(key) in b)
    && (UserKey(key) in a ==>
          && a[UserKey(key)].deadline == 0 == b[UserKey(key)].deadline
          && PayloadsAlike(c, KindAt(a, key), a[UserKey(key)].value, b[UserKey(key)].value))
  }

  /** A row that never expires, the same in both. */
  predicate LastsAlike(a: Rows, b: Rows, key: Bytes) { SameAt(a, b, key) && (key in a ==> a[key].deadline == 0) }

  ghost predicate ScriptsAlike(a: Rows, b: Rows) { forall key :: ScriptRow(key) ==> LastsAlike(a, b, key) }

  ghost predicate DataAlike(c: Codec, a: Rows, b: Rows) { forall key :: AlikeAt(c, a, b, key) }

  ghost predicate Alike(c: Codec, a: Rows, b: Rows) { DataAlike(c, a, b) && ScriptsAlike(a, b) }

  lemma LookAlike(c: Codec, a: Rows, b: Rows, nowA: nat, nowB: nat, key: Bytes)
    requires DataAlike(c, a, b)
    ensures CellsAlike(c, Look(a, nowA, key), Look(b, nowB, key))
    ensures Sees(a, nowA, UserKey(key)) <==> Sees(b, nowB, UserKey(key))
    ensures Get(a, nowA, TypeKey(key)) == Get(b, nowB, TypeKey(key))
  {
    hide PayloadsAlike;
    assert AlikeAt(c, a, b, key);
  }

  // Decisions on cells that are alike.

  predicate EffectsAlike(c: Codec, e: Effect, f: Effect) {
    match e
    case Keep => f.Keep?
    case Put(value, kind, ttlMs) =>
      f.Put? && f.kind == kind && ttlMs <= 0 && f.ttlMs <= 0 && PayloadsAlike(c, kind, value, f.value)
    case Remove => f.Remove?
    case Unlink => f.Unlink?
    case Retime(_) => false
  }

  predicate DecisionsAlike(c: Codec, d: Decision, e: Decision) {
    d.result == e.result && EffectsAlike(c, d.effect, e.effect)
  }

  lemma StringsAlike(c: Codec, a: Env, b: Env, x: Cell, y: Cell, cmd: Command)
    requires CellsAlike(c, x, y) && Timeless(cmd)
    ensures DecisionsAlike(c, DecideString(a, x, cmd), DecideString(b, y, cmd))
    ensures DecisionsAlike(c, DecidePersist(x), DecidePersist(y))
    ensures DecisionsAlike(c, DecideLegacyDel(x, cmd), DecideLegacyDel(y, cmd))
  {
    KindsDiffer();
    assert RemainingMs(0, a.now) == 0 && RemainingMs(0, b.now) == 0;
    hide RemainingMs;
  }

  lemma CountersAlike(c: Codec, a: Env, b: Env, x: Cell, y: Cell, cmd: Command)
    requires CellsAlike(c, x, y)
    ensures DecisionsAlike(c, DecideCounter(a, x, cmd), DecideCounter(b, y, cmd))
  {
    KindsDiffer();
    assert RemainingMs(0, a.now) == 0 && RemainingMs(0, b.now) == 0;
    hide RemainingMs, ParseInt, FormatInt, Wrap64;
  }

  lemma WrittenHashesAlike(c: Codec, a: Env, b: Env, h: map<Bytes, Bytes>, reply: Reply)
    requires Lawful(c) && Orderly(a) && Orderly(b)
    ensures DecisionsAlike(c, WriteHash(c, a, h, 0, reply), WriteHash(c, b, h, 0, reply))
  {
    assert Enumerates(Enumerate(a, h.Keys), h.Keys) && Enumerates(Enumerate(b, h.Keys), h.Keys);
  }

  lemma WrittenSetsAlike(c: Codec, a: Env, b: Env, s: set<Bytes>, reply: Reply)
    requires Lawful(c) && Orderly(a) && Orderly(b)
    ensures DecisionsAlike(c, WriteSet(c, a, s, 0, reply), WriteSet(c, b, s, 0, reply))
  {
    KindsDiffer();
    assert Enumerates(Enumerate(a, s), s) && Enumerates(Enumerate(b, s), s);
  }

  lemma FetchedAlike(c: Codec, a: Env, b: Env, x: Cell, y: Cell)
    requires CellsAlike(c, x, y)
    ensures FetchHash(c, a, x) == FetchHash(c, b, y) && FetchItems(c, a, x, ListKind) == FetchItems(c, b, y, ListKind)
    ensures var m, n := FetchItems(c, a, x, SetKind), FetchItems(c, b, y, SetKind);
            if m.Found? then n.Found? && m.ttlMs == 0 == n.ttlMs && ToSet(m.value) == ToSet(n.value) else m == n
    ensures FetchHash(c, a, x).Found? ==> FetchHash(c, a, x).ttlMs == 0
    ensures FetchItems(c, a, x, ListKind).Found? ==> FetchItems(c, a, x, ListKind).ttlMs == 0
  {
    KindsDiffer();
    assert RemainingMs(0, a.now) == 0 && RemainingMs(0, b.now) == 0;
    hide RemainingMs;
  }

  lemma HSetAlike(c: Codec, a: Env, b: Env, x: Cell, y: Cell, cmd: Command)
    requires Lawful(c) && Orderly(a) && Orderly(b) && CellsAlike(c, x, y)
    ensures DecisionsAlike(c, DecideHSet(c, a, x, cmd), DecideHSet(c, b, y, cmd))
  {
    FetchedAlike(c, a, b, x, y);
    hide FetchHash, FetchItems, WriteHash, PutAll, PayloadsAlike, CellsAlike, Lawful, Orderly;
    var m := FetchHash(c, a, x);
    if |cmd.args| % 2 == 0 {
      var h := PutAll(if m.Found? then m.value else map[], cmd.args, cmd.op == HSetNx);
      WrittenHashesAlike(c, a, b, h, Int(if m.Found? then |h| - |m.value| else |h|));
    }
  }

  lemma HDelAlike(c: Codec, a: Env, b: Env, x: Cell, y: Cell, cmd: Command)
    requires Lawful(c) && Orderly(a) && Orderly(b) && CellsAlike(c, x, y)
    ensures DecisionsAlike(c, DecideHDel(c, a, x, cmd), DecideHDel(c, b, y, cmd))
  {
    FetchedAlike(c, a, b, x, y);
    hide FetchHash, FetchItems, WriteHash, ToSet, PayloadsAlike, CellsAlike, Lawful, Orderly;
    var m := FetchHash(c, a, x);
    if m.Found? {
      var h := m.value - ToSet(cmd.args);
      WrittenHashesAlike(c, a, b, h, Int(|m.value| - |h|));
    }
  }

  /** A decision on lists without a TTL, which is alike to itself. */
  predicate ListDecision(d: Decision) {
    d.effect.Keep? || d.effect.Remove? || (d.effect.Put? && d.effect.kind == Tag(ListKind) && d.effect.ttlMs == 0)
  }

  lemma PushesAlike(c: Codec, a: Env, b: Env, x: Cell, y: Cell, cmd: Command)
    requires CellsAlike(c, x, y)
    ensures DecidePush(c, a, x, cmd) == DecidePush(c, b, y, cmd) && ListDecision(DecidePush(c, a, x, cmd))
    ensures DecidePop(c, a, x, cmd) == DecidePop(c, b, y, cmd) && ListDecision(DecidePop(c, a, x, cmd))
  {
    FetchedAlike(c, a, b, x, y);
    hide FetchHash, FetchItems, Push, PopCount, Popped, AfterPop, CellsAlike, ToSet;
  }

  lemma TrimsAlike(c: Codec, a: Env, b: Env, x: Cell, y: Cell, cmd: Command)
    requires CellsAlike(c, x, y)
    ensures DecideTrim(c, a, x, cmd) == DecideTrim(c, b, y, cmd) && ListDecision(DecideTrim(c, a, x, cmd))
    ensures DecideRem(c, a, x, cmd) == DecideRem(c, b, y, cmd) && ListDecision(DecideRem(c, a, x, cmd))
  {
    FetchedAlike(c, a, b, x, y);
    hide FetchHash, FetchItems, Slice, Kept, Atoi, CellsAlike, ToSet;
  }

  lemma ListsAlike(c: Codec, d: Decision)
    requires ListDecision(d)
    ensures DecisionsAlike(c, d, d)
  {
    KindsDiffer();
  }

  lemma SAddAlike(c: Codec, a: Env, b: Env, x: Cell, y: Cell, cmd: Command)
    requires Lawful(c) && Orderly(a) && Orderly(b) && CellsAlike(c, x, y)
    ensures DecisionsAlike(c, DecideSAdd(c, a, x, cmd), DecideSAdd(c, b, y, cmd))
  {
    FetchedAlike(c, a, b, x, y);
    hide FetchHash, FetchItems, WriteSet, Added, ToSet, PayloadsAlike, CellsAlike, Lawful, Orderly;
    var m := FetchItems(c, a, x, SetKind);
    var s := if m.Found? then ToSet(m.value) else {};
    WrittenSetsAlike(c, a, b, s + ToSet(cmd.args), Int(Added(s, cmd.args)));
  }

  lemma SRemAlike(c: Codec, a: Env, b: Env, x: Cell, y: Cell, cmd: Command)
    requires Lawful(c) && Orderly(a) && Orderly(b) && CellsAlike(c, x, y)
    ensures DecisionsAlike(c, DecideSRem(c, a, x, cmd), DecideSRem(c, b, y, cmd))
  {
    FetchedAlike(c, a, b, x, y);
    hide FetchHash, FetchItems, WriteSet, ToSet, PayloadsAlike, CellsAlike, Lawful, Orderly;
    var m := FetchItems(c, a, x, SetKind);
    if m.Found? {
      var s, rest := ToSet(m.value), ToSet(m.value) - ToSet(cmd.args);
      WrittenSetsAlike(c, a, b, rest, Int(|s| - |rest|));
    }
  }

  lemma DecideAlike(c: Codec, a: Env, b: Env, x: Cell, y: Cell, cmd: Command)
    requires Lawful(c) && Orderly(a) && Orderly(b) && CellsAlike(c, x, y) && Timeless(cmd)
    ensures DecisionsAlike(c, Decide(c, a, x, cmd), Decide(c, b, y, cmd))
  {
    hide DecideString, DecideCounter, DecidePersist, DecideLegacyDel, DecideHSet, DecideHDel, DecidePush, DecidePop,
      DecideTrim, DecideRem, DecideSAdd, DecideSRem, DecisionsAlike, CellsAlike, Lawful, Orderly;
    StringsAlike(c, a, b, x, y, cmd);
    CountersAlike(c, a, b, x, y, cmd);
    HSetAlike(c, a, b, x, y, cmd);
    HDelAlike(c, a, b, x, y, cmd);
    PushesAlike(c, a, b, x, y, cmd);
    TrimsAlike(c, a, b, x, y, cmd);
    if ListDecision(Decide(c, a, x, cmd)) { ListsAlike(c, Decide(c, a, x, cmd)); }
    SAddAlike(c, a, b, x, y, cmd);
    SRemAlike(c, a, b, x, y, cmd);
  }

  // Commands on rows that are alike.

  lemma PerformAlike(c: Codec, a: Rows, b: Rows, nowA: nat, nowB: nat, key: Bytes, e: Effect, f: Effect)
    requires DataAlike(c, a, b) && EffectsAlike(c, e, f)
    ensures DataAlike(c, Perform(a, nowA, key, e), Perform(b, nowB, key, f))
  {
    hide PayloadsAlike;
    forall k ensures AlikeAt(c, Perform(a, nowA, key, e), Perform(b, nowB, key, f), k) {
      assert AlikeAt(c, a, b, k);
      if k != key {
        PerformFrame(a, nowA, key, e, k);
        PerformFrame(b, nowB, key, f, k);
      }
    }
  }

  lemma {:induction false} MSetAlike(c: Codec, a: Rows, b: Rows, nowA: nat, nowB: nat, pairs: seq<Bytes>)
    requires DataAlike(c, a, b) && |pairs| % 2 == 0
    ensures DataAlike(c, MSetAll(a, nowA, pairs), MSetAll(b, nowB, pairs))
    decreases |pairs|
  {
    if pairs != [] {
      var e := Put(pairs[1], Tag(StringKind), 0);
      assert EffectsAlike(c, e, e) by { KindsDiffer(); }
      hide DataAlike, EffectsAlike;
      PerformAlike(c, a, b, nowA, nowB, pairs[0], e, e);
      MSetAlike(c, Perform(a, nowA, pairs[0], e), Perform(b, nowB, pairs[0], e), nowA, nowB, pairs[2..]);
    }
  }

  lemma {:induction false} DelAlike(c: Codec, a: Rows, b: Rows, nowA: nat, nowB: nat, keys: seq<Bytes>)
    requires DataAlike(c, a, b)
    ensures DataAlike(c, DelAll(a, nowA, keys), DelAll(b, nowB, keys))
    decreases |keys|
  {
    hide DataAlike, Look, CellsAlike;
    if keys != [] {
      LookAlike(c, a, b, nowA, nowB, keys[0]);
      PerformAlike(c, a, b, nowA, nowB, keys[0], Remove, Remove);
      if Sees(a, nowA, UserKey(keys[0])) {
        DelAlike(c, DropKey(a, keys[0]), DropKey(b, keys[0]), nowA, nowB, keys[1..]);
      } else {
        DelAlike(c, a, b, nowA, nowB, keys[1..]);
      }
    }
  }

  /** Rows that never expire are all gone after a FLUSHDB. */
  lemma FlushAlike(c: Codec, a: Rows, b: Rows, nowA: nat, nowB: nat)
    requires DataAlike(c, a, b)
    ensures DataAlike(c, FlushDbRows(a, nowA), FlushDbRows(b, nowB))
  {
    hide PayloadsAlike;
    forall k ensures AlikeAt(c, FlushDbRows(a, nowA), FlushDbRows(b, nowB), k) {
      assert AlikeAt(c, a, b, k);
    }
  }

  lemma CommandAlike(c: Codec, x: Env, y: Env, a: Rows, b: Rows, cmd: Command)
    requires Lawful(c) && Orderly(x) && Orderly(y) && DataAlike(c, a, b) && Timeless(cmd)
    ensures ApplyInTxn(c, x, a, cmd).result == ApplyInTxn(c, y, b, cmd).result
    ensures DataAlike(c, ApplyInTxn(c, x, a, cmd).rows, ApplyInTxn(c, y, b, cmd).rows)
  {
    hide DataAlike, Decide, Look, CellsAlike, EffectsAlike, Lawful, Orderly;
    if cmd.op == MSet {
      if |cmd.args| % 2 == 0 { MSetAlike(c, a, b, x.now, y.now, cmd.args); }
    } else if cmd.op == Del && cmd.args != [] {
      DelAlike(c, a, b, x.now, y.now, cmd.args);
      forall k ensures Sees(a, x.now, UserKey(k)) <==> Sees(b, y.now, UserKey(k)) {
        LookAlike(c, a, b, x.now, y.now, k);
      }
      assert VisibleKeys(a, x.now, cmd.args) == VisibleKeys(b, y.now, cmd.args);
    } else if cmd.op == FlushDb {
      FlushAlike(c, a, b, x.now, y.now);
    } else {
      LookAlike(c, a, b, x.now, y.now, cmd.key);
      DecideAlike(c, x, y, Look(a, x.now, cmd.key), Look(b, y.now, cmd.key), cmd);
      PerformAlike(c, a, b, x.now, y.now, cmd.key, Decide(c, x, Look(a, x.now, cmd.key), cmd).effect,
                   Decide(c, y, Look(b, y.now, cmd.key), cmd).effect);
    }
  }

  lemma CommandSparesScripts(c: Codec, x: Env, y: Env, a: Rows, b: Rows, cmd: Command)
    requires ScriptsAlike(a, b)
    ensures ScriptsAlike(ApplyInTxn(c, x, a, cmd).rows, ApplyInTxn(c, y, b, cmd).rows)
  {
    hide ApplyInTxn;
    forall key | ScriptRow(key) ensures LastsAlike(ApplyInTxn(c, x, a, cmd).rows, ApplyInTxn(c, y, b, cmd).rows, key) {
      assert LastsAlike(a, b, key) && key[0] == SCRIPT_PREFIX[0];
      CommandTouchesData(c, x, a, cmd, key);
      CommandTouchesData(c, y, b, cmd, key);
    }
  }

  // Calls of a script on rows that are alike.

  /** A call whose answer two replicas must share: its command, if it is one, is timeless, and a GET does not read
      a hash or a set. */
  predicate Calm(rows: Rows, now: nat, callee: Callee, argv: seq<Bytes>) {
    match callee
    case Do(op) => LuaCommand(op, argv).Accepted? ==> Timeless(LuaCommand(op, argv).cmd)
    case GetKey =>
      |argv| == 1 && Sees(rows, now, UserKey(argv[0])) ==>
        var kind := ExistingType(rows, now, argv[0]);
        kind != Tag(HashKind) && kind != Tag(SetKind)
    case _ => true
  }

  /** Two replicas' copies of one interpreter: the same digests, and scripts that make the same moves. */
  predicate SameMove(m: Move, n: Move) {
    match m
    case Call(guard, callee, argv, _) => n.Call? && n.guard == guard && n.callee == callee && n.argv == argv
    case Finish(value) => n.Finish? && n.value == value
    case Abort => n.Abort?
  }

  ghost predicate TwinPrograms(p: Program, q: Program) {
    forall history :: SameMove(NextMove(p, history), NextMove(q, history))
  }

  ghost predicate TwinHosts(g: Host, h: Host) {
    && (forall text :: Digest(g, text) == Digest(h, text))
    && (forall text, keys, argv :: TwinPrograms(Load(g, text, keys, argv), Load(h, text, keys, argv)))
  }

  lemma DoAlike(c: Codec, g: Host, h: Host, x: Env, y: Env, a: Rows, b: Rows, op: Op, argv: seq<Bytes>)
    requires Lawful(c) && Orderly(x) && Orderly(y) && Alike(c, a, b) && Calm(a, x.now, Do(op), argv)
    ensures var o, p := CallRedis(c, g, x, a, Do(op), argv), CallRedis(c, h, y, b, Do(op), argv);
            o.result == p.result && Alike(c, o.rows, p.rows)
  {
    hide DataAlike, ScriptsAlike, ApplyInTxn, LuaCommand, Lawful, Orderly, Timeless;
    if LuaCommand(op, argv).Accepted? {
      var cmd := LuaCommand(op, argv).cmd;
      CommandAlike(c, x, y, a, b, cmd);
      CommandSparesScripts(c, x, y, a, b, cmd);
    }
  }

  lemma {:induction false} CountAlike(c: Codec, a: Rows, b: Rows, nowA: nat, nowB: nat, keys: seq<Bytes>)
    requires DataAlike(c, a, b)
    ensures CountVisible(a, nowA, keys) == CountVisible(b, nowB, keys)
  {
    hide DataAlike, Look, CellsAlike;
    if keys != [] {
      LookAlike(c, a, b, nowA, nowB, keys[0]);
      CountAlike(c, a, b, nowA, nowB, keys[1..]);
    }
  }

  lemma ReadsAlike(c: Codec, a: Rows, b: Rows, nowA: nat, nowB: nat, key: Bytes)
    requires DataAlike(c, a, b)
    ensures BridgeType(a, nowA, key) == BridgeType(b, nowB, key)
    ensures Calm(a, nowA, GetKey, [key]) ==> BridgeGet(a, nowA, key) == BridgeGet(b, nowB, key)
  {
    assert AlikeAt(c, a, b, key);
    hide DataAlike;
  }

  lemma StoredAlike(g: Host, h: Host, a: Rows, b: Rows, nowA: nat, nowB: nat, args: seq<Bytes>)
    requires ScriptsAlike(a, b) && TwinHosts(g, h)
    ensures ScriptFlags(a, nowA, args) == ScriptFlags(b, nowB, args)
    ensures ScriptsAlike(Flush(a, nowA, SCRIPT_PREFIX), Flush(b, nowB, SCRIPT_PREFIX))
    ensures var o, p := StoreScript(g, a, args), StoreScript(h, b, args);
            o.result == p.result && ScriptsAlike(o.rows, p.rows)
  {
    forall i | 0 <= i < |args| ensures ScriptFlags(a, nowA, args)[i] == ScriptFlags(b, nowB, args)[i] {
      assert ScriptRow(ScriptKey(args[i])) && LastsAlike(a, b, ScriptKey(args[i]));
    }
    forall key | ScriptRow(key)
      ensures LastsAlike(Flush(a, nowA, SCRIPT_PREFIX), Flush(b, nowB, SCRIPT_PREFIX), key)
    {
      assert LastsAlike(a, b, key);
    }
    var o, p := StoreScript(g, a, args).rows, StoreScript(h, b, args).rows;
    if |args| == 1 { assert Digest(g, args[0]) == Digest(h, args[0]); }
    forall key | ScriptRow(key) ensures LastsAlike(o, p, key) { assert LastsAlike(a, b, key); }
  }

  /** Rows with the same Redis data stand in for each other. */
  lemma AlikeForSame(c: Codec, a: Rows, b: Rows, a': Rows, b': Rows)
    requires DataAlike(c, a, b) && SameData(a, a') && SameData(b, b')
    ensures DataAlike(c, a', b')
  {
    hide PayloadsAlike;
    forall key ensures AlikeAt(c, a', b', key) {
      assert AlikeAt(c, a, b, key) && DataKey(UserKey(key)) && DataKey(TypeKey(key));
      assert SameAt(a, a', UserKey(key)) && SameAt(a, a', TypeKey(key));
      assert SameAt(b, b', UserKey(key)) && SameAt(b, b', TypeKey(key));
    }
  }

  lemma CallAlike(c: Codec, g: Host, h: Host, x: Env, y: Env, a: Rows, b: Rows, callee: Direct, argv: seq<Bytes>)
    requires Lawful(c) && Orderly(x) && Orderly(y) && TwinHosts(g, h) && Alike(c, a, b) && Calm(a, x.now, callee, argv)
    ensures var o, p := CallRedis(c, g, x, a, callee, argv), CallRedis(c, h, y, b, callee, argv);
            o.result == p.result && Alike(c, o.rows, p.rows)
  {
    hide DataAlike, ScriptsAlike, Lawful, Orderly, TwinHosts, SameData, LuaCommand, Timeless, ApplyInTxn, Flush,
      ScriptFlags, CountVisible, StoreScript, BridgeGet, BridgeType;
    if callee.Do? {
      DoAlike(c, g, h, x, y, a, b, callee.op, argv);
    } else {
      if |argv| == 1 { ReadsAlike(c, a, b, x.now, y.now, argv[0]); assert argv == [argv[0]]; }
      CountAlike(c, a, b, x.now, y.now, argv);
      StoredAlike(g, h, a, b, x.now, y.now, PassedOn(argv));
      OtherCallsLeaveData(c, g, x, a, callee, argv);
      OtherCallsLeaveData(c, h, y, b, callee, argv);
      AlikeForSame(c, a, b, CallRedis(c, g, x, a, callee, argv).rows, CallRedis(c, h, y, b, callee, argv).rows);
    }
  }

  // Scripts on rows that are alike.

  /** Every call of a trace is calm where it is made. */
  predicate CalmTrace(c: Codec, host: Host, rows: Rows, events: seq<Scripts.Event>)
    decreases |events|
  {
    events == [] ||
    (var e := events[0];
     var o := CallRedis(c, host, e.env, rows, e.callee, e.argv);
     && Calm(rows, e.env.now, e.callee, e.argv)
     && CalmTrace(c, host, if e.result.Failure? then rows else o.rows, events[1..]))
  }

  lemma {:induction false} CalmInTwo(c: Codec, host: Host, rows: Rows, a: seq<Scripts.Event>, b: seq<Scripts.Event>)
    requires CalmTrace(c, host, rows, a + b)
    ensures CalmTrace(c, host, rows, a) && CalmTrace(c, host, Commit(c, host, rows, a), b)
    decreases |a|
  {
    hide CallRedis, Calm;
    if a == [] {
      assert a + b == b;
    } else {
      assert (a + b)[1..] == a[1..] + b && (a + b)[0] == a[0];
      var o := CallRedis(c, host, a[0].env, rows, a[0].callee, a[0].argv);
      CalmInTwo(c, host, if a[0].result.Failure? then rows else o.rows, a[1..], b);
    }
  }

  ghost predicate EndingsAlike(c: Codec, x: Ending, y: Ending) {
    && Alike(c, x.rows, y.rows)
    && (x.Finished? <==> y.Finished?) && (x.Failed? <==> y.Failed?) && (x.Finished? ==> x.value == y.value)
  }

  ghost predicate ReachedAlike(c: Codec, x: Reached, y: Reached) {
    Alike(c, x.rows, y.rows) && (x.Answered? <==> y.Answered?) && (x.Answered? ==> x.result == y.result)
  }

  /** What the two replicas bring along: orderly map iterations and twin interpreters. */
  ghost predicate Prepared(c: Codec, g: Host, h: Host, nowA: nat, nowB: nat) {
    Lawful(c) && OrderlyHost(g, nowA) && OrderlyHost(h, nowB) && TwinHosts(g, h)
  }

  lemma {:induction false} ExecAlike(c: Codec, g: Host, h: Host, nowA: nat, nowB: nat, a: Rows, b: Rows,
                                     p: Program, q: Program, history: seq<Result>, calls: nat)
    requires Prepared(c, g, h, nowA, nowB) && Alike(c, a, b)
    requires OrderlyProgram(p, nowA) && OrderlyProgram(q, nowB) && TwinPrograms(p, q)
    requires CalmTrace(c, g, a, Events(c, g, nowA, a, p, history, calls))
    ensures EndingsAlike(c, Exec(c, g, nowA, a, p, history, calls), Exec(c, h, nowB, b, q, history, calls))
    decreases calls, 0
  {
    hide Alike, Prepared, CalmTrace, Orderly, OrderlyProgram, TwinPrograms, Exec, Events, Reach, ReachEvents, Fatal;
    var m, n := NextMove(p, history), NextMove(q, history);
    NextMoves(p, q, nowA, nowB, history);
    ExecStep(c, g, nowA, a, p, history, calls);
    ExecStep(c, h, nowB, b, q, history, calls);
    if m.Call? && calls > 0 {
      var x, y := Env(nowA, m.order), Env(nowB, n.order);
      var r := Reach(c, g, x, a, m.callee, m.argv, calls - 1);
      var s := Reach(c, h, y, b, m.callee, m.argv, calls - 1);
      FirstCallIsCalm(c, g, nowA, a, p, history, calls);
      ReachAlike(c, g, h, x, y, a, b, m.callee, m.argv, calls - 1);
      if r.Answered? && !Fatal(m.guard, r.result) {
        ExecAlike(c, g, h, nowA, nowB, r.rows, s.rows, p, q, history + [r.result], calls - 1);
      }
    }
  }

  lemma NextMoves(p: Program, q: Program, nowA: nat, nowB: nat, history: seq<Result>)
    requires OrderlyProgram(p, nowA) && OrderlyProgram(q, nowB) && TwinPrograms(p, q)
    ensures var m, n := NextMove(p, history), NextMove(q, history);
            SameMove(m, n) && (m.Call? ==> Orderly(Env(nowA, m.order)) && Orderly(Env(nowB, n.order)))
  {
    hide Orderly;
  }

  /** The trace of a script is calm if and only if that of its first call and that of the rest are. */
  lemma FirstCallIsCalm(c: Codec, g: Host, now: nat, a: Rows, p: Program, history: seq<Result>, calls: nat)
    requires NextMove(p, history).Call? && calls > 0
    requires CalmTrace(c, g, a, Events(c, g, now, a, p, history, calls))
    ensures var m := NextMove(p, history);
            var env := Env(now, m.order);
            var r := Reach(c, g, env, a, m.callee, m.argv, calls - 1);
            && CalmTrace(c, g, a, ReachEvents(c, g, env, a, m.callee, m.argv, calls - 1))
            && (r.Answered? && !Fatal(m.guard, r.result) ==>
                  CalmTrace(c, g, r.rows, Events(c, g, now, r.rows, p, history + [r.result], calls - 1)))
  {
    hide CallRedis, CalmTrace;
    var m := NextMove(p, history);
    var env := Env(now, m.order);
    var first := ReachEvents(c, g, env, a, m.callee, m.argv, calls - 1);
    var r := Reach(c, g, env, a, m.callee, m.argv, calls - 1);
    ReachIsCommit(c, g, env, a, m.callee, m.argv, calls - 1);
    hide Reach, ReachEvents;
    if r.Answered? && !Fatal(m.guard, r.result) {
      CalmInTwo(c, g, a, first, Events(c, g, now, r.rows, p, history + [r.result], calls - 1));
    } else {
      assert Events(c, g, now, a, p, history, calls) == first + [] == first;
    }
  }

  lemma RequestAlike(a: Rows, b: Rows, nowA: nat, nowB: nat, callee: Callee, argv: seq<Bytes>)
    requires ScriptsAlike(a, b) && CallsScript(callee)
    ensures RequestOf(a, nowA, callee, argv) == RequestOf(b, nowB, callee, argv)
  {
    var args := PassedOn(argv);
    if callee.EvalStored? && |args| >= 2 {
      assert ScriptRow(ScriptKey(args[0])) && LastsAlike(a, b, ScriptKey(args[0]));
    }
  }

  lemma {:induction false} ReachAlike(c: Codec, g: Host, h: Host, x: Env, y: Env, a: Rows, b: Rows, callee: Callee,
                                      argv: seq<Bytes>, calls: nat)
    requires Prepared(c, g, h, x.now, y.now) && Orderly(x) && Orderly(y) && Alike(c, a, b)
    requires CalmTrace(c, g, a, ReachEvents(c, g, x, a, callee, argv, calls))
    ensures ReachedAlike(c, Reach(c, g, x, a, callee, argv, calls), Reach(c, h, y, b, callee, argv, calls))
    decreases calls, 1
  {
    hide Orderly, CallRedis, DataAlike, ScriptsAlike, Lawful, TwinPrograms, Calm;
    if !CallsScript(callee) {
      hide TwinHosts;
      CallAlike(c, g, h, x, y, a, b, callee, argv);
    } else {
      var req := RequestOf(a, x.now, callee, argv);
      RequestAlike(a, b, x.now, y.now, callee, argv);
      hide RequestOf;
      if req.Eval? {
        var p, q := Load(g, req.script, req.keys, req.argv), Load(h, req.script, req.keys, req.argv);
        assert OrderlyProgram(p, x.now) && OrderlyProgram(q, y.now) && TwinPrograms(p, q);
        ExecAlike(c, g, h, x.now, y.now, a, b, p, q, [], calls);
      }
    }
  }

  // Whole logs.

  /** One log entry as two replicas apply it, each with its own clock and its own map orders. */
  ghost predicate TwinEvents(e: Isolation.Event, f: Isolation.Event) {
    match e
    case Redis(step) => f.Redis? && f.step.cmd == step.cmd
    case Script(host, _, p, calls) =>
      f.Script? && TwinHosts(host, f.host) && TwinPrograms(p, f.program) && f.calls == calls
    case Storage(host, _, callee, argv) =>
      f.Storage? && TwinHosts(host, f.host) && f.callee == callee && f.argv == argv
    case _ => false
  }

  predicate CalmEvent(c: Codec, rows: Rows, e: Isolation.Event) {
    match e
    case Redis(step) => Timeless(step.cmd)
    case Script(host, now, p, calls) => CalmTrace(c, host, rows, Events(c, host, now, rows, p, [], calls))
    case Storage(_, env, callee, argv) => Calm(rows, env.now, callee, argv)
    case _ => false
  }

  ghost predicate CalmHistory(c: Codec, lc: LogCodec, rows: Rows, events: seq<Isolation.Event>)
    decreases |events|
  {
    events != [] ==>
      CalmEvent(c, rows, events[0]) && CalmHistory(c, lc, Happen(c, lc, rows, events[0]), events[1..])
  }

  ghost predicate SameEntries(a: seq<Isolation.Event>, b: seq<Isolation.Event>) {
    |a| == |b| && forall i :: 0 <= i < |a| ==> TwinEvents(a[i], b[i])
  }

  lemma ApplyAlike(c: Codec, x: Env, y: Env, a: Rows, b: Rows, cmd: Command)
    requires Lawful(c) && Orderly(x) && Orderly(y) && Alike(c, a, b) && Timeless(cmd)
    ensures Apply(c, x, a, cmd).result == Apply(c, y, b, cmd).result
    ensures Alike(c, Apply(c, x, a, cmd).rows, Apply(c, y, b, cmd).rows)
  {
    hide DataAlike, ScriptsAlike, ApplyInTxn, Lawful, Orderly, Timeless;
    CommandAlike(c, x, y, a, b, cmd);
    CommandSparesScripts(c, x, y, a, b, cmd);
  }

  lemma EventAlike(c: Codec, lc: LogCodec, a: Rows, b: Rows, e: Isolation.Event, f: Isolation.Event)
    requires Lawful(c) && Alike(c, a, b) && TwinEvents(e, f) && OrderlyEvent(e) && OrderlyEvent(f) && CalmEvent(c, a, e)
    ensures AnswerTo(c, a, e) == AnswerTo(c, b, f) && Alike(c, Happen(c, lc, a, e), Happen(c, lc, b, f))
  {
    hide Lawful, Alike, Orderly, OrderlyProgram, OrderlyHost, TwinHosts, TwinPrograms, Exec, Events, Apply, CallRedis,
      CalmTrace, Calm, Timeless;
    match e {
      case Redis(step) => ApplyAlike(c, step.env, f.step.env, a, b, step.cmd);
      case Script(host, now, p, calls) => ExecAlike(c, host, f.host, now, f.now, a, b, p, f.program, [], calls);
      case Storage(host, env, callee, argv) => CallAlike(c, host, f.host, env, f.env, a, b, callee, argv);
    }
  }

  lemma {:induction false} HistoriesAlike(c: Codec, lc: LogCodec, a: Rows, b: Rows, events: seq<Isolation.Event>,
                                          twins: seq<Isolation.Event>, startA: nat, startB: nat)
    requires Lawful(c) && Alike(c, a, b) && SameEntries(events, twins) && CalmHistory(c, lc, a, events)
    requires ClockedHistory(events, startA) && ClockedHistory(twins, startB)
    ensures Answers(c, lc, a, events) == Answers(c, lc, b, twins)
    ensures Alike(c, History(c, lc, a, events), History(c, lc, b, twins))
    decreases |events|
  {
    hide Lawful, Alike, Happen, AnswerTo, CalmEvent, OrderlyEvent, TwinEvents;
    if events != [] {
      var e, f := events[0], twins[0];
      assert TwinEvents(e, f);
      EventAlike(c, lc, a, b, e, f);
      HistoriesAlike(c, lc, Happen(c, lc, a, e), Happen(c, lc, b, f), events[1..], twins[1..],
                     TimeOf(e, startA), TimeOf(f, startB));
    }
  }

  // One typed map.

  predicate AllTimeless(steps: seq<Step>) { forall i :: 0 <= i < |steps| ==> Timeless(steps[i].cmd) }

  lemma {:induction false} CalmSteps(c: Codec, host: Host, rows: Rows, events: seq<Scripts.Event>)
    requires CalmTrace(c, host, rows, events)
    ensures AllTimeless(StepsOf(events))
    decreases |events|
  {
    hide CallRedis, LuaCommand, Timeless;
    if events != [] {
      var e := events[0];
      var o := CallRedis(c, host, e.env, rows, e.callee, e.argv);
      CalmSteps(c, host, if e.result.Failure? then rows else o.rows, events[1..]);
    }
  }

  lemma CalmCommands(c: Codec, rows: Rows, e: Isolation.Event)
    requires CalmEvent(c, rows, e)
    ensures AllTimeless(CommandsIn(c, rows, e))
  {
    hide Exec, Events, CallRedis, StepsOf, Timeless;
    match e {
      case Redis(_) =>
      case Script(host, now, p, calls) => CalmSteps(c, host, rows, Events(c, host, now, rows, p, [], calls));
      case Storage(host, env, callee, argv) => CalmSteps(c, host, rows, OneCall(c, rows, host, env, callee, argv));
    }
  }

  lemma {:induction false} CalmHistoryCommands(c: Codec, lc: LogCodec, rows: Rows, events: seq<Isolation.Event>)
    requires CalmHistory(c, lc, rows, events)
    ensures AllTimeless(CommandsOf(c, lc, rows, events))
    decreases |events|
  {
    hide Happen, CalmEvent, CommandsIn, Timeless;
    if events != [] {
      CalmCommands(c, rows, events[0]);
      CalmHistoryCommands(c, lc, Happen(c, lc, rows, events[0]), events[1..]);
    }
  }

  lemma {:induction false} TimelessRunIsEternal(db: T.Db, steps: seq<Step>)
    requires Eternal(db) && AllTimeless(steps)
    ensures Eternal(T.Run(db, steps))
    decreases |steps|
  {
    if steps != [] {
      hide T.Apply, Timeless, Eternal;
      assert Timeless(steps[0].cmd);
      TimelessStep(steps[0].env, steps[0].env, db, steps[0].cmd);
      TimelessRunIsEternal(T.Apply(steps[0].env, db, steps[0].cmd).db, steps[1..]);
    }
  }

  /** Rows that are alike show the same typed map. */
  lemma AlikeShowsOneMap(c: Codec, a: Rows, b: Rows, db: T.Db, nowA: nat, nowB: nat)
    requires DataAlike(c, a, b) && Simulates(c, a, db, nowA) && Eternal(db)
    ensures Simulates(c, b, db, nowB)
  {
    KindsDiffer();
    forall key ensures InStep(c, b, db, nowB, key) {
      assert InStep(c, a, db, nowA, key);
      LookAlike(c, a, b, nowA, nowB, key);
      assert AlikeAt(c, a, b, key);
    }
  }

  lemma EmptyAlike(c: Codec)
    ensures Alike(c, map[], map[])
  {
  }

  /** Two replicas that apply one log of commands, scripts and script storage from empty stores give the same
      answers and show one typed map, each with its own clock and its own map orders, if the commands are timeless
      and no script GETs a hash or a set. */
  lemma ScriptReplicasAgree(c: Codec, lc: LogCodec, a: seq<Isolation.Event>, startA: nat, b: seq<Isolation.Event>,
                            startB: nat)
    requires Lawful(c) && SameEntries(a, b) && CalmHistory(c, lc, map[], a)
    requires ClockedHistory(a, startA) && ClockedHistory(b, startB)
    ensures Answers(c, lc, map[], a) == Answers(c, lc, map[], b)
    ensures var db := T.Run(map[], CommandsOf(c, lc, map[], a));
            && Simulates(c, History(c, lc, map[], a), db, EndTime(a, startA))
            && Simulates(c, History(c, lc, map[], b), db, EndTime(b, startB))
  {
    assert Eternal(map[]);
    assert forall steps :: AllTimeless(steps) ==> NoExpire(steps);
    assert forall x, y :: Alike(c, x, y) ==> DataAlike(c, x, y);
    hide *;
    var steps := CommandsOf(c, lc, map[], a);
    EmptyAlike(c);
    HistoriesAlike(c, lc, map[], map[], a, b, startA, startB);
    CalmHistoryCommands(c, lc, map[], a);
    NoExpireNoHarm(c, map[], steps);
    FreshStoreSimulates(c, startA);
    HistoryRefines(c, lc, map[], map[], startA, a);
    TimelessRunIsEternal(map[], steps);
    AlikeShowsOneMap(c, History(c, lc, map[], a), History(c, lc, map[], b), T.Run(map[], steps), EndTime(a, startA),
                     EndTime(b, startB));
  }

  // Without that: a script that reads a set raw.

  /** GET key, and an end with what it found. */
  function ReadAndFinish(key: Bytes, order: set<Bytes> -> seq<Bytes>): Program {
    (history: seq<Result>) =>
      if history == [] then Call(Unguarded, GetKey, [key], order)
      else Finish(if history[0].Success? then history[0].reply else Nil)
  }

  /** SADD key x y, and that script. */
  function ReadSet(host: Host, env: Env, key: Bytes, x: Bytes, y: Bytes): seq<Isolation.Event> {
    [Redis(Step(env, Command(SAdd, key, [x, y], 0, Always, false)))]
    + [Script(host, env.now, ReadAndFinish(key, env.order), 1)]
  }

  lemma AddedPair(c: Codec, env: Env, key: Bytes, x: Bytes, y: Bytes)
    ensures var o := Apply(c, env, map[], Command(SAdd, key, [x, y], 0, Always, false));
            Get(o.rows, env.now, UserKey(key)) == Some(Row(PackList(c, Enumerate(env, {x, y})), 0))
  {
    var cmd := Command(SAdd, key, [x, y], 0, Always, false);
    ApplyOnKey(c, env, map[], cmd);
    assert {} + ToSet([x, y]) == {x, y};
    hide Added;
  }

  lemma ReadRaw(c: Codec, lc: LogCodec, host: Host, env: Env, key: Bytes, x: Bytes, y: Bytes)
    ensures var answers := Answers(c, lc, map[], ReadSet(host, env, key, x, y));
            |answers| == 2 && answers[1] == Success(Bulk(PackList(c, Enumerate(env, {x, y}))))
  {
    var add, p := Command(SAdd, key, [x, y], 0, Always, false), ReadAndFinish(key, env.order);
    var rows := Apply(c, env, map[], add).rows;
    AddedPair(c, env, key, x, y);
    hide Apply;
    var raw := Bulk(PackList(c, Enumerate(env, {x, y})));
    assert Reach(c, host, env, rows, GetKey, [key], 0) == Answered(rows, Success(raw));
    assert Exec(c, host, env.now, rows, p, [], 1) == Exec(c, host, env.now, rows, p, [] + [Success(raw)], 0);
    assert Exec(c, host, env.now, rows, p, [], 1) == Finished(rows, raw);
    AnswersToTwo(c, lc, map[], Redis(Step(env, add)), Script(host, env.now, p, 1));
  }

  lemma AnswersToTwo(c: Codec, lc: LogCodec, rows: Rows, e: Isolation.Event, f: Isolation.Event)
    ensures Answers(c, lc, rows, [e] + [f]) == AnswerTo(c, rows, e) + AnswerTo(c, Happen(c, lc, rows, e), f)
  {
    hide AnswerTo, Happen;
    var rows' := Happen(c, lc, rows, e);
    assert ([e] + [f])[1..] == [f] && [f][1..] == [];
    assert Answers(c, lc, rows', [f]) == AnswerTo(c, rows', f) + [];
  }

  /** Two replicas that wrote one set in different orders give a script that GETs it different bytes. */
  lemma RawReadDiverges(c: Codec, lc: LogCodec, host: Host, a: Env, b: Env, key: Bytes, x: Bytes, y: Bytes)
    requires Lawful(c) && x != y && Enumerate(a, {x, y}) == [x, y] && Enumerate(b, {x, y}) == [y, x]
    ensures Answers(c, lc, map[], ReadSet(host, a, key, x, y)) != Answers(c, lc, map[], ReadSet(host, b, key, x, y))
  {
    ReadRaw(c, lc, host, a, key, x, y);
    ReadRaw(c, lc, host, b, key, x, y);
    hide Answers;
    assert [x, y][0] != [y, x][0];
    assert UnpackList(c, PackList(c, [x, y])) != UnpackList(c, PackList(c, [y, x]));
  }
}
