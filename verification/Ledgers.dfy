/** Membership ledgers: the sizes of hashes and sets follow from the answers alone, over any run. */
module Ledgers {
  import opened Octets
  import opened Decimal
  import opened Collections
  import opened Store
  import opened Commands
  import opened Fsm
  import opened Refinement
  import opened Readers
  import opened Lifetimes
  import T = Typed

  // Hashes.

  predicate EntryIsHash(cur: Option<T.Entry>, h: map<Bytes, Bytes>) {
    if cur.None? then h == map[] else cur.value.value == T.Hash(h)
  }

  predicate HashCommand(cmd: Command, key: Bytes) {
    cmd.key == key && (cmd.op == HSet || cmd.op == HSetNx || cmd.op == HDel)
  }

  /** What an answer says about the size: fields added, or fields removed. */
  function HashChange(cmd: Command, result: Result): int {
    if result.Success? && result.reply.Int? then (if cmd.op == HDel then -result.reply.n else result.reply.n) else 0
  }

  function HashBalance(steps: seq<Step>, results: seq<Result>): int
    requires |steps| == |results|
  {
    if steps == [] then 0
    else HashChange(steps[0].cmd, results[0]) + HashBalance(steps[1..], results[1..])
  }

  lemma HSetStep(env: Env, cur: Option<T.Entry>, cmd: Command, h: map<Bytes, Bytes>) returns (h': map<Bytes, Bytes>)
    requires EntryIsHash(cur, h) && (cmd.op == HSet || cmd.op == HSetNx)
    ensures var v := T.HSetStep(env, cur, cmd);
            EntryIsHash(v.entry, h') && |h'| == |h| + HashChange(cmd, v.result)
  {
    h' := if |cmd.args| % 2 == 0 then PutAll(h, cmd.args, cmd.op == HSetNx) else h;
  }

  lemma HDelStep(env: Env, cur: Option<T.Entry>, cmd: Command, h: map<Bytes, Bytes>) returns (h': map<Bytes, Bytes>)
    requires EntryIsHash(cur, h) && cmd.op == HDel
    ensures var v := T.HDelStep(env, cur, cmd);
            EntryIsHash(v.entry, h') && |h'| == |h| + HashChange(cmd, v.result)
  {
    h' := h - ToSet(cmd.args);
  }

  lemma HashStep(env: Env, cur: Option<T.Entry>, cmd: Command, key: Bytes, h: map<Bytes, Bytes>)
    returns (h': map<Bytes, Bytes>)
    requires HashCommand(cmd, key) && EntryIsHash(cur, h)
    ensures var v := T.KeyStep(env, cur, cmd);
            EntryIsHash(v.entry, h') && |h'| == |h| + HashChange(cmd, v.result)
  {
    if cmd.op == HDel {
      h' := HDelStep(env, cur, cmd, h);
    } else {
      h' := HSetStep(env, cur, cmd, h);
    }
  }

  predicate HoldsHash(db: T.Db, key: Bytes, h: map<Bytes, Bytes>) {
    EntryIsHash(if key in db then Some(db[key]) else None, h)
  }

  /** The fields that are left when the clock reads `now`. */
  function SurvivingHash(db: T.Db, now: nat, key: Bytes, h: map<Bytes, Bytes>): map<Bytes, Bytes> {
    if T.Lookup(db, now, key).Some? then h else map[]
  }

  lemma SurvivingHashSize(db: T.Db, now: nat, key: Bytes, h: map<Bytes, Bytes>)
    requires HoldsHash(db, key, h)
    ensures |SurvivingHash(db, now, key, h)| + Loss(db, now, key) == |h|
    ensures EntryIsHash(T.Lookup(db, now, key), SurvivingHash(db, now, key, h))
  {
  }

  lemma {:induction false} TypedHashRun(steps: seq<Step>, db: T.Db, end: nat, key: Bytes, h: map<Bytes, Bytes>)
    returns (h': map<Bytes, Bytes>)
    requires HoldsHash(db, key, h)
    requires forall i :: 0 <= i < |steps| ==> HashCommand(steps[i].cmd, key)
    ensures EntryIsHash(T.Lookup(T.Run(db, steps), end, key), h')
    ensures |h'| + Lost(db, steps, end, key) == |h| + HashBalance(steps, T.Results(db, steps))
    decreases |steps|
  {
    if steps == [] {
      h' := SurvivingHash(db, end, key, h);
      SurvivingHashSize(db, end, key, h);
    } else {
      var env, cmd, rest := steps[0].env, steps[0].cmd, steps[1..];
      var o := T.Apply(env, db, cmd);
      SurvivingHashSize(db, env.now, key, h);
      var mid := HashStep(env, T.Lookup(db, env.now, key), cmd, key, SurvivingHash(db, env.now, key, h));
      h' := TypedHashRun(rest, o.db, end, key, mid);
      assert T.Results(db, steps)[1..] == T.Results(o.db, rest) && T.Run(db, steps) == T.Run(o.db, rest);
    }
  }

  /** HLEN after a run of HSET, HSETNX and HDEL is HLEN before, plus the answers of the writes, minus the
      answers of the deletions, minus what lapsed; so it follows from the answers alone if and only if
      nothing lapsed. */
  lemma HashLedger(c: Codec, rows: Rows, db: T.Db, start: nat, steps: seq<Step>, end: nat, key: Bytes,
                   h: map<Bytes, Bytes>)
    requires Lawful(c) && Clocked(steps, start) && LastTime(steps, start) <= end
    requires InStep(c, rows, db, start, key) && HoldsHash(db, key, h)
    requires forall i :: 0 <= i < |steps| ==> HashCommand(steps[i].cmd, key)
    ensures var read, balance := HGetAll(c, Run(c, rows, steps), end, key), HashBalance(steps, Results(c, rows, steps));
            && read.Value?
            && |read.value| + Lost(db, steps, end, key) == |h| + balance
            && (|read.value| == |h| + balance <==> NeverLapses(db, steps, end, key))
  {
    assert AllOn(steps, key) && NoExpire(steps);
    hide Clocked, Lawful, InStep, Run, Results, T.Run, T.Results, LastTime, Lost, NeverLapses, HashBalance, HGetAll,
      HoldsHash, HashCommand;
    KeyRunRefinesUntil(c, rows, db, start, steps, end, key);
    var h' := TypedHashRun(steps, db, end, key, h);
    LostNothing(db, steps, end, key);
    HashReadsAgree(c, Run(c, rows, steps), T.Run(db, steps), end, key);
  }

  // Sets.

  predicate EntryIsSet(cur: Option<T.Entry>, s: set<Bytes>) {
    if cur.None? then s == {} else cur.value.value == T.Members(s)
  }

  predicate SetCommand(cmd: Command, key: Bytes) {
    cmd.key == key && (cmd.op == SAdd || cmd.op == SRem || cmd.op == SPop)
  }

  /** The members an SPOP answer hands out. */
  function HandedOut(result: Result): seq<Bytes> {
    match result
    case Success(Multi(items)) => items
    case Success(Bulk(b)) => [b]
    case _ => []
  }

  function SetChange(cmd: Command, result: Result): int {
    if cmd.op == SPop then -|HandedOut(result)|
    else if result.Success? && result.reply.Int? then (if cmd.op == SRem then -result.reply.n else result.reply.n)
    else 0
  }

  function SetBalance(steps: seq<Step>, results: seq<Result>): int
    requires |steps| == |results|
  {
    if steps == [] then 0
    else SetChange(steps[0].cmd, results[0]) + SetBalance(steps[1..], results[1..])
  }

  lemma TakenIsPart(env: Env, s: set<Bytes>, args: seq<Bytes>)
    requires Orderly(env)
    ensures var taken := Taken(env, s, args);
            && NoDuplicates(taken) && ToSet(taken) <= s && |s - ToSet(taken)| == |s| - |taken|
            && (args == [] ==> |taken| <= 1)
  {
    var taken := Taken(env, s, args);
    assert Enumerates(Enumerate(env, s), s);
    forall x | x in ToSet(taken) ensures x in s { assert x in ToSet(Enumerate(env, s)); }
    ToSetSize(taken);
    assert s == ToSet(taken) + (s - ToSet(taken));
  }

  /** SPOP hands out members of the old set, each once, and leaves exactly the others. */
  lemma SPopPartitions(env: Env, cur: Option<T.Entry>, cmd: Command, s: set<Bytes>)
    requires Orderly(env) && cmd.op == SPop && EntryIsSet(cur, s)
    ensures var v := T.SPopStep(env, cur, cmd);
            var out := HandedOut(v.result);
            && NoDuplicates(out) && ToSet(out) <= s
            && EntryIsSet(v.entry, s - ToSet(out))
            && |s - ToSet(out)| == |s| - |out|
  {
    TakenIsPart(env, s, cmd.args);
    if cur.Some? { SPopAnswer(env, cur.value, cmd, s); }
  }

  lemma SPopAnswer(env: Env, e: T.Entry, cmd: Command, s: set<Bytes>)
    requires e.value == T.Members(s)
    requires cmd.args == [] ==> |Taken(env, s, cmd.args)| <= 1
    ensures HandedOut(T.SPopStep(env, Some(e), cmd).result) == Taken(env, s, cmd.args)
  {
    var taken := Taken(env, s, cmd.args);
    if cmd.args == [] && taken != [] { assert taken == [taken[0]]; }
  }

  lemma SizeStep(env: Env, cur: Option<T.Entry>, cmd: Command, s: set<Bytes>)
    requires EntryIsSet(cur, s)
    ensures var v := T.SAddStep(env, cur, cmd);
            EntryIsSet(v.entry, s + ToSet(cmd.args)) && v.result == Success(Int(|s + ToSet(cmd.args)| - |s|))
    ensures var v := T.SRemStep(env, cur, cmd);
            EntryIsSet(v.entry, s - ToSet(cmd.args)) && v.result == Success(Int(|s| - |s - ToSet(cmd.args)|))
  {
  }

  lemma SetStep(env: Env, cur: Option<T.Entry>, cmd: Command, key: Bytes, s: set<Bytes>) returns (s': set<Bytes>)
    requires Orderly(env) && SetCommand(cmd, key) && EntryIsSet(cur, s)
    ensures var v := T.KeyStep(env, cur, cmd);
            EntryIsSet(v.entry, s') && |s'| == |s| + SetChange(cmd, v.result)
  {
    hide T.SAddStep, T.SRemStep, T.SPopStep, EntryIsSet, NoDuplicates, Orderly;
    SizeStep(env, cur, cmd, s);
    if cmd.op == SPop {
      assert T.KeyStep(env, cur, cmd) == T.SPopStep(env, cur, cmd);
      SPopPartitions(env, cur, cmd, s);
      s' := s - ToSet(HandedOut(T.SPopStep(env, cur, cmd).result));
    } else if cmd.op == SRem {
      assert T.KeyStep(env, cur, cmd) == T.SRemStep(env, cur, cmd);
      s' := s - ToSet(cmd.args);
    } else {
      assert T.KeyStep(env, cur, cmd) == T.SAddStep(env, cur, cmd);
      s' := s + ToSet(cmd.args);
    }
  }

  predicate HoldsSet(db: T.Db, key: Bytes, s: set<Bytes>) {
    EntryIsSet(if key in db then Some(db[key]) else None, s)
  }

  /** The members that are left when the clock reads `now`. */
  function SurvivingSet(db: T.Db, now: nat, key: Bytes, s: set<Bytes>): set<Bytes> {
    if T.Lookup(db, now, key).Some? then s else {}
  }

  lemma SurvivingSetSize(db: T.Db, now: nat, key: Bytes, s: set<Bytes>)
    requires HoldsSet(db, key, s)
    ensures |SurvivingSet(db, now, key, s)| + Loss(db, now, key) == |s|
    ensures EntryIsSet(T.Lookup(db, now, key), SurvivingSet(db, now, key, s))
  {
  }

  lemma {:induction false} TypedSetRun(steps: seq<Step>, db: T.Db, end: nat, key: Bytes, s: set<Bytes>)
    returns (s': set<Bytes>)
    requires HoldsSet(db, key, s)
    requires forall i :: 0 <= i < |steps| ==> SetCommand(steps[i].cmd, key) && Orderly(steps[i].env)
    ensures EntryIsSet(T.Lookup(T.Run(db, steps), end, key), s')
    ensures |s'| + Lost(db, steps, end, key) == |s| + SetBalance(steps, T.Results(db, steps))
    decreases |steps|
  {
    if steps == [] {
      s' := SurvivingSet(db, end, key, s);
      SurvivingSetSize(db, end, key, s);
    } else {
      var env, cmd, rest := steps[0].env, steps[0].cmd, steps[1..];
      var o := T.Apply(env, db, cmd);
      SurvivingSetSize(db, env.now, key, s);
      var mid := SetStep(env, T.Lookup(db, env.now, key), cmd, key, SurvivingSet(db, env.now, key, s));
      s' := TypedSetRun(rest, o.db, end, key, mid);
      assert T.Results(db, steps)[1..] == T.Results(o.db, rest) && T.Run(db, steps) == T.Run(o.db, rest);
    }
  }

  /** SCARD after a run of SADD, SREM and SPOP is SCARD before plus what was added minus what was removed,
      handed out or lapsed, so it follows from the answers alone if and only if nothing lapsed; and the
      stored members are free of duplicates. */
  lemma SetLedger(c: Codec, rows: Rows, db: T.Db, start: nat, steps: seq<Step>, end: nat, key: Bytes, s: set<Bytes>)
    requires Lawful(c) && Clocked(steps, start) && LastTime(steps, start) <= end
    requires InStep(c, rows, db, start, key) && HoldsSet(db, key, s)
    requires forall i :: 0 <= i < |steps| ==> SetCommand(steps[i].cmd, key)
    ensures var read, balance := SMembers(c, Run(c, rows, steps), end, key), SetBalance(steps, Results(c, rows, steps));
            && read.Value? && NoDuplicates(read.value)
            && |read.value| + Lost(db, steps, end, key) == |s| + balance
            && (|read.value| == |s| + balance <==> NeverLapses(db, steps, end, key))
  {
    assert AllOn(steps, key) && NoExpire(steps) && forall i :: 0 <= i < |steps| ==> Orderly(steps[i].env);
    hide Clocked, Lawful, InStep, Run, Results, T.Run, T.Results, LastTime, Lost, NeverLapses, SetBalance, SMembers,
      HoldsSet, SetCommand, Orderly;
    KeyRunRefinesUntil(c, rows, db, start, steps, end, key);
    var s' := TypedSetRun(steps, db, end, key, s);
    LostNothing(db, steps, end, key);
    SetReadsAgree(c, Run(c, rows, steps), T.Run(db, steps), end, key);
  }

  /** How many members SPOP takes: one without an argument, otherwise as many as it says, but no more than there
      are; and they are the first ones the iteration meets. */
  lemma SPopTakes(env: Env, cur: Option<T.Entry>, cmd: Command, s: set<Bytes>, n: int)
    requires Orderly(env) && cmd.op == SPop && EntryIsSet(cur, s)
    requires if cmd.args == [] then n == 1 else Numeral(cmd.args[0], n) && IsInt64(n)
    ensures var out := HandedOut(T.KeyStep(env, cur, cmd).result);
            && |out| == (if n <= 0 then 0 else if n <= |s| then n else |s|)
            && out <= Enumerate(env, s)
    ensures var r := T.KeyStep(env, cur, cmd).result;
            r.Success? && (if cmd.args != [] then r.reply.Multi? else if s == {} then r.reply.Nil? else r.reply.Bulk?)
  {
    var order := Enumerate(env, s);
    assert Enumerates(order, s);
    ToSetSize(order);
    TakenIsPart(env, s, cmd.args);
    if cmd.args != [] { AtoiClamps(cmd.args[0], n); }
    hide Atoi, Numeral;
    if cur.Some? { SPopAnswer(env, cur.value, cmd, s); }
    assert T.KeyStep(env, cur, cmd) == T.SPopStep(env, cur, cmd);
  }
}
