/** Replica agreement: the state machine gives every replica the same answers and the same data,
    although each meets map keys in its own order and reads its own clock. */
module Replicas {
  import opened Octets
  import opened Decimal
  import opened Collections
  import opened Store
  import opened Commands
  import opened Fsm
  import opened Refinement
  import T = Typed

  /** A command whose outcome does not depend on a clock or on an iteration order. */
  predicate Timeless(cmd: Command) { cmd.op != Expire && cmd.op != SPop && cmd.ttlMs <= 0 }

  ghost predicate Eternal(db: T.Db) { forall k :: k in db ==> db[k].deadline == 0 }

  /** Two verdicts are one and leave no deadline. */
  predicate OneVerdict(v: T.Verdict, w: T.Verdict) {
    v == w && (v.entry.Some? ==> v.entry.value.deadline == 0)
  }

  predicate NoDeadline(cur: Option<T.Entry>) { cur.Some? ==> cur.value.deadline == 0 }

  lemma TimelessStrings(a: Env, b: Env, cur: Option<T.Entry>, cmd: Command)
    requires Timeless(cmd) && NoDeadline(cur)
    ensures OneVerdict(T.StringStep(a, cur, cmd), T.StringStep(b, cur, cmd))
    ensures OneVerdict(T.CounterStep(a, cur, cmd), T.CounterStep(b, cur, cmd))
    ensures OneVerdict(T.PersistStep(cur), T.PersistStep(cur))
    ensures OneVerdict(T.LegacyDelStep(cur, cmd), T.LegacyDelStep(cur, cmd))
  {
    hide ParseInt, FormatInt, Wrap64;
  }

  lemma TimelessHashes(a: Env, b: Env, cur: Option<T.Entry>, cmd: Command)
    requires NoDeadline(cur)
    ensures OneVerdict(T.HSetStep(a, cur, cmd), T.HSetStep(b, cur, cmd))
    ensures OneVerdict(T.HDelStep(a, cur, cmd), T.HDelStep(b, cur, cmd))
  {
    hide PutAll, ToSet;
  }

  lemma TimelessLists(a: Env, b: Env, cur: Option<T.Entry>, cmd: Command)
    requires NoDeadline(cur)
    ensures OneVerdict(T.PushStep(a, cur, cmd), T.PushStep(b, cur, cmd))
    ensures OneVerdict(T.PopStep(a, cur, cmd), T.PopStep(b, cur, cmd))
    ensures OneVerdict(T.TrimStep(a, cur, cmd), T.TrimStep(b, cur, cmd))
    ensures OneVerdict(T.RemStep(a, cur, cmd), T.RemStep(b, cur, cmd))
  {
    hide Push, Slice, Kept, ParseInt;
  }

  lemma TimelessSets(a: Env, b: Env, cur: Option<T.Entry>, cmd: Command)
    requires NoDeadline(cur)
    ensures OneVerdict(T.SAddStep(a, cur, cmd), T.SAddStep(b, cur, cmd))
    ensures OneVerdict(T.SRemStep(a, cur, cmd), T.SRemStep(b, cur, cmd))
  {
    hide ToSet, Added;
  }

  lemma TimelessKeyStep(a: Env, b: Env, cur: Option<T.Entry>, cmd: Command)
    requires Timeless(cmd) && NoDeadline(cur)
    ensures OneVerdict(T.KeyStep(a, cur, cmd), T.KeyStep(b, cur, cmd))
  {
    hide T.StringStep, T.CounterStep, T.PersistStep, T.LegacyDelStep, T.HSetStep, T.HDelStep, T.PushStep, T.PopStep,
      T.TrimStep, T.RemStep, T.SAddStep, T.SRemStep;
    TimelessStrings(a, b, cur, cmd);
    TimelessHashes(a, b, cur, cmd);
    TimelessLists(a, b, cur, cmd);
    TimelessSets(a, b, cur, cmd);
  }

  lemma {:induction false} PutStringsEternal(db: T.Db, pairs: seq<Bytes>)
    requires |pairs| % 2 == 0 && Eternal(db)
    ensures Eternal(T.PutStrings(db, pairs))
    decreases |pairs|
  {
    if pairs != [] { PutStringsEternal(db[pairs[0] := T.Entry(T.Str(pairs[1]), 0)], pairs[2..]); }
  }

  lemma TimelessStep(a: Env, b: Env, db: T.Db, cmd: Command)
    requires Timeless(cmd) && Eternal(db)
    ensures T.Apply(a, db, cmd) == T.Apply(b, db, cmd)
    ensures Eternal(T.Apply(a, db, cmd).db)
  {
    forall k ensures T.Lookup(db, a.now, k) == T.Lookup(db, b.now, k) { }
    if cmd.op == MSet {
      if |cmd.args| % 2 == 0 { PutStringsEternal(db, cmd.args); }
    } else if cmd.op == Del && cmd.args != [] {
      assert (set k | k in cmd.args && T.Lookup(db, a.now, k).Some?)
             == (set k | k in cmd.args && T.Lookup(db, b.now, k).Some?);
    } else {
      TimelessKeyStep(a, b, T.Lookup(db, a.now, cmd.key), cmd);
    }
  }

  /** Two replicas' views of one log. */
  predicate SameLog(a: seq<Step>, b: seq<Step>) {
    |a| == |b| && forall i :: 0 <= i < |a| ==> a[i].cmd == b[i].cmd
  }

  lemma {:induction false} TimelessRun(a: seq<Step>, b: seq<Step>, db: T.Db)
    requires SameLog(a, b) && Eternal(db)
    requires forall i :: 0 <= i < |a| ==> Timeless(a[i].cmd)
    ensures T.Results(db, a) == T.Results(db, b)
    ensures T.Run(db, a) == T.Run(db, b)
    decreases |a|
  {
    if a != [] {
      TimelessStep(a[0].env, b[0].env, db, a[0].cmd);
      TimelessRun(a[1..], b[1..], T.Apply(a[0].env, db, a[0].cmd).db);
    }
  }

  lemma {:induction false} NoExpireNoHarm(c: Codec, rows: Rows, steps: seq<Step>)
    requires NoExpire(steps)
    ensures TypesOutlive(c, rows, steps)
    decreases |steps|
  {
    if steps != [] { NoExpireNoHarm(c, Apply(c, steps[0].env, rows, steps[0].cmd).rows, steps[1..]); }
  }

  /** Two replicas that apply one log from empty stores return the same results, and both stores
      show the same typed map. */
  lemma ReplicasAgree(c: Codec, a: seq<Step>, startA: nat, b: seq<Step>, startB: nat)
    requires Lawful(c) && SameLog(a, b) && Clocked(a, startA) && Clocked(b, startB)
    requires forall i :: 0 <= i < |a| ==> Timeless(a[i].cmd)
    ensures Results(c, map[], a) == Results(c, map[], b)
    ensures Simulates(c, Run(c, map[], a), T.Run(map[], a), LastTime(a, startA))
    ensures Simulates(c, Run(c, map[], b), T.Run(map[], a), LastTime(b, startB))
  {
    FreshStoreSimulates(c, startA);
    FreshStoreSimulates(c, startB);
    NoExpireNoHarm(c, map[], a);
    NoExpireNoHarm(c, map[], b);
    RunRefines(c, map[], map[], startA, a);
    RunRefines(c, map[], map[], startB, b);
    TimelessRun(a, b, map[]);
  }
}
