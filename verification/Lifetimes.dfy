/** What a passing deadline takes away. Over a run, a key's contents lapse when a command, or the final read,
    comes after their deadline. */
module Lifetimes {
  import opened Octets
  import opened Decimal
  import opened Collections
  import opened Store
  import opened Commands
  import opened Fsm
  import opened Refinement
  import T = Typed

  /** How many elements, fields or members a value holds; a string counts as one. */
  function Size(value: T.Value): nat {
    match value
    case Str(_) => 1
    case Hash(h) => |h|
    case List(l) => |l|
    case Members(s) => |s|
  }

  /** What the key has lost by `now`: everything it held, if its deadline has come. */
  function Loss(db: T.Db, now: nat, key: Bytes): nat {
    if key in db && !Unexpired(db[key].deadline, now) then Size(db[key].value) else 0
  }

  /** What the key loses over a run of commands and up to the read at `end`. */
  function Lost(db: T.Db, steps: seq<Step>, end: nat, key: Bytes): nat
    decreases |steps|
  {
    if steps == [] then Loss(db, end, key)
    else Loss(db, steps[0].env.now, key) + Lost(T.Apply(steps[0].env, db, steps[0].cmd).db, steps[1..], end, key)
  }

  /** Every command, and the read at `end`, finds all that the key held before. */
  ghost predicate NeverLapses(db: T.Db, steps: seq<Step>, end: nat, key: Bytes)
    decreases |steps|
  {
    if steps == [] then Loss(db, end, key) == 0
    else
      && Loss(db, steps[0].env.now, key) == 0
      && NeverLapses(T.Apply(steps[0].env, db, steps[0].cmd).db, steps[1..], end, key)
  }

  lemma {:induction false} LostNothing(db: T.Db, steps: seq<Step>, end: nat, key: Bytes)
    ensures Lost(db, steps, end, key) == 0 <==> NeverLapses(db, steps, end, key)
    decreases |steps|
  {
    if steps != [] { LostNothing(T.Apply(steps[0].env, db, steps[0].cmd).db, steps[1..], end, key); }
  }

  /** A key without a deadline that no command gives one never lapses. */
  lemma {:induction false} NoDeadlineNoLapse(db: T.Db, steps: seq<Step>, end: nat, key: Bytes)
    requires key in db ==> db[key].deadline == 0
    requires forall i :: 0 <= i < |steps| ==> steps[i].cmd.key == key && KeepsDeadline(steps[i].cmd)
    ensures NeverLapses(db, steps, end, key)
    decreases |steps|
  {
    if steps != [] {
      var env, cmd := steps[0].env, steps[0].cmd;
      assert steps[0].cmd.key == key && KeepsDeadline(steps[0].cmd);
      KeptDeadline(env, T.Lookup(db, env.now, key), cmd);
      NoDeadlineNoLapse(T.Apply(env, db, cmd).db, steps[1..], end, key);
    }
  }

  /** The writes that carry the deadline of a key over, when they leave the key in place. */
  predicate KeepsDeadline(cmd: Command) {
    || FamilyOf(cmd.op) in {Counters, HashWrites, HashDrops, Pushes, Pops, Trims, Removals, SetWrites, SetDrops,
                            SetPops}
    || (cmd.op == Append && cmd.ttlMs == 0)
  }

  predicate Endless(entry: Option<T.Entry>) { entry.Some? ==> entry.value.deadline == 0 }

  lemma NothingCarried(now: nat)
    ensures Carried(0, now) == 0
  {
  }

  lemma KeptByStrings(env: Env, cur: Option<T.Entry>, cmd: Command)
    requires Endless(cur)
    ensures cmd.op == Append && cmd.ttlMs == 0 ==> Endless(T.StringStep(env, cur, cmd).entry)
    ensures Endless(T.CounterStep(env, cur, cmd).entry)
  {
    hide Carried, DeadlineFor, ParseInt, FormatInt, Wrap64;
    NothingCarried(env.now);
  }

  lemma KeptByHashes(env: Env, cur: Option<T.Entry>, cmd: Command)
    requires Endless(cur)
    ensures Endless(T.HSetStep(env, cur, cmd).entry)
    ensures Endless(T.HDelStep(env, cur, cmd).entry)
  {
    hide Carried, PutAll, ToSet;
    NothingCarried(env.now);
  }

  lemma KeptByLists(env: Env, cur: Option<T.Entry>, cmd: Command)
    requires Endless(cur)
    ensures Endless(T.PushStep(env, cur, cmd).entry)
    ensures Endless(T.PopStep(env, cur, cmd).entry)
    ensures Endless(T.TrimStep(env, cur, cmd).entry)
    ensures Endless(T.RemStep(env, cur, cmd).entry)
  {
    hide Carried, Push, Slice, Kept, ParseInt;
    NothingCarried(env.now);
  }

  lemma KeptBySets(env: Env, cur: Option<T.Entry>, cmd: Command)
    requires Endless(cur)
    ensures Endless(T.SAddStep(env, cur, cmd).entry)
    ensures Endless(T.SRemStep(env, cur, cmd).entry)
    ensures Endless(T.SPopStep(env, cur, cmd).entry)
  {
    hide Carried, ToSet, Added, Taken;
    NothingCarried(env.now);
  }

  lemma KeptDeadline(env: Env, cur: Option<T.Entry>, cmd: Command)
    requires KeepsDeadline(cmd) && Endless(cur)
    ensures Endless(T.KeyStep(env, cur, cmd).entry)
  {
    hide T.StringStep, T.CounterStep, T.HSetStep, T.HDelStep, T.PushStep, T.PopStep, T.TrimStep, T.RemStep, T.SAddStep,
      T.SRemStep, T.SPopStep;
    KeptByStrings(env, cur, cmd);
    KeptByHashes(env, cur, cmd);
    KeptByLists(env, cur, cmd);
    KeptBySets(env, cur, cmd);
  }

  /** The deadline a command finds on the key; 0 when there is none, or no key. */
  function DeadlineSeen(rows: Rows, now: nat, key: Bytes): nat {
    if Sees(rows, now, UserKey(key)) then rows[UserKey(key)].deadline else 0
  }

  lemma NoDeadlineRemains(now: nat)
    ensures RemainingMs(0, now) == 0
  {
  }

  /** Refinement at one key, read at any time after the run. */
  lemma KeyRunRefinesUntil(c: Codec, rows: Rows, db: T.Db, start: nat, steps: seq<Step>, end: nat, key: Bytes)
    requires Lawful(c) && Clocked(steps, start) && AllOn(steps, key) && NoExpire(steps) && LastTime(steps, start) <= end
    requires InStep(c, rows, db, start, key)
    ensures Results(c, rows, steps) == T.Results(db, steps)
    ensures InStep(c, Run(c, rows, steps), T.Run(db, steps), end, key)
  {
    hide *;
    NoExpireAt(c, rows, steps, key);
    KeyRunRefines(c, rows, db, start, steps, key);
    InStepLater(c, Run(c, rows, steps), T.Run(db, steps), LastTime(steps, start), end, key);
  }
}
