/** Counter runs: INCR, DECR, INCRBY and DECRBY add up, in 64 bits, whatever their order. */
module Counters {
  import opened Octets
  import opened Decimal
  import opened Store
  import opened Commands
  import opened Fsm
  import opened Refinement
  import opened Readers
  import opened Lifetimes
  import T = Typed

  /** A counter command on `key` whose delta parses. */
  predicate CounterCommand(cmd: Command, key: Bytes) {
    cmd.key == key && FamilyOf(cmd.op) == Counters && Delta(cmd).Success?
  }

  predicate CounterCommands(steps: seq<Step>, key: Bytes) {
    forall i :: 0 <= i < |steps| ==> CounterCommand(steps[i].cmd, key)
  }

  function SignedDelta(cmd: Command): int {
    var d := if cmd.op == IncrBy || cmd.op == DecrBy
             then (if |cmd.args| > 0 && ParseInt(cmd.args[0]).Good? then ParseInt(cmd.args[0]).n else 0)
             else 1;
    if cmd.op == Incr || cmd.op == IncrBy then d else -d
  }

  function Total(deltas: seq<int>): int {
    if deltas == [] then 0 else deltas[0] + Total(deltas[1..])
  }

  function Deltas(steps: seq<Step>): seq<int> {
    if steps == [] then [] else [SignedDelta(steps[0].cmd)] + Deltas(steps[1..])
  }

  /** The key is missing and counts as 0, or holds a decimal string that parses to `n`. */
  predicate EntryCounts(cur: Option<T.Entry>, n: int) {
    if cur.None? then n == 0
    else cur.value.value.Str? && ParseInt(cur.value.value.bytes) == Good(n)
  }

  lemma BumpedBy(cmd: Command, key: Bytes, n: int)
    requires CounterCommand(cmd, key)
    ensures Delta(cmd).reply.Int?
    ensures Bumped(cmd.op, n, Delta(cmd).reply.n) == Wrap64(n + SignedDelta(cmd))
  {
  }

  lemma CounterStep(env: Env, cur: Option<T.Entry>, cmd: Command, key: Bytes, n: int)
    requires CounterCommand(cmd, key) && EntryCounts(cur, n)
    ensures var v, n' := T.KeyStep(env, cur, cmd), Wrap64(n + SignedDelta(cmd));
            v.entry.Some? && EntryCounts(v.entry, n') && v.result == Success(Int(n'))
  {
    BumpedBy(cmd, key, n);
    ParseFormat(Wrap64(n + SignedDelta(cmd)));
    assert T.KeyStep(env, cur, cmd) == T.CounterStep(env, cur, cmd);
  }

  predicate Counts(db: T.Db, key: Bytes, n: int) {
    EntryCounts(if key in db then Some(db[key]) else None, n)
  }

  /** What the counter stands at when the clock reads `now`: 0 again once its deadline has come. */
  function Standing(db: T.Db, now: nat, key: Bytes, n: int): int {
    if T.Lookup(db, now, key).Some? then n else 0
  }

  lemma TypedCounterStep(env: Env, db: T.Db, cmd: Command, key: Bytes, n: int)
    requires CounterCommand(cmd, key) && Counts(db, key, n)
    ensures var db' := T.Apply(env, db, cmd).db;
            key in db' && Counts(db', key, Wrap64(Standing(db, env.now, key, n) + SignedDelta(cmd)))
  {
    CounterStep(env, T.Lookup(db, env.now, key), cmd, key, Standing(db, env.now, key, n));
  }

  /** The exact sum of the start and the deltas, counted from 0 again whenever the counter lapsed. */
  function Tally(db: T.Db, steps: seq<Step>, key: Bytes, n: int): int
    decreases |steps|
  {
    if steps == [] then n
    else Tally(T.Apply(steps[0].env, db, steps[0].cmd).db, steps[1..], key,
               Standing(db, steps[0].env.now, key, n) + SignedDelta(steps[0].cmd))
  }

  lemma CounterCommandsTail(steps: seq<Step>, key: Bytes)
    requires CounterCommands(steps, key) && steps != []
    ensures CounterCommand(steps[0].cmd, key) && CounterCommands(steps[1..], key)
  {
    hide CounterCommand;
  }

  lemma StandingAlive(db: T.Db, now: nat, key: Bytes, m: int, n: int)
    requires Counts(db, key, m) && Loss(db, now, key) == 0 && (key !in db ==> n == 0)
    ensures Standing(db, now, key, n) == n
  {
  }

  lemma StandingWraps(db: T.Db, now: nat, key: Bytes, n: int, exact: int, delta: int)
    requires n == Wrap64(exact)
    ensures Wrap64(Standing(db, now, key, n) + delta) == Wrap64(Standing(db, now, key, exact) + delta)
  {
    hide Wrap64;
    Wrap64Absorbs(exact, delta);
  }

  /** Without a lapse it is the start plus all the deltas. */
  lemma {:induction false} TallyIsTotal(db: T.Db, steps: seq<Step>, end: nat, key: Bytes, m: int, n: int)
    requires Counts(db, key, m) && CounterCommands(steps, key) && NeverLapses(db, steps, end, key)
    requires key !in db ==> n == 0
    ensures Tally(db, steps, key, n) == n + Total(Deltas(steps))
    decreases |steps|
  {
    hide T.Apply, Wrap64, SignedDelta, CounterCommands, CounterCommand, Counts, Standing, Loss;
    if steps != [] {
      var env, cmd, rest := steps[0].env, steps[0].cmd, steps[1..];
      CounterCommandsTail(steps, key);
      TypedCounterStep(env, db, cmd, key, m);
      StandingAlive(db, env.now, key, m, n);
      TallyIsTotal(T.Apply(env, db, cmd).db, rest, end, key, Wrap64(Standing(db, env.now, key, m) + SignedDelta(cmd)),
                   n + SignedDelta(cmd));
      assert Deltas(steps)[1..] == Deltas(rest);
    }
  }

  /** Wrapping after every step is wrapping the exact sum once. */
  lemma {:induction false} TypedCounterRun(steps: seq<Step>, db: T.Db, key: Bytes, n: int, exact: int)
    requires Counts(db, key, n) && n == Wrap64(exact) && CounterCommands(steps, key)
    ensures Counts(T.Run(db, steps), key, Wrap64(Tally(db, steps, key, exact)))
    ensures key in db || steps != [] ==> key in T.Run(db, steps)
    decreases |steps|
  {
    hide T.Apply, Wrap64, SignedDelta, CounterCommands, CounterCommand, Counts, Standing;
    if steps != [] {
      var env, cmd, rest := steps[0].env, steps[0].cmd, steps[1..];
      var db', delta := T.Apply(env, db, cmd).db, SignedDelta(cmd);
      var n', exact' := Wrap64(Standing(db, env.now, key, n) + delta), Standing(db, env.now, key, exact) + delta;
      CounterCommandsTail(steps, key);
      TypedCounterStep(env, db, cmd, key, n);
      StandingWraps(db, env.now, key, n, exact, delta);
      TypedCounterRun(rest, db', key, n', exact');
      assert T.Run(db, steps) == T.Run(db', rest);
    }
  }

  lemma CountersStayOnKey(steps: seq<Step>, key: Bytes)
    requires CounterCommands(steps, key)
    ensures AllOn(steps, key) && NoExpire(steps)
  {
  }

  lemma CounterReads(c: Codec, rows: Rows, db: T.Db, now: nat, key: Bytes, n: int)
    requires InStep(c, rows, db, now, key) && key in db && Counts(db, key, n)
    ensures NumberAt(rows, now, key) == if Unexpired(db[key].deadline, now) then Some(n) else None
  {
    hide ParseInt;
    KeyReadsAgree(c, rows, db, now, key, 1);
  }

  /** A run of counter commands leaves a decimal string that parses to the exact sum since the counter last
      lapsed, reduced to 64 bits; that is the start plus all the deltas when it never lapsed, and the exact
      sum if and only if that is in range. From its deadline on there is nothing to read. */
  lemma CounterRun(c: Codec, rows: Rows, db: T.Db, start: nat, steps: seq<Step>, end: nat, key: Bytes, n: int)
    requires Lawful(c) && Clocked(steps, start) && steps != [] && LastTime(steps, start) <= end
    requires InStep(c, rows, db, start, key) && Counts(db, key, n) && CounterCommands(steps, key)
    ensures var read, exact := NumberAt(Run(c, rows, steps), end, key), Tally(db, steps, key, n);
            && (Loss(T.Run(db, steps), end, key) == 0 ==>
                  read == Some(Wrap64(exact)) && (read == Some(exact) <==> IsInt64(exact)))
            && (Loss(T.Run(db, steps), end, key) != 0 ==> read == None)
            && (NeverLapses(db, steps, end, key) ==> exact == n + Total(Deltas(steps)))
  {
    assert Wrap64(n) == n && Counts(db, key, Wrap64(n));
    hide Clocked, Lawful, InStep, Run, T.Run, LastTime, NeverLapses, CounterCommands, NumberAt, Tally, ParseInt;
    CountersStayOnKey(steps, key);
    KeyRunRefinesUntil(c, rows, db, start, steps, end, key);
    TypedCounterRun(steps, db, key, n, n);
    CounterReads(c, Run(c, rows, steps), T.Run(db, steps), end, key, Wrap64(Tally(db, steps, key, n)));
    if NeverLapses(db, steps, end, key) { TallyIsTotal(db, steps, end, key, n, n); }
  }

  /** The integer that GET of the key reads as. */
  function NumberAt(rows: Rows, now: nat, key: Bytes): Option<int> {
    var read := GetString(rows, now, key);
    if read.Value? && read.value.Some? && ParseInt(read.value.value).Good?
    then Some(ParseInt(read.value.value).n) else None
  }

  lemma {:induction false} TotalConcat(a: seq<int>, b: seq<int>)
    ensures Total(a + b) == Total(a) + Total(b)
  {
    if a == [] {
      assert a + b == b;
    } else {
      assert (a + b)[1..] == a[1..] + b;
      TotalConcat(a[1..], b);
    }
  }

  lemma TakeOut(a: seq<int>, b: seq<int>, i: nat)
    requires a != [] && multiset(a) == multiset(b) && i < |b| && b[i] == a[0]
    ensures multiset(a[1..]) == multiset(b[..i] + b[i + 1..])
  {
    assert a == [a[0]] + a[1..];
    assert multiset(a) == multiset{a[0]} + multiset(a[1..]);
    assert b == b[..i] + ([b[i]] + b[i + 1..]);
    assert multiset(b[..i] + b[i + 1..]) == multiset(b) - multiset{b[i]};
    assert multiset(a[1..]) == multiset(a) - multiset{a[0]};
  }

  lemma TotalWithout(b: seq<int>, i: nat)
    requires i < |b|
    ensures Total(b) == b[i] + Total(b[..i] + b[i + 1..])
  {
    var tail := b[i..];
    assert b == b[..i] + tail && tail[1..] == b[i + 1..];
    TotalConcat(b[..i], tail);
    TotalConcat(b[..i], b[i + 1..]);
  }

  lemma {:induction false} TotalOfPermutation(a: seq<int>, b: seq<int>)
    requires multiset(a) == multiset(b)
    ensures Total(a) == Total(b)
  {
    if a == [] {
      assert |b| == |multiset(b)| == |multiset(a)| == 0;
    } else {
      assert a[0] in multiset(b);
      var i :| 0 <= i < |b| && b[i] == a[0];
      TakeOut(a, b, i);
      TotalOfPermutation(a[1..], b[..i] + b[i + 1..]);
      TotalWithout(b, i);
    }
  }

  lemma {:induction false} NeverLapsesAtEnd(db: T.Db, steps: seq<Step>, end: nat, key: Bytes)
    requires NeverLapses(db, steps, end, key)
    ensures Loss(T.Run(db, steps), end, key) == 0
    decreases |steps|
  {
    if steps != [] { NeverLapsesAtEnd(T.Apply(steps[0].env, db, steps[0].cmd).db, steps[1..], end, key); }
  }

  /** The order of the commands does not matter while the counter lives. */
  lemma CounterRunsCommute(c: Codec, rows: Rows, db: T.Db, key: Bytes, n: int,
                           a: seq<Step>, startA: nat, endA: nat, b: seq<Step>, startB: nat, endB: nat)
    requires Lawful(c) && Clocked(a, startA) && Clocked(b, startB) && a != [] && b != []
    requires LastTime(a, startA) <= endA && LastTime(b, startB) <= endB
    requires InStep(c, rows, db, startA, key) && InStep(c, rows, db, startB, key)
    requires Counts(db, key, n) && CounterCommands(a, key) && CounterCommands(b, key)
    requires multiset(Deltas(a)) == multiset(Deltas(b))
    ensures NeverLapses(db, a, endA, key) && NeverLapses(db, b, endB, key) ==>
              var x, y := NumberAt(Run(c, rows, a), endA, key), NumberAt(Run(c, rows, b), endB, key);
              x.Some? && x == y
  {
    hide *;
    if NeverLapses(db, a, endA, key) && NeverLapses(db, b, endB, key) {
      TotalOfPermutation(Deltas(a), Deltas(b));
      NeverLapsesAtEnd(db, a, endA, key);
      NeverLapsesAtEnd(db, b, endB, key);
      CounterRun(c, rows, db, startA, a, endA, key, n);
      CounterRun(c, rows, db, startB, b, endB, key, n);
    }
  }
}
