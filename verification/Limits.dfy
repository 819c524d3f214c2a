/** Where the laws end: small runs that show the hypotheses of the refinement and of replica agreement
    cannot be dropped. */
module Limits {
  import opened Octets
  import opened Collections
  import opened Store
  import opened Commands
  import opened Fsm
  import opened Refinement
  import opened Replicas
  import opened TypeRows
  import T = Typed

  function Plain(op: Op, key: Bytes, args: seq<Bytes>): Command { Command(op, key, args, 0, Always, false) }

  lemma TypedUnrolled(db: T.Db, a: Step, b: Step)
    ensures var o := T.Apply(a.env, db, a.cmd);
            T.Results(db, [a, b]) == [o.result, T.Apply(b.env, o.db, b.cmd).result]
  {
    var o := T.Apply(a.env, db, a.cmd);
    assert [a, b][1..] == [b] && [b][1..] == [];
    assert T.Results(o.db, [b]) == [T.Apply(b.env, o.db, b.cmd).result] + [];
  }

  // EXPIRE past the type row.

  const SECOND_1: nat := 1_000_000_000
  const SECOND_50: nat := 50_000_000_000

  function HashStep(order: set<Bytes> -> seq<Bytes>, now: nat, key: Bytes, field: Bytes, value: Bytes): Step {
    Step(Env(now, order), Plain(HSet, key, [field, value]))
  }

  function ExpireStep(order: set<Bytes> -> seq<Bytes>, key: Bytes, ttlMs: int): Step {
    Step(Env(SECOND_1, order), Command(Expire, key, [], ttlMs, Always, false))
  }

  /** HSET, EXPIRE 10, HSET and EXPIRE 100 in second 1, and HSET in second 50. */
  function LongerLife(order: set<Bytes> -> seq<Bytes>, key: Bytes, field: Bytes, value: Bytes): seq<Step> {
    [HashStep(order, SECOND_1, key, field, value)]
    + ([ExpireStep(order, key, 10_000)]
       + ([HashStep(order, SECOND_1, key, field, value)]
          + ([ExpireStep(order, key, 100_000)]
             + [HashStep(order, SECOND_50, key, field, value)])))
  }

  lemma ResultsCons(c: Codec, rows: Rows, step: Step, rest: seq<Step>)
    ensures var o := Apply(c, step.env, rows, step.cmd);
            Results(c, rows, [step] + rest) == [o.result] + Results(c, o.rows, rest)
  {
    assert ([step] + rest)[1..] == rest;
  }

  lemma TypedResultsCons(db: T.Db, step: Step, rest: seq<Step>)
    ensures var o := T.Apply(step.env, db, step.cmd);
            T.Results(db, [step] + rest) == [o.result] + T.Results(o.db, rest)
  {
    assert ([step] + rest)[1..] == rest;
  }

  /** The one-field hash of the example in the two rows, with a deadline each. */
  function TwoRows(c: Codec, order: set<Bytes> -> seq<Bytes>, key: Bytes, h: map<Bytes, Bytes>, v: nat, t: nat): Rows {
    map[UserKey(key) := Row(PackHash(c, h, order(h.Keys)), v), TypeKey(key) := Row(Tag(HashKind), t)]
  }

  lemma ExampleDeadlines()
    ensures Deadline(SECOND_1, 10_000) == 11 && Deadline(SECOND_1, 100_000) == 101
    ensures RemainingMs(11, SECOND_1) == 10_000 && RemainingMs(0, SECOND_1) == 0
    ensures DeadlineFor(SECOND_1, 10_000) == 11 && DeadlineFor(SECOND_1, 0) == 0
  {
  }

  lemma PutAgain(field: Bytes, value: Bytes)
    ensures var h := map[field := value];
            PutAll(map[], [field, value], false) == h && PutAll(h, [field, value], false) == h
  {
    assert [field, value][2..] == [];
    assert PutAll(map[field := value], [], false) == map[field := value];
    assert map[field := value][field := value] == map[field := value];
  }

  lemma FirstHSet(c: Codec, order: set<Bytes> -> seq<Bytes>, key: Bytes, field: Bytes, value: Bytes)
    ensures var step, h := HashStep(order, SECOND_1, key, field, value), map[field := value];
            Apply(c, step.env, map[], step.cmd) == Outcome(TwoRows(c, order, key, h, 0, 0), Success(Int(1)))
  {
    ExampleDeadlines();
    PutAgain(field, value);
    hide PutAll, RemainingMs;
    var step, h := HashStep(order, SECOND_1, key, field, value), map[field := value];
    ApplyOnKey(c, step.env, map[], step.cmd);
    assert DecideHSet(c, step.env, Absent, step.cmd) == WriteHash(c, step.env, h, 0, Int(1));
  }

  lemma Expires(c: Codec, order: set<Bytes> -> seq<Bytes>, key: Bytes, h: map<Bytes, Bytes>, v: nat, t: nat, ttlMs: int)
    requires Unexpired(v, SECOND_1)
    ensures var step := ExpireStep(order, key, ttlMs);
            Apply(c, step.env, TwoRows(c, order, key, h, v, t), step.cmd)
            == Outcome(TwoRows(c, order, key, h, Deadline(SECOND_1, ttlMs), t), Success(Int(1)))
  {
    hide Deadline;
    var step := ExpireStep(order, key, ttlMs);
    ApplyOnKey(c, step.env, TwoRows(c, order, key, h, v, t), step.cmd);
  }

  lemma SecondHSet(c: Codec, order: set<Bytes> -> seq<Bytes>, key: Bytes, field: Bytes, value: Bytes)
    requires Lawful(c) && Enumerates(order({field}), {field})
    ensures var step, h := HashStep(order, SECOND_1, key, field, value), map[field := value];
            Apply(c, step.env, TwoRows(c, order, key, h, 11, 0), step.cmd)
            == Outcome(TwoRows(c, order, key, h, 11, 11), Success(Int(0)))
  {
    ExampleDeadlines();
    PutAgain(field, value);
    var step, h := HashStep(order, SECOND_1, key, field, value), map[field := value];
    var rows := TwoRows(c, order, key, h, 11, 0);
    var cell := Cell(PackHash(c, h, order(h.Keys)), Tag(HashKind), 11);
    assert Look(rows, SECOND_1, key) == cell;
    assert h.Keys == {field};
    assert FetchHash(c, step.env, cell) == Found(h, 10_000) by { HashFetched(c, step.env, h); }
    hide PutAll, RemainingMs, DeadlineFor, FetchHash, Lawful, Look;
    ApplyOnKey(c, step.env, rows, step.cmd);
    assert DecideHSet(c, step.env, cell, step.cmd) == WriteHash(c, step.env, h, 10_000, Int(0));
  }

  lemma HashFetched(c: Codec, env: Env, h: map<Bytes, Bytes>)
    requires Lawful(c) && Enumerates(Enumerate(env, h.Keys), h.Keys) && env.now == SECOND_1
    ensures FetchHash(c, env, Cell(PackHash(c, h, Enumerate(env, h.Keys)), Tag(HashKind), 11)) == Found(h, 10_000)
  {
    ExampleDeadlines();
    hide RemainingMs;
  }

  lemma LastHSet(c: Codec, order: set<Bytes> -> seq<Bytes>, key: Bytes, field: Bytes, value: Bytes)
    ensures var step, h := HashStep(order, SECOND_50, key, field, value), map[field := value];
            Apply(c, step.env, TwoRows(c, order, key, h, 101, 11), step.cmd).result == Failure(WrongType)
  {
    var step, h := HashStep(order, SECOND_50, key, field, value), map[field := value];
    var rows := TwoRows(c, order, key, h, 101, 11);
    ApplyOnKey(c, step.env, rows, step.cmd);
    assert Look(rows, SECOND_50, key) == Cell(PackHash(c, h, order(h.Keys)), Tag(StringKind), 101);
    assert Tag(StringKind) != Tag(HashKind) by { KindsDiffer(); }
  }

  lemma LastResult(c: Codec, order: set<Bytes> -> seq<Bytes>, key: Bytes, field: Bytes, value: Bytes)
    ensures Results(c, TwoRows(c, order, key, map[field := value], 101, 11),
                    [HashStep(order, SECOND_50, key, field, value)])
            == [Failure(WrongType)]
  {
    hide TwoRows, Apply;
    var step := HashStep(order, SECOND_50, key, field, value);
    var rows := TwoRows(c, order, key, map[field := value], 101, 11);
    LastHSet(c, order, key, field, value);
    ResultsCons(c, rows, step, []);
    assert [step] + [] == [step];
  }

  lemma RowsLoseTheType(c: Codec, order: set<Bytes> -> seq<Bytes>, key: Bytes, field: Bytes, value: Bytes)
    requires Lawful(c) && Enumerates(order({field}), {field})
    ensures Results(c, map[], LongerLife(order, key, field, value))
            == [Success(Int(1)), Success(Int(1)), Success(Int(0)), Success(Int(1)), Failure(WrongType)]
  {
    hide Results, Apply, TwoRows, HashStep, ExpireStep, Lawful, RemainingMs, Deadline, DeadlineFor;
    var s1, s5 := HashStep(order, SECOND_1, key, field, value), HashStep(order, SECOND_50, key, field, value);
    var short, long := ExpireStep(order, key, 10_000), ExpireStep(order, key, 100_000);
    var h := map[field := value];
    ExampleDeadlines();
    FirstHSet(c, order, key, field, value);
    Expires(c, order, key, h, 0, 0, 10_000);
    SecondHSet(c, order, key, field, value);
    Expires(c, order, key, h, 11, 11, 100_000);
    LastResult(c, order, key, field, value);
    ResultsCons(c, TwoRows(c, order, key, h, 11, 11), long, [s5]);
    ResultsCons(c, TwoRows(c, order, key, h, 11, 0), s1, [long] + [s5]);
    ResultsCons(c, TwoRows(c, order, key, h, 0, 0), short, [s1] + ([long] + [s5]));
    ResultsCons(c, map[], s1, [short] + ([s1] + ([long] + [s5])));
  }

  function OneHash(key: Bytes, field: Bytes, value: Bytes, deadline: nat): T.Db {
    map[key := T.Entry(T.Hash(map[field := value]), deadline)]
  }

  lemma TypedFirstHSet(order: set<Bytes> -> seq<Bytes>, key: Bytes, field: Bytes, value: Bytes)
    ensures var step := HashStep(order, SECOND_1, key, field, value);
            T.Apply(step.env, map[], step.cmd) == T.Outcome(OneHash(key, field, value, 0), Success(Int(1)))
  {
    PutAgain(field, value);
    hide PutAll;
    var step := HashStep(order, SECOND_1, key, field, value);
    assert T.KeyStep(step.env, None, step.cmd) == T.HSetStep(step.env, None, step.cmd);
  }

  lemma TypedHSet(order: set<Bytes> -> seq<Bytes>, now: nat, key: Bytes, field: Bytes, value: Bytes, d: nat)
    requires Unexpired(d, now)
    ensures var step := HashStep(order, now, key, field, value);
            T.Apply(step.env, OneHash(key, field, value, d), step.cmd)
            == T.Outcome(OneHash(key, field, value, Carried(d, now)), Success(Int(0)))
  {
    PutAgain(field, value);
    hide PutAll, Carried;
    var step, cur := HashStep(order, now, key, field, value), T.Lookup(OneHash(key, field, value, d), now, key);
    assert T.KeyStep(step.env, cur, step.cmd) == T.HSetStep(step.env, cur, step.cmd);
  }

  lemma TypedExpire(order: set<Bytes> -> seq<Bytes>, key: Bytes, field: Bytes, value: Bytes, d: nat, ttlMs: int)
    requires Unexpired(d, SECOND_1)
    ensures var step := ExpireStep(order, key, ttlMs);
            T.Apply(step.env, OneHash(key, field, value, d), step.cmd)
            == T.Outcome(OneHash(key, field, value, Deadline(SECOND_1, ttlMs)), Success(Int(1)))
  {
    hide Deadline;
  }

  lemma LastTyped(order: set<Bytes> -> seq<Bytes>, key: Bytes, field: Bytes, value: Bytes)
    ensures T.Results(OneHash(key, field, value, 101), [HashStep(order, SECOND_50, key, field, value)])
            == [Success(Int(0))]
  {
    hide OneHash, T.Apply;
    var step, db := HashStep(order, SECOND_50, key, field, value), OneHash(key, field, value, 101);
    TypedHSet(order, SECOND_50, key, field, value, 101);
    TypedResultsCons(db, step, []);
    assert [step] + [] == [step];
  }

  lemma TypedKeepsTheType(order: set<Bytes> -> seq<Bytes>, key: Bytes, field: Bytes, value: Bytes)
    ensures T.Results(map[], LongerLife(order, key, field, value))
            == [Success(Int(1)), Success(Int(1)), Success(Int(0)), Success(Int(1)), Success(Int(0))]
  {
    assert Deadline(SECOND_1, 10_000) == 11 && Deadline(SECOND_1, 100_000) == 101 && Carried(11, SECOND_1) == 11 by {
      ExampleDeadlines();
    }
    hide T.Results, T.Apply, OneHash, HashStep, ExpireStep, Carried, Deadline;
    var s1, s5 := HashStep(order, SECOND_1, key, field, value), HashStep(order, SECOND_50, key, field, value);
    var short, long := ExpireStep(order, key, 10_000), ExpireStep(order, key, 100_000);
    TypedFirstHSet(order, key, field, value);
    TypedExpire(order, key, field, value, 0, 10_000);
    TypedHSet(order, SECOND_1, key, field, value, 11);
    TypedExpire(order, key, field, value, 11, 100_000);
    LastTyped(order, key, field, value);
    TypedResultsCons(OneHash(key, field, value, 11), long, [s5]);
    TypedResultsCons(OneHash(key, field, value, 11), s1, [long] + [s5]);
    TypedResultsCons(OneHash(key, field, value, 0), short, [s1] + ([long] + [s5]));
    TypedResultsCons(map[], s1, [short] + ([s1] + ([long] + [s5])));
  }

  /** An EXPIRE past the type row, in one run of handler-built commands from the empty store: the rows answer the
      last HSET with WRONGTYPE, the typed map does it, and up to there they agree. */
  lemma LongerExpireLosesTheType(c: Codec, order: set<Bytes> -> seq<Bytes>, key: Bytes, field: Bytes, value: Bytes)
    requires Lawful(c) && Enumerates(order({field}), {field})
    ensures var steps := LongerLife(order, key, field, value);
            var rows, typed := Results(c, map[], steps), T.Results(map[], steps);
            && (forall i :: 0 <= i < |steps| ==> HandlerBuilt(steps[i].cmd))
            && |steps| == 5 && rows[..4] == typed[..4]
            && rows[4] == Failure(WrongType) && typed[4] == Success(Int(0))
  {
    hide Results, T.Results, Lawful;
    RowsLoseTheType(c, order, key, field, value);
    TypedKeepsTheType(order, key, field, value);
  }

  // Replicas.

  /** A short log without EXPIRE, applied from empty, answers as the typed map does. */
  lemma AnswersOf(c: Codec, a: Step, b: Step)
    requires Lawful(c) && Clocked([a, b], a.env.now) && a.cmd.op != Expire && b.cmd.op != Expire
    ensures Results(c, map[], [a, b]) == T.Results(map[], [a, b])
  {
    FreshStoreSimulates(c, a.env.now);
    NoExpireNoHarm(c, map[], [a, b]);
    RunRefines(c, map[], map[], a.env.now, [a, b]);
  }

  lemma PopTakesTheFirst(env: Env, key: Bytes, x: Bytes, y: Bytes, first: Bytes)
    requires Enumerate(env, {x, y}) == [first, if first == x then y else x]
    ensures T.Results(map[], [Step(env, Plain(SAdd, key, [x, y])), Step(env, Plain(SPop, key, []))])[1]
            == Success(Bulk(first))
  {
    var a, b := Step(env, Plain(SAdd, key, [x, y])), Step(env, Plain(SPop, key, []));
    TypedUnrolled(map[], a, b);
    hide T.Results, Carried;
    assert {} + ToSet([x, y]) == {x, y};
    assert T.Apply(env, map[], a.cmd).db == map[key := T.Entry(T.Members({x, y}), 0)];
    assert Taken(env, {x, y}, []) == [first];
  }

  /** SPOP: two replicas that meet the members of one set in different orders hand out different ones. */
  lemma SPopDiverges(c: Codec, a: Env, b: Env, key: Bytes, x: Bytes, y: Bytes)
    requires Lawful(c) && Orderly(a) && Orderly(b)
    requires Enumerate(a, {x, y}) == [x, y] && Enumerate(b, {x, y}) == [y, x]
    ensures var add, pop := Plain(SAdd, key, [x, y]), Plain(SPop, key, []);
            Results(c, map[], [Step(a, add), Step(a, pop)])[1] != Results(c, map[], [Step(b, add), Step(b, pop)])[1]
  {
    hide Results, T.Results;
    var add, pop := Plain(SAdd, key, [x, y]), Plain(SPop, key, []);
    assert x != y by { assert Enumerates([x, y], {x, y}); assert [x, y][0] != [x, y][1]; }
    PopTakesTheFirst(a, key, x, y, x);
    PopTakesTheFirst(b, key, x, y, y);
    AnswersOf(c, Step(a, add), Step(a, pop));
    AnswersOf(c, Step(b, add), Step(b, pop));
  }

  /** A lock of one second taken at second 1, and asked for again at `now`. */
  function LockTwice(order: set<Bytes> -> seq<Bytes>, key: Bytes, value: Bytes, now: nat): seq<Step> {
    [Step(Env(1_000_000_000, order), Command(Set, key, [value], 1000, IfAbsent, false)),
     Step(Env(now, order), Command(Set, key, [value], 1000, IfAbsent, false))]
  }

  lemma SecondLock(order: set<Bytes> -> seq<Bytes>, key: Bytes, value: Bytes, now: nat)
    requires 1_000_000_000 <= now
    ensures T.Results(map[], LockTwice(order, key, value, now))[1] == Success(if now < 2_000_000_000 then Nil else Ok)
  {
    var steps := LockTwice(order, key, value, now);
    TypedUnrolled(map[], steps[0], steps[1]);
    assert DeadlineFor(1_000_000_000, 1000) == 2;
  }

  /** TTLs: two replicas that apply one log at different times answer differently. */
  lemma TtlDiverges(c: Codec, order: set<Bytes> -> seq<Bytes>, key: Bytes, value: Bytes, early: nat, late: nat)
    requires Lawful(c) && (forall now: nat :: Orderly(Env(now, order)))
    requires 1_000_000_000 <= early < 2_000_000_000 <= late
    ensures Results(c, map[], LockTwice(order, key, value, early))[1] == Success(Nil)
    ensures Results(c, map[], LockTwice(order, key, value, late))[1] == Success(Ok)
  {
    var a, b := LockTwice(order, key, value, early), LockTwice(order, key, value, late);
    SecondLock(order, key, value, early);
    SecondLock(order, key, value, late);
    AnswersOf(c, a[0], a[1]);
    AnswersOf(c, b[0], b[1]);
  }
}
