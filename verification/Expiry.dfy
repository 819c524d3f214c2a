/** From the request to the TTL: what a client that sets a deadline reads back, through the option parser, the
    handlers, the state machine and the TTL command. */
module Expiry {
  import opened Octets
  import opened Decimal
  import opened Store
  import opened Commands
  import opened Fsm
  import opened Refinement
  import opened Readers
  import opened Deadlines
  import opened SetOptions
  import opened Handlers

  const SECOND: int := 1_000_000_000

  /** The TTL a client reads n whole seconds before a deadline that was rounded down. */
  function Rounded(n: int, now: nat): int { if now % 1_000_000_000 == 0 then n else n - 1 }

  /** A plain SET either meets a value of another type or leaves the value under the deadline of its TTL. */
  lemma SetLeaves(c: Codec, env: Env, rows: Rows, cmd: Command)
    requires cmd.op == Set && cmd.args != [] && cmd.condition == Always && !cmd.returnOld
    ensures var o, u := Apply(c, env, rows, cmd), UserKey(cmd.key);
            if Look(rows, env.now, cmd.key).Cell? && Look(rows, env.now, cmd.key).kind != Tag(StringKind)
            then o == Outcome(rows, Failure(WrongType))
            else
              && o.result == Success(Ok)
              && u in o.rows && o.rows[u] == Row(cmd.args[0], DeadlineFor(env.now, cmd.ttlMs))
  {
    hide DeadlineFor, RemainingMs;
    ApplyOnKey(c, env, rows, cmd);
    assert Decide(c, env, Look(rows, env.now, cmd.key), cmd) == DecideString(env, Look(rows, env.now, cmd.key), cmd);
  }

  lemma ReadsTtl(rows: Rows, now: nat, key: Bytes, n: int)
    requires 0 < n <= 9_223_372_036 && Clock(now)
    requires UserKey(key) in rows && rows[UserKey(key)].deadline == Deadline(now, n * 1000)
    ensures Sees(rows, now, UserKey(key)) && TimeToLive(rows, now, key, SECOND) == Rounded(n, now)
  {
    FreshTtl(now, n);
    assert Deadline(now, n * 1000) == Second(now) + n by { DeadlineUnwrapped(now, n * 1000); }
    hide Deadline, LifeLeft;
  }

  lemma ReadsNoTtl(rows: Rows, now: nat, key: Bytes)
    requires UserKey(key) in rows && rows[UserKey(key)].deadline == 0
    ensures TimeToLive(rows, now, key, SECOND) == -1
  {
  }

  /** The command of `SET key value EX n`, from a client or from a script. */
  lemma ExReads(key: Bytes, value: Bytes, n: int, nowMs: int)
    requires IsInt64(n * 1000)
    ensures var cmd := Accepted(Bare(key, value).(ttlMs := n * 1000));
            RespReading([EX, FormatInt(n)], Bare(key, value), nowMs) == cmd
            && LuaReading([EX, FormatInt(n)], Bare(key, value)) == cmd
  {
    NamesRead();
    hide OptionOf, FormatInt;
    var tokens: seq<Bytes> := [EX, FormatInt(n)];
    assert tokens + [] == tokens;
    ReadPair(EX, n, [], Bare(key, value), nowMs);
  }

  /** After `SET key value EX n` TTL answers n at a whole second and n - 1 otherwise, whoever sent it. */
  lemma SetExThenTtl(c: Codec, env: Env, rows: Rows, key: Bytes, value: Bytes, n: int, nowMs: int)
    requires 0 < n <= 9_223_372_036 && Clock(env.now)
    ensures var client := RespReading([EX, FormatInt(n)], Bare(key, value), nowMs);
            var script := LuaReading([EX, FormatInt(n)], Bare(key, value));
            && client.Accepted? && script == client
            && var o := Apply(c, env, rows, client.cmd);
               o.result == Success(Ok) ==>
                 && GetString(o.rows, env.now, key) == Value(Some(value))
                 && TimeToLive(o.rows, env.now, key, SECOND) == Rounded(n, env.now)
  {
    hide RespReading, LuaReading, FormatInt, Apply, Deadline, TimeToLive, Clock, Rounded;
    ExReads(key, value, n, nowMs);
    var cmd := Bare(key, value).(ttlMs := n * 1000);
    SetLeaves(c, env, rows, cmd);
    var o := Apply(c, env, rows, cmd);
    if o.result == Success(Ok) {
      ReadsTtl(o.rows, env.now, key, n);
      SetReads(c, env, rows, cmd);
    }
  }

  lemma SetReads(c: Codec, env: Env, rows: Rows, cmd: Command)
    requires cmd.op == Set && cmd.args != [] && cmd.condition == Always && !cmd.returnOld
    ensures var o := Apply(c, env, rows, cmd);
            o.result == Success(Ok) && Sees(o.rows, env.now, UserKey(cmd.key)) ==>
              GetString(o.rows, env.now, cmd.key) == Value(Some(cmd.args[0]))
  {
    hide Deadline, RemainingMs;
    ApplyOnKey(c, env, rows, cmd);
  }

  /** After a SET without options, or one whose TTL is not positive, the key has no deadline. */
  lemma SetThenNoTtl(c: Codec, env: Env, rows: Rows, cmd: Command)
    requires cmd.op == Set && cmd.args != [] && cmd.condition == Always && !cmd.returnOld && cmd.ttlMs <= 0
    ensures var o := Apply(c, env, rows, cmd);
            o.result == Success(Ok) ==> TimeToLive(o.rows, env.now, cmd.key, SECOND) == -1
  {
    SetLeaves(c, env, rows, cmd);
    hide Apply, Look;
    var o := Apply(c, env, rows, cmd);
    if o.result == Success(Ok) { ReadsNoTtl(o.rows, env.now, cmd.key); }
  }

  /** `SET key value PXAT n` for a moment to come, with one reading of the clock: the key ends in the second of n. */
  lemma SetPxatThenDeadline(c: Codec, env: Env, rows: Rows, key: Bytes, value: Bytes, n: int)
    requires Clock(env.now) && env.now / 1_000_000 < n && IsInt64(n)
    requires (n - env.now / 1_000_000) * 1_000_000 <= INT64_MAX
    ensures var parsed := RespReading([PXAT, FormatInt(n)], Bare(key, value), env.now / 1_000_000);
            && parsed.Accepted?
            && var o := Apply(c, env, rows, parsed.cmd);
               o.result == Success(Ok) ==> UserKey(key) in o.rows && o.rows[UserKey(key)].deadline == n / 1000
  {
    var nowMs := env.now / 1_000_000;
    var tokens: seq<Bytes> := [PXAT, FormatInt(n)];
    assert tokens + [] == tokens;
    MillisCount(n, [], Bare(key, value), nowMs);
    assert RespReading([], Bare(key, value).(ttlMs := n - nowMs), nowMs)
           == Accepted(Bare(key, value).(ttlMs := n - nowMs));
    hide RespReading, Apply, FormatInt;
    SetLeaves(c, env, rows, Bare(key, value).(ttlMs := n - nowMs));
    PxatDeadline(env.now, n);
    hide Deadline;
  }

  lemma PxatDeadline(now: nat, n: int)
    requires Clock(now) && now / 1_000_000 < n && (n - now / 1_000_000) * 1_000_000 <= INT64_MAX
    ensures Deadline(now, n - now / 1_000_000) == n / 1000
  {
    var ttl := n - now / 1_000_000;
    DeadlineUnwrapped(now, ttl);
    hide Deadline;
    assert now + ttl * 1_000_000 == n * 1_000_000 + now % 1_000_000;
  }

  /** EXPIRE as a client sends it: on a live key it answers 1, and TTL then answers n or n - 1; a number of seconds
      that is not positive ends the key at once; without a key it answers 0. */
  lemma ExpireThenTtl(c: Codec, env: Env, rows: Rows, argv: seq<Bytes>, cmd: Command, n: int, nowMs: int)
    requires |argv| == 3 && cmd.op == Expire && Says(cmd, argv, nowMs) && Numeral(argv[2], n)
    requires -9_223_372_036 <= n <= 9_223_372_036 && Clock(env.now) && Second(env.now) + n > 0
    ensures var o, u := Apply(c, env, rows, cmd), UserKey(argv[1]);
            if !Sees(rows, env.now, u) then o == Outcome(rows, Success(Int(0)))
            else
              && o.result == Success(Int(1))
              && (n > 0 ==> TimeToLive(o.rows, env.now, argv[1], SECOND) == Rounded(n, env.now))
              && (n <= 0 ==> TimeToLive(o.rows, env.now, argv[1], SECOND) == -2)
  {
    ParseIsNumeral(argv[2], n);
    hide ParseInt, Numeral, Deadline, LifeLeft, Clock;
    assert cmd.key == argv[1] && cmd.ttlMs == n * 1000;
    ApplyOnKey(c, env, rows, cmd);
    var o := Apply(c, env, rows, cmd);
    if Sees(rows, env.now, UserKey(argv[1])) {
      assert o.rows[UserKey(argv[1])].deadline == Deadline(env.now, n * 1000);
      if n > 0 { ReadsTtl(o.rows, env.now, argv[1], n); } else { EndsAtOnce(env.now, n); }
    }
  }

  lemma EndsAtOnce(now: nat, n: int)
    requires -9_223_372_036 <= n <= 0 && Clock(now) && Second(now) + n > 0
    ensures !Unexpired(Deadline(now, n * 1000), now)
  {
    assert Wrap64(n * 1000 * 1_000_000) == n * 1_000_000_000;
    hide Wrap64;
    assert (now + n * 1_000_000_000) / 1_000_000_000 == Second(now) + n;
  }

  /** PERSIST answers 1 exactly on a live key with a deadline, and afterwards there is none. */
  lemma PersistThenTtl(c: Codec, env: Env, rows: Rows, cmd: Command)
    requires cmd.op == Persist
    ensures var o, u := Apply(c, env, rows, cmd), UserKey(cmd.key);
            && o.result == Success(Int(if Sees(rows, env.now, u) && rows[u].deadline != 0 then 1 else 0))
            && TimeToLive(o.rows, env.now, cmd.key, SECOND) == (if Sees(rows, env.now, u) then -1 else -2)
  {
    hide Deadline, Until;
    ApplyOnKey(c, env, rows, cmd);
  }
}
