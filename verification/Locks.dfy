/** The lock recipe `SET k v NX`: mutual exclusion over whole runs, on the rows. */
module Locks {
  import opened Octets
  import opened Store
  import opened Commands
  import opened Fsm
  import opened DataRows
  import opened Scripts
  import opened Refinement

  predicate HoldsString(rows: Rows, now: nat, key: Bytes) {
    UserKey(key) in rows && ExistingType(rows, now, key) == Tag(StringKind)
  }

  /** The commands that free a lock: a DEL that names it, and FLUSHDB. */
  predicate Releases(cmd: Command, key: Bytes) {
    || cmd.op == FlushDb
    || (cmd.op == Del && (key in cmd.args || (cmd.args == [] && cmd.key == key)))
  }

  /** The commands that give their key a deadline of their own: EXPIRE, and SET, GETSET or APPEND with a TTL. */
  predicate GivesDeadline(cmd: Command) { cmd.op == Expire || (FamilyOf(cmd.op) == Strings && cmd.ttlMs > 0) }

  lemma EffectOnString(c: Codec, env: Env, cell: Cell, cmd: Command)
    requires cell.Cell? && cell.kind == Tag(StringKind) && cmd.op != Del
    ensures var e := Decide(c, env, cell, cmd).effect;
            && (e.Keep? || e.Retime? || (e.Put? && e.kind == Tag(StringKind)))
            && (cell.deadline == 0 && !GivesDeadline(cmd) ==> !e.Retime? && (e.Put? ==> e.ttlMs <= 0))
  {
    KindsDiffer();
    assert RemainingMs(0, env.now) == 0;
    hide RemainingMs;
  }

  lemma {:induction false} MSetKeepsString(rows: Rows, now: nat, pairs: seq<Bytes>, key: Bytes)
    requires |pairs| % 2 == 0 && HoldsString(rows, now, key)
    ensures HoldsString(MSetAll(rows, now, pairs), now, key)
    ensures rows[UserKey(key)].deadline == 0 ==> MSetAll(rows, now, pairs)[UserKey(key)].deadline == 0
    decreases |pairs|
  {
    if pairs != [] {
      var e := Put(pairs[1], Tag(StringKind), 0);
      if key != pairs[0] { PerformFrame(rows, now, pairs[0], e, key); }
      MSetKeepsString(Perform(rows, now, pairs[0], e), now, pairs[2..], key);
    }
  }

  /** No other command can remove a live string or give its key another type; and only a command on the key that
      gives it a deadline can put one on a string that has none, so any other leaves that string visible for good. */
  lemma StringStays(c: Codec, env: Env, rows: Rows, cmd: Command, key: Bytes)
    requires HoldsString(rows, env.now, key) && Sees(rows, env.now, UserKey(key)) && !Releases(cmd, key)
    ensures var rows' := Apply(c, env, rows, cmd).rows;
            && HoldsString(rows', env.now, key)
            && (rows[UserKey(key)].deadline == 0 && (cmd.key == key ==> !GivesDeadline(cmd)) ==>
                  rows'[UserKey(key)].deadline == 0)
  {
    if cmd.op == MSet {
      if |cmd.args| % 2 == 0 { MSetKeepsString(rows, env.now, cmd.args, key); }
    } else if cmd.op == Del && cmd.args != [] {
      DelAllEffect(rows, env.now, cmd.args, key);
    } else {
      var d := Decide(c, env, Look(rows, env.now, cmd.key), cmd);
      ApplyOnKey(c, env, rows, cmd);
      if cmd.key == key {
        EffectOnString(c, env, Look(rows, env.now, key), cmd);
      } else {
        PerformFrame(rows, env.now, cmd.key, d.effect, key);
      }
    }
  }

  lemma HoldsStringLater(rows: Rows, now: nat, later: nat, key: Bytes)
    requires HoldsString(rows, now, key) && now <= later
    ensures HoldsString(rows, later, key)
  {
    assert Second(now) <= Second(later);
  }

  predicate DeadlinePassed(rows: Rows, now: nat, key: Bytes) {
    UserKey(key) in rows && !Unexpired(rows[UserKey(key)].deadline, now)
  }

  /** The clock reading that follows the first `n` steps. */
  function NextTime(steps: seq<Step>, end: nat, n: nat): nat
    requires n <= |steps|
  {
    if n < |steps| then steps[n].env.now else end
  }

  /** Either the string is still held when the run is over, or its deadline passed on the way. */
  lemma {:induction false} HeldOrPassed(c: Codec, rows: Rows, start: nat, steps: seq<Step>, end: nat, key: Bytes)
    requires Clocked(steps, start) && LastTime(steps, start) <= end
    requires HoldsString(rows, start, key)
    requires forall i :: 0 <= i < |steps| ==> !Releases(steps[i].cmd, key)
    requires forall n :: 0 <= n <= |steps| ==> !DeadlinePassed(Run(c, rows, steps[..n]), NextTime(steps, end, n), key)
    ensures HoldsString(Run(c, rows, steps), end, key) && Sees(Run(c, rows, steps), end, UserKey(key))
    decreases |steps|
  {
    assert steps[..0] == [];
    assert !DeadlinePassed(Run(c, rows, steps[..0]), NextTime(steps, end, 0), key);
    if steps == [] {
      HoldsStringLater(rows, start, end, key);
    } else {
      ClockedTail(steps, start);
      var env, cmd, rest := steps[0].env, steps[0].cmd, steps[1..];
      HoldsStringLater(rows, start, env.now, key);
      StringStays(c, env, rows, cmd, key);
      var rows' := Apply(c, env, rows, cmd).rows;
      forall n | 0 <= n <= |rest| ensures !DeadlinePassed(Run(c, rows', rest[..n]), NextTime(rest, end, n), key) {
        assert steps[..n + 1][1..] == rest[..n];
        assert !DeadlinePassed(Run(c, rows, steps[..n + 1]), NextTime(steps, end, n + 1), key);
      }
      HeldOrPassed(c, rows', env.now, rest, end, key);
    }
  }

  /** `SET key value NX` with no other option that changes its answer. */
  predicate IsLock(cmd: Command, key: Bytes) {
    cmd.op == Set && cmd.key == key && cmd.condition == IfAbsent && !cmd.returnOld
  }

  lemma LockTaken(c: Codec, env: Env, rows: Rows, cmd: Command, key: Bytes)
    requires IsLock(cmd, key)
    ensures Apply(c, env, rows, cmd).result == Success(Ok) ==>
            !Sees(rows, env.now, UserKey(key)) && HoldsString(Apply(c, env, rows, cmd).rows, env.now, key)
  {
  }

  /** A release among the steps, or a deadline of the key that has passed when some step, or the end, comes. */
  ghost predicate Freed(c: Codec, rows: Rows, steps: seq<Step>, end: nat, key: Bytes) {
    || (exists i :: 0 <= i < |steps| && Releases(steps[i].cmd, key))
    || (exists n :: 0 <= n <= |steps| && DeadlinePassed(Run(c, rows, steps[..n]), NextTime(steps, end, n), key))
  }

  /** Between two OK answers to `SET k v NX` there is a DEL naming k, a FLUSHDB, or a deadline of k
      that passed. */
  lemma LockExcludes(c: Codec, rows: Rows, first: Step, between: seq<Step>, second: Step, key: Bytes)
    requires IsLock(first.cmd, key) && IsLock(second.cmd, key)
    requires Clocked(between, first.env.now) && LastTime(between, first.env.now) <= second.env.now
    ensures var o := Apply(c, first.env, rows, first.cmd);
            o.result == Success(Ok) && Apply(c, second.env, Run(c, o.rows, between), second.cmd).result == Success(Ok)
            ==> Freed(c, o.rows, between, second.env.now, key)
  {
    hide Apply, Run, HoldsString, DeadlinePassed, Releases, NextTime, Clocked, LastTime;
    var o := Apply(c, first.env, rows, first.cmd);
    LockTaken(c, first.env, rows, first.cmd, key);
    LockTaken(c, second.env, Run(c, o.rows, between), second.cmd, key);
    if o.result == Success(Ok) && !Freed(c, o.rows, between, second.env.now, key) {
      HeldOrPassed(c, o.rows, first.env.now, between, second.env.now, key);
    }
  }

  lemma SameDataHolds(a: Rows, b: Rows, now: nat, key: Bytes)
    requires SameData(a, b) && HoldsString(a, now, key) && Sees(a, now, UserKey(key))
    ensures HoldsString(b, now, key) && Sees(b, now, UserKey(key))
  {
    assert DataKey(UserKey(key)) && DataKey(TypeKey(key));
  }

  /** A script frees a lock only by its own calls: when it is done the string is still held and live, or one
      of its commands released it, or its deadline passed on the way. */
  lemma ScriptFreesByItsCalls(c: Codec, host: Host, now: nat, rows: Rows, p: Program, calls: nat, key: Bytes)
    requires OrderlyProgram(p, now) && OrderlyHost(host, now) && HoldsString(rows, now, key)
    ensures var rows' := Exec(c, host, now, rows, p, [], calls).rows;
            || (HoldsString(rows', now, key) && Sees(rows', now, UserKey(key)))
            || Freed(c, rows, StepsOf(Events(c, host, now, rows, p, [], calls)), now, key)
  {
    hide Exec, Events, Run, HoldsString, DeadlinePassed, Releases, NextTime, Clocked, LastTime, StepsOf, Commit,
      Replays, SameData, OrderlyProgram, OrderlyHost, Sees;
    var events, end := Events(c, host, now, rows, p, [], calls), Exec(c, host, now, rows, p, [], calls).rows;
    var steps := StepsOf(events);
    ExecIsCommit(c, host, now, rows, p, [], calls);
    SameDataReflexive(rows);
    CommitIsRun(c, host, rows, rows, events);
    EventsShareClock(c, host, now, rows, p, [], calls);
    ScriptIsClocked(events, now);
    if !Freed(c, rows, steps, now, key) {
      HeldOrPassed(c, rows, now, steps, now, key);
      SameDataFlips(end, Run(c, rows, steps), end);
      SameDataHolds(Run(c, rows, steps), end, now, key);
    }
  }

  /** The releases are exactly the commands that take a live string away; a legacy DEL with an empty key field names
      no key. */
  lemma ReleasesExactly(c: Codec, env: Env, rows: Rows, cmd: Command, key: Bytes)
    requires HoldsString(rows, env.now, key) && Sees(rows, env.now, UserKey(key)) && key != []
    ensures Releases(cmd, key) <==> UserKey(key) !in Apply(c, env, rows, cmd).rows
  {
    if !Releases(cmd, key) {
      StringStays(c, env, rows, cmd, key);
    } else if cmd.op == Del && cmd.args != [] {
      DelRemoves(rows, env.now, cmd.args, key);
    } else if cmd.op == Del {
      ApplyOnKey(c, env, rows, cmd);
    }
  }

  lemma {:induction false} DelRemoves(rows: Rows, now: nat, keys: seq<Bytes>, key: Bytes)
    ensures UserKey(key) in DelAll(rows, now, keys) ==> UserKey(key) in rows
    ensures key in keys && Sees(rows, now, UserKey(key)) ==> UserKey(key) !in DelAll(rows, now, keys)
    decreases |keys|
  {
    if keys != [] {
      var rows' := if Sees(rows, now, UserKey(keys[0])) then DropKey(rows, keys[0]) else rows;
      DelRemoves(rows', now, keys[1..], key);
      if key != keys[0] {
        assert UserKey(key)[1..] != UserKey(keys[0])[1..];
        assert UserKey(key)[0] != TypeKey(keys[0])[0];
      }
    }
  }
}
