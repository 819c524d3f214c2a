/** Read-your-writes: what a read finds after a write, on the rows. */
module ReadBack {
  import opened Octets
  import opened Collections
  import opened Store
  import opened Commands
  import opened Fsm
  import opened Refinement
  import opened Readers
  import opened Lifetimes
  import opened Deadlines
  import opened ListLaws

  // Strings.

  /** What GET finds, with nothing read as the empty string. */
  function TextAt(rows: Rows, now: nat, key: Bytes): Bytes {
    var read := GetString(rows, now, key);
    if read.Value? && read.value.Some? then read.value.value else []
  }

  /** NX on a key that is there, or XX on one that is not. */
  predicate HeldBack(cmd: Command, present: bool) {
    (cmd.condition == IfAbsent && present) || (cmd.condition == IfPresent && !present)
  }

  /** After a SET, GETSET or APPEND that succeeds, GET finds the new value until the deadline; APPEND has put its
      argument after what GET found before. One that NX or XX holds back has changed nothing. */
  lemma StringReadBack(c: Codec, env: Env, rows: Rows, cmd: Command, later: nat)
    requires FamilyOf(cmd.op) == Strings
    ensures var o := Apply(c, env, rows, cmd);
            if o.result.Failure? || HeldBack(cmd, Sees(rows, env.now, UserKey(cmd.key))) then o.rows == rows
            else
              && |cmd.args| > 0 && UserKey(cmd.key) in o.rows
              && var old_ := TextAt(rows, env.now, cmd.key);
                 GetString(o.rows, later, cmd.key)
                 == Value(if !Unexpired(o.rows[UserKey(cmd.key)].deadline, later) then None
                          else Some(if cmd.op == Append then old_ + cmd.args[0] else cmd.args[0]))
  {
    ApplyOnKey(c, env, rows, cmd);
    KindsDiffer();
  }

  lemma {:induction false} MSetFrame(rows: Rows, now: nat, pairs: seq<Bytes>, key: Bytes)
    requires |pairs| % 2 == 0 && forall i :: 0 <= i < |pairs| && i % 2 == 0 ==> pairs[i] != key
    ensures SameRows(rows, MSetAll(rows, now, pairs), key)
    decreases |pairs|
  {
    if pairs != [] {
      var e := Put(pairs[1], Tag(StringKind), 0);
      PerformFrame(rows, now, pairs[0], e, key);
      var rest := pairs[2..];
      forall i | 0 <= i < |rest| && i % 2 == 0 ensures rest[i] != key { assert pairs[i + 2] != key; }
      MSetFrame(Perform(rows, now, pairs[0], e), now, rest, key);
    }
  }

  /** After an MSET every key it names reads as the last value given for it, at any time. */
  lemma {:induction false} MSetReadBack(rows: Rows, now: nat, pairs: seq<Bytes>, j: nat, later: nat)
    requires |pairs| % 2 == 0 && j < |pairs| && j % 2 == 0
    requires forall i :: j < i < |pairs| && i % 2 == 0 ==> pairs[i] != pairs[j]
    ensures GetString(MSetAll(rows, now, pairs), later, pairs[j]) == Value(Some(pairs[j + 1]))
    decreases |pairs|
  {
    var rows', rest := SetValue(rows, now, pairs[0], pairs[1], Tag(StringKind), 0), pairs[2..];
    if j == 0 {
      forall i | 0 <= i < |rest| && i % 2 == 0 ensures rest[i] != pairs[0] { assert pairs[i + 2] != pairs[0]; }
      MSetFrame(rows', now, rest, pairs[0]);
    } else {
      forall i | j - 2 < i < |rest| && i % 2 == 0 ensures rest[i] != rest[j - 2] { assert rest[i] == pairs[i + 2]; }
      MSetReadBack(rows', now, rest, j - 2, later);
    }
  }

  // Hashes.

  lemma {:induction false} PutAllOther(h: map<Bytes, Bytes>, pairs: seq<Bytes>, onlyNew: bool, field: Bytes)
    requires |pairs| % 2 == 0
    requires (onlyNew && field in h) || forall i :: 0 <= i < |pairs| && i % 2 == 0 ==> pairs[i] != field
    ensures field in PutAll(h, pairs, onlyNew) <==> field in h
    ensures field in h ==> PutAll(h, pairs, onlyNew)[field] == h[field]
    decreases |pairs|
  {
    if pairs != [] {
      var rest := pairs[2..];
      assert forall i :: 0 <= i < |rest| ==> rest[i] == pairs[i + 2];
      if onlyNew && pairs[0] in h {
        PutAllOther(h, rest, onlyNew, field);
      } else {
        PutAllOther(h[pairs[0] := pairs[1]], rest, onlyNew, field);
      }
    }
  }

  /** HSET: a field it names holds the last value given for it. */
  lemma {:induction false} LastPairWins(h: map<Bytes, Bytes>, pairs: seq<Bytes>, j: nat)
    requires |pairs| % 2 == 0 && j < |pairs| && j % 2 == 0
    requires forall i :: j < i < |pairs| && i % 2 == 0 ==> pairs[i] != pairs[j]
    ensures pairs[j] in PutAll(h, pairs, false) && PutAll(h, pairs, false)[pairs[j]] == pairs[j + 1]
    decreases |pairs|
  {
    var h', rest := h[pairs[0] := pairs[1]], pairs[2..];
    assert forall i :: 0 <= i < |rest| ==> rest[i] == pairs[i + 2];
    if j == 0 { PutAllOther(h', rest, false, pairs[0]); } else { LastPairWins(h', rest, j - 2); }
  }

  /** HSETNX: a new field holds the first value given for it. */
  lemma {:induction false} FirstPairWins(h: map<Bytes, Bytes>, pairs: seq<Bytes>, j: nat)
    requires |pairs| % 2 == 0 && j < |pairs| && j % 2 == 0 && pairs[j] !in h
    requires forall i :: 0 <= i < j && i % 2 == 0 ==> pairs[i] != pairs[j]
    ensures pairs[j] in PutAll(h, pairs, true) && PutAll(h, pairs, true)[pairs[j]] == pairs[j + 1]
    decreases |pairs|
  {
    var rest := pairs[2..];
    assert forall i :: 0 <= i < |rest| ==> rest[i] == pairs[i + 2];
    if j == 0 {
      PutAllOther(h[pairs[0] := pairs[1]], rest, true, pairs[0]);
    } else {
      assert pairs[0] != pairs[j];
      FirstPairWins(if pairs[0] in h then h else h[pairs[0] := pairs[1]], rest, j - 2);
    }
  }

  lemma HSetDecision(c: Codec, env: Env, rows: Rows, cmd: Command, h: map<Bytes, Bytes>)
    requires FamilyOf(cmd.op) == HashWrites && |cmd.args| % 2 == 0 && HGetAll(c, rows, env.now, cmd.key) == Value(h)
    ensures var h', e := PutAll(h, cmd.args, cmd.op == HSetNx), DeadlineSeen(rows, env.now, cmd.key);
            Decide(c, env, Look(rows, env.now, cmd.key), cmd)
            == WriteHash(c, env, h', RemainingMs(e, env.now), Int(|h'| - |h|))
  {
    hide RemainingMs, PutAll, WriteHash;
    assert RemainingMs(0, env.now) == 0 by { NoDeadlineRemains(env.now); }
    var cell := Look(rows, env.now, cmd.key);
    assert Decide(c, env, cell, cmd) == DecideHSet(c, env, cell, cmd);
  }

  lemma HashWritten(c: Codec, env: Env, rows: Rows, key: Bytes, h: map<Bytes, Bytes>, e: nat, reply: Reply, later: nat)
    requires Lawful(c) && Orderly(env)
    ensures HGetAll(c, Perform(rows, env.now, key, WriteHash(c, env, h, RemainingMs(e, env.now), reply).effect),
                    later, key)
            == Value(if Unexpired(Carried(e, env.now), later) then h else map[])
  {
    hide RemainingMs;
    assert Enumerates(Enumerate(env, h.Keys), h.Keys);
  }

  /** After an HSET or HSETNX, HGETALL finds the pairs put into what it found before (the last value of each
      field for HSET, the old or else the first for HSETNX) until the carried deadline, and nothing from then
      on. */
  lemma HashReadBack(c: Codec, env: Env, rows: Rows, cmd: Command, h: map<Bytes, Bytes>, later: nat)
    requires Lawful(c) && Orderly(env) && FamilyOf(cmd.op) == HashWrites && |cmd.args| % 2 == 0
    requires HGetAll(c, rows, env.now, cmd.key) == Value(h)
    ensures HGetAll(c, Apply(c, env, rows, cmd).rows, later, cmd.key)
            == Value(if Unexpired(Carried(DeadlineSeen(rows, env.now, cmd.key), env.now), later)
                     then PutAll(h, cmd.args, cmd.op == HSetNx) else map[])
  {
    assert OnOneKey(cmd);
    hide *;
    var h', e := PutAll(h, cmd.args, cmd.op == HSetNx), DeadlineSeen(rows, env.now, cmd.key);
    ApplyOnKey(c, env, rows, cmd);
    HSetDecision(c, env, rows, cmd, h);
    HashWritten(c, env, rows, cmd.key, h', e, Int(|h'| - |h|), later);
  }

  // In the same moment.

  lemma SeenIsLive(rows: Rows, now: nat, key: Bytes)
    ensures Unexpired(DeadlineSeen(rows, now, key), now)
  {
  }

  /** HGETALL in the moment of the write finds what was written, if and only if that is nothing or the key
      survives the carried deadline. */
  lemma HashReadsBackExactly(c: Codec, env: Env, rows: Rows, cmd: Command, h: map<Bytes, Bytes>)
    requires Lawful(c) && Orderly(env) && FamilyOf(cmd.op) == HashWrites && |cmd.args| % 2 == 0
    requires HGetAll(c, rows, env.now, cmd.key) == Value(h)
    requires DeadlineSeen(rows, env.now, cmd.key) < 0x1_0000_0000_0000_0000 && Clock(env.now)
    ensures var h' := PutAll(h, cmd.args, cmd.op == HSetNx);
            HGetAll(c, Apply(c, env, rows, cmd).rows, env.now, cmd.key) == Value(h')
            <==> h' == map[] || SurvivesWrite(DeadlineSeen(rows, env.now, cmd.key), env.now)
  {
    hide *;
    HashReadBack(c, env, rows, cmd, h, env.now);
    SeenIsLive(rows, env.now, cmd.key);
    SurvivalIsExact(DeadlineSeen(rows, env.now, cmd.key), env.now);
  }

  /** LRANGE 0 -1 in the moment of an LTRIM a b is the LRANGE a b before it, if and only if that was empty or
      the key survives the carried deadline. */
  lemma TrimReadsBackExactly(c: Codec, env: Env, rows: Rows, key: Bytes, trim: Command, a: int, b: int)
    requires Lawful(c) && IsTrim(trim, key, a, b) && LRange(c, rows, env.now, key, a, b).Value?
    requires DeadlineSeen(rows, env.now, key) < 0x1_0000_0000_0000_0000 && Clock(env.now)
    ensures var before := LRange(c, rows, env.now, key, a, b);
            LRange(c, Apply(c, env, rows, trim).rows, env.now, key, 0, -1) == before
            <==> before.value == [] || SurvivesWrite(DeadlineSeen(rows, env.now, key), env.now)
  {
    hide *;
    TrimThenRead(c, env, rows, key, trim, a, b, env.now);
    SeenIsLive(rows, env.now, key);
    SurvivalIsExact(DeadlineSeen(rows, env.now, key), env.now);
  }
}
