/** The rows of Redis data: what a command leaves alone, and that it sees nothing else. */
module DataRows {
  import opened Octets
  import opened Store
  import opened Commands
  import opened Fsm
  import opened Refinement
  import T = Typed

  predicate DataKey(key: Bytes) { key != [] && (key[0] == PREFIX_USER || key[0] == PREFIX_TYPE) }

  predicate SameAt(a: Rows, b: Rows, key: Bytes) {
    (key in a <==> key in b) && (key in a ==> a[key] == b[key])
  }

  // What lies outside stays.

  lemma PerformTouchesData(rows: Rows, now: nat, key: Bytes, e: Effect, other: Bytes)
    requires !DataKey(other)
    ensures SameAt(rows, Perform(rows, now, key, e), other)
  {
  }

  lemma {:induction false} MSetTouchesData(rows: Rows, now: nat, pairs: seq<Bytes>, other: Bytes)
    requires |pairs| % 2 == 0 && !DataKey(other)
    ensures SameAt(rows, MSetAll(rows, now, pairs), other)
    decreases |pairs|
  {
    if pairs != [] {
      MSetTouchesData(SetValue(rows, now, pairs[0], pairs[1], Tag(StringKind), 0), now, pairs[2..], other);
    }
  }

  lemma {:induction false} DelTouchesData(rows: Rows, now: nat, keys: seq<Bytes>, other: Bytes)
    requires !DataKey(other)
    ensures SameAt(rows, DelAll(rows, now, keys), other)
    decreases |keys|
  {
    if keys != [] {
      DelTouchesData(if Sees(rows, now, UserKey(keys[0])) then DropKey(rows, keys[0]) else rows, now, keys[1..], other);
    }
  }

  lemma CommandTouchesData(c: Codec, env: Env, rows: Rows, cmd: Command, other: Bytes)
    requires !DataKey(other)
    ensures SameAt(rows, ApplyInTxn(c, env, rows, cmd).rows, other)
  {
    if cmd.op == MSet {
      if |cmd.args| % 2 == 0 { MSetTouchesData(rows, env.now, cmd.args, other); }
    } else if cmd.op == Del && cmd.args != [] {
      DelTouchesData(rows, env.now, cmd.args, other);
    } else if cmd.op != FlushDb {
      PerformTouchesData(rows, env.now, cmd.key, Decide(c, env, Look(rows, env.now, cmd.key), cmd).effect, other);
    }
  }

  // What lies outside does not matter.

  ghost predicate SameData(a: Rows, b: Rows) { forall key :: DataKey(key) ==> SameAt(a, b, key) }

  lemma SameLook(a: Rows, b: Rows, now: nat, key: Bytes)
    requires SameData(a, b)
    ensures Look(a, now, key) == Look(b, now, key)
    ensures Sees(a, now, UserKey(key)) <==> Sees(b, now, UserKey(key))
  {
    assert DataKey(UserKey(key)) && DataKey(TypeKey(key));
  }

  lemma PerformRespects(a: Rows, b: Rows, now: nat, key: Bytes, e: Effect)
    requires SameData(a, b)
    ensures SameData(Perform(a, now, key, e), Perform(b, now, key, e))
  {
    forall k | DataKey(k) ensures SameAt(Perform(a, now, key, e), Perform(b, now, key, e), k) {
      assert SameAt(a, b, k) && SameAt(a, b, UserKey(key));
    }
  }

  lemma {:induction false} MSetRespects(a: Rows, b: Rows, now: nat, pairs: seq<Bytes>)
    requires |pairs| % 2 == 0 && SameData(a, b)
    ensures SameData(MSetAll(a, now, pairs), MSetAll(b, now, pairs))
    decreases |pairs|
  {
    if pairs != [] {
      var e := Put(pairs[1], Tag(StringKind), 0);
      PerformRespects(a, b, now, pairs[0], e);
      MSetRespects(Perform(a, now, pairs[0], e), Perform(b, now, pairs[0], e), now, pairs[2..]);
    }
  }

  lemma {:induction false} DelRespects(a: Rows, b: Rows, now: nat, keys: seq<Bytes>)
    requires SameData(a, b)
    ensures SameData(DelAll(a, now, keys), DelAll(b, now, keys))
    decreases |keys|
  {
    if keys != [] {
      SameLook(a, b, now, keys[0]);
      PerformRespects(a, b, now, keys[0], Remove);
      if Sees(a, now, UserKey(keys[0])) {
        DelRespects(DropKey(a, keys[0]), DropKey(b, keys[0]), now, keys[1..]);
      } else {
        DelRespects(a, b, now, keys[1..]);
      }
    }
  }

  lemma FlushRespects(a: Rows, b: Rows, now: nat)
    requires SameData(a, b)
    ensures SameData(FlushDbRows(a, now), FlushDbRows(b, now))
  {
    forall k | DataKey(k) ensures SameAt(FlushDbRows(a, now), FlushDbRows(b, now), k) {
      assert SameAt(a, b, k);
    }
  }

  /** A command sees and changes Redis data only. */
  lemma ApplyRespects(c: Codec, env: Env, a: Rows, b: Rows, cmd: Command)
    requires SameData(a, b)
    ensures Apply(c, env, a, cmd).result == Apply(c, env, b, cmd).result
    ensures SameData(Apply(c, env, a, cmd).rows, Apply(c, env, b, cmd).rows)
  {
    if cmd.op == MSet {
      if |cmd.args| % 2 == 0 { MSetRespects(a, b, env.now, cmd.args); }
    } else if cmd.op == Del && cmd.args != [] {
      DelRespects(a, b, env.now, cmd.args);
      forall k ensures Sees(a, env.now, UserKey(k)) <==> Sees(b, env.now, UserKey(k)) { SameLook(a, b, env.now, k); }
      assert VisibleKeys(a, env.now, cmd.args) == VisibleKeys(b, env.now, cmd.args);
    } else if cmd.op == FlushDb {
      FlushRespects(a, b, env.now);
    } else {
      SameLook(a, b, env.now, cmd.key);
      ApplyOnKey(c, env, a, cmd);
      ApplyOnKey(c, env, b, cmd);
      PerformRespects(a, b, env.now, cmd.key, Decide(c, env, Look(a, env.now, cmd.key), cmd).effect);
    }
  }

  lemma SameDataInStep(c: Codec, a: Rows, b: Rows, db: T.Db, now: nat, key: Bytes)
    requires SameData(a, b) && InStep(c, a, db, now, key)
    ensures InStep(c, b, db, now, key)
  {
    assert DataKey(UserKey(key)) && DataKey(TypeKey(key));
    assert SameRows(a, b, key);
    FrameKeepsStep(c, a, b, db, db, now, key);
  }

  lemma SameDataSimulates(c: Codec, a: Rows, b: Rows, db: T.Db, now: nat)
    requires SameData(a, b) && Simulates(c, a, db, now)
    ensures Simulates(c, b, db, now)
  {
    forall key ensures InStep(c, b, db, now, key) {
      assert InStep(c, a, db, now, key);
      SameDataInStep(c, a, b, db, now, key);
    }
  }
}
