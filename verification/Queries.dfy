/** The read commands that loop: EXISTS, MGET, HMGET and KEYS. */
module Queries {
  import opened Octets
  import opened Store
  import opened Commands
  import opened Readers
  import opened Database
  import G = Glob

  /** EXISTS and TOUCH: a key counts as often as it is named. */
  method Exists(db: Database, now: nat, keys: seq<Bytes>) returns (count: nat)
    ensures count == CountVisible(db.rows, now, keys)
  {
    count := 0;
    for i := 0 to |keys|
      invariant count + CountVisible(db.rows, now, keys[i..]) == CountVisible(db.rows, now, keys)
    {
      assert keys[i..][1..] == keys[i + 1..];
      var item := Get(db.rows, now, UserKey(keys[i]));
      if item.Some? { count := count + 1; }
    }
  }

  /** MGET: the raw value row of every key, whatever its type. */
  method GetStrings(db: Database, now: nat, keys: seq<Bytes>) returns (values: seq<Option<Bytes>>)
    ensures |values| == |keys|
    ensures forall i :: 0 <= i < |keys| ==> values[i] == GetRaw(db.rows, now, keys[i])
  {
    values := [];
    for i := 0 to |keys|
      invariant |values| == i
      invariant forall j :: 0 <= j < i ==> values[j] == GetRaw(db.rows, now, keys[j])
    {
      var item := Get(db.rows, now, UserKey(keys[i]));
      values := values + [if item.None? then None else Some(item.value.value)];
    }
  }

  /** HMGET: the fields of one hash. */
  method HMGet(db: Database, c: Codec, now: nat, key: Bytes, fields: seq<Bytes>) returns (r: Read<seq<Option<Bytes>>>)
    ensures match HGetAll(c, db.rows, now, key)
            case Error(fault) => r == Error(fault)
            case Value(h) =>
              && r.Value? && |r.value| == |fields|
              && forall i :: 0 <= i < |fields| ==> r.value[i] == if fields[i] in h then Some(h[fields[i]]) else None
  {
    var hash := HGetAll(c, db.rows, now, key);
    if hash.Error? { return Error(hash.fault); }
    var values := [];
    for i := 0 to |fields|
      invariant |values| == i
      invariant forall j :: 0 <= j < i ==>
                  values[j] == if fields[j] in hash.value then Some(hash.value[fields[j]]) else None
    {
      values := values + [if fields[i] in hash.value then Some(hash.value[fields[i]]) else None];
    }
    return Value(values);
  }

  // KEYS.

  predicate Increasing(keys: seq<Bytes>) {
    forall i, j :: 0 <= i < j < |keys| ==> Less(keys[i], keys[j])
  }

  /** The user rows the iterator has passed when it stands at `found`. */
  predicate Passed(rows: Rows, now: nat, found: Option<Bytes>, key: Bytes) {
    Sees(rows, now, UserKey(key)) && (found.None? || Less(UserKey(key), found.value))
  }

  lemma FirstPassesNothing(rows: Rows, now: nat, found: Option<Bytes>, key: Bytes)
    requires FirstBeyond(rows, now, [PREFIX_USER], false, found)
    ensures !Passed(rows, now, found, key)
  {
    if Passed(rows, now, found, key) {
      assert [PREFIX_USER] <= UserKey(key);
      PrefixInterval([PREFIX_USER], UserKey(key));
      LessAsymmetric(UserKey(key), found.value);
    }
  }

  /** One step of the iterator passes exactly the row it stood on. */
  lemma StepPasses(rows: Rows, now: nat, key: Bytes, found: Option<Bytes>, k: Bytes)
    requires Sees(rows, now, UserKey(key)) && FirstBeyond(rows, now, UserKey(key), true, found)
    ensures Passed(rows, now, found, k) <==> k == key || Passed(rows, now, Some(UserKey(key)), k)
  {
    LessTotal(UserKey(k), UserKey(key));
    if Less(UserKey(k), UserKey(key)) && found.Some? { LessTransitive(UserKey(k), UserKey(key), found.value); }
    if Less(UserKey(key), UserKey(k)) {
      LessAsymmetric(UserKey(key), UserKey(k));
      if found.Some? && Sees(rows, now, UserKey(k)) {
        assert AtMost(found.value, UserKey(k));
        if Less(found.value, UserKey(k)) { LessAsymmetric(found.value, UserKey(k)); }
        LessIrreflexive(UserKey(k));
      }
    }
    if UserKey(k) == UserKey(key) { assert k == UserKey(k)[1..] == key; }
  }

  /** An iterator past the prefix has passed every user row. */
  lemma EndPassesAll(rows: Rows, now: nat, found: Option<Bytes>, key: Bytes)
    requires found.Some? ==> AtMost([PREFIX_USER], found.value) && !([PREFIX_USER] <= found.value)
    ensures Passed(rows, now, found, key) <==> Sees(rows, now, UserKey(key))
  {
    if found.Some? {
      assert [PREFIX_USER] <= UserKey(key);
      PrefixIntervalEnd([PREFIX_USER], UserKey(key), found.value);
    }
  }

  /** KEYS: the visible keys the pattern matches, once each, in byte order; or an error when the pattern
      stumbles on one of them. */
  method Keys(db: Database, now: nat, pattern: Bytes) returns (keys: seq<Bytes>, err: bool)
    ensures err ==> exists k :: Sees(db.rows, now, UserKey(k)) && G.Stumbles(G.Tokens(pattern), k)
    ensures !err ==>
      && Increasing(keys)
      && forall k ::
           && (k in keys <==>
                 Sees(db.rows, now, UserKey(k)) && G.WellFormed(pattern) && G.Matches(G.Tokens(pattern), k))
           && (Sees(db.rows, now, UserKey(k)) ==> !G.Stumbles(G.Tokens(pattern), k))
  {
    keys, err := [], false;
    var found := db.Seek(now, [PREFIX_USER], false);
    forall k ensures !Passed(db.rows, now, found, k) { FirstPassesNothing(db.rows, now, found, k); }
    ghost var ahead := db.rows.Keys;
    while found.Some? && [PREFIX_USER] <= found.value
      invariant found.Some? ==> Sees(db.rows, now, found.value) && AtMost([PREFIX_USER], found.value)
      invariant forall k :: k in keys ==> Passed(db.rows, now, found, k)
      invariant Increasing(keys)
      invariant forall k :: Passed(db.rows, now, found, k) ==>
        && (k in keys <==> G.WellFormed(pattern) && G.Matches(G.Tokens(pattern), k))
        && !G.Stumbles(G.Tokens(pattern), k)
      invariant found.Some? ==> found.value in ahead
      invariant forall k :: k in db.rows && found.Some? && AtMost(found.value, k) ==> k in ahead
      decreases ahead
    {
      var key := found.value[1..];
      assert found.value == UserKey(key);
      var matched, bad := G.GlobMatch(pattern, key);
      if bad { return keys, true; }
      forall k | k in keys ensures Less(k, key) { LessTail(PREFIX_USER, k, key); }
      if matched { keys := keys + [key]; }
      ghost var before := found;
      found := db.Seek(now, UserKey(key), true);
      forall k ensures Passed(db.rows, now, found, k) <==> k == key || Passed(db.rows, now, before, k) {
        StepPasses(db.rows, now, key, found, k);
      }
      if found.Some? { AtMostTransitive([PREFIX_USER], UserKey(key), found.value); }
      forall k | k in db.rows && found.Some? && AtMost(found.value, k) ensures k in ahead - {before.value} {
        AtMostTransitive(UserKey(key), found.value, k);
        if k == before.value { LessAsymmetric(UserKey(key), found.value); }
      }
      ahead := ahead - {before.value};
    }
    forall k ensures Passed(db.rows, now, found, k) <==> Sees(db.rows, now, UserKey(k)) {
      EndPassesAll(db.rows, now, found, k);
    }
  }
}
