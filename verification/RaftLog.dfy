/** The Raft log and stable store, laid over the same ordered rows as the Redis data. */
module RaftLog {
  import opened Octets
  import opened Store
  import opened Database

  datatype Log = Log(index: nat, term: nat, kind: nat, data: Bytes)

  /** The log codec: decoding undoes encoding. */
  datatype LogCodec = LogCodec(pack: Log -> Bytes, unpack: Bytes -> Option<Log>)

  function PackLog(c: LogCodec, log: Log): Bytes { c.pack(log) }
  function UnpackLog(c: LogCodec, b: Bytes): Option<Log> { c.unpack(b) }

  ghost predicate LawfulLog(c: LogCodec) { forall log :: UnpackLog(c, PackLog(c, log)) == Some(log) }

  function LogKey(index: nat): (r: Bytes)
    ensures |r| == 9 && r[0] == PREFIX_LOG && r[1..] == BigEndian(index, 8)
  {
    [PREFIX_LOG] + BigEndian(index, 8)
  }

  function StableKey(key: Bytes): (r: Bytes)
    ensures |r| == |key| + 1 && r[0] == PREFIX_STABLE && r[1..] == key
  {
    [PREFIX_STABLE] + key
  }

  predicate IsUint64(n: nat) { n < 0x1_0000_0000_0000_0000 }

  lemma LogKeyOrder(m: nat, n: nat)
    requires IsUint64(m) && IsUint64(n)
    ensures Less(LogKey(m), LogKey(n)) <==> m < n
    ensures LogKey(m) == LogKey(n) <==> m == n
    ensures FromBigEndian(LogKey(m)[1..]) == m
  {
    Pow256Eight();
    BigEndianOrder(m, n, 8);
    BigEndianRoundTrip(m, 8);
    LessTail(PREFIX_LOG, BigEndian(m, 8), BigEndian(n, 8));
  }

  // The log as a value.

  /** A log is an interval of indices: `entries[j]` is at index `first + j`. */
  datatype LogView = LogView(first: nat, entries: seq<Log>)

  predicate Contiguous(logs: seq<Log>, first: nat) {
    forall j :: 0 <= j < |logs| ==> logs[j].index == first + j
  }

  predicate ValidView(v: LogView) {
    && Contiguous(v.entries, v.first)
    && (v.entries != [] ==> v.first >= 1 && IsUint64(v.first + |v.entries| - 1))
  }

  predicate InView(v: LogView, i: nat) { v.first <= i < v.first + |v.entries| }

  function FirstOf(v: LogView): nat { if v.entries == [] then 0 else v.first }
  function LastOf(v: LogView): nat { if v.entries == [] then 0 else v.first + |v.entries| - 1 }

  predicate HoldsAt(c: LogCodec, rows: Rows, v: LogView, i: nat) {
    if InView(v, i) then LogKey(i) in rows && rows[LogKey(i)] == Row(PackLog(c, v.entries[i - v.first]), 0)
    else LogKey(i) !in rows
  }

  /** The rows hold exactly this log: a row at an index if and only if it is in the interval. */
  ghost predicate HoldsLog(c: LogCodec, rows: Rows, v: LogView) {
    ValidView(v) && forall i: nat :: IsUint64(i) ==> HoldsAt(c, rows, v, i)
  }

  /** Every row belongs to one of the four name spaces. */
  predicate Housed(key: Bytes) {
    && key != []
    && (key[0] == PREFIX_USER || key[0] == PREFIX_TYPE || key[0] == PREFIX_STABLE
        || (|key| == 9 && key[0] == PREFIX_LOG))
  }

  ghost predicate Namespaced(rows: Rows) { forall k :: k in rows ==> Housed(k) }

  // Storing.

  function StoreAll(c: LogCodec, rows: Rows, logs: seq<Log>): Rows
    decreases |logs|
  {
    if logs == [] then rows
    else StoreAll(c, rows[LogKey(logs[0].index) := Row(PackLog(c, logs[0]), 0)], logs[1..])
  }

  /** What storing contiguous entries from inside the interval, or just after it, leaves. */
  function Stored(v: LogView, logs: seq<Log>): LogView {
    if logs == [] then v
    else if v.entries == [] then LogView(logs[0].index, logs)
    else
      var at := logs[0].index - v.first;
      if at < 0 || at > |v.entries| then v
      else
        var rest := if at + |logs| <= |v.entries| then v.entries[at + |logs|..] else [];
        LogView(v.first, v.entries[..at] + logs + rest)
  }

  predicate Storable(v: LogView, logs: seq<Log>) {
    logs != [] ==>
      && Contiguous(logs, logs[0].index) && logs[0].index >= 1 && IsUint64(logs[0].index + |logs| - 1)
      && (v.entries != [] ==> v.first <= logs[0].index <= v.first + |v.entries|)
  }

  lemma {:induction false} StoreAllRow(c: LogCodec, rows: Rows, logs: seq<Log>, first: nat, i: nat)
    requires Contiguous(logs, first) && IsUint64(i) && (logs != [] ==> IsUint64(first + |logs| - 1))
    ensures var rows' := StoreAll(c, rows, logs);
            if first <= i < first + |logs|
            then LogKey(i) in rows' && rows'[LogKey(i)] == Row(PackLog(c, logs[i - first]), 0)
            else
              && (LogKey(i) in rows' <==> LogKey(i) in rows)
              && (LogKey(i) in rows ==> rows'[LogKey(i)] == rows[LogKey(i)])
    decreases |logs|
  {
    if logs != [] {
      LogKeyOrder(first, i);
      var rows1 := rows[LogKey(logs[0].index) := Row(PackLog(c, logs[0]), 0)];
      StoreAllRow(c, rows1, logs[1..], first + 1, i);
    }
  }

  lemma StoredIsValid(v: LogView, logs: seq<Log>)
    requires ValidView(v) && Storable(v, logs)
    ensures ValidView(Stored(v, logs))
  {
  }

  lemma StoreAllHoldsAt(c: LogCodec, rows: Rows, v: LogView, logs: seq<Log>, i: nat)
    requires ValidView(v) && Storable(v, logs) && logs != [] && IsUint64(i) && HoldsAt(c, rows, v, i)
    ensures HoldsAt(c, StoreAll(c, rows, logs), Stored(v, logs), i)
  {
    StoreAllRow(c, rows, logs, logs[0].index, i);
  }

  lemma StoreAllHolds(c: LogCodec, rows: Rows, v: LogView, logs: seq<Log>)
    requires HoldsLog(c, rows, v) && Storable(v, logs)
    ensures HoldsLog(c, StoreAll(c, rows, logs), Stored(v, logs))
  {
    StoredIsValid(v, logs);
    if logs != [] {
      forall i: nat | IsUint64(i) ensures HoldsAt(c, StoreAll(c, rows, logs), Stored(v, logs), i) {
        StoreAllHoldsAt(c, rows, v, logs, i);
      }
    }
  }

  // Deleting.

  function DeleteAll(rows: Rows, min: nat, max: nat): Rows
    decreases max - min
  {
    if min > max then rows else DeleteAll(rows - {LogKey(min)}, min + 1, max)
  }

  lemma {:induction false} DeleteAllRow(rows: Rows, min: nat, max: nat, key: Bytes)
    ensures var rows' := DeleteAll(rows, min, max);
            && (key in rows' <==> key in rows && forall i :: min <= i <= max ==> key != LogKey(i))
            && (key in rows' ==> rows'[key] == rows[key])
    decreases max - min
  {
    if min <= max { DeleteAllRow(rows - {LogKey(min)}, min + 1, max, key); }
  }

  /** A deletion from one end of the log. */
  predicate FromAnEnd(v: LogView, min: nat, max: nat) {
    v.entries == [] || min > max || min <= v.first || max >= v.first + |v.entries| - 1
  }

  function Deleted(v: LogView, min: nat, max: nat): LogView {
    if v.entries == [] || min > max || max < v.first || min >= v.first + |v.entries| then v
    else if min <= v.first then
      if max >= v.first + |v.entries| - 1 then LogView(v.first, [])
      else LogView(max + 1, v.entries[max + 1 - v.first..])
    else if max >= v.first + |v.entries| - 1 then LogView(v.first, v.entries[..min - v.first])
    else v
  }

  lemma DeleteAllHoldsAt(c: LogCodec, rows: Rows, v: LogView, min: nat, max: nat, i: nat)
    requires FromAnEnd(v, min, max) && IsUint64(max) && IsUint64(i) && HoldsAt(c, rows, v, i)
    ensures HoldsAt(c, DeleteAll(rows, min, max), Deleted(v, min, max), i)
  {
    DeleteAllRow(rows, min, max, LogKey(i));
    forall j | min <= j <= max ensures LogKey(i) == LogKey(j) <==> i == j { LogKeyOrder(i, j); }
  }

  lemma DeleteAllHolds(c: LogCodec, rows: Rows, v: LogView, min: nat, max: nat)
    requires HoldsLog(c, rows, v) && FromAnEnd(v, min, max) && IsUint64(max)
    ensures HoldsLog(c, DeleteAll(rows, min, max), Deleted(v, min, max))
  {
    forall i: nat | IsUint64(i) ensures HoldsAt(c, DeleteAll(rows, min, max), Deleted(v, min, max), i) {
      DeleteAllHoldsAt(c, rows, v, min, max, i);
    }
  }

  // The operations.

  /** StoreLogs: encode every entry first, then write them in one transaction. */
  method StoreLogs(db: Database, c: LogCodec, logs: seq<Log>)
    modifies db
    ensures db.rows == StoreAll(c, old(db.rows), logs)
  {
    var data: seq<(Bytes, Bytes)> := [];
    for i := 0 to |logs|
      invariant |data| == i
      invariant forall j :: 0 <= j < i ==> data[j] == (LogKey(logs[j].index), PackLog(c, logs[j]))
    {
      data := data + [(LogKey(logs[i].index), PackLog(c, logs[i]))];
    }
    for i := 0 to |data|
      invariant StoreAll(c, db.rows, logs[i..]) == StoreAll(c, old(db.rows), logs)
    {
      assert logs[i..][1..] == logs[i + 1..];
      db.SetEntry(data[i].0, Row(data[i].1, 0));
    }
  }

  /** The uint64 loop variable of DeleteRange after `k` turns. */
  function LoopIndex(min: nat, k: nat): nat { (min + k) % 0x1_0000_0000_0000_0000 }

  /** The loop of DeleteRange ends if and only if its upper bound is not the greatest uint64. */
  lemma DeleteRangeEnds(min: nat, max: nat)
    requires IsUint64(min) && IsUint64(max)
    ensures (exists k: nat :: LoopIndex(min, k) > max) <==> max < 0xFFFF_FFFF_FFFF_FFFF
  {
    if max < 0xFFFF_FFFF_FFFF_FFFF {
      var k := if min > max then 0 else max + 1 - min;
      assert LoopIndex(min, k) > max;
    }
  }

  method DeleteRange(db: Database, min: nat, max: nat)
    requires max < 0xFFFF_FFFF_FFFF_FFFF
    modifies db
    ensures db.rows == DeleteAll(old(db.rows), min, max)
  {
    var i := min;
    while i <= max
      invariant min <= i
      invariant DeleteAll(db.rows, i, max) == DeleteAll(old(db.rows), min, max)
      decreases max + 1 - i
    {
      db.Delete(LogKey(i));
      i := i + 1;
    }
  }

  /** What a log row reads as; None for ErrLogNotFound or an undecodable row. */
  function LogAt(c: LogCodec, rows: Rows, now: nat, index: nat): Option<Log> {
    match Get(rows, now, LogKey(index)) case None => None case Some(row) => UnpackLog(c, row.value)
  }

  /** A log is read exactly on its interval, and as it was stored. */
  lemma LogIsReadable(c: LogCodec, rows: Rows, v: LogView, now: nat, i: nat)
    requires LawfulLog(c) && HoldsLog(c, rows, v) && IsUint64(i)
    ensures LogAt(c, rows, now, i) == if InView(v, i) then Some(v.entries[i - v.first]) else None
  {
    assert HoldsAt(c, rows, v, i);
  }

  /** GetLog: whatever log the store holds, it succeeds exactly on that log's interval and returns the entry that
      was stored there. */
  method GetLog(db: Database, c: LogCodec, now: nat, index: nat) returns (log: Option<Log>)
    ensures log == LogAt(c, db.rows, now, index)
    ensures forall v :: LawfulLog(c) && HoldsLog(c, db.rows, v) && IsUint64(index) ==>
              log == if InView(v, index) then Some(v.entries[index - v.first]) else None
  {
    var item := Get(db.rows, now, LogKey(index));
    log := if item.None? then None else UnpackLog(c, item.value.value);
    forall v | LawfulLog(c) && HoldsLog(c, db.rows, v) && IsUint64(index)
      ensures log == if InView(v, index) then Some(v.entries[index - v.first]) else None
    {
      LogIsReadable(c, db.rows, v, now, index);
    }
  }

  lemma LogKeysAreLogKeys(key: Bytes)
    requires |key| == 9 && key[0] == PREFIX_LOG
    ensures IsUint64(FromBigEndian(key[1..])) && key == LogKey(FromBigEndian(key[1..]))
  {
    Pow256Eight();
    FromBigEndianBound(key[1..]);
    BigEndianOfFrom(key[1..]);
    assert key == [key[0]] + key[1..];
  }

  lemma {:induction false} FromBigEndianBound(b: Bytes)
    ensures FromBigEndian(b) < Pow256(|b|)
  {
    if b != [] { FromBigEndianBound(b[..|b| - 1]); }
  }

  lemma {:induction false} BigEndianOfFrom(b: Bytes)
    ensures BigEndian(FromBigEndian(b), |b|) == b
  {
    if b != [] {
      BigEndianOfFrom(b[..|b| - 1]);
      assert b == b[..|b| - 1] + [b[|b| - 1]];
    }
  }

  lemma FirstSeek(c: LogCodec, rows: Rows, v: LogView, now: nat, found: Option<Bytes>)
    requires HoldsLog(c, rows, v) && Namespaced(rows) && FirstBeyond(rows, now, [PREFIX_LOG], false, found)
    ensures v.entries == [] ==> found.None? || found.value[0] != PREFIX_LOG
    ensures v.entries != [] ==> found == Some(LogKey(v.first))
  {
    if found.Some? && found.value[0] == PREFIX_LOG {
      var i := FromBigEndian(found.value[1..]);
      LogKeysAreLogKeys(found.value);
      assert HoldsAt(c, rows, v, i);
      FirstLogRow(c, rows, v, now, i, found.value);
    } else if v.entries != [] {
      FirstLogSeen(c, rows, v, now);
      if found.Some? {
        assert found.value[0] == PREFIX_USER || found.value[0] == PREFIX_STABLE || found.value[0] == PREFIX_TYPE;
        assert AtMost(found.value, LogKey(v.first));
        LessAsymmetric(found.value, LogKey(v.first));
      }
    }
  }

  lemma FirstLogSeen(c: LogCodec, rows: Rows, v: LogView, now: nat)
    requires HoldsLog(c, rows, v) && v.entries != []
    ensures Sees(rows, now, LogKey(v.first)) && AtMost([PREFIX_LOG], LogKey(v.first))
  {
    assert HoldsAt(c, rows, v, v.first);
    assert [PREFIX_LOG] <= LogKey(v.first);
    PrefixInterval([PREFIX_LOG], LogKey(v.first));
  }

  lemma FirstLogRow(c: LogCodec, rows: Rows, v: LogView, now: nat, i: nat, key: Bytes)
    requires HoldsLog(c, rows, v) && IsUint64(i) && key == LogKey(i) && InView(v, i)
    requires FirstBeyond(rows, now, [PREFIX_LOG], false, Some(key))
    ensures i == v.first
  {
    FirstLogSeen(c, rows, v, now);
    LogKeyOrder(v.first, i);
    if i != v.first { LessAsymmetric(LogKey(v.first), key); }
  }

  /** FirstIndex: a forward seek to the log prefix finds the numeric start of the log. */
  method FirstIndex(db: Database, ghost c: LogCodec, now: nat, ghost v: LogView) returns (index: nat)
    requires HoldsLog(c, db.rows, v) && Namespaced(db.rows)
    ensures index == FirstOf(v)
  {
    var found := db.Seek(now, [PREFIX_LOG], false);
    FirstSeek(c, db.rows, v, now, found);
    index := 0;
    if found.Some? && [PREFIX_LOG] <= found.value {
      index := FromBigEndian(found.value[1..]);
      LogKeyOrder(v.first, v.first);
    }
  }

  lemma LastLogSeen(c: LogCodec, rows: Rows, v: LogView, now: nat)
    requires HoldsLog(c, rows, v) && v.entries != []
    ensures Sees(rows, now, LogKey(LastOf(v))) && AtMost(LogKey(LastOf(v)), [PREFIX_LOG + 1])
  {
    assert HoldsAt(c, rows, v, LastOf(v));
  }

  lemma LastSeek(c: LogCodec, rows: Rows, v: LogView, now: nat, found: Option<Bytes>)
    requires HoldsLog(c, rows, v) && Namespaced(rows) && LastUpTo(rows, now, [PREFIX_LOG + 1], found)
    ensures v.entries == [] ==> found.None? || found.value[0] != PREFIX_LOG
    ensures v.entries != [] ==> found == Some(LogKey(LastOf(v)))
  {
    if found.Some? && found.value[0] == PREFIX_LOG {
      var i := FromBigEndian(found.value[1..]);
      LogKeysAreLogKeys(found.value);
      assert HoldsAt(c, rows, v, i);
      LastLogRow(c, rows, v, now, i, found.value);
    } else if v.entries != [] {
      LastLogSeen(c, rows, v, now);
      if found.Some? {
        assert AtMost(LogKey(LastOf(v)), found.value);
        LastIsNotOutside(found.value, LogKey(LastOf(v)));
      }
    }
  }

  /** No row of another name space lies between the log and the end of its prefix. */
  lemma LastIsNotOutside(key: Bytes, log: Bytes)
    requires Housed(key) && key[0] != PREFIX_LOG && AtMost(key, [PREFIX_LOG + 1])
    requires log != [] && log[0] == PREFIX_LOG
    ensures !AtMost(log, key)
  {
  }

  lemma LastLogRow(c: LogCodec, rows: Rows, v: LogView, now: nat, i: nat, key: Bytes)
    requires HoldsLog(c, rows, v) && IsUint64(i) && key == LogKey(i) && InView(v, i)
    requires LastUpTo(rows, now, [PREFIX_LOG + 1], Some(key))
    ensures i == LastOf(v)
  {
    LastLogSeen(c, rows, v, now);
    LogKeyOrder(i, LastOf(v));
    if i != LastOf(v) { LessAsymmetric(key, LogKey(LastOf(v))); }
  }

  /** LastIndex: a reverse seek from the end of the log prefix finds the numeric end of the log. */
  method LastIndex(db: Database, ghost c: LogCodec, now: nat, ghost v: LogView) returns (index: nat)
    requires HoldsLog(c, db.rows, v) && Namespaced(db.rows)
    ensures index == LastOf(v)
  {
    var found := db.SeekReverse(now, [PREFIX_LOG + 1]);
    LastSeek(c, db.rows, v, now, found);
    index := 0;
    if found.Some? && [PREFIX_LOG] <= found.value {
      index := FromBigEndian(found.value[1..]);
      LogKeyOrder(LastOf(v), LastOf(v));
    }
  }

  // The stable store.

  predicate HoldsStable(rows: Rows, key: Bytes, value: Bytes) {
    StableKey(key) in rows && rows[StableKey(key)] == Row(value, 0)
  }

  /** Only this stable key has changed: every other one holds what it held, and every other row is as it was. */
  ghost predicate OnlyStable(was: Rows, rows: Rows, key: Bytes) {
    && (forall other, value :: other != key ==> (HoldsStable(rows, other, value) <==> HoldsStable(was, other, value)))
    && (forall k :: k != StableKey(key) ==> (k in rows <==> k in was) && (k in was ==> rows[k] == was[k]))
  }

  lemma StableWrite(was: Rows, key: Bytes, value: Bytes)
    ensures var rows := was[StableKey(key) := Row(value, 0)];
            HoldsStable(rows, key, value) && OnlyStable(was, rows, key)
  {
    var rows := was[StableKey(key) := Row(value, 0)];
    forall other, v | other != key ensures HoldsStable(rows, other, v) <==> HoldsStable(was, other, v) {
      assert StableKey(other)[1..] != StableKey(key)[1..];
    }
  }

  method SetStable(db: Database, key: Bytes, value: Bytes)
    modifies db
    ensures HoldsStable(db.rows, key, value) && OnlyStable(old(db.rows), db.rows, key)
  {
    StableWrite(db.rows, key, value);
    db.SetEntry(StableKey(key), Row(value, 0));
  }

  /** Get: what Set left, at any time; the empty value for a key that was never set. */
  method GetStable(db: Database, now: nat, key: Bytes) returns (value: Bytes)
    ensures forall v :: HoldsStable(db.rows, key, v) ==> value == v
    ensures StableKey(key) !in db.rows ==> value == []
  {
    var item := Get(db.rows, now, StableKey(key));
    if item.None? { return []; }
    return item.value.value;
  }

  method SetUint64(db: Database, key: Bytes, value: nat)
    requires IsUint64(value)
    modifies db
    ensures HoldsUint64(db.rows, key, value) && OnlyStable(old(db.rows), db.rows, key)
  {
    SetStable(db, key, BigEndian(value, 8));
  }

  predicate HoldsUint64(rows: Rows, key: Bytes, value: nat) { HoldsStable(rows, key, BigEndian(value, 8)) }

  /** A stable key holds at most one number. */
  lemma OneNumber(rows: Rows, key: Bytes, m: nat, n: nat)
    requires HoldsUint64(rows, key, m) && HoldsUint64(rows, key, n) && IsUint64(m) && IsUint64(n)
    ensures m == n
  {
    Pow256Eight();
    BigEndianRoundTrip(m, 8);
    BigEndianRoundTrip(n, 8);
  }

  /** GetUint64: the number SetUint64 left, at any time; 0 for a key that was never set or holds nothing. A value
      of one to seven bytes is a panic, None here; of a longer one the first eight bytes count. */
  method GetUint64(db: Database, now: nat, key: Bytes) returns (value: Option<nat>)
    ensures forall n: nat :: HoldsUint64(db.rows, key, n) && IsUint64(n) ==> value == Some(n)
    ensures StableKey(key) !in db.rows || HoldsStable(db.rows, key, []) ==> value == Some(0)
    ensures forall v :: HoldsStable(db.rows, key, v) && 0 < |v| < 8 ==> value == None
    ensures forall v :: HoldsStable(db.rows, key, v) && |v| >= 8 ==> value == Some(FromBigEndian(v[..8]))
  {
    var b := GetStable(db, now, key);
    if |b| == 0 { return Some(0); }
    if |b| < 8 { return None; }
    value := Some(FromBigEndian(b[..8]));
    forall n: nat | HoldsUint64(db.rows, key, n) && IsUint64(n) ensures value == Some(n) {
      Pow256Eight();
      BigEndianRoundTrip(n, 8);
      assert b == BigEndian(n, 8) && b[..8] == b;
    }
  }
}
