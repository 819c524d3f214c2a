/** The embedded ordered store: rows with an expiry second, read through a clock.

    A row is a byte string with a deadline in whole seconds, 0 meaning none. The clock is in
    nanoseconds and a transaction takes one reading of it. A row whose deadline has come is
    still in the map but no reader sees it. */
module Store {
  import opened Octets

  datatype Row = Row(value: Bytes, deadline: nat)
  type Rows = map<Bytes, Row>

  const NS_PER_MS: int := 1_000_000
  const NS_PER_SEC: int := 1_000_000_000

  function Second(now: nat): nat { now / 1_000_000_000 }

  /** A deadline that has not come at `now`. */
  predicate Unexpired(deadline: nat, now: nat) { deadline == 0 || deadline > Second(now) }

  predicate Sees(rows: Rows, now: nat, key: Bytes) { key in rows && Unexpired(rows[key].deadline, now) }

  function Get(rows: Rows, now: nat, key: Bytes): Option<Row> {
    if Sees(rows, now, key) then Some(rows[key]) else None
  }

  /** Entry.WithTTL: the whole second of now + ttl, with the duration in a signed 64-bit
      nanosecond count and the second in an unsigned 64-bit word. */
  function Deadline(now: nat, ttlMs: int): nat {
    ((now + Wrap64(ttlMs * 1_000_000)) / 1_000_000_000) % 0x1_0000_0000_0000_0000
  }

  /** Division of a 64-bit duration truncating toward zero. */
  function Truncate(n: int, d: int): int
    requires d > 0
  {
    if n >= 0 then n / d else -(-n / d)
  }

  /** time.Until(time.Unix(deadline, 0)): a difference that saturates at the 64-bit bounds. A time is kept as a
      64-bit count of seconds since the year 1, which wraps. */
  function Until(deadline: nat, now: nat): int {
    var second := Wrap64(deadline + 62_135_596_800) - 62_135_596_800;
    var diff := second * 1_000_000_000 - now;
    if diff > INT64_MAX then INT64_MAX else if diff < INT64_MIN then INT64_MIN else diff
  }

  /** A deadline whose count of seconds since the year 1 does not wrap. */
  predicate Datable(deadline: nat) { deadline < 0x8000_0000_0000_0000 - 62_135_596_800 }

  /** What is left of a deadline in milliseconds, at least 1; 0 for no deadline. */
  function RemainingMs(deadline: nat, now: nat): int {
    if deadline == 0 then 0 else
    var ms := Truncate(Until(deadline, now), NS_PER_MS);
    if ms < 1 then 1 else ms
  }

  /** The deadline a write with this TTL gets: a TTL that is not positive means none. */
  function DeadlineFor(now: nat, ttlMs: int): nat {
    if ttlMs > 0 then Deadline(now, ttlMs) else 0
  }

  /** The deadline left by a write that carries an existing one over. */
  function Carried(deadline: nat, now: nat): nat {
    DeadlineFor(now, RemainingMs(deadline, now))
  }

  const PREFIX_USER: byte := 75
  const PREFIX_TYPE: byte := 84
  const PREFIX_LOG: byte := 76
  const PREFIX_STABLE: byte := 83

  function UserKey(key: Bytes): (r: Bytes)
    ensures |r| == |key| + 1 && r[0] == PREFIX_USER && r[1..] == key
  {
    [PREFIX_USER] + key
  }

  function TypeKey(key: Bytes): (r: Bytes)
    ensures |r| == |key| + 1 && r[0] == PREFIX_TYPE && r[1..] == key
  {
    [PREFIX_TYPE] + key
  }

  datatype Kind = StringKind | HashKind | ListKind | SetKind

  /** The bytes of a type row. */
  function Tag(kind: Kind): Bytes {
    match kind
    case StringKind => [115, 116, 114, 105, 110, 103]
    case HashKind => [104, 97, 115, 104]
    case ListKind => [108, 105, 115, 116]
    case SetKind => [115, 101, 116]
  }

  lemma TagInjective(a: Kind, b: Kind)
    ensures Tag(a) == Tag(b) <==> a == b
  {
    assert |Tag(StringKind)| == 6 && |Tag(HashKind)| == 4 && |Tag(ListKind)| == 4 && |Tag(SetKind)| == 3;
    assert Tag(HashKind)[0] != Tag(ListKind)[0];
  }

  /** The value row and the type row of a Redis key, written together with one deadline. */
  function SetValue(rows: Rows, now: nat, key: Bytes, value: Bytes, kind: Bytes, ttlMs: int): Rows {
    var deadline := DeadlineFor(now, ttlMs);
    rows[UserKey(key) := Row(value, deadline)][TypeKey(key) := Row(kind, deadline)]
  }

  function DropKey(rows: Rows, key: Bytes): Rows { rows - {UserKey(key)} - {TypeKey(key)} }
}
