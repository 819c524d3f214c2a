/** The read commands: what they find in the rows, what the typed map would answer, and that the
    two are the same wherever rows and map are in step. */
module Readers {
  import opened Octets
  import opened Collections
  import opened Store
  import opened Commands
  import opened Fsm
  import opened Refinement
  import T = Typed

  datatype Read<T> = Value(value: T) | Error(fault: Fault)

  // The rows.

  function GetString(rows: Rows, now: nat, key: Bytes): Read<Option<Bytes>> {
    match Look(rows, now, key)
    case Absent => Value(None)
    case Cell(bytes, kind, _) => if kind != Tag(StringKind) then Error(WrongType) else Value(Some(bytes))
  }

  /** MGET answers with the raw value row, whatever its type. */
  function GetRaw(rows: Rows, now: nat, key: Bytes): Option<Bytes> {
    match Get(rows, now, UserKey(key))
    case None => None
    case Some(row) => Some(row.value)
  }

  /** EXISTS and TOUCH: a key counts as often as it is named. */
  function CountVisible(rows: Rows, now: nat, keys: seq<Bytes>): nat {
    if keys == [] then 0
    else (if Sees(rows, now, UserKey(keys[0])) then 1 else 0) + CountVisible(rows, now, keys[1..])
  }

  /** TTL and PTTL: -2 for no key, -1 for no deadline. */
  function TimeToLive(rows: Rows, now: nat, key: Bytes, unit: int): int
    requires unit > 0
  {
    match Get(rows, now, UserKey(key))
    case None => -2
    case Some(row) => LifeLeft(row.deadline, now, unit)
  }

  function LifeLeft(deadline: nat, now: nat, unit: int): int
    requires unit > 0
  {
    if deadline == 0 then -1 else
    var left := Truncate(Until(deadline, now), unit);
    if left < 0 then -2 else left
  }

  /** TYPE: None stands for "none". */
  function TypeOf(rows: Rows, now: nat, key: Bytes): Option<Bytes> {
    match Look(rows, now, key)
    case Absent => None
    case Cell(_, kind, _) => Some(kind)
  }

  function HGetAll(c: Codec, rows: Rows, now: nat, key: Bytes): Read<map<Bytes, Bytes>> {
    match Look(rows, now, key)
    case Absent => Value(map[])
    case Cell(bytes, kind, _) =>
      if kind != Tag(HashKind) then Error(WrongType) else
      match UnpackHash(c, bytes)
      case None => Error(Corrupt)
      case Some(h) => Value(h)
  }

  function Items(c: Codec, rows: Rows, now: nat, key: Bytes, want: Kind): Read<seq<Bytes>> {
    match Look(rows, now, key)
    case Absent => Value([])
    case Cell(bytes, kind, _) =>
      if kind != Tag(want) then Error(WrongType) else
      match UnpackList(c, bytes)
      case None => Error(Corrupt)
      case Some(l) => Value(l)
  }

  function LRange(c: Codec, rows: Rows, now: nat, key: Bytes, start: int, stop: int): Read<seq<Bytes>> {
    match Items(c, rows, now, key, ListKind)
    case Error(fault) => Error(fault)
    case Value(l) => Value(Slice(l, start, stop))
  }

  function LIndex(c: Codec, rows: Rows, now: nat, key: Bytes, index: int): Read<Option<Bytes>> {
    match LRange(c, rows, now, key, 0, -1)
    case Error(fault) => Error(fault)
    case Value(l) =>
      var i := FromEnd(index, |l|);
      Value(if i < 0 || i >= |l| then None else Some(l[i]))
  }

  function SMembers(c: Codec, rows: Rows, now: nat, key: Bytes): Read<seq<Bytes>> {
    Items(c, rows, now, key, SetKind)
  }

  // The typed map.

  function TypedKind(value: T.Value): Kind {
    match value
    case Str(_) => StringKind
    case Hash(_) => HashKind
    case List(_) => ListKind
    case Members(_) => SetKind
  }

  function StringOf(entry: Option<T.Entry>): Read<Option<Bytes>> {
    if entry.None? then Value(None)
    else if entry.value.value.Str? then Value(Some(entry.value.value.bytes))
    else Error(WrongType)
  }

  function HashOf(entry: Option<T.Entry>): Read<map<Bytes, Bytes>> {
    if entry.None? then Value(map[])
    else if entry.value.value.Hash? then Value(entry.value.value.fields)
    else Error(WrongType)
  }

  function ListOf(entry: Option<T.Entry>): Read<seq<Bytes>> {
    if entry.None? then Value([])
    else if entry.value.value.List? then Value(entry.value.value.items)
    else Error(WrongType)
  }

  function SetOf(entry: Option<T.Entry>): Read<set<Bytes>> {
    if entry.None? then Value({})
    else if entry.value.value.Members? then Value(entry.value.value.members)
    else Error(WrongType)
  }

  // Agreement.

  /** GET, MGET of a string, EXISTS, TYPE, TTL and PTTL. */
  lemma KeyReadsAgree(c: Codec, rows: Rows, db: T.Db, now: nat, key: Bytes, unit: int)
    requires InStep(c, rows, db, now, key) && unit > 0
    ensures var entry := T.Lookup(db, now, key);
            && GetString(rows, now, key) == StringOf(entry)
            && (StringOf(entry).Value? ==> GetRaw(rows, now, key) == StringOf(entry).value)
            && (Sees(rows, now, UserKey(key)) <==> entry.Some?)
            && TypeOf(rows, now, key) == (if entry.None? then None else Some(Tag(TypedKind(entry.value.value))))
            && TimeToLive(rows, now, key, unit)
               == (if entry.None? then -2 else LifeLeft(entry.value.deadline, now, unit))
  {
    KindsDiffer();
  }

  /** HGETALL, and so HGET, HLEN, HEXISTS and HMGET, which look into what it returns. */
  lemma HashReadsAgree(c: Codec, rows: Rows, db: T.Db, now: nat, key: Bytes)
    requires InStep(c, rows, db, now, key)
    ensures HGetAll(c, rows, now, key) == HashOf(T.Lookup(db, now, key))
  {
    KindsDiffer();
  }

  lemma WholeSlice(l: seq<Bytes>)
    ensures Slice(l, 0, -1) == l
  {
  }

  /** LRANGE, LLEN and LINDEX. */
  lemma ListReadsAgree(c: Codec, rows: Rows, db: T.Db, now: nat, key: Bytes, start: int, stop: int)
    requires InStep(c, rows, db, now, key)
    ensures var l := ListOf(T.Lookup(db, now, key));
            && LRange(c, rows, now, key, 0, -1) == l
            && LRange(c, rows, now, key, start, stop)
               == (if l.Value? then Value(Slice(l.value, start, stop)) else Error(WrongType))
  {
    KindsDiffer();
    var l := ListOf(T.Lookup(db, now, key));
    if l.Value? { WholeSlice(l.value); }
  }

  /** SMEMBERS lists each member once, in some order; SCARD is its length, SISMEMBER a scan of it. */
  lemma SetReadsAgree(c: Codec, rows: Rows, db: T.Db, now: nat, key: Bytes)
    requires InStep(c, rows, db, now, key)
    ensures match SetOf(T.Lookup(db, now, key))
            case Error(fault) => SMembers(c, rows, now, key) == Error(fault)
            case Value(s) =>
              var read := SMembers(c, rows, now, key);
              read.Value? && Enumerates(read.value, s) && |read.value| == |s|
  {
    KindsDiffer();
    var read := SMembers(c, rows, now, key);
    if read.Value? && NoDuplicates(read.value) { ToSetSize(read.value); }
  }

  lemma {:induction false} ToSetSize<E>(l: seq<E>)
    requires NoDuplicates(l)
    ensures |ToSet(l)| == |l|
  {
    if l != [] {
      var rest := l[..|l| - 1];
      var x := l[|l| - 1];
      ToSetSize(rest);
      assert x !in rest;
      assert ToSet(l) == ToSet(rest) + {x};
    }
  }

  /** EXISTS of one key is 1 or 0, and of a list the sum of its parts. */
  lemma {:induction false} CountsEachKey(rows: Rows, now: nat, a: seq<Bytes>, b: seq<Bytes>)
    ensures |a| == 1 ==> CountVisible(rows, now, a) == if Sees(rows, now, UserKey(a[0])) then 1 else 0
    ensures CountVisible(rows, now, []) == 0
    ensures CountVisible(rows, now, a + b) == CountVisible(rows, now, a) + CountVisible(rows, now, b)
    decreases |a|
  {
    if a == [] {
      assert a + b == b;
    } else {
      assert (a + b)[1..] == a[1..] + b;
      CountsEachKey(rows, now, a[1..], b);
    }
  }

  /** A value row whose type row is not seen reads as a string. */
  lemma UntypedReadsAsString(rows: Rows, now: nat, key: Bytes)
    requires Sees(rows, now, UserKey(key)) && !Sees(rows, now, TypeKey(key))
    ensures GetString(rows, now, key) == Value(Some(rows[UserKey(key)].value))
    ensures TypeOf(rows, now, key) == Some(Tag(StringKind))
  {
  }

  /** MGET does not ask for the type: a collection reads as its packed bytes. */
  lemma MGetIgnoresTypes(c: Codec, rows: Rows, db: T.Db, now: nat, key: Bytes)
    requires InStep(c, rows, db, now, key)
    ensures var entry, raw := T.Lookup(db, now, key), GetRaw(rows, now, key);
            && (raw.Some? <==> entry.Some?)
            && (entry.Some? ==>
                  match entry.value.value
                  case Str(bytes) => raw.value == bytes
                  case Hash(h) => UnpackHash(c, raw.value) == Some(h)
                  case List(l) => UnpackList(c, raw.value) == Some(l)
                  case Members(s) => UnpackList(c, raw.value).Some? && ToSet(UnpackList(c, raw.value).value) == s)
  {
  }
}
