/** Commands, replies and the two things a replica does not control: the MessagePack codec of
    collections and the iteration order of a Go map. */
module Commands {
  import opened Octets
  import opened Collections

  datatype Op =
    | Set | GetSet | Append | MSet | Del | FlushDb
    | Incr | Decr | IncrBy | DecrBy | Expire | Persist
    | HSet | HSetNx | HDel
    | LPush | RPush | LPushX | RPushX | LPop | RPop | LTrim | LRem
    | SAdd | SRem | SPop
    | Unknown

  datatype Condition = Always | IfAbsent | IfPresent

  datatype Command = Command(
    op: Op, key: Bytes, args: seq<Bytes>, ttlMs: int, condition: Condition, returnOld: bool)

  datatype Reply = Nil | Ok | Int(n: int) | Bulk(bytes: Bytes) | Multi(items: seq<Bytes>) | Ints(ns: seq<int>)

  /** Panic is an index out of range inside a command: only a script can build one that short. */
  datatype Fault = WrongType | NotInteger | BadArity | UnknownOp | Corrupt | NoScript | ScriptError | Panic

  datatype Result = Success(reply: Reply) | Failure(fault: Fault)

  /** The codec: a hash is written in some order of its keys, a list as it is. */
  datatype Codec = Codec(
    packHash: (map<Bytes, Bytes>, seq<Bytes>) -> Bytes,
    unpackHash: Bytes -> Option<map<Bytes, Bytes>>,
    packList: seq<Bytes> -> Bytes,
    unpackList: Bytes -> Option<seq<Bytes>>)

  function PackHash(c: Codec, h: map<Bytes, Bytes>, order: seq<Bytes>): Bytes { c.packHash(h, order) }
  function UnpackHash(c: Codec, b: Bytes): Option<map<Bytes, Bytes>> { c.unpackHash(b) }
  function PackList(c: Codec, l: seq<Bytes>): Bytes { c.packList(l) }
  function UnpackList(c: Codec, b: Bytes): Option<seq<Bytes>> { c.unpackList(b) }

  predicate Enumerates(order: seq<Bytes>, s: set<Bytes>) {
    NoDuplicates(order) && ToSet(order) == s
  }

  /** The one assumption about MessagePack: decoding undoes encoding, whatever the key order. */
  ghost predicate Lawful(c: Codec) {
    && (forall h: map<Bytes, Bytes>, order ::
          Enumerates(order, h.Keys) ==> UnpackHash(c, PackHash(c, h, order)) == Some(h))
    && (forall l :: UnpackList(c, PackList(c, l)) == Some(l))
  }

  /** One transaction's clock reading in nanoseconds and the order it meets map keys in. */
  datatype Env = Env(now: nat, order: set<Bytes> -> seq<Bytes>)

  function Enumerate(env: Env, s: set<Bytes>): seq<Bytes> { env.order(s) }

  ghost predicate Orderly(env: Env) {
    forall s :: Enumerates(Enumerate(env, s), s)
  }
}
