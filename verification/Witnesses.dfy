/** The hypotheses of the theorems can be met: a lawful codec, a lawful log codec and an orderly environment. */
module Witnesses {
  import opened Octets
  import opened Collections
  import opened Commands
  import opened RaftLog

  /** A string with a 1 before every byte and a 0 at the end. */
  function Marked(b: Bytes): Bytes { if b == [] then [0] else [1, b[0]] + Marked(b[1..]) }

  function Pack(l: seq<Bytes>): Bytes { if l == [] then [] else Marked(l[0]) + Pack(l[1..]) }

  /** Reading marked strings back, with the bytes of the current one so far. */
  function Unpack(b: Bytes, sofar: Bytes): Option<seq<Bytes>>
    decreases |b|
  {
    if b == [] then (if sofar == [] then Some([]) else None)
    else if b[0] == 0 then
      match Unpack(b[1..], []) { case None => None case Some(l) => Some([sofar] + l) }
    else if |b| == 1 then None
    else Unpack(b[2..], sofar + [b[1]])
  }

  lemma {:induction false} UnpackMarked(b: Bytes, rest: Bytes, sofar: Bytes)
    ensures Unpack(Marked(b) + rest, sofar)
            == match Unpack(rest, []) { case None => None case Some(l) => Some([sofar + b] + l) }
  {
    var all := Marked(b) + rest;
    if b == [] {
      assert all[1..] == rest && sofar + b == sofar;
    } else {
      assert all[2..] == Marked(b[1..]) + rest;
      UnpackMarked(b[1..], rest, sofar + [b[0]]);
      assert sofar + [b[0]] + b[1..] == sofar + b;
    }
  }

  lemma {:induction false} UnpackPack(l: seq<Bytes>)
    ensures Unpack(Pack(l), []) == Some(l)
  {
    if l != [] {
      UnpackPack(l[1..]);
      UnpackMarked(l[0], Pack(l[1..]), []);
      assert [] + l[0] == l[0] && [l[0]] + l[1..] == l;
    }
  }

  /** The fields and values of a hash in a given order. */
  function Flat(h: map<Bytes, Bytes>, order: seq<Bytes>): seq<Bytes> {
    if order == [] then []
    else (if order[0] in h then [order[0], h[order[0]]] else []) + Flat(h, order[1..])
  }

  function Paired(l: seq<Bytes>): Option<map<Bytes, Bytes>>
    decreases |l|
  {
    if l == [] then Some(map[])
    else if |l| == 1 then None
    else match Paired(l[2..]) { case None => None case Some(h) => Some(h[l[0] := l[1]]) }
  }

  lemma {:induction false} PairedFlat(h: map<Bytes, Bytes>, order: seq<Bytes>)
    requires NoDuplicates(order) && ToSet(order) <= h.Keys
    ensures Paired(Flat(h, order)) == Some(map k | k in ToSet(order) :: h[k])
  {
    if order == [] {
      assert ToSet(order) == {};
    } else {
      var k0, rest := order[0], order[1..];
      assert k0 in ToSet(order) && ToSet(order) == {k0} + ToSet(rest);
      PairedFlat(h, rest);
      assert Flat(h, order) == [k0, h[k0]] + Flat(h, rest);
      assert Flat(h, order)[2..] == Flat(h, rest);
      assert (map k | k in ToSet(rest) :: h[k])[k0 := h[k0]] == map k | k in ToSet(order) :: h[k];
    }
  }

  function UnpackMap(b: Bytes): Option<map<Bytes, Bytes>> {
    match Unpack(b, []) case None => None case Some(l) => Paired(l)
  }

  lemma LawfulCodecExists() returns (c: Codec)
    ensures Lawful(c)
  {
    c := Codec((h, order) => Pack(Flat(h, order)), b => UnpackMap(b), l => Pack(l), b => Unpack(b, []));
    forall h: map<Bytes, Bytes>, order | Enumerates(order, h.Keys)
      ensures UnpackHash(c, PackHash(c, h, order)) == Some(h)
    {
      UnpackPack(Flat(h, order));
      PairedFlat(h, order);
      assert (map k | k in ToSet(order) :: h[k]) == h;
    }
    forall l ensures UnpackList(c, PackList(c, l)) == Some(l) { UnpackPack(l); }
  }

  function Zeros(n: nat): Bytes { seq(n, _ => 0) }

  function UnpackLogBytes(b: Bytes): Option<Log> {
    match Unpack(b, [])
    case None => None
    case Some(l) => if |l| == 4 then Some(Log(|l[0]|, |l[1]|, |l[2]|, l[3])) else None
  }

  lemma LawfulLogCodecExists() returns (c: LogCodec)
    ensures LawfulLog(c)
  {
    c := LogCodec((log: Log) => Pack([Zeros(log.index), Zeros(log.term), Zeros(log.kind), log.data]),
                  b => UnpackLogBytes(b));
    forall log ensures UnpackLog(c, PackLog(c, log)) == Some(log) {
      UnpackPack([Zeros(log.index), Zeros(log.term), Zeros(log.kind), log.data]);
    }
  }

  /** Some enumeration of a set. */
  ghost function Listed(s: set<Bytes>): (l: seq<Bytes>)
    ensures Enumerates(l, s)
    decreases |s|
  {
    if s == {} then []
    else
      var x :| x in s;
      var rest := Listed(s - {x});
      assert x !in ToSet(rest) && ToSet([x] + rest) == {x} + ToSet(rest) by { ListedFront(x, rest); }
      [x] + rest
  }

  lemma ListedFront(x: Bytes, rest: seq<Bytes>)
    ensures x in ToSet(rest) <==> x in rest
    ensures ToSet([x] + rest) == {x} + ToSet(rest)
  {
  }

  lemma OrderlyEnvExists(now: nat) returns (env: Env)
    ensures Orderly(env) && env.now == now
  {
    env := Env(now, s => Listed(s));
  }
}
