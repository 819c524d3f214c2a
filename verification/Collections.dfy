/** What the loops of the collection commands compute, as functions on values. */
module Collections {
  import opened Octets

  predicate NoDuplicates<T(==)>(s: seq<T>) {
    forall i, j :: 0 <= i < j < |s| ==> s[i] != s[j]
  }

  function ToSet<T>(s: seq<T>): set<T> { set x | x in s }

  function Reverse<T>(s: seq<T>): (r: seq<T>)
    ensures |r| == |s|
  {
    if s == [] then [] else Reverse(s[1..]) + [s[0]]
  }

  lemma {:induction false} ReverseIndex<T>(s: seq<T>, i: nat)
    requires i < |s|
    ensures Reverse(s)[i] == s[|s| - 1 - i]
  {
    if i < |s| - 1 { ReverseIndex(s[1..], i); }
  }

  lemma {:induction false} ReverseConcat<T>(a: seq<T>, b: seq<T>)
    ensures Reverse(a + b) == Reverse(b) + Reverse(a)
  {
    if a == [] {
      assert a + b == b;
    } else {
      assert (a + b)[1..] == a[1..] + b;
      ReverseConcat(a[1..], b);
    }
  }

  lemma {:induction false} ReverseReverse<T>(s: seq<T>)
    ensures Reverse(Reverse(s)) == s
  {
    if s != [] {
      ReverseConcat(Reverse(s[1..]), [s[0]]);
      assert Reverse([s[0]]) == [s[0]];
      ReverseReverse(s[1..]);
    }
  }

  /** How many members `args` adds to a set. */
  function Added(old_: set<Bytes>, args: seq<Bytes>): int { |old_ + ToSet(args)| - |old_| }

  /** HSET and HSETNX: the field/value pairs applied left to right. */
  function PutAll(h: map<Bytes, Bytes>, pairs: seq<Bytes>, onlyNew: bool): map<Bytes, Bytes>
    requires |pairs| % 2 == 0
    decreases |pairs|
  {
    if pairs == [] then h
    else if onlyNew && pairs[0] in h then PutAll(h, pairs[2..], onlyNew)
    else PutAll(h[pairs[0] := pairs[1]], pairs[2..], onlyNew)
  }

  lemma {:induction false} PutAllKeys(h: map<Bytes, Bytes>, pairs: seq<Bytes>, onlyNew: bool)
    requires |pairs| % 2 == 0
    ensures PutAll(h, pairs, onlyNew).Keys == h.Keys + set i | 0 <= i < |pairs| && i % 2 == 0 :: pairs[i]
    decreases |pairs|
  {
    if pairs != [] {
      var h' := if onlyNew && pairs[0] in h then h else h[pairs[0] := pairs[1]];
      var rest := pairs[2..];
      PutAllKeys(h', rest, onlyNew);
      assert h'.Keys == h.Keys + {pairs[0]};
      var fields := set i | 0 <= i < |pairs| && i % 2 == 0 :: pairs[i];
      var others := set i | 0 <= i < |rest| && i % 2 == 0 :: rest[i];
      forall f | f in fields ensures f in {pairs[0]} + others {
        var i :| 0 <= i < |pairs| && i % 2 == 0 && pairs[i] == f;
        if i > 0 { assert rest[i - 2] == f; }
      }
      forall f | f in others ensures f in fields {
        var i :| 0 <= i < |rest| && i % 2 == 0 && rest[i] == f;
        assert pairs[i + 2] == f;
      }
    }
  }

  lemma PutAllGrows(h: map<Bytes, Bytes>, pairs: seq<Bytes>, onlyNew: bool)
    requires |pairs| % 2 == 0
    ensures |PutAll(h, pairs, onlyNew)| >= |h|
    ensures pairs != [] ==> PutAll(h, pairs, onlyNew) != map[]
  {
    PutAllKeys(h, pairs, onlyNew);
    var h' := PutAll(h, pairs, onlyNew);
    SubsetCardinality(h.Keys, h'.Keys);
    if pairs != [] { assert pairs[0] in h'.Keys; }
  }

  lemma {:induction false} SubsetCardinality<T>(a: set<T>, b: set<T>)
    requires a <= b
    ensures |a| <= |b|
  {
    assert b == a + (b - a);
  }

  /** The list a push leaves: each argument goes to the front, or each to the back. */
  function Push(list: seq<Bytes>, args: seq<Bytes>, front: bool): seq<Bytes> {
    if front then Reverse(args) + list else list + args
  }

  /** What `n` pops take off one end, in the order they come off, and what they leave. */
  function Popped(list: seq<Bytes>, n: nat, front: bool): seq<Bytes>
    requires n <= |list|
  {
    if front then list[..n] else Reverse(list[|list| - n..])
  }

  function AfterPop(list: seq<Bytes>, n: nat, front: bool): seq<Bytes>
    requires n <= |list|
  {
    if front then list[n..] else list[..|list| - n]
  }

  /** The inclusive range of a Redis list: negative bounds count from the end. */
  function FromEnd(i: int, length: nat): int { if i < 0 then length + i else i }

  function Slice(list: seq<Bytes>, start: int, stop: int): seq<Bytes> {
    var lo := FromEnd(start, |list|);
    var hi := FromEnd(stop, |list|);
    var first := if lo < 0 then 0 else lo;
    var last := if hi >= |list| then |list| - 1 else hi;
    if first > last then [] else list[first..last + 1]
  }

  function Count(list: seq<Bytes>, x: Bytes): nat {
    if list == [] then 0 else (if list[0] == x then 1 else 0) + Count(list[1..], x)
  }

  /** `list` without its first `n` copies of `x`. */
  function WithoutFirst(list: seq<Bytes>, x: Bytes, n: nat): seq<Bytes> {
    if list == [] then []
    else if list[0] == x && n > 0 then WithoutFirst(list[1..], x, n - 1)
    else [list[0]] + WithoutFirst(list[1..], x, n)
  }

  /** How many copies LREM is allowed to take: the negation of the limit is a 64-bit one, so
      the least integer asks for a negative number of copies, which is none. */
  function Quota(list: seq<Bytes>, limit: int): nat {
    if limit == 0 then |list|
    else if limit > 0 then limit
    else var n := Wrap64(-limit); if n < 0 then 0 else n
  }

  function Kept(list: seq<Bytes>, limit: int, x: Bytes): seq<Bytes> {
    if limit >= 0 then WithoutFirst(list, x, Quota(list, limit))
    else Reverse(WithoutFirst(Reverse(list), x, Quota(list, limit)))
  }
}
