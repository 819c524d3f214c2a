/** The loops of the collection commands, as the source writes them, against the functions of
    module Collections. */
module Loops {
  import opened Octets
  import opened Collections

  lemma PutOneMore(h: map<Bytes, Bytes>, args: seq<Bytes>, i: nat, onlyNew: bool)
    requires i + 2 <= |args| && |args[i..]| % 2 == 0
    ensures var h' := if onlyNew && args[i] in h then h else h[args[i] := args[i + 1]];
            PutAll(h, args[i..], onlyNew) == PutAll(h', args[i + 2..], onlyNew)
  {
    assert args[i..][2..] == args[i + 2..];
  }

  lemma SizeAfterPut<K, V>(h: map<K, V>, field: K, value: V)
    ensures |h[field := value]| == |h| + if field in h then 0 else 1
  {
    assert h[field := value].Keys == h.Keys + {field};
  }

  lemma PutNone(h: map<Bytes, Bytes>, args: seq<Bytes>, onlyNew: bool)
    ensures PutAll(h, args[|args|..], onlyNew) == h && args[0..] == args
  {
  }

  /** The field loop of HSET and HSETNX. */
  method PutFields(h: map<Bytes, Bytes>, args: seq<Bytes>, onlyNew: bool)
    returns (hash: map<Bytes, Bytes>, count: int)
    requires |args| % 2 == 0
    ensures hash == PutAll(h, args, onlyNew)
    ensures count == |hash| - |h|
  {
    hide PutAll;
    hash, count := h, 0;
    var i := 0;
    PutNone(h, args, onlyNew);
    while i < |args|
      invariant 0 <= i <= |args| && i % 2 == 0
      invariant PutAll(hash, args[i..], onlyNew) == PutAll(h, args, onlyNew)
      invariant count == |hash| - |h|
    {
      var field := args[i];
      var ok := field in hash;
      PutOneMore(hash, args, i, onlyNew);
      SizeAfterPut(hash, field, args[i + 1]);
      if !(onlyNew && ok) {
        if !ok { count := count + 1; }
        hash := hash[field := args[i + 1]];
      }
      i := i + 2;
    }
    PutNone(hash, args, onlyNew);
  }

  lemma DropOneMore<K, V>(h: map<K, V>, gone: set<K>, field: K)
    ensures h - (gone + {field}) == (h - gone) - {field}
  {
  }

  lemma DropPresent<K, V>(h: map<K, V>, field: K)
    requires field in h
    ensures |h - {field}| == |h| - 1
  {
    assert (h - {field}).Keys == h.Keys - {field};
  }

  lemma DropAbsent<K, V>(h: map<K, V>, field: K)
    requires field !in h
    ensures h - {field} == h
  {
  }

  /** One turn of the HDEL loop. */
  method DropField(hash: map<Bytes, Bytes>, field: Bytes, count: int)
    returns (hash': map<Bytes, Bytes>, count': int)
    ensures hash' == hash - {field}
    ensures count' + |hash'| == count + |hash|
  {
    if field in hash {
      DropPresent(hash, field);
      return hash - {field}, count + 1;
    } else {
      DropAbsent(hash, field);
      return hash, count;
    }
  }

  lemma OneMore<E>(args: seq<E>, i: nat)
    requires i < |args|
    ensures ToSet(args[..i + 1]) == ToSet(args[..i]) + {args[i]}
  {
    assert args[..i + 1] == args[..i] + [args[i]];
  }

  lemma NoneYet<E>(args: seq<E>)
    ensures ToSet(args[..0]) == {} && args[..|args|] == args
  {
  }

  /** The field loop of HDEL. */
  method DropFields(h: map<Bytes, Bytes>, args: seq<Bytes>) returns (hash: map<Bytes, Bytes>, count: int)
    ensures hash == h - ToSet(args)
    ensures count == |h| - |hash|
  {
    hide ToSet;
    hash, count := h, 0;
    NoneYet(args);
    for i := 0 to |args|
      invariant hash == h - ToSet(args[..i])
      invariant count == |h| - |hash|
    {
      DropOneMore(h, ToSet(args[..i]), args[i]);
      OneMore(args, i);
      hash, count := DropField(hash, args[i], count);
    }
  }

  /** The push loop: every argument in turn goes to its end of the list. */
  method PushEach(start: seq<Bytes>, args: seq<Bytes>, front: bool) returns (list: seq<Bytes>)
    ensures list == Push(start, args, front)
  {
    list := start;
    for i := 0 to |args|
      invariant list == Push(start, args[..i], front)
    {
      assert args[..i + 1] == args[..i] + [args[i]];
      ReverseConcat(args[..i], [args[i]]);
      if front { list := [args[i]] + list; } else { list := list + [args[i]]; }
    }
    assert args[..|args|] == args;
  }

  lemma ReverseByIndex(s: seq<Bytes>, r: seq<Bytes>)
    requires |r| == |s| && forall i :: 0 <= i < |s| ==> r[i] == s[|s| - 1 - i]
    ensures r == Reverse(s)
  {
    forall i | 0 <= i < |s| ensures r[i] == Reverse(s)[i] { ReverseIndex(s, i); }
  }

  /** The index loop that pops from the back. */
  method PopBack(start: seq<Bytes>, count: nat) returns (popped: seq<Bytes>)
    requires count <= |start|
    ensures popped == Reverse(start[|start| - count..])
  {
    popped := [];
    for i := 0 to count
      invariant |popped| == i
      invariant forall j :: 0 <= j < i ==> popped[j] == start[|start| - 1 - j]
    {
      popped := popped + [start[|start| - 1 - i]];
    }
    ReverseByIndex(start[|start| - count..], popped);
  }

  /** The pop block: a copy from the front, or the loop from the back. */
  method PopEach(start: seq<Bytes>, count: nat, front: bool) returns (popped: seq<Bytes>, list: seq<Bytes>)
    requires count <= |start|
    ensures popped == Popped(start, count, front)
    ensures list == AfterPop(start, count, front)
  {
    if front {
      popped, list := start[..count], start[count..];
    } else {
      popped := PopBack(start, count);
      list := start[..|start| - count];
    }
  }

  /** sliceList, bound by bound. */
  method SliceList(list: seq<Bytes>, start: int, stop: int) returns (r: seq<Bytes>)
    ensures r == Slice(list, start, stop)
  {
    if |list| == 0 { return []; }
    var first, last := start, stop;
    if first < 0 { first := |list| + first; }
    if last < 0 { last := |list| + last; }
    if first < 0 { first := 0; }
    if last >= |list| { last := |list| - 1; }
    if first > last || first >= |list| { return []; }
    return list[first..last + 1];
  }

  lemma {:induction false} WithoutFirstSnoc(list: seq<Bytes>, v: Bytes, x: Bytes, n: nat)
    ensures var taken := |list| - |WithoutFirst(list, x, n)|;
            && 0 <= taken
            && WithoutFirst(list + [v], x, n)
               == WithoutFirst(list, x, n) + (if v == x && taken < n then [] else [v])
  {
    if list == [] {
      assert list + [v] == [v] && [v][1..] == [];
    } else {
      assert (list + [v])[1..] == list[1..] + [v];
      if list[0] == x && n > 0 {
        WithoutFirstSnoc(list[1..], v, x, n - 1);
      } else {
        WithoutFirstSnoc(list[1..], v, x, n);
      }
    }
  }

  /** The forward loop of LREM; a limit of 0 is none. */
  method RemoveForwards(list: seq<Bytes>, limit: nat, needle: Bytes) returns (kept: seq<Bytes>, count: int)
    ensures kept == Kept(list, limit, needle)
    ensures count == |list| - |kept|
  {
    kept, count := [], 0;
    ghost var quota := Quota(list, limit);
    for i := 0 to |list|
      invariant kept == WithoutFirst(list[..i], needle, quota)
      invariant 0 <= count == i - |kept|
    {
      var v := list[i];
      assert list[..i + 1] == list[..i] + [v];
      WithoutFirstSnoc(list[..i], v, needle, quota);
      if v == needle && (limit == 0 || count < limit) {
        count := count + 1;
      } else {
        kept := kept + [v];
      }
    }
    assert list[..|list|] == list;
  }

  lemma BackwardStep(back: seq<Bytes>, v: Bytes, needle: Bytes, quota: nat)
    ensures var kept := Reverse(WithoutFirst(back, needle, quota));
            var count := |back| - |kept|;
            Reverse(WithoutFirst(back + [v], needle, quota))
            == if v == needle && count < quota then kept else [v] + kept
  {
    WithoutFirstSnoc(back, v, needle, quota);
    ReverseConcat(WithoutFirst(back, needle, quota), [v]);
    assert Reverse([v]) == [v];
    assert WithoutFirst(back, needle, quota) + [] == WithoutFirst(back, needle, quota);
  }

  lemma ReverseLonger(list: seq<Bytes>, i: nat)
    requires i < |list|
    ensures Reverse(list[i..]) == Reverse(list[i + 1..]) + [list[i]]
  {
    assert list[i..][1..] == list[i + 1..];
  }

  /** The backward loop of LREM: every kept element is put in front. */
  method RemoveBackwards(list: seq<Bytes>, limit: int, needle: Bytes) returns (kept: seq<Bytes>, count: int)
    requires INT64_MIN <= limit < 0
    ensures kept == Kept(list, limit, needle)
    ensures count == |list| - |kept|
  {
    kept, count := [], 0;
    ghost var quota := Quota(list, limit);
    var i := |list| - 1;
    while i >= 0
      invariant -1 <= i < |list|
      invariant kept == Reverse(WithoutFirst(Reverse(list[i + 1..]), needle, quota))
      invariant 0 <= count == |list| - 1 - i - |kept|
    {
      var v := list[i];
      ReverseLonger(list, i);
      BackwardStep(Reverse(list[i + 1..]), v, needle, quota);
      if v == needle && count < Wrap64(-limit) {
        count := count + 1;
      } else {
        kept := [v] + kept;
      }
      i := i - 1;
    }
    assert list[0..] == list;
  }

  /** The member loop of SADD over a Go map used as a set. */
  method AddMembers(start: set<Bytes>, args: seq<Bytes>) returns (s: set<Bytes>, count: int)
    ensures s == start + ToSet(args)
    ensures count == |s| - |start|
  {
    hide ToSet;
    s, count := start, 0;
    NoneYet(args);
    for i := 0 to |args|
      invariant s == start + ToSet(args[..i])
      invariant count == |s| - |start|
    {
      OneMore(args, i);
      if args[i] !in s {
        s := s + {args[i]};
        count := count + 1;
      }
    }
  }

  method RemoveMembers(start: set<Bytes>, args: seq<Bytes>) returns (s: set<Bytes>, count: int)
    ensures s == start - ToSet(args)
    ensures count == |start| - |s|
  {
    hide ToSet;
    s, count := start, 0;
    NoneYet(args);
    for i := 0 to |args|
      invariant s == start - ToSet(args[..i])
      invariant count == |start| - |s|
    {
      OneMore(args, i);
      if args[i] in s {
        s := s - {args[i]};
        count := count + 1;
      }
    }
  }

  /** The SPOP loop: members leave in iteration order until `count` have been taken. */
  method TakeMembers(order: seq<Bytes>, count: int) returns (popped: seq<Bytes>, s: set<Bytes>)
    requires NoDuplicates(order)
    ensures popped == order[..if count <= 0 then 0 else if count >= |order| then |order| else count]
    ensures s == ToSet(order) - ToSet(popped)
  {
    popped, s := [], ToSet(order);
    var i := 0;
    while i < |order| && |popped| < count
      invariant 0 <= i <= |order| && i == |popped|
      invariant i == 0 || i <= count
      invariant popped == order[..i]
      invariant s == ToSet(order) - ToSet(popped)
    {
      assert ToSet(popped + [order[i]]) == ToSet(popped) + {order[i]};
      popped := popped + [order[i]];
      s := s - {order[i]};
      i := i + 1;
    }
  }

  /** The member scan of SISMEMBER. */
  method HasMember(members: seq<Bytes>, member: Bytes) returns (n: int)
    ensures n == if member in members then 1 else 0
  {
    for i := 0 to |members|
      invariant member !in members[..i]
    {
      if members[i] == member { return 1; }
    }
    return 0;
  }
}
