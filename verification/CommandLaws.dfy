/** Command by command, what a client of the typed map is told and what it finds afterwards, in plain terms of
    positions, members and integers. By refinement the rows do the same. */
module CommandLaws {
  import opened Octets
  import opened Decimal
  import opened Collections
  import opened Store
  import opened Commands
  import opened Fsm
  import opened Refinement
  import opened TypeRows
  import opened Readers
  import opened Ledgers
  import opened ListLaws
  import T = Typed

  /** The switch on the command name. */
  lemma Dispatch(env: Env, cur: Option<T.Entry>, cmd: Command)
    ensures T.KeyStep(env, cur, cmd)
            == match cmd.op
               case Set | GetSet | Append => T.StringStep(env, cur, cmd)
               case Incr | Decr | IncrBy | DecrBy => T.CounterStep(env, cur, cmd)
               case Expire => T.ExpireStep(env, cur, cmd)
               case Persist => T.PersistStep(cur)
               case Del => T.LegacyDelStep(cur, cmd)
               case HSet | HSetNx => T.HSetStep(env, cur, cmd)
               case HDel => T.HDelStep(env, cur, cmd)
               case LPush | RPush | LPushX | RPushX => T.PushStep(env, cur, cmd)
               case LPop | RPop => T.PopStep(env, cur, cmd)
               case LTrim => T.TrimStep(env, cur, cmd)
               case LRem => T.RemStep(env, cur, cmd)
               case SAdd => T.SAddStep(env, cur, cmd)
               case SRem => T.SRemStep(env, cur, cmd)
               case SPop => T.SPopStep(env, cur, cmd)
               case _ => T.Refuse(cur, UnknownOp)
  {
    hide T.StringStep, T.CounterStep, T.ExpireStep, T.PersistStep, T.LegacyDelStep, T.HSetStep, T.HDelStep, T.PushStep,
      T.PopStep, T.TrimStep, T.RemStep, T.SAddStep, T.SRemStep, T.SPopStep;
  }

  // Errors.

  /** The type a command insists on. */
  function Wants(op: Op): Option<Kind> {
    match op
    case Set | GetSet | Append | Incr | Decr | IncrBy | DecrBy => Some(StringKind)
    case HSet | HSetNx | HDel => Some(HashKind)
    case LPush | RPush | LPushX | RPushX | LPop | RPop | LTrim | LRem => Some(ListKind)
    case SAdd | SRem | SPop => Some(SetKind)
    case _ => None
  }

  predicate Mistyped(cur: Option<T.Entry>, op: Op) {
    cur.Some? && Wants(op).Some? && TypedKind(cur.value.value) != Wants(op).value
  }

  predicate IsNumber(b: Bytes) { ParseInt(b).Good? }

  /** A number the command needs is not there: the counter's own value, its operand, or the count of a pop. */
  predicate Unreadable(cur: Option<T.Entry>, cmd: Command) {
    match cmd.op
    case Incr | Decr => cur.Some? && cur.value.value.Str? && !IsNumber(cur.value.value.bytes)
    case IncrBy | DecrBy =>
      || (cur.Some? && cur.value.value.Str? && !IsNumber(cur.value.value.bytes))
      || cmd.args == [] || !IsNumber(cmd.args[0])
    case LPop | RPop =>
      && cur.Some? && cur.value.value.List? && cur.value.value.items != []
      && cmd.args != [] && !(IsNumber(cmd.args[0]) && ParseInt(cmd.args[0]).n >= 0)
    case _ => false
  }

  /** A handler-built command fails exactly for a wrong type or for a number it cannot read, and then changes
      nothing. */
  lemma FailuresExactly(env: Env, cur: Option<T.Entry>, cmd: Command)
    requires HandlerBuilt(cmd) && OnOneKey(cmd)
    ensures var v := T.KeyStep(env, cur, cmd);
            if Mistyped(cur, cmd.op) then v == T.Verdict(cur, Failure(WrongType))
            else if Unreadable(cur, cmd) then v == T.Verdict(cur, Failure(NotInteger))
            else v.result.Success?
  {
    hide T.KeyStep, ParseInt, FormatInt, Wrap64, Carried, DeadlineFor, PutAll, Push, Popped, AfterPop, Slice, Kept,
      Taken, Added;
    Dispatch(env, cur, cmd);
  }

  // Strings.

  /** SET, GETSET and APPEND: the answer and the new value. */
  lemma StringAnswers(env: Env, cur: Option<T.Entry>, cmd: Command)
    requires cmd.op in {Set, GetSet, Append} && cmd.args != [] && (cur.Some? ==> cur.value.value.Str?)
    ensures var v := T.KeyStep(env, cur, cmd);
            var before := if cur.Some? then Bulk(cur.value.value.bytes) else Nil;
            var held := cmd.condition == (if cur.Some? then IfAbsent else IfPresent);
            && (held ==> v.entry == cur)
            && (!held ==> v.entry.Some? && v.entry.value.value.Str?)
            && (!held && cmd.op != Append ==> v.entry.value.value.bytes == cmd.args[0])
            && (!held && cmd.op != Append && cmd.ttlMs <= 0 ==> v.entry.value.deadline == 0)
            && (!held && cmd.op == Append ==>
                  && v.entry.value.value.bytes == (if cur.Some? then cur.value.value.bytes else []) + cmd.args[0]
                  && v.result == Success(Int(|v.entry.value.value.bytes|)))
            && (cmd.op == GetSet || (cmd.op == Set && cmd.returnOld) ==> v.result == Success(before))
            && (cmd.op == Set && !cmd.returnOld ==> v.result == Success(if held then Nil else Ok))
  {
    hide T.KeyStep, Carried, Deadline;
    Dispatch(env, cur, cmd);
  }

  /** The counters: the value and the operand as integers, the sum or the difference in 64 bits. */
  lemma CounterAnswers(env: Env, cur: Option<T.Entry>, cmd: Command, m: int, d: int)
    requires cmd.op in {Incr, Decr, IncrBy, DecrBy} && IsInt64(m) && IsInt64(d)
    requires if cur.None? then m == 0 else cur.value.value.Str? && Numeral(cur.value.value.bytes, m)
    requires if cmd.op == Incr || cmd.op == Decr then d == 1 else cmd.args != [] && Numeral(cmd.args[0], d)
    ensures var v := T.KeyStep(env, cur, cmd);
            var n := Wrap64(if cmd.op == Incr || cmd.op == IncrBy then m + d else m - d);
            v.result == Success(Int(n)) && v.entry.Some? && v.entry.value.value == T.Str(FormatInt(n))
  {
    hide T.KeyStep, ParseInt, FormatInt, Wrap64, Numeral, Carried, IsInt64;
    Dispatch(env, cur, cmd);
    if cur.Some? { ParseIsNumeral(cur.value.value.bytes, m); }
    if cmd.args != [] { ParseIsNumeral(cmd.args[0], d); }
  }

  // Deadlines.

  /** EXPIRE and PERSIST answer 1 exactly when they change the deadline of a key, and never touch its value. */
  lemma DeadlineAnswers(env: Env, cur: Option<T.Entry>, cmd: Command)
    requires cmd.op == Expire || cmd.op == Persist
    ensures var v := T.KeyStep(env, cur, cmd);
            var acts := cur.Some? && (cmd.op == Expire || cur.value.deadline != 0);
            && v.result == Success(Int(if acts then 1 else 0))
            && (!acts ==> v.entry == cur)
            && (acts ==>
                  && v.entry.Some? && v.entry.value.value == cur.value.value
                  && v.entry.value.deadline == if cmd.op == Expire then Deadline(env.now, cmd.ttlMs) else 0)
  {
    hide Deadline;
  }

  // Hashes.

  lemma HSetVerdict(env: Env, cur: Option<T.Entry>, cmd: Command, h: map<Bytes, Bytes>)
    requires |cmd.args| % 2 == 0 && EntryIsHash(cur, h)
    ensures var v, h' := T.HSetStep(env, cur, cmd), PutAll(h, cmd.args, cmd.op == HSetNx);
            v.entry.Some? && v.entry.value.value == T.Hash(h') && v.result == Success(Int(|h'| - |h|))
  {
    hide PutAll, Carried;
  }

  lemma PartOf<E>(a: set<E>, b: set<E>)
    requires a <= b
    ensures |b - a| == |b| - |a|
  {
    assert b == a + (b - a);
  }

  /** HSET and HSETNX answer with the number of fields that were not there. */
  lemma HSetAnswers(env: Env, cur: Option<T.Entry>, cmd: Command, h: map<Bytes, Bytes>)
    requires (cmd.op == HSet || cmd.op == HSetNx) && |cmd.args| % 2 == 0 && EntryIsHash(cur, h)
    ensures var v, h' := T.KeyStep(env, cur, cmd), PutAll(h, cmd.args, cmd.op == HSetNx);
            && v.entry.Some? && v.entry.value.value == T.Hash(h')
            && h'.Keys == h.Keys + (set i | 0 <= i < |cmd.args| && i % 2 == 0 :: cmd.args[i])
            && v.result == Success(Int(|h'.Keys - h.Keys|))
  {
    hide T.KeyStep, T.HSetStep, PutAll, EntryIsHash;
    Dispatch(env, cur, cmd);
    HSetVerdict(env, cur, cmd, h);
    PutAllKeys(h, cmd.args, cmd.op == HSetNx);
    PartOf(h.Keys, PutAll(h, cmd.args, cmd.op == HSetNx).Keys);
  }

  lemma HDelVerdict(env: Env, cur: Option<T.Entry>, cmd: Command, h: map<Bytes, Bytes>)
    requires EntryIsHash(cur, h)
    ensures var v, h' := T.HDelStep(env, cur, cmd), h - ToSet(cmd.args);
            EntryIsHash(v.entry, h') && (v.entry.Some? ==> h' != map[]) && v.result == Success(Int(|h| - |h'|))
  {
    hide ToSet, Carried;
    if cur.None? { assert h - ToSet(cmd.args) == map[]; }
  }

  lemma WithoutFields<K, V>(h: map<K, V>, args: seq<K>)
    ensures var h' := h - ToSet(args);
            && (forall f :: f in h' <==> f in h && f !in args) && (forall f :: f in h' ==> h'[f] == h[f])
            && |h.Keys - h'.Keys| == |h| - |h'|
  {
    PartOf((h - ToSet(args)).Keys, h.Keys);
  }

  /** HDEL leaves exactly the fields it does not name and answers with how many of the named ones were there. */
  lemma HDelAnswers(env: Env, cur: Option<T.Entry>, cmd: Command, h: map<Bytes, Bytes>) returns (h': map<Bytes, Bytes>)
    requires cmd.op == HDel && EntryIsHash(cur, h)
    ensures var v := T.KeyStep(env, cur, cmd);
            && EntryIsHash(v.entry, h') && (v.entry.Some? ==> h' != map[])
            && v.result == Success(Int(|h.Keys - h'.Keys|))
    ensures forall f :: f in h' <==> f in h && f !in cmd.args
    ensures forall f :: f in h' ==> h'[f] == h[f]
  {
    hide T.KeyStep, T.HDelStep, ToSet, EntryIsHash;
    h' := h - ToSet(cmd.args);
    Dispatch(env, cur, cmd);
    HDelVerdict(env, cur, cmd, h);
    WithoutFields(h, cmd.args);
  }

  // Lists.

  /** The pushes, by position: the last argument of a push at the front comes first. LPUSHX and RPUSHX do nothing
      without a list. */
  lemma PushAnswers(env: Env, cur: Option<T.Entry>, cmd: Command, l: seq<Bytes>) returns (l': seq<Bytes>)
    requires cmd.op in {LPush, RPush, LPushX, RPushX} && EntryIsList(cur, l)
    ensures var v, n := T.KeyStep(env, cur, cmd), |cmd.args|;
            && EntryIsList(v.entry, l') && v.result == Success(Int(|l'|))
            && if cur.None? && (cmd.op == LPushX || cmd.op == RPushX) then v.entry.None?
               else if cmd.op == RPush || cmd.op == RPushX then l' == l + cmd.args
               else |l'| == n + |l| && l'[n..] == l && forall i :: 0 <= i < n ==> l'[i] == cmd.args[n - 1 - i]
  {
    hide T.KeyStep, Carried;
    Dispatch(env, cur, cmd);
    if cur.None? && (cmd.op == LPushX || cmd.op == RPushX) { return []; }
    l' := Push(l, cmd.args, cmd.op == LPush || cmd.op == LPushX);
    forall i | 0 <= i < |cmd.args| ensures Reverse(cmd.args)[i] == cmd.args[|cmd.args| - 1 - i] {
      ReverseIndex(cmd.args, i);
    }
  }

  /** The first k elements from the front, or from the back, one after the other. */
  predicate PoppedOff(out: seq<Bytes>, l: seq<Bytes>, k: nat, front: bool)
    requires k <= |l|
  {
    |out| == k && forall i :: 0 <= i < k ==> out[i] == if front then l[i] else l[|l| - 1 - i]
  }

  /** The pops, by position: as many as the count says, one without a count, but no more than there are. */
  lemma PopAnswers(env: Env, cur: Option<T.Entry>, cmd: Command, l: seq<Bytes>, n: nat)
    requires (cmd.op == LPop || cmd.op == RPop) && EntryIsList(cur, l) && l != []
    requires if cmd.args == [] then n == 1 else Numeral(cmd.args[0], n) && IsInt64(n)
    ensures var r := T.KeyStep(env, cur, cmd).result;
            r.Success? && if cmd.args == [] then r.reply.Bulk? else r.reply.Multi?
    ensures PoppedOff(PoppedItems(T.KeyStep(env, cur, cmd).result), l, Min(n, |l|), cmd.op == LPop)
    ensures var entry, k := T.KeyStep(env, cur, cmd).entry, Min(n, |l|);
            EntryIsList(entry, if cmd.op == LPop then l[k..] else l[..|l| - k]) && (entry.None? <==> k == |l|)
  {
    hide T.KeyStep, T.PopStep, PopCount, Numeral, Popped, PopSize, PoppedItems, EntryIsList;
    var k, front := Min(n, |l|), cmd.op == LPop;
    Dispatch(env, cur, cmd);
    CountRead(l, cmd.args, n);
    PopVerdict(env, cur, cmd, l);
    PopReply(env, cur, cmd, l);
    PoppedAt(l, k, front);
    var v := T.KeyStep(env, cur, cmd);
    assert PoppedItems(v.result) == Popped(l, k, front) && EntryIsList(v.entry, AfterPop(l, k, front));
    assert AfterPop(l, k, front) == if cmd.op == LPop then l[k..] else l[..|l| - k];
  }

  lemma CountRead(l: seq<Bytes>, args: seq<Bytes>, n: nat)
    requires l != [] && if args == [] then n == 1 else Numeral(args[0], n) && IsInt64(n)
    ensures PopCount(args) == Some(n) && PopSize(l, args) == Min(n, |l|)
  {
    if args != [] { ParseIsNumeral(args[0], n); }
    hide ParseInt, Numeral;
  }

  lemma PopReply(env: Env, cur: Option<T.Entry>, cmd: Command, l: seq<Bytes>)
    requires EntryIsList(cur, l) && l != [] && PopCount(cmd.args).Some?
    ensures var v := T.PopStep(env, cur, cmd);
            && v.result.Success? && (if cmd.args == [] then v.result.reply.Bulk? else v.result.reply.Multi?)
            && (v.entry.None? <==> PopSize(l, cmd.args) == |l|)
  {
    hide PopCount, Carried, Popped;
  }

  lemma PoppedAt(l: seq<Bytes>, k: nat, front: bool)
    requires k <= |l|
    ensures PoppedOff(Popped(l, k, front), l, k, front)
  {
    if !front {
      forall i | 0 <= i < k ensures Popped(l, k, front)[i] == l[|l| - 1 - i] { ReverseIndex(l[|l| - k..], i); }
    }
  }

  /** LTRIM leaves the positions within its bounds. */
  lemma TrimAnswers(env: Env, cur: Option<T.Entry>, cmd: Command, l: seq<Bytes>, a: int, b: int)
    returns (from: nat, to: nat)
    requires cmd.op == LTrim && EntryIsList(cur, l) && |cmd.args| == 2 && IsInt64(a) && IsInt64(b)
    requires Numeral(cmd.args[0], a) && Numeral(cmd.args[1], b)
    ensures from <= to <= |l| && forall i: nat :: i < |l| ==> (from <= i < to <==> Within(i, |l|, a, b))
    ensures var v := T.KeyStep(env, cur, cmd);
            v.result == Success(Ok) && EntryIsList(v.entry, l[from..to]) && (v.entry.None? <==> from == to)
  {
    hide T.KeyStep, Atoi, Numeral, Slice, Carried;
    AtoiClamps(cmd.args[0], a);
    AtoiClamps(cmd.args[1], b);
    from, to := SliceExactly(l, a, b);
    Dispatch(env, cur, cmd);
  }

  /** LREM answers with the number of copies it took: all of them for 0, otherwise up to the limit. */
  lemma RemAnswers(env: Env, cur: Option<T.Entry>, cmd: Command, l: seq<Bytes>, limit: int)
    requires cmd.op == LRem && EntryIsList(cur, l) && |cmd.args| == 2
    requires Numeral(cmd.args[0], limit) && INT64_MIN < limit <= INT64_MAX
    ensures var v, x := T.KeyStep(env, cur, cmd), cmd.args[1];
            && EntryIsList(v.entry, Kept(l, limit, x)) && (v.entry.None? <==> Kept(l, limit, x) == [])
            && v.result == Success(Int(if limit == 0 then Count(l, x)
                                       else Min(if limit > 0 then limit else -limit, Count(l, x))))
  {
    hide T.KeyStep, Atoi, Numeral, Kept, Carried, Count, Min;
    AtoiClamps(cmd.args[0], limit);
    RemCounts(l, limit, cmd.args[1]);
    Dispatch(env, cur, cmd);
  }

  lemma RemCounts(l: seq<Bytes>, limit: int, x: Bytes)
    requires INT64_MIN < limit <= INT64_MAX
    ensures |l| - |Kept(l, limit, x)|
            == if limit == 0 then Count(l, x) else Min(if limit > 0 then limit else -limit, Count(l, x))
  {
    hide Kept, Count, Min;
    if limit > 0 {
      RemFromFront(l, limit, x);
    } else if limit == 0 {
      RemAll(l, x);
    } else {
      RemFromBack(l, limit, x);
    }
  }

  // Sets.

  lemma WithMembers<E>(s: set<E>, args: seq<E>)
    ensures var more, less := s + ToSet(args), s - ToSet(args);
            && (forall x :: x in more <==> x in s || x in args) && |more - s| == |more| - |s|
            && (forall x :: x in less <==> x in s && x !in args) && |s - less| == |s| - |less|
  {
    PartOf(s, s + ToSet(args));
    PartOf(s - ToSet(args), s);
  }

  lemma SRemDrops(env: Env, cur: Option<T.Entry>, cmd: Command)
    ensures var v := T.SRemStep(env, cur, cmd);
            v.result.Success? && v.entry.Some? ==> v.entry.value.value != T.Members({})
    ensures var v := T.SAddStep(env, cur, cmd); v.result.Success? ==> v.entry.Some?
  {
    hide ToSet, Carried;
  }

  /** SADD answers with the number of members that were not there. */
  lemma SAddAnswers(env: Env, cur: Option<T.Entry>, cmd: Command, s: set<Bytes>) returns (s': set<Bytes>)
    requires cmd.op == SAdd && EntryIsSet(cur, s)
    ensures var v := T.KeyStep(env, cur, cmd);
            v.entry.Some? && v.entry.value.value == T.Members(s') && v.result == Success(Int(|s' - s|))
    ensures forall x :: x in s' <==> x in s || x in cmd.args
  {
    hide T.KeyStep, T.SAddStep, T.SRemStep, ToSet;
    s' := s + ToSet(cmd.args);
    Dispatch(env, cur, cmd);
    SizeStep(env, cur, cmd, s);
    SRemDrops(env, cur, cmd);
    WithMembers(s, cmd.args);
  }

  /** SREM answers with the number of members it took, and drops an emptied set. */
  lemma SRemAnswers(env: Env, cur: Option<T.Entry>, cmd: Command, s: set<Bytes>) returns (s': set<Bytes>)
    requires cmd.op == SRem && EntryIsSet(cur, s)
    ensures var v := T.KeyStep(env, cur, cmd);
            EntryIsSet(v.entry, s') && (v.entry.Some? ==> s' != {}) && v.result == Success(Int(|s - s'|))
    ensures forall x :: x in s' <==> x in s && x !in cmd.args
  {
    hide T.KeyStep, T.SAddStep, T.SRemStep, ToSet;
    s' := s - ToSet(cmd.args);
    Dispatch(env, cur, cmd);
    SizeStep(env, cur, cmd, s);
    SRemDrops(env, cur, cmd);
    WithMembers(s, cmd.args);
  }

  // Several keys.

  /** DEL answers with the number of different keys it found, and leaves the others. */
  lemma DelAnswers(env: Env, db: T.Db, cmd: Command, key: Bytes, now: nat)
    requires cmd.op == Del && cmd.args != []
    ensures var o := T.Apply(env, db, cmd);
            && o.result == Success(Int(|set k | k in cmd.args && T.Lookup(db, env.now, k).Some?|))
            && T.Lookup(o.db, now, key) == if key in cmd.args then None else T.Lookup(db, now, key)
  {
  }

  lemma FlushAnswers(env: Env, db: T.Db, cmd: Command, key: Bytes, now: nat)
    requires cmd.op == FlushDb
    ensures var o := T.Apply(env, db, cmd); o.result == Success(Ok) && T.Lookup(o.db, now, key) == None
  {
  }

  /** MSET takes pairs only, and leaves the keys it does not name. */
  lemma MSetAnswers(env: Env, db: T.Db, cmd: Command, key: Bytes, now: nat)
    requires cmd.op == MSet
    ensures var o := T.Apply(env, db, cmd);
            if |cmd.args| % 2 != 0 then o == T.Outcome(db, Failure(BadArity))
            else
              && o.result == Success(Ok)
              && ((forall i :: 0 <= i < |cmd.args| && i % 2 == 0 ==> cmd.args[i] != key) ==>
                    T.Lookup(o.db, now, key) == T.Lookup(db, now, key))
  {
    if |cmd.args| % 2 == 0 { PutStringsFrame(db, cmd.args, key); }
  }

  lemma {:induction false} PutStringsFrame(db: T.Db, pairs: seq<Bytes>, key: Bytes)
    requires |pairs| % 2 == 0
    ensures (forall i :: 0 <= i < |pairs| && i % 2 == 0 ==> pairs[i] != key) ==>
              var db' := T.PutStrings(db, pairs);
              (key in db' <==> key in db) && (key in db ==> db'[key] == db[key])
    decreases |pairs|
  {
    if pairs != [] {
      var rest := pairs[2..];
      PutStringsFrame(db[pairs[0] := T.Entry(T.Str(pairs[1]), 0)], rest, key);
      assert forall i :: 0 <= i < |rest| ==> rest[i] == pairs[i + 2];
    }
  }
}
