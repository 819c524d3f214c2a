/** Laws of the list commands: queues and stacks over whole runs, LREM, and ranges. */
module ListLaws {
  import opened Octets
  import opened Decimal
  import opened Collections
  import opened Store
  import opened Commands
  import opened Fsm
  import opened Refinement
  import opened Readers
  import opened Lifetimes
  import T = Typed

  /** The typed map holds the list `l` under the key, with whatever deadline; the empty list may be no key. */
  predicate HoldsList(db: T.Db, key: Bytes, l: seq<Bytes>) {
    EntryIsList(if key in db then Some(db[key]) else None, l)
  }

  predicate EntryIsList(cur: Option<T.Entry>, l: seq<Bytes>) {
    if cur.None? then l == [] else cur.value.value == T.List(l)
  }

  // Queues.

  /** What one answer took off the list. */
  function PoppedItems(r: Result): seq<Bytes> {
    match r
    case Success(Multi(items)) => items
    case Success(Bulk(b)) => [b]
    case _ => []
  }

  /** The list as its popping end sees it. */
  function View(l: seq<Bytes>, front: bool): seq<Bytes> { if front then l else Reverse(l) }

  predicate IsPop(cmd: Command, front: bool) { cmd.op == if front then LPop else RPop }
  predicate IsPush(cmd: Command, front: bool) { cmd.op == if front then LPush else RPush }

  /** A queue popped at one end and pushed at the other. */
  predicate QueueCommand(cmd: Command, key: Bytes, front: bool) {
    cmd.key == key && (IsPop(cmd, front) || IsPush(cmd, !front))
  }

  function PushedBy(cmd: Command, front: bool): seq<Bytes> { if IsPush(cmd, !front) then cmd.args else [] }

  function PoppedBy(cmd: Command, result: Result, front: bool): seq<Bytes> {
    if IsPop(cmd, front) then PoppedItems(result) else []
  }

  function TotalPushed(steps: seq<Step>, front: bool): seq<Bytes> {
    if steps == [] then [] else PushedBy(steps[0].cmd, front) + TotalPushed(steps[1..], front)
  }

  function TotalPopped(steps: seq<Step>, results: seq<Result>, front: bool): seq<Bytes>
    requires |steps| == |results|
  {
    if steps == [] then []
    else PoppedBy(steps[0].cmd, results[0], front) + TotalPopped(steps[1..], results[1..], front)
  }

  lemma PushAtFarEnd(l: seq<Bytes>, args: seq<Bytes>, front: bool)
    ensures View(Push(l, args, !front), front) == View(l, front) + args
  {
    if !front {
      ReverseConcat(Reverse(args), l);
      ReverseReverse(args);
    }
  }

  lemma PopAtNearEnd(l: seq<Bytes>, n: nat, front: bool)
    requires n <= |l|
    ensures Popped(l, n, front) + View(AfterPop(l, n, front), front) == View(l, front)
  {
    if front {
      assert l[..n] + l[n..] == l;
    } else {
      assert l == l[..|l| - n] + l[|l| - n..];
      ReverseConcat(l[..|l| - n], l[|l| - n..]);
    }
  }

  lemma PushVerdict(env: Env, cur: Option<T.Entry>, cmd: Command, l: seq<Bytes>)
    requires EntryIsList(cur, l) && (cmd.op == LPush || cmd.op == RPush)
    ensures EntryIsList(T.PushStep(env, cur, cmd).entry, Push(l, cmd.args, cmd.op == LPush))
  {
  }

  /** How many elements a pop takes: none from an empty list or on a count it refuses. */
  function PopSize(l: seq<Bytes>, args: seq<Bytes>): (n: nat)
    ensures n <= |l|
  {
    if l == [] || PopCount(args).None? then 0
    else if PopCount(args).value > |l| then |l| else PopCount(args).value
  }

  lemma PopVerdict(env: Env, cur: Option<T.Entry>, cmd: Command, l: seq<Bytes>)
    requires EntryIsList(cur, l) && (cmd.op == LPop || cmd.op == RPop)
    ensures var v, n := T.PopStep(env, cur, cmd), PopSize(l, cmd.args);
            && EntryIsList(v.entry, AfterPop(l, n, cmd.op == LPop))
            && PoppedItems(v.result) == Popped(l, n, cmd.op == LPop)
  {
    var n := PopSize(l, cmd.args);
    if n == 0 {
      assert l[0..] == l && l[..|l|] == l && l[|l|..] == [];
    } else if cmd.args == [] {
      assert |Popped(l, 1, cmd.op == LPop)| == 1;
    }
  }

  lemma TypedKeyCommand(env: Env, db: T.Db, cmd: Command)
    requires FamilyOf(cmd.op) == Pushes || FamilyOf(cmd.op) == Pops
    ensures var cur := T.Lookup(db, env.now, cmd.key);
            var v := if FamilyOf(cmd.op) == Pushes then T.PushStep(env, cur, cmd) else T.PopStep(env, cur, cmd);
            T.Apply(env, db, cmd) == T.Outcome(T.Assign(db, cmd.key, v.entry), v.result)
  {
  }

  /** What is left of the list when the clock reads `now`. */
  function Surviving(db: T.Db, now: nat, key: Bytes, l: seq<Bytes>): seq<Bytes> {
    if T.Lookup(db, now, key).Some? then l else []
  }

  lemma SurvivingSize(db: T.Db, now: nat, key: Bytes, l: seq<Bytes>)
    requires HoldsList(db, key, l)
    ensures |Surviving(db, now, key, l)| + Loss(db, now, key) == |l|
    ensures Loss(db, now, key) == 0 ==> Surviving(db, now, key, l) == l
    ensures EntryIsList(T.Lookup(db, now, key), Surviving(db, now, key, l))
  {
  }

  /** One queue command: what it pops comes off the near end, what it pushes joins the far end. */
  lemma QueueStep(env: Env, db: T.Db, cmd: Command, key: Bytes, front: bool, l: seq<Bytes>) returns (l': seq<Bytes>)
    requires QueueCommand(cmd, key, front) && HoldsList(db, key, l)
    ensures HoldsList(T.Apply(env, db, cmd).db, key, l')
    ensures PoppedBy(cmd, T.Apply(env, db, cmd).result, front) + View(l', front)
            == View(Surviving(db, env.now, key, l), front) + PushedBy(cmd, front)
  {
    hide T.PushStep, T.PopStep, T.Apply, Push, Popped, AfterPop, PopSize, View, Surviving, Loss;
    var cur, left := T.Lookup(db, env.now, key), Surviving(db, env.now, key, l);
    SurvivingSize(db, env.now, key, l);
    TypedKeyCommand(env, db, cmd);
    if IsPush(cmd, !front) {
      l' := Push(left, cmd.args, !front);
      PushVerdict(env, cur, cmd, left);
      PushAtFarEnd(left, cmd.args, front);
    } else {
      var n := PopSize(left, cmd.args);
      l' := AfterPop(left, n, front);
      PopVerdict(env, cur, cmd, left);
      PopAtNearEnd(left, n, front);
    }
  }

  /** The law of a queue over a run, with what lapsed on the account. */
  predicate QueueAccount(popped: seq<Bytes>, left: seq<Bytes>, before: seq<Bytes>, pushed: seq<Bytes>, lost: nat) {
    |popped| + |left| + lost == |before| + |pushed| && (lost == 0 ==> popped + left == before + pushed)
  }

  lemma {:induction false} TypedQueueRun(steps: seq<Step>, db: T.Db, end: nat, key: Bytes, front: bool, l: seq<Bytes>)
    returns (l': seq<Bytes>)
    requires HoldsList(db, key, l)
    requires forall i :: 0 <= i < |steps| ==> QueueCommand(steps[i].cmd, key, front)
    ensures EntryIsList(T.Lookup(T.Run(db, steps), end, key), l')
    ensures QueueAccount(TotalPopped(steps, T.Results(db, steps), front), View(l', front),
                         View(l, front), TotalPushed(steps, front), Lost(db, steps, end, key))
    decreases |steps|
  {
    if steps == [] {
      l' := Surviving(db, end, key, l);
      SurvivingSize(db, end, key, l);
    } else {
      var env, cmd, rest := steps[0].env, steps[0].cmd, steps[1..];
      var o := T.Apply(env, db, cmd);
      var mid := QueueStep(env, db, cmd, key, front, l);
      l' := TypedQueueRun(rest, o.db, end, key, front, mid);
      assert T.Results(db, steps)[1..] == T.Results(o.db, rest) && T.Run(db, steps) == T.Run(o.db, rest);
      SurvivingSize(db, env.now, key, l);
      QueueChain(PoppedBy(cmd, o.result, front), TotalPopped(rest, T.Results(o.db, rest), front), View(l', front),
                 View(l, front), View(Surviving(db, env.now, key, l), front), View(mid, front),
                 PushedBy(cmd, front), TotalPushed(rest, front),
                 Loss(db, env.now, key), Lost(o.db, rest, end, key));
    }
  }

  lemma QueueChain(p0: seq<Bytes>, p: seq<Bytes>, left: seq<Bytes>, v: seq<Bytes>, v0: seq<Bytes>, mid: seq<Bytes>,
                   x0: seq<Bytes>, x: seq<Bytes>, lost0: nat, lost: nat)
    requires |v0| + lost0 == |v| && (lost0 == 0 ==> v0 == v)
    requires p0 + mid == v0 + x0 && QueueAccount(p, left, mid, x, lost)
    ensures QueueAccount(p0 + p, left, v, x0 + x, lost0 + lost)
  {
    assert |p0 + mid| == |v0 + x0|;
    if lost0 + lost == 0 {
      assert p0 + p + left == p0 + (p + left);
      assert p0 + (mid + x) == (p0 + mid) + x;
      assert v + x0 + x == v + (x0 + x);
    }
  }

  /** The queue law. Whatever the interleaving of pushes at one end and pops at the other, what came out
      followed by what is left is what was there followed by what went in, if and only if nothing lapsed on
      the way; and what lapsed is exactly what is missing. */
  lemma QueueLaw(c: Codec, rows: Rows, db: T.Db, start: nat, steps: seq<Step>, end: nat, key: Bytes, front: bool,
                 l: seq<Bytes>)
    requires Lawful(c) && Clocked(steps, start) && LastTime(steps, start) <= end
    requires InStep(c, rows, db, start, key) && HoldsList(db, key, l)
    requires forall i :: 0 <= i < |steps| ==> QueueCommand(steps[i].cmd, key, front)
    ensures var left := LRange(c, Run(c, rows, steps), end, key, 0, -1);
            var popped, pushed := TotalPopped(steps, Results(c, rows, steps), front), TotalPushed(steps, front);
            && left.Value?
            && |popped| + |left.value| + Lost(db, steps, end, key) == |l| + |pushed|
            && (popped + View(left.value, front) == View(l, front) + pushed <==> NeverLapses(db, steps, end, key))
  {
    assert AllOn(steps, key) && NoExpire(steps);
    hide Clocked, Lawful, InStep, Run, Results, T.Run, T.Results, LastTime, Lost, NeverLapses, TotalPopped, TotalPushed,
      LRange, HoldsList, QueueCommand;
    KeyRunRefinesUntil(c, rows, db, start, steps, end, key);
    var l' := TypedQueueRun(steps, db, end, key, front, l);
    LostNothing(db, steps, end, key);
    ListReadsAgree(c, Run(c, rows, steps), T.Run(db, steps), end, key, 0, -1);
    var popped, pushed := TotalPopped(steps, T.Results(db, steps), front), TotalPushed(steps, front);
    if popped + View(l', front) == View(l, front) + pushed {
      assert |popped + View(l', front)| == |View(l, front) + pushed|;
    }
  }

  // Stacks.

  /** The store with this list and deadline in the two rows of the key; the empty list is no rows. */
  function WithList(c: Codec, rows: Rows, key: Bytes, l: seq<Bytes>, deadline: nat): Rows {
    if l == [] then DropKey(rows, key)
    else rows[UserKey(key) := Row(PackList(c, l), deadline)][TypeKey(key) := Row(Tag(ListKind), deadline)]
  }

  predicate StoredList(c: Codec, rows: Rows, key: Bytes, l: seq<Bytes>, deadline: nat) {
    rows == WithList(c, rows, key, l, deadline) && (l == [] ==> deadline == 0)
  }

  /** What a command sees of a live stored list. */
  function StoredCell(c: Codec, l: seq<Bytes>, deadline: nat): Cell {
    if l == [] then Absent else Cell(PackList(c, l), Tag(ListKind), deadline)
  }

  lemma StoredLook(c: Codec, rows: Rows, now: nat, key: Bytes, l: seq<Bytes>, deadline: nat)
    ensures var rows' := WithList(c, rows, key, l, deadline);
            Look(rows', now, key) == if Unexpired(deadline, now) then StoredCell(c, l, deadline) else Absent
  {
  }

  lemma StackPush(c: Codec, env: Env, cmd: Command, front: bool, l: seq<Bytes>, e: nat)
    requires Lawful(c) && IsPush(cmd, front) && (l == [] ==> e == 0)
    ensures var pushed := Push(l, cmd.args, front);
            Decide(c, env, StoredCell(c, l, e), cmd)
            == Write(PackList(c, pushed), ListKind, RemainingMs(e, env.now), Int(|pushed|))
  {
    hide RemainingMs, Push;
    assert RemainingMs(0, env.now) == 0 by { NoDeadlineRemains(env.now); }
    assert Decide(c, env, StoredCell(c, l, e), cmd) == DecidePush(c, env, StoredCell(c, l, e), cmd);
  }

  lemma PopUndoesPush(l: seq<Bytes>, xs: seq<Bytes>, front: bool)
    ensures var pushed := Push(l, xs, front);
            |pushed| == |l| + |xs|
            && Popped(pushed, |xs|, front) == Reverse(xs) && AfterPop(pushed, |xs|, front) == l
  {
    var pushed := Push(l, xs, front);
    if front {
      assert pushed[..|xs|] == Reverse(xs) && pushed[|xs|..] == l;
    } else {
      assert pushed[|pushed| - |xs|..] == xs && pushed[..|pushed| - |xs|] == l;
    }
  }

  /** The count a client writes in decimal is the count the pop reads. */
  lemma PopCountOf(n: nat)
    requires n <= INT64_MAX
    ensures PopCount([FormatInt(n)]) == Some(n)
  {
    ParseFormat(n);
  }

  lemma PopDecision(c: Codec, env: Env, cmd: Command, front: bool, l: seq<Bytes>, n: nat, e: nat)
    requires Lawful(c) && IsPop(cmd, front) && l != []
    requires cmd.args != [] && PopCount(cmd.args) == Some(n) && n <= |l|
    ensures Decide(c, env, StoredCell(c, l, e), cmd)
            == WriteOrRemoveList(c, AfterPop(l, n, front), RemainingMs(e, env.now), Multi(Popped(l, n, front)))
  {
    hide RemainingMs;
    var cell := StoredCell(c, l, e);
    assert FetchItems(c, env, cell, ListKind) == Found(l, RemainingMs(e, env.now));
    assert AtFront(cmd.op) == front;
    assert Decide(c, env, cell, cmd) == DecidePop(c, env, cell, cmd);
  }

  /** Writing a list back, or dropping it when empty, leaves the list with its carried deadline. */
  lemma ListWritten(c: Codec, rows: Rows, now: nat, key: Bytes, l: seq<Bytes>, e: nat, reply: Reply)
    ensures Perform(rows, now, key, WriteOrRemoveList(c, l, RemainingMs(e, now), reply).effect)
            == WithList(c, rows, key, l, Carried(e, now))
    ensures l != [] ==> Perform(rows, now, key, WriteList(c, l, RemainingMs(e, now), reply).effect)
                        == WithList(c, rows, key, l, Carried(e, now))
  {
    hide RemainingMs;
  }

  lemma StackPushed(c: Codec, env: Env, rows: Rows, cmd: Command, front: bool, l: seq<Bytes>, e: nat)
    requires Lawful(c) && StoredList(c, rows, cmd.key, l, e) && IsPush(cmd, front) && cmd.args != []
    requires Unexpired(e, env.now)
    ensures var pushed := Push(l, cmd.args, front);
            Apply(c, env, rows, cmd)
            == Outcome(WithList(c, rows, cmd.key, pushed, Carried(e, env.now)), Success(Int(|pushed|)))
  {
    hide RemainingMs, Carried;
    var pushed := Push(l, cmd.args, front);
    ApplyOnKey(c, env, rows, cmd);
    StoredLook(c, rows, env.now, cmd.key, l, e);
    StackPush(c, env, cmd, front, l, e);
    ListWritten(c, rows, env.now, cmd.key, pushed, e, Int(|pushed|));
    assert pushed != [];
  }

  lemma WrittenOver(c: Codec, rows: Rows, key: Bytes, l: seq<Bytes>, e: nat, l': seq<Bytes>, e': nat)
    ensures WithList(c, WithList(c, rows, key, l, e), key, l', e') == WithList(c, rows, key, l', e')
  {
  }

  lemma PopFindsNothing(c: Codec, env: Env, cmd: Command, front: bool)
    requires IsPop(cmd, front)
    ensures Decide(c, env, Absent, cmd) == Answer(Nil)
  {
  }

  lemma StackPopped(c: Codec, env: Env, rows: Rows, cmd: Command, front: bool, full: seq<Bytes>, n: nat, e: nat)
    requires Lawful(c) && IsPop(cmd, front)
    requires cmd.args != [] && PopCount(cmd.args) == Some(n) && n <= |full| && full != []
    ensures var rows' := WithList(c, rows, cmd.key, full, e);
            Apply(c, env, rows', cmd)
            == if Unexpired(e, env.now)
               then Outcome(WithList(c, rows, cmd.key, AfterPop(full, n, front), Carried(e, env.now)),
                            Success(Multi(Popped(full, n, front))))
               else Outcome(rows', Success(Nil))
  {
    hide RemainingMs, Carried, Unexpired, WithList, Popped, AfterPop, Decide, PopCount;
    var rows', left := WithList(c, rows, cmd.key, full, e), AfterPop(full, n, front);
    ApplyOnKey(c, env, rows', cmd);
    StoredLook(c, rows, env.now, cmd.key, full, e);
    if Unexpired(e, env.now) {
      PopDecision(c, env, cmd, front, full, n, e);
      ListWritten(c, rows', env.now, cmd.key, left, e, Multi(Popped(full, n, front)));
      WrittenOver(c, rows, cmd.key, full, e, left, Carried(e, env.now));
    } else {
      assert Decide(c, env, Absent, cmd) == Answer(Nil) by { PopFindsNothing(c, env, cmd, front); }
    }
  }

  /** The stack law. Pushing values at one end and popping as many there, at any later moment, gives them
      back in reverse and leaves the list as it was, with its deadline carried over twice; without a deadline
      that is the same store, row for row. When the list lapses in between the pop finds nothing. */
  lemma StackLaw(c: Codec, a: Env, b: Env, rows: Rows, push: Command, pop: Command, front: bool, l: seq<Bytes>, e: nat)
    requires Lawful(c) && StoredList(c, rows, push.key, l, e) && Unexpired(e, a.now)
    requires IsPush(push, front) && IsPop(pop, front) && push.key == pop.key
    requires push.args != [] && pop.args != [] && PopCount(pop.args) == Some(|push.args|)
    ensures var pushed := Apply(c, a, rows, push);
            var popped := Apply(c, b, pushed.rows, pop);
            var e1 := Carried(e, a.now);
            && pushed.result == Success(Int(|l| + |push.args|))
            && popped == (if Unexpired(e1, b.now)
                          then Outcome(WithList(c, rows, push.key, l, Carried(e1, b.now)),
                                       Success(Multi(Reverse(push.args))))
                          else Outcome(pushed.rows, Success(Nil)))
            && (e == 0 ==> popped.rows == rows)
  {
    hide Apply, PopCount, Push, Popped, AfterPop, Lawful;
    PopUndoesPush(l, push.args, front);
    var full, e1 := Push(l, push.args, front), Carried(e, a.now);
    assert full != [];
    StackPushed(c, a, rows, push, front, l, e);
    StackPopped(c, b, rows, pop, front, full, |push.args|, e1);
    if e == 0 { assert Carried(0, a.now) == 0 && Carried(0, b.now) == 0; }
  }

  // LREM.

  function Without(list: seq<Bytes>, x: Bytes): seq<Bytes> {
    if list == [] then []
    else if list[0] == x then Without(list[1..], x)
    else [list[0]] + Without(list[1..], x)
  }

  function Min(a: nat, b: nat): nat { if a < b then a else b }

  /** The position just after the first `n` copies of `x`, or the end when there are fewer. */
  function CutPoint(list: seq<Bytes>, x: Bytes, n: nat): (p: nat)
    ensures p <= |list|
  {
    if list == [] || n == 0 then 0
    else 1 + CutPoint(list[1..], x, if list[0] == x then n - 1 else n)
  }

  /** The first min(n, occurrences) copies go and nothing else does. */
  lemma {:induction false} WithoutFirstIsPrefix(list: seq<Bytes>, x: Bytes, n: nat)
    ensures var p := CutPoint(list, x, n);
            && Count(list[..p], x) == Min(n, Count(list, x))
            && WithoutFirst(list, x, n) == Without(list[..p], x) + list[p..]
            && |WithoutFirst(list, x, n)| + Min(n, Count(list, x)) == |list|
  {
    var p := CutPoint(list, x, n);
    if list == [] || n == 0 {
      assert list[..0] == [] && list[0..] == list;
      WithoutNone(list, x);
    } else {
      var n' := if list[0] == x then n - 1 else n;
      WithoutFirstIsPrefix(list[1..], x, n');
      assert list[..p][1..] == list[1..][..p - 1] && list[p..] == list[1..][p - 1..];
    }
  }

  lemma {:induction false} WithoutNone(list: seq<Bytes>, x: Bytes)
    ensures WithoutFirst(list, x, 0) == list
  {
    if list != [] { WithoutNone(list[1..], x); }
  }

  lemma {:induction false} WithoutAll(list: seq<Bytes>, x: Bytes, n: nat)
    requires n >= |list|
    ensures WithoutFirst(list, x, n) == Without(list, x)
    ensures |Without(list, x)| + Count(list, x) == |list|
  {
    if list != [] { WithoutAll(list[1..], x, if list[0] == x then n - 1 else n); }
  }

  lemma {:induction false} CountConcat(a: seq<Bytes>, b: seq<Bytes>, x: Bytes)
    ensures Count(a + b, x) == Count(a, x) + Count(b, x)
    ensures Without(a + b, x) == Without(a, x) + Without(b, x)
  {
    if a == [] {
      assert a + b == b;
    } else {
      assert (a + b)[1..] == a[1..] + b;
      CountConcat(a[1..], b, x);
    }
  }

  lemma {:induction false} CountReverse(list: seq<Bytes>, x: Bytes)
    ensures Count(Reverse(list), x) == Count(list, x)
    ensures Without(Reverse(list), x) == Reverse(Without(list, x))
  {
    if list != [] {
      CountReverse(list[1..], x);
      var one: seq<Bytes> := [list[0]];
      CountConcat(Reverse(list[1..]), one, x);
      assert one[1..] == [];
      if list[0] != x { ReverseConcat([list[0]], Without(list[1..], x)); }
    }
  }

  /** LREM with a positive limit: the first min(limit, occurrences) copies go. */
  lemma RemFromFront(list: seq<Bytes>, limit: int, x: Bytes)
    requires limit > 0
    ensures var p := CutPoint(list, x, limit);
            && Count(list[..p], x) == Min(limit, Count(list, x))
            && Kept(list, limit, x) == Without(list[..p], x) + list[p..]
    ensures |Kept(list, limit, x)| + Min(limit, Count(list, x)) == |list|
  {
    WithoutFirstIsPrefix(list, x, limit);
  }

  /** LREM 0: every copy goes. */
  lemma RemAll(list: seq<Bytes>, x: Bytes)
    ensures Kept(list, 0, x) == Without(list, x)
    ensures |Kept(list, 0, x)| + Count(list, x) == |list|
  {
    WithoutAll(list, x, |list|);
  }

  /** LREM -n is LREM n seen from the other end. */
  lemma RemMirrors(list: seq<Bytes>, n: int, x: Bytes)
    requires 0 < n <= INT64_MAX
    ensures Kept(list, -n, x) == Reverse(Kept(Reverse(list), n, x))
  {
  }

  lemma BackParts(list: seq<Bytes>, x: Bytes, n: nat)
    ensures var back := Reverse(list);
            var q := |list| - CutPoint(back, x, n);
            && Count(list[q..], x) == Min(n, Count(list, x))
            && Reverse(WithoutFirst(back, x, n)) == list[..q] + Without(list[q..], x)
            && |WithoutFirst(back, x, n)| + Min(n, Count(list, x)) == |list|
  {
    var back := Reverse(list);
    var p := CutPoint(back, x, n);
    var q := |list| - p;
    WithoutFirstIsPrefix(back, x, n);
    CountReverse(list, x);
    ReverseSplit(list, q);
    CountReverse(list[q..], x);
    MirrorParts(list[..q], Without(list[q..], x));
  }

  /** LREM with a negative limit above the least integer: the last min(-limit, occurrences) copies go. */
  lemma RemFromBack(list: seq<Bytes>, limit: int, x: Bytes)
    requires INT64_MIN < limit < 0
    ensures var q := |list| - CutPoint(Reverse(list), x, -limit);
            && Count(list[q..], x) == Min(-limit, Count(list, x))
            && Kept(list, limit, x) == list[..q] + Without(list[q..], x)
    ensures |Kept(list, limit, x)| + Min(-limit, Count(list, x)) == |list|
  {
    BackParts(list, x, -limit);
  }

  lemma MirrorParts(a: seq<Bytes>, b: seq<Bytes>)
    ensures Reverse(Reverse(b) + Reverse(a)) == a + b
  {
    ReverseConcat(a, b);
    ReverseReverse(a + b);
  }

  lemma ReverseSplit(list: seq<Bytes>, q: nat)
    requires q <= |list|
    ensures Reverse(list)[..|list| - q] == Reverse(list[q..])
    ensures Reverse(list)[|list| - q..] == Reverse(list[..q])
  {
    assert list == list[..q] + list[q..];
    ReverseConcat(list[..q], list[q..]);
  }

  /** At the least integer the negated limit wraps and LREM removes nothing, whatever the list. */
  lemma RemAtLeastInteger(list: seq<Bytes>, x: Bytes)
    ensures Kept(list, INT64_MIN, x) == list
  {
    WithoutNone(Reverse(list), x);
    ReverseReverse(list);
  }

  // Ranges.

  /** Position `i` of a list of `n`, counted from the front as i and from the end as i - n, lies within the bounds,
      each of which counts the way its sign says. */
  predicate Within(i: nat, n: nat, start: int, stop: int) {
    (if start >= 0 then start <= i else start <= i - n) && (if stop >= 0 then i <= stop else i - n <= stop)
  }

  /** A range is the stretch of positions within its bounds. */
  lemma SliceExactly(l: seq<Bytes>, start: int, stop: int) returns (from: nat, to: nat)
    ensures from <= to <= |l| && Slice(l, start, stop) == l[from..to]
    ensures forall i: nat :: i < |l| ==> (from <= i < to <==> Within(i, |l|, start, stop))
  {
    var lo := if start < 0 then start + |l| else start;
    var hi := if stop < 0 then stop + |l| else stop;
    from := if lo < 0 then 0 else lo;
    to := if hi >= |l| then |l| else if hi < 0 then 0 else hi + 1;
    if from >= to { from, to := 0, 0; }
  }

  /** The last k elements, and the last k without the last j - 1. */
  lemma SliceFromEnd(l: seq<Bytes>, k: int, j: int)
    requires 1 <= j <= k <= |l|
    ensures Slice(l, -k, -1) == l[|l| - k..]
    ensures Slice(l, -k, -j) == l[|l| - k..|l| - j + 1]
  {
  }

  /** A start before the list is its start, and nothing ends before the list. */
  lemma SliceBeyond(l: seq<Bytes>, a: int, b: int)
    ensures a < -|l| ==> Slice(l, a, b) == Slice(l, 0, b)
    ensures b < -|l| ==> Slice(l, a, b) == []
    ensures a >= |l| ==> Slice(l, a, b) == []
    ensures b >= |l| ==> Slice(l, a, b) == Slice(l, a, -1)
  {
  }

  /** LRANGE and LINDEX on the list that is stored. */
  lemma RangesRead(c: Codec, rows: Rows, now: nat, key: Bytes, l: seq<Bytes>, a: int, b: int)
    requires Items(c, rows, now, key, ListKind) == Value(l)
    ensures LRange(c, rows, now, key, a, b) == Value(Slice(l, a, b))
    ensures LIndex(c, rows, now, key, a)
            == Value(if 0 <= a < |l| then Some(l[a]) else if -|l| <= a < 0 then Some(l[|l| + a]) else None)
  {
    WholeSlice(l);
  }

  /** LINDEX i is the one element of LRANGE i i, or nil when that range is empty. */
  lemma IndexIsRange(c: Codec, rows: Rows, now: nat, key: Bytes, i: int)
    ensures match LRange(c, rows, now, key, i, i)
            case Error(fault) => LIndex(c, rows, now, key, i) == Error(fault)
            case Value(l) =>
              |l| <= 1 && LIndex(c, rows, now, key, i) == Value(if l == [] then None else Some(l[0]))
  {
    var items := Items(c, rows, now, key, ListKind);
    if items.Value? { WholeSlice(items.value); }
  }

  lemma SliceInside(l: seq<Bytes>, a: nat, b: nat, end: nat)
    requires a < end <= |l| && end <= b + 1 && (end == b + 1 || end == |l|)
    ensures Slice(l, a, b) == l[a..end]
  {
  }

  lemma SliceOutside(l: seq<Bytes>, a: nat, b: nat)
    requires a > b || a >= |l|
    ensures Slice(l, a, b) == []
  {
  }

  lemma SliceOfSlice(l: seq<Bytes>, a: nat, b: nat, c: nat, d: nat)
    requires a <= b && c <= d
    ensures Slice(Slice(l, a, b), c, d) == Slice(l, a + c, Min(b, a + d))
  {
    hide Slice;
    var end := Min(b + 1, |l|);
    if a + c < end {
      var to := Min(d + 1, end - a);
      SliceInside(l, a, b, end);
      SliceInside(l[a..end], c, d, to);
      SliceInside(l, a + c, Min(b, a + d), a + to);
      CutOfCut(l, a, end, c, to);
    } else {
      SliceOutside(l, a + c, Min(b, a + d));
      if a < end { SliceInside(l, a, b, end); } else { SliceOutside(l, a, b); }
      SliceOutside(Slice(l, a, b), c, d);
    }
  }

  lemma CutOfCut<E>(l: seq<E>, from: nat, to: nat, a: nat, b: nat)
    requires from <= to <= |l| && a <= b <= to - from
    ensures l[from..to][a..b] == l[from + a..from + b]
  {
    var x, y := l[from..to][a..b], l[from + a..from + b];
    assert |x| == |y|;
    assert forall i :: 0 <= i < |x| ==> x[i] == y[i];
  }

  predicate IsTrim(cmd: Command, key: Bytes, a: int, b: int) {
    cmd.op == LTrim && cmd.key == key && |cmd.args| == 2 && Atoi(cmd.args[0]) == a && Atoi(cmd.args[1]) == b
  }

  lemma WholeThenPart(c: Codec, rows: Rows, now: nat, key: Bytes, a: int, b: int)
    ensures var all, part := LRange(c, rows, now, key, 0, -1), LRange(c, rows, now, key, a, b);
            all.Value? == part.Value? && (all.Value? ==> part.value == Slice(all.value, a, b))
  {
    var items := Items(c, rows, now, key, ListKind);
    if items.Value? { WholeSlice(items.value); }
  }

  lemma ReadStored(c: Codec, rows: Rows, now: nat, key: Bytes, l: seq<Bytes>, e: nat)
    requires Lawful(c)
    ensures LRange(c, WithList(c, rows, key, l, e), now, key, 0, -1) == Value(if Unexpired(e, now) then l else [])
  {
    StoredLook(c, rows, now, key, l, e);
    WholeSlice(l);
    WholeSlice([]);
  }

  lemma TrimDecision(c: Codec, env: Env, rows: Rows, key: Bytes, trim: Command, a: int, b: int)
    requires IsTrim(trim, key, a, b)
    ensures var e := DeadlineSeen(rows, env.now, key);
            match LRange(c, rows, env.now, key, a, b)
            case Error(fault) => Decide(c, env, Look(rows, env.now, key), trim) == Refuse(fault)
            case Value(l) =>
              Decide(c, env, Look(rows, env.now, key), trim) == WriteOrRemoveList(c, l, RemainingMs(e, env.now), Ok)
  {
    hide RemainingMs, Slice, WriteOrRemoveList, Atoi;
    assert RemainingMs(0, env.now) == 0 by { NoDeadlineRemains(env.now); }
    assert Decide(c, env, Look(rows, env.now, key), trim) == DecideTrim(c, env, Look(rows, env.now, key), trim);
  }

  /** LTRIM a b keeps exactly what LRANGE a b read: a read of the whole list finds it until the carried
      deadline, and nothing from then on. A key that LRANGE refuses, LTRIM refuses and leaves alone. */
  lemma TrimThenRead(c: Codec, env: Env, rows: Rows, key: Bytes, trim: Command, a: int, b: int, later: nat)
    requires Lawful(c) && IsTrim(trim, key, a, b)
    ensures var before, o := LRange(c, rows, env.now, key, a, b), Apply(c, env, rows, trim);
            match before
            case Error(fault) => o == Outcome(rows, Failure(fault))
            case Value(_) =>
              && o.result == Success(Ok)
              && LRange(c, o.rows, later, key, 0, -1)
                 == if Unexpired(Carried(DeadlineSeen(rows, env.now, key), env.now), later) then before else Value([])
  {
    hide Carried, RemainingMs, Unexpired, LRange, Decide, Look;
    var before, e := LRange(c, rows, env.now, key, a, b), DeadlineSeen(rows, env.now, key);
    ApplyOnKey(c, env, rows, trim);
    TrimDecision(c, env, rows, key, trim, a, b);
    if before.Value? {
      ListWritten(c, rows, env.now, key, before.value, e, Ok);
      ReadStored(c, rows, later, key, before.value, Carried(e, env.now));
    }
  }

  lemma DeadlineAfterTrim(c: Codec, env: Env, rows: Rows, key: Bytes, trim: Command, a: int, b: int, later: nat)
    requires IsTrim(trim, key, a, b) && LRange(c, rows, env.now, key, a, b).Value?
    requires LRange(c, rows, env.now, key, a, b).value != []
    ensures var e := Carried(DeadlineSeen(rows, env.now, key), env.now);
            DeadlineSeen(Apply(c, env, rows, trim).rows, later, key) == if Unexpired(e, later) then e else 0
  {
    hide RemainingMs, LRange, Decide, Look;
    var l, e := LRange(c, rows, env.now, key, a, b).value, DeadlineSeen(rows, env.now, key);
    ApplyOnKey(c, env, rows, trim);
    TrimDecision(c, env, rows, key, trim, a, b);
    ListWritten(c, rows, env.now, key, l, e, Ok);
  }

  /** Two trims, at any two moments, are one: the composed range until the deadline carried twice, nothing
      when the list lapses before the second trim. */
  lemma TwoTrimsAreOne(c: Codec, first: Env, second: Env, rows: Rows, key: Bytes, trim1: Command, trim2: Command,
                       a: nat, b: nat, p: nat, q: nat, later: nat)
    requires Lawful(c) && IsTrim(trim1, key, a, b) && IsTrim(trim2, key, p, q) && a <= b && p <= q
    requires LRange(c, rows, first.now, key, a, b).Value?
    ensures var e1 := Carried(DeadlineSeen(rows, first.now, key), first.now);
            var rows2 := Apply(c, second, Apply(c, first, rows, trim1).rows, trim2).rows;
            LRange(c, rows2, later, key, 0, -1)
            == if Unexpired(e1, second.now) && Unexpired(Carried(e1, second.now), later)
               then LRange(c, rows, first.now, key, a + p, Min(b, a + q)) else Value([])
  {
    hide Carried, Unexpired, LRange, Apply, Slice, DeadlineSeen, Lawful, Atoi;
    var rows1 := Apply(c, first, rows, trim1).rows;
    var all, kept := LRange(c, rows, first.now, key, 0, -1), LRange(c, rows, first.now, key, a, b);
    TrimThenRead(c, first, rows, key, trim1, a, b, second.now);
    TrimThenRead(c, second, rows1, key, trim2, p, q, later);
    WholeThenPart(c, rows, first.now, key, a, b);
    WholeThenPart(c, rows, first.now, key, a + p, Min(b, a + q));
    WholeThenPart(c, rows1, second.now, key, p, q);
    SliceOfSlice(all.value, a, b, p, q);
    SliceOfNothing(p, q);
    if kept.value != [] { DeadlineAfterTrim(c, first, rows, key, trim1, a, b, second.now); }
  }

  lemma SliceOfNothing(a: int, b: int)
    ensures Slice([], a, b) == []
  {
  }
}
