/** Deadline arithmetic: what rounding to whole seconds and to milliseconds does to a TTL. */
module Deadlines {
  import opened Octets
  import opened Decimal
  import opened Collections
  import opened Store
  import opened Commands
  import opened Fsm
  import opened Refinement
  import opened Lifetimes
  import opened Readers

  // One write.

  /** A positive duration in whole milliseconds, at least one. */
  function RoundedMs(diff: int): int { if diff / 1_000_000 < 1 then 1 else diff / 1_000_000 }

  /** A clock reading before the year 146 thousand million. */
  predicate Clock(now: nat) { Second(now) < 0x4000_0000_0000_0000 }

  /** time.Until on a deadline to come: the distance, or the greatest 64-bit duration. */
  lemma UntilLive(e: nat, now: nat)
    requires Second(now) < e && Datable(e)
    ensures var diff := e * 1_000_000_000 - now;
            Until(e, now) == (if diff > INT64_MAX then INT64_MAX else diff) > 0
  {
    hide Wrap64;
  }

  lemma DeadlineUnwrapped(now: nat, ttlMs: int)
    requires 0 < ttlMs * 1_000_000 < 0x8000_0000_0000_0000
    requires now + ttlMs * 1_000_000 < 0x1_0000_0000_0000_0000 * 1_000_000_000
    ensures Deadline(now, ttlMs) == (now + ttlMs * 1_000_000) / 1_000_000_000
  {
    hide Wrap64;
  }

  lemma QuotientBounds(x: nat, e: nat)
    ensures x / 1_000_000_000 >= e <==> x >= e * 1_000_000_000
  {
  }

  /** A deadline near enough for a carried write to keep it to the second. */
  predicate Near(e: nat, now: nat) {
    Datable(e) && e * 1_000_000_000 - now <= 9_223_372_037_854_000_000
  }

  lemma RoundingLoss(diff: int, ms: int)
    requires diff > 0 && ms == RoundedMs(if diff > INT64_MAX then INT64_MAX else diff)
    ensures 0 < ms <= 9_223_372_036_854
    ensures ms * 1_000_000 < diff + 1_000_000
    ensures diff <= 9_223_372_036_854_000_000 ==> diff - 1_000_000 < ms * 1_000_000
    ensures diff <= 9_223_372_036_854_000_000 && diff % 1_000_000 == 0 ==> ms * 1_000_000 == diff
    ensures diff > 9_223_372_036_854_000_000 ==> ms == 9_223_372_036_854
  {
  }

  lemma RemainingLive(e: nat, now: nat)
    requires Second(now) < e && Datable(e)
    ensures var diff := e * 1_000_000_000 - now;
            diff > 0 && RemainingMs(e, now) == RoundedMs(if diff > INT64_MAX then INT64_MAX else diff)
  {
    UntilLive(e, now);
    hide Until;
  }

  /** The instant a carried write rounds down to a deadline. */
  lemma CarriedInstant(e: nat, now: nat) returns (ms: int)
    requires Second(now) < e && Datable(e)
    ensures 0 < ms <= 9_223_372_036_854 && ms == RemainingMs(e, now)
    ensures Carried(e, now) == (now + ms * 1_000_000) / 1_000_000_000
  {
    hide Until, Deadline, RoundedMs;
    ms := RemainingMs(e, now);
    RemainingLive(e, now);
    RoundingLoss(e * 1_000_000_000 - now, ms);
    DeadlineUnwrapped(now, ms);
  }

  lemma CarriedNear(e: nat, now: nat)
    requires Second(now) < e && Near(e, now)
    ensures e - 1 <= Carried(e, now) <= e
    ensures now % 1_000_000 == 0 && e * 1_000_000_000 - now <= 9_223_372_036_854_000_000 ==> Carried(e, now) == e
  {
    hide Carried, RemainingMs, RoundedMs;
    var diff := e * 1_000_000_000 - now;
    var ms := CarriedInstant(e, now);
    RemainingLive(e, now);
    RoundingLoss(diff, ms);
    if now % 1_000_000 == 0 { assert diff % 1_000_000 == 0; }
    QuotientBounds(now + ms * 1_000_000, e - 1);
    QuotientBounds(now + ms * 1_000_000, e);
    QuotientBounds(now + ms * 1_000_000, e + 1);
  }

  /** As far as a carried write reaches: the greatest 64-bit duration in whole milliseconds. */
  function Horizon(now: nat): nat { (now + 9_223_372_036_854_000_000) / 1_000_000_000 }

  /** A deadline beyond that comes down to it. */
  lemma CarriedFar(e: nat, now: nat)
    requires Second(now) < e && Datable(e) && !Near(e, now)
    ensures Carried(e, now) == Horizon(now) < e - 1
  {
    hide Carried, RemainingMs, RoundedMs;
    var ms := CarriedInstant(e, now);
    RemainingLive(e, now);
    RoundingLoss(e * 1_000_000_000 - now, ms);
    QuotientBounds(now + 9_223_372_036_854_000_000, e - 1);
  }

  /** A deadline that a TTL back to before 1970 has wrapped, or any other too great for a time, counts as one
      millisecond. */
  lemma CarriedWrapped(e: nat, now: nat)
    requires !Datable(e) && e < 0x1_0000_0000_0000_0000 && Clock(now)
    ensures RemainingMs(e, now) == 1 && Carried(e, now) == (now + 1_000_000) / 1_000_000_000
  {
    assert Until(e, now) < 0 by { UntilWrapped(e, now); }
    hide Until;
    DeadlineUnwrapped(now, 1);
  }

  lemma UntilWrapped(e: nat, now: nat)
    requires !Datable(e) && e < 0x1_0000_0000_0000_0000
    ensures Until(e, now) <= -1_000_000_000
  {
    Wrap64Unique(e + 62_135_596_800, e + 62_135_596_800 - 0x1_0000_0000_0000_0000);
    hide Wrap64;
  }

  /** One write that carries the deadline of a live key over keeps it or moves it one second earlier, if and
      only if the deadline is near; and at a whole millisecond it keeps it, if and only if it is within the
      greatest 64-bit duration. */
  lemma CarriedDeadline(e: nat, now: nat)
    requires Second(now) < e < 0x1_0000_0000_0000_0000 && Clock(now)
    ensures e - 1 <= Carried(e, now) <= e <==> Near(e, now)
    ensures now % 1_000_000 == 0 ==> (Carried(e, now) == e <==> e * 1_000_000_000 - now <= 9_223_372_036_854_000_000)
  {
    hide Carried, RemainingMs;
    if !Datable(e) {
      CarriedWrapped(e, now);
    } else if Near(e, now) {
      CarriedNear(e, now);
      if e * 1_000_000_000 - now > 9_223_372_036_854_000_000 { CarriedPastReach(e, now); }
    } else {
      CarriedFar(e, now);
    }
  }

  lemma CarriedPastReach(e: nat, now: nat)
    requires Second(now) < e && Datable(e) && e * 1_000_000_000 - now > 9_223_372_036_854_000_000
    ensures Carried(e, now) < e
  {
    hide Carried, RemainingMs, RoundedMs;
    var ms := CarriedInstant(e, now);
    RemainingLive(e, now);
    RoundingLoss(e * 1_000_000_000 - now, ms);
    QuotientBounds(now + ms * 1_000_000, e);
  }

  /** A live key survives a carried write: it has no deadline, or more than one second is left, or what is left
      is whole milliseconds or less than one. A deadline too great for a time counts as one millisecond. In
      second 0 a deadline carried to 0 reads as none. */
  predicate SurvivesWrite(e: nat, now: nat) {
    if e == 0 || Second(now) == 0 then true
    else if Datable(e) then
      || e > Second(now) + 1
      || (e * 1_000_000_000 - now) % 1_000_000 == 0
      || e * 1_000_000_000 - now < 1_000_000
    else now % 1_000_000_000 >= 999_000_000
  }

  /** Exactly when a carried write leaves the key visible in the same moment, for every 64-bit deadline. */
  lemma SurvivalIsExact(e: nat, now: nat)
    requires Unexpired(e, now) && e < 0x1_0000_0000_0000_0000 && Clock(now)
    ensures Unexpired(Carried(e, now), now) <==> SurvivesWrite(e, now)
  {
    hide Carried, RemainingMs;
    if e == 0 {
      NoDeadlineCarried(now);
    } else if Second(now) > 0 {
      if !Datable(e) {
        CarriedWrapped(e, now);
      } else if e > Second(now) + 1 {
        FarSurvival(e, now);
      } else {
        LastSecond(e, now);
      }
    }
  }

  lemma NoDeadlineCarried(now: nat)
    ensures Carried(0, now) == 0
  {
  }

  lemma FarSurvival(e: nat, now: nat)
    requires Second(now) + 1 < e && Datable(e) && Second(now) > 0
    ensures Unexpired(Carried(e, now), now)
  {
    hide Carried;
    var ms := CarriedInstant(e, now);
    RemainingLive(e, now);
    RoundingLoss(e * 1_000_000_000 - now, ms);
    QuotientBounds(now + ms * 1_000_000, Second(now) + 1);
  }

  lemma LastSecond(e: nat, now: nat)
    requires Second(now) + 1 == e && Datable(e) && Second(now) > 0
    ensures var diff := e * 1_000_000_000 - now;
            Unexpired(Carried(e, now), now) <==> diff % 1_000_000 == 0 || diff < 1_000_000
  {
    hide Carried, RemainingMs;
    var diff := e * 1_000_000_000 - now;
    var ms := CarriedInstant(e, now);
    RemainingLive(e, now);
    QuotientBounds(now + ms * 1_000_000, e);
    QuotientBounds(now + ms * 1_000_000, 1);
    assert ms == RoundedMs(diff);
  }

  /** An input that does not: half a millisecond past a whole one, in the last second. */
  lemma WriteCanLapse()
    ensures Unexpired(2, 1_998_500_000) && Carried(2, 1_998_500_000) == 1 && !Unexpired(1, 1_998_500_000)
  {
    var ms := CarriedInstant(2, 1_998_500_000);
    RemainingLive(2, 1_998_500_000);
  }

  // One TTL.

  /** A TTL of t ms set at s has run out from s + t on, and not before s + t - 1000 ms. */
  ghost predicate OnTime(s: nat, ttlMs: int) {
    forall now: nat ::
      && (now >= s + ttlMs * 1_000_000 ==> !Unexpired(Deadline(s, ttlMs), now))
      && (now <= s + ttlMs * 1_000_000 - 1_000_000_000 ==> Unexpired(Deadline(s, ttlMs), now))
  }

  /** For a 64-bit TTL that is so if and only if the TTL fits a 64-bit nanosecond count and does not end in
      second 0, which means no deadline. */
  lemma TtlIsOnTime(s: nat, ttlMs: int)
    requires 0 < ttlMs < 0x8000_0000_0000_0000 && Clock(s)
    ensures OnTime(s, ttlMs) <==> ttlMs <= 9_223_372_036_854 && s + ttlMs * 1_000_000 >= 1_000_000_000
  {
    var early, late := s + ttlMs * 1_000_000 - 1_000_000_000, s + ttlMs * 1_000_000;
    if ttlMs <= 9_223_372_036_854 {
      DeadlineUnwrapped(s, ttlMs);
      if late < 1_000_000_000 { assert Unexpired(Deadline(s, ttlMs), late); }
    } else {
      WrappedTtl(s, ttlMs);
      if Unexpired(Deadline(s, ttlMs), early) { assert Unexpired(Deadline(s, ttlMs), late); }
    }
  }

  /** A wrapped TTL ends long before its time, or long after it, or never. */
  lemma WrappedTtl(s: nat, ttlMs: int)
    requires 9_223_372_036_854 < ttlMs < 0x8000_0000_0000_0000 && Clock(s)
    ensures || !Unexpired(Deadline(s, ttlMs), s + ttlMs * 1_000_000 - 1_000_000_000)
            || Unexpired(Deadline(s, ttlMs), s + ttlMs * 1_000_000)
  {
    var t := ttlMs * 1_000_000;
    var w := WrapsDown(t);
    assert Deadline(s, ttlMs) == ((s + w) / 1_000_000_000) % 0x1_0000_0000_0000_0000;
    hide Deadline, Wrap64;
    if s + w < 0 {
      BeforeTheEpoch(s + w);
    } else {
      assert 0 <= (s + w) / 1_000_000_000 <= Second(s + t - 1_000_000_000);
    }
  }

  lemma WrapsDown(t: int) returns (w: int)
    requires t >= 0x8000_0000_0000_0000
    ensures w == Wrap64(t) && IsInt64(w) && w <= t - 0x1_0000_0000_0000_0000
  {
    w := Wrap64(t);
    Wrap64Unique(t, w);
    hide Wrap64;
    assert (w - t) % 0x1_0000_0000_0000_0000 == 0 && w - t < 0;
  }

  lemma BeforeTheEpoch(x: int)
    requires -0x8000_0000_0000_0000 <= x < 0
    ensures (x / 1_000_000_000) % 0x1_0000_0000_0000_0000 >= 0xFFFF_FFFD_0000_0000
  {
    var q := x / 1_000_000_000;
    assert -10_000_000_000 <= q < 0;
    assert q % 0x1_0000_0000_0000_0000 == q + 0x1_0000_0000_0000_0000;
  }

  // Reading a TTL.

  /** What TTL and PTTL say of a live key: -1 exactly without a deadline, -2 exactly when the deadline is too great
      for a time, although the key is there, and otherwise the whole units left, up to the greatest 64-bit
      duration. */
  lemma TtlReads(e: nat, now: nat)
    requires Unexpired(e, now) && e < 0x1_0000_0000_0000_0000
    ensures var ttl, pttl := LifeLeft(e, now, 1_000_000_000), LifeLeft(e, now, 1_000_000);
            && (ttl == -1 <==> e == 0) && (pttl == -1 <==> e == 0)
            && (ttl == -2 <==> !Datable(e)) && (pttl == -2 <==> !Datable(e))
            && (e > 0 && Datable(e) ==>
                  if e * 1_000_000_000 - now > INT64_MAX then ttl == 9_223_372_036 && pttl == 9_223_372_036_854
                  else
                    && ttl == e - Second(now) - (if now % 1_000_000_000 == 0 then 0 else 1)
                    && pttl == e * 1000 - (now + 999_999) / 1_000_000)
  {
    if e > 0 {
      if Datable(e) { UntilLive(e, now); } else { UntilWrapped(e, now); }
    }
    hide Until;
  }

  /** Right after a SET EX n or EXPIRE n, TTL says n at a whole second and n - 1 otherwise. */
  lemma FreshTtl(now: nat, n: int)
    requires 0 < n <= 9_223_372_036 && Clock(now)
    ensures LifeLeft(Deadline(now, n * 1000), now, 1_000_000_000) == (if now % 1_000_000_000 == 0 then n else n - 1)
  {
    var e := Second(now) + n;
    assert Deadline(now, n * 1000) == e by { DeadlineUnwrapped(now, n * 1000); }
    TtlReads(e, now);
  }

  // Over runs of commands.

  function ValueDeadline(rows: Rows, key: Bytes): Option<nat> {
    if UserKey(key) in rows then Some(rows[UserKey(key)].deadline) else None
  }

  /** The effect keeps the key and its deadline, drops the key, or writes it with what is left of its TTL. */
  predicate CarriesOver(e: Effect, env: Env, cell: Cell) {
    e.Keep? || e.Remove? || (e.Put? && cell.Cell? && e.ttlMs == RemainingMs(cell.deadline, env.now))
  }

  lemma StringsCarry(env: Env, cell: Cell, cmd: Command)
    requires cell.Cell?
    ensures cmd.op == Append && cmd.ttlMs == 0 ==> CarriesOver(DecideString(env, cell, cmd).effect, env, cell)
    ensures CarriesOver(DecideCounter(env, cell, cmd).effect, env, cell)
  {
    hide RemainingMs, ParseInt, FormatInt, Wrap64;
  }

  lemma HashesCarry(c: Codec, env: Env, cell: Cell, cmd: Command)
    requires cell.Cell?
    ensures CarriesOver(DecideHSet(c, env, cell, cmd).effect, env, cell)
    ensures CarriesOver(DecideHDel(c, env, cell, cmd).effect, env, cell)
  {
    hide RemainingMs, PutAll, ToSet;
  }

  lemma ListsCarry(c: Codec, env: Env, cell: Cell, cmd: Command)
    requires cell.Cell?
    ensures CarriesOver(DecidePush(c, env, cell, cmd).effect, env, cell)
    ensures CarriesOver(DecidePop(c, env, cell, cmd).effect, env, cell)
    ensures CarriesOver(DecideTrim(c, env, cell, cmd).effect, env, cell)
    ensures CarriesOver(DecideRem(c, env, cell, cmd).effect, env, cell)
  {
    hide RemainingMs, Slice, Kept, Push, ParseInt;
  }

  lemma SetsCarry(c: Codec, env: Env, cell: Cell, cmd: Command)
    requires cell.Cell?
    ensures CarriesOver(DecideSAdd(c, env, cell, cmd).effect, env, cell)
    ensures CarriesOver(DecideSRem(c, env, cell, cmd).effect, env, cell)
    ensures CarriesOver(DecideSPop(c, env, cell, cmd).effect, env, cell)
  {
    hide RemainingMs, Taken, ToSet, Added;
  }

  lemma CarryDecision(c: Codec, env: Env, cell: Cell, cmd: Command)
    requires cell.Cell? && KeepsDeadline(cmd)
    ensures CarriesOver(Decide(c, env, cell, cmd).effect, env, cell)
  {
    hide DecideString, DecideCounter, DecideHSet, DecideHDel, DecidePush, DecidePop, DecideTrim, DecideRem, DecideSAdd,
      DecideSRem, DecideSPop, CarriesOver;
    StringsCarry(env, cell, cmd);
    HashesCarry(c, env, cell, cmd);
    ListsCarry(c, env, cell, cmd);
    SetsCarry(c, env, cell, cmd);
  }

  lemma CarryStep(c: Codec, env: Env, rows: Rows, cmd: Command)
    requires Sees(rows, env.now, UserKey(cmd.key)) && KeepsDeadline(cmd)
    ensures var e, e' := rows[UserKey(cmd.key)].deadline, ValueDeadline(Apply(c, env, rows, cmd).rows, cmd.key);
            e'.None? || e' == Some(e) || e' == Some(Carried(e, env.now))
  {
    hide Decide, RemainingMs;
    CarryDecision(c, env, Look(rows, env.now, cmd.key), cmd);
    ApplyOnKey(c, env, rows, cmd);
  }

  /** Every step of the run finds the key live. */
  ghost predicate LiveThroughout(c: Codec, rows: Rows, steps: seq<Step>, key: Bytes)
    decreases |steps|
  {
    steps != [] ==>
      && Sees(rows, steps[0].env.now, UserKey(key))
      && LiveThroughout(c, Apply(c, steps[0].env, rows, steps[0].cmd).rows, steps[1..], key)
  }

  predicate WholeMs(steps: seq<Step>) {
    forall i :: 0 <= i < |steps| ==> steps[i].env.now % 1_000_000 == 0
  }

  /** What a run of carried writes cannot bring a deadline below, but for one second a write: the deadline itself
      when it is near, the horizon when it is further off, and the start when it is too great for a time. */
  function Floor(e: nat, start: nat): nat {
    if Near(e, start) then e else if Datable(e) then Horizon(start) else Second(start)
  }

  lemma FloorRises(e: nat, start: nat, later: nat)
    requires start <= later && Clock(later)
    ensures Floor(e, start) <= Floor(e, later)
    ensures Floor(e, later) <= e
  {
  }

  lemma CarriedFloor(e: nat, now: nat)
    requires Second(now) < e < 0x1_0000_0000_0000_0000 && Clock(now)
    ensures Floor(e, now) - 1 <= Carried(e, now) <= e && Near(Carried(e, now), now)
    ensures Second(now) > 0 ==> Carried(e, now) > 0
  {
    hide Carried, RemainingMs;
    if !Datable(e) {
      CarriedWrapped(e, now);
    } else if Near(e, now) {
      CarriedNear(e, now);
    } else {
      CarriedFar(e, now);
    }
  }

  /** Where n carried writes that began at `start` leave a deadline e: at e or earlier, by no more than n seconds
      below the floor; not at 0, which would mean no deadline, once the clock is past second 0; and at e when every
      clock reading is a whole millisecond and e is within the greatest 64-bit duration. */
  ghost predicate Drifted(e: nat, e': nat, steps: seq<Step>, start: nat) {
    && Floor(e, start) - |steps| <= e' <= e
    && (Second(start) > 0 ==> e' > 0)
    && (WholeMs(steps) && e * 1_000_000_000 - start <= 9_223_372_036_854_000_000 ==> e' == e)
  }

  lemma DriftOn(e: nat, e1: nat, e': nat, steps: seq<Step>, start: nat)
    requires steps != [] && start <= steps[0].env.now && Clock(steps[0].env.now)
    requires Second(steps[0].env.now) < e < 0x1_0000_0000_0000_0000
    requires e1 == e || e1 == Carried(e, steps[0].env.now)
    requires if e1 == 0 then e' == 0 else Drifted(e1, e', steps[1..], steps[0].env.now)
    ensures Drifted(e, e', steps, start)
  {
    var now := steps[0].env.now;
    FloorRises(e, start, now);
    CarriedFloor(e, now);
    if WholeMs(steps) && e * 1_000_000_000 - start <= 9_223_372_036_854_000_000 {
      assert now % 1_000_000 == 0;
      CarriedDeadline(e, now);
    }
    hide Carried, Floor, Horizon;
    assert e1 != 0 ==> Floor(e1, now) == e1 || e1 == e by { FloorWhenNear(e1, now); }
    assert WholeMs(steps) ==> WholeMs(steps[1..]);
  }

  lemma FloorWhenNear(e: nat, now: nat)
    ensures Near(e, now) ==> Floor(e, now) == e
  {
  }

  /** Over any run of n TTL-preserving writes that find the key live, with the key still there at the end. */
  lemma {:induction false} CarryRun(c: Codec, rows: Rows, start: nat, steps: seq<Step>, key: Bytes, e: nat)
    requires Clocked(steps, start) && LiveThroughout(c, rows, steps, key) && Clock(LastTime(steps, start))
    requires ValueDeadline(rows, key) == Some(e) && 0 < e < 0x1_0000_0000_0000_0000
    requires forall i :: 0 <= i < |steps| ==> steps[i].cmd.key == key && KeepsDeadline(steps[i].cmd)
    ensures var e' := ValueDeadline(Run(c, rows, steps), key); e'.Some? ==> Drifted(e, e'.value, steps, start)
    decreases |steps|
  {
    hide Apply, Carried, KeepsDeadline, Floor;
    if steps == [] {
      FloorRises(e, start, start);
    } else {
      var env, cmd, rest := steps[0].env, steps[0].cmd, steps[1..];
      var rows' := Apply(c, env, rows, cmd).rows;
      assert steps[0].cmd.key == key && KeepsDeadline(steps[0].cmd);
      ClockedTail(steps, start);
      CarryStep(c, env, rows, cmd);
      assert Run(c, rows, steps) == Run(c, rows', rest);
      if ValueDeadline(rows', key).None? {
        assert rest == [];
      } else {
        var e1 := ValueDeadline(rows', key).value;
        CarriedFloor(e, env.now);
        if e1 == 0 { NoDeadlineStays(c, rows', rest, key); } else { CarryRun(c, rows', env.now, rest, key, e1); }
        var end := ValueDeadline(Run(c, rows', rest), key);
        if end.Some? { DriftOn(e, e1, end.value, steps, start); }
      }
    }
  }

  lemma {:induction false} NoDeadlineStays(c: Codec, rows: Rows, steps: seq<Step>, key: Bytes)
    requires LiveThroughout(c, rows, steps, key) && ValueDeadline(rows, key) == Some(0)
    requires forall i :: 0 <= i < |steps| ==> steps[i].cmd.key == key && KeepsDeadline(steps[i].cmd)
    ensures var e' := ValueDeadline(Run(c, rows, steps), key); e'.None? || e' == Some(0)
    decreases |steps|
  {
    if steps != [] {
      hide KeepsDeadline, Apply;
      var env, cmd, rest := steps[0].env, steps[0].cmd, steps[1..];
      var rows' := Apply(c, env, rows, cmd).rows;
      assert steps[0].cmd.key == key && KeepsDeadline(steps[0].cmd);
      CarryStep(c, env, rows, cmd);
      assert Run(c, rows, steps) == Run(c, rows', rest);
      if ValueDeadline(rows', key).None? {
        assert rest == [];
      } else {
        NoDeadlineStays(c, rows', rest, key);
      }
    }
  }
}
