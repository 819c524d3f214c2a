/** The options of SET, parsed twice: once by the RESP handler (server/server.go), once by the Lua
    bridge (store/lua.go). */
module SetOptions {
  import opened Octets
  import opened Decimal
  import opened Commands

  /** strings.ToUpper as far as a comparison with an ASCII name can tell. Besides the ASCII letters, two others
      have an ASCII capital: U+017F, the long s, and U+0131, the dotless i. Every other byte outside ASCII
      stays outside. */
  function Upper(s: Bytes): (r: Bytes)
    ensures |r| <= |s|
    decreases |s|
  {
    if s == [] then []
    else if |s| >= 2 && s[0] == 0xC5 && s[1] == 0xBF then [83] + Upper(s[2..])
    else if |s| >= 2 && s[0] == 0xC4 && s[1] == 0xB1 then [73] + Upper(s[2..])
    else [if 97 <= s[0] <= 122 then s[0] - 32 else s[0]] + Upper(s[1..])
  }

  lemma {:induction false} CapitalsStay(s: Bytes)
    requires forall i :: 0 <= i < |s| ==> 65 <= s[i] <= 90
    ensures Upper(s) == s
  {
    if s != [] { CapitalsStay(s[1..]); }
  }

  const NX: Bytes := [78, 88]
  const XX: Bytes := [88, 88]
  const GET: Bytes := [71, 69, 84]
  const EX: Bytes := [69, 88]
  const PX: Bytes := [80, 88]
  const EXAT: Bytes := [69, 88, 65, 84]
  const PXAT: Bytes := [80, 88, 65, 84]

  datatype Rejection = WrongArity | SyntaxError | NotAnInteger
  datatype Parse = Accepted(cmd: Command) | Rejected(why: Rejection)

  /** The command before any option: SET key value. */
  function Bare(key: Bytes, value: Bytes): Command { Command(Set, key, [value], 0, Always, false) }

  /** What the two grammars share: the option a token names. */
  datatype SetOption = Condition(c: Condition) | ReturnOld | Seconds | Millis | AtSeconds | AtMillis | Foreign

  function OptionOf(token: Bytes): SetOption {
    var t := Upper(token);
    if t == NX then Condition(IfAbsent)
    else if t == XX then Condition(IfPresent)
    else if t == GET then ReturnOld
    else if t == EX then Seconds
    else if t == PX then Millis
    else if t == EXAT then AtSeconds
    else if t == PXAT then AtMillis
    else Foreign
  }

  /** The TTL an option and its argument set; the two absolute forms need the clock. */
  function Ttl(o: SetOption, n: int, nowMs: int): int {
    match o
    case Seconds => Wrap64(n * 1000)
    case AtSeconds => FromNow(Wrap64(n * 1000), nowMs)
    case AtMillis => FromNow(n, nowMs)
    case _ => n
  }

  function FromNow(at: int, nowMs: int): int {
    var ttl := Wrap64(at - nowMs);
    if ttl < 0 then 1 else ttl
  }

  /** The RESP reading of the tokens after SET key value: a foreign token is a syntax error. */
  function RespReading(tokens: seq<Bytes>, cmd: Command, nowMs: int): Parse
    decreases |tokens|
  {
    if tokens == [] then Accepted(cmd) else
    match OptionOf(tokens[0])
    case Condition(c) => RespReading(tokens[1..], cmd.(condition := c), nowMs)
    case ReturnOld => RespReading(tokens[1..], cmd.(returnOld := true), nowMs)
    case Foreign => Rejected(SyntaxError)
    case o =>
      if |tokens| == 1 then Rejected(SyntaxError)
      else if !ParseInt(tokens[1]).Good? then Rejected(NotAnInteger)
      else RespReading(tokens[2..], cmd.(ttlMs := Ttl(o, ParseInt(tokens[1]).n, nowMs)), nowMs)
  }

  /** The Lua reading: it knows no absolute deadlines and passes over what it does not know. */
  function LuaReading(tokens: seq<Bytes>, cmd: Command): Parse
    decreases |tokens|
  {
    if tokens == [] then Accepted(cmd) else
    match OptionOf(tokens[0])
    case Condition(c) => LuaReading(tokens[1..], cmd.(condition := c))
    case ReturnOld => LuaReading(tokens[1..], cmd.(returnOld := true))
    case Seconds | Millis =>
      if |tokens| == 1 then Rejected(SyntaxError)
      else if !ParseInt(tokens[1]).Good? then Rejected(NotAnInteger)
      else LuaReading(tokens[2..], cmd.(ttlMs := Ttl(OptionOf(tokens[0]), ParseInt(tokens[1]).n, 0)))
    case _ => LuaReading(tokens[1..], cmd)
  }

  /** handleSet: `argv` is the whole request, SET included. */
  method ParseResp(argv: seq<Bytes>, nowMs: int) returns (r: Parse)
    ensures |argv| < 3 ==> r == Rejected(WrongArity)
    ensures |argv| >= 3 ==> r == RespReading(argv[3..], Bare(argv[1], argv[2]), nowMs)
  {
    if |argv| < 3 { return Rejected(WrongArity); }
    var c := Bare(argv[1], argv[2]);
    var i := 3;
    while i < |argv|
      invariant 3 <= i <= |argv|
      invariant RespReading(argv[3..], Bare(argv[1], argv[2]), nowMs) == RespReading(argv[i..], c, nowMs)
    {
      var opt := OptionOf(argv[i]);
      assert argv[i..][1..] == argv[i + 1..];
      if opt.Condition? {
        c := c.(condition := opt.c);
      } else if opt.ReturnOld? {
        c := c.(returnOld := true);
      } else if opt.Foreign? {
        return Rejected(SyntaxError);
      } else {
        if i + 1 >= |argv| { return Rejected(SyntaxError); }
        var parsed := ParseInt(argv[i + 1]);
        if !parsed.Good? { return Rejected(NotAnInteger); }
        assert argv[i..][2..] == argv[i + 2..];
        c := c.(ttlMs := Ttl(opt, parsed.n, nowMs));
        i := i + 1;
      }
      i := i + 1;
    }
    return Accepted(c);
  }

  /** parseCommandForLua on SET: positions count from 1 and `i` moves before the argument is read. */
  method ParseLua(argv: seq<Bytes>) returns (r: Parse)
    ensures |argv| < 3 ==> r == Rejected(WrongArity)
    ensures |argv| >= 3 ==> r == LuaReading(argv[3..], Bare(argv[1], argv[2]))
  {
    var top := |argv|;
    if top < 3 { return Rejected(WrongArity); }
    var cmd := Bare(argv[1], argv[2]);
    var i := 4;
    while i <= top
      invariant 4 <= i <= top + 1
      invariant LuaReading(argv[3..], Bare(argv[1], argv[2])) == LuaReading(argv[i - 1..], cmd)
    {
      var arg := OptionOf(argv[i - 1]);
      assert argv[i - 1..][1..] == argv[i..];
      if arg.Condition? {
        cmd := cmd.(condition := arg.c);
      } else if arg.ReturnOld? {
        cmd := cmd.(returnOld := true);
      } else if arg.Seconds? || arg.Millis? {
        if i + 1 > top { return Rejected(SyntaxError); }
        assert argv[i - 1..][2..] == argv[i + 1..];
        i := i + 1;
        var parsed := ParseInt(argv[i - 1]);
        if !parsed.Good? { return Rejected(NotAnInteger); }
        cmd := cmd.(ttlMs := if arg.Seconds? then Wrap64(parsed.n * 1000) else parsed.n);
      }
      i := i + 1;
    }
    return Accepted(cmd);
  }

  /** Both readings stay on the options they share, up to the end or to the first rejection. */
  predicate Shared(tokens: seq<Bytes>)
    decreases |tokens|
  {
    tokens == [] ||
    match OptionOf(tokens[0])
    case Condition(_) => Shared(tokens[1..])
    case ReturnOld => Shared(tokens[1..])
    case Seconds | Millis => |tokens| == 1 || !ParseInt(tokens[1]).Good? || Shared(tokens[2..])
    case _ => false
  }

  /** On NX, XX, GET, EX n and PX n, in any order, case and repetition, and whatever n is, the two
      parsers reject for the same reason or build the same command. */
  lemma {:induction false} ParsersAgree(tokens: seq<Bytes>, cmd: Command, nowMs: int)
    requires Shared(tokens)
    ensures RespReading(tokens, cmd, nowMs) == LuaReading(tokens, cmd)
    decreases |tokens|
  {
    if tokens != [] {
      match OptionOf(tokens[0]) {
        case Condition(c) => ParsersAgree(tokens[1..], cmd.(condition := c), nowMs);
        case ReturnOld => ParsersAgree(tokens[1..], cmd.(returnOld := true), nowMs);
        case Seconds | Millis =>
          if |tokens| > 1 && ParseInt(tokens[1]).Good? {
            ParsersAgree(tokens[2..], cmd.(ttlMs := Ttl(OptionOf(tokens[0]), ParseInt(tokens[1]).n, nowMs)), nowMs);
          }
        case _ =>
      }
    }
  }

  // Every list of options, the absolute deadlines included.

  /** Every EX and PX that Lua reads as an option has an integer after it. */
  predicate NumbersParse(tokens: seq<Bytes>)
    decreases |tokens|
  {
    tokens == [] ||
    match OptionOf(tokens[0])
    case Seconds | Millis => |tokens| > 1 && ParseInt(tokens[1]).Good? && NumbersParse(tokens[2..])
    case _ => NumbersParse(tokens[1..])
  }

  /** Every option is one RESP knows, and each that takes an integer has one. */
  predicate Known(tokens: seq<Bytes>)
    decreases |tokens|
  {
    tokens == [] ||
    match OptionOf(tokens[0])
    case Condition(_) => Known(tokens[1..])
    case ReturnOld => Known(tokens[1..])
    case Foreign => false
    case _ => |tokens| > 1 && ParseInt(tokens[1]).Good? && Known(tokens[2..])
  }

  /** Exactly which option lists are accepted: Lua asks for integers after EX and PX, RESP for known options. */
  lemma {:induction false} AcceptedLists(tokens: seq<Bytes>, cmd: Command, nowMs: int)
    ensures LuaReading(tokens, cmd).Accepted? <==> NumbersParse(tokens)
    ensures RespReading(tokens, cmd, nowMs).Accepted? <==> Known(tokens)
    decreases |tokens|
  {
    hide ParseInt, Ttl, OptionOf;
    if tokens != [] {
      match OptionOf(tokens[0]) {
        case Condition(c) => AcceptedLists(tokens[1..], cmd.(condition := c), nowMs);
        case ReturnOld => AcceptedLists(tokens[1..], cmd.(returnOld := true), nowMs);
        case Foreign => AcceptedLists(tokens[1..], cmd, nowMs);
        case o =>
          AcceptedLists(tokens[1..], cmd, nowMs);
          if |tokens| > 1 && ParseInt(tokens[1]).Good? {
            var n := ParseInt(tokens[1]).n;
            AcceptedLists(tokens[2..], cmd.(ttlMs := Ttl(o, n, nowMs)), nowMs);
            AcceptedLists(tokens[2..], cmd.(ttlMs := Ttl(o, n, 0)), nowMs);
          }
      }
    }
  }

  /** An integer names no option, so Lua passes over the argument of EXAT and PXAT too. */
  lemma IntegersNameNoOption(token: Bytes)
    requires ParseInt(token).Good?
    ensures OptionOf(token) == Foreign
  {
    assert token != [] && token[0] < 65 by { IntegersBeginBelowLetters(token); }
    hide ParseInt;
    assert Upper(token)[0] == token[0];
  }

  lemma IntegersBeginBelowLetters(token: Bytes)
    requires ParseInt(token).Good?
    ensures token != [] && token[0] < 65
  {
  }

  lemma {:induction false} KnownIsReadable(tokens: seq<Bytes>)
    requires Known(tokens)
    ensures NumbersParse(tokens)
    decreases |tokens|
  {
    hide ParseInt, OptionOf;
    if tokens != [] {
      var o := OptionOf(tokens[0]);
      if o.Condition? || o.ReturnOld? {
        KnownIsReadable(tokens[1..]);
      } else {
        KnownIsReadable(tokens[2..]);
        IntegersNameNoOption(tokens[1]);
        assert tokens[1..][1..] == tokens[2..];
      }
    }
  }

  /** The TTL a list leaves in place of `ttlMs`: the last EX, PX, EXAT or PXAT decides. */
  function RespTtl(tokens: seq<Bytes>, ttlMs: int, nowMs: int): int
    decreases |tokens|
  {
    if tokens == [] then ttlMs else
    match OptionOf(tokens[0])
    case Condition(_) => RespTtl(tokens[1..], ttlMs, nowMs)
    case ReturnOld => RespTtl(tokens[1..], ttlMs, nowMs)
    case Foreign => RespTtl(tokens[1..], ttlMs, nowMs)
    case o =>
      if |tokens| == 1 || !ParseInt(tokens[1]).Good? then ttlMs
      else RespTtl(tokens[2..], Ttl(o, ParseInt(tokens[1]).n, nowMs), nowMs)
  }

  /** ... and for Lua the last EX or PX. */
  function LuaTtl(tokens: seq<Bytes>, ttlMs: int): int
    decreases |tokens|
  {
    if tokens == [] then ttlMs else
    match OptionOf(tokens[0])
    case Seconds | Millis =>
      if |tokens| == 1 || !ParseInt(tokens[1]).Good? then ttlMs
      else LuaTtl(tokens[2..], Ttl(OptionOf(tokens[0]), ParseInt(tokens[1]).n, 0))
    case _ => LuaTtl(tokens[1..], ttlMs)
  }

  /** On a list RESP accepts, the two commands are the same up to the TTL. */
  lemma {:induction false} SameButTtl(tokens: seq<Bytes>, cmd: Command, ttlMs: int, nowMs: int)
    requires Known(tokens)
    ensures var resp, lua := RespReading(tokens, cmd.(ttlMs := ttlMs), nowMs), LuaReading(tokens, cmd);
            && resp.Accepted? && lua.Accepted?
            && resp.cmd == lua.cmd.(ttlMs := RespTtl(tokens, ttlMs, nowMs))
            && lua.cmd.ttlMs == LuaTtl(tokens, cmd.ttlMs)
    decreases |tokens|
  {
    hide ParseInt, OptionOf, Wrap64, FromNow;
    if tokens != [] {
      var o := OptionOf(tokens[0]);
      if o.Condition? {
        SameButTtl(tokens[1..], cmd.(condition := o.c), ttlMs, nowMs);
      } else if o.ReturnOld? {
        SameButTtl(tokens[1..], cmd.(returnOld := true), ttlMs, nowMs);
      } else if o.Seconds? || o.Millis? {
        var n := ParseInt(tokens[1]).n;
        SameButTtl(tokens[2..], cmd.(ttlMs := Ttl(o, n, 0)), Ttl(o, n, nowMs), nowMs);
      } else {
        SameButTtl(tokens[2..], cmd, Ttl(o, ParseInt(tokens[1]).n, nowMs), nowMs);
        IntegersNameNoOption(tokens[1]);
        assert tokens[1..][1..] == tokens[2..];
      }
    }
  }

  /** For every list: the parsers agree, on the command or on rejecting the list, if and only if some EX or PX
      lacks its integer, or every option is one RESP knows and both count the same TTL. */
  lemma AgreementIsExact(tokens: seq<Bytes>, cmd: Command, nowMs: int)
    ensures var resp, lua := RespReading(tokens, cmd, nowMs), LuaReading(tokens, cmd);
            (resp == lua || (resp.Rejected? && lua.Rejected?)) <==>
              || !NumbersParse(tokens)
              || (Known(tokens) && RespTtl(tokens, cmd.ttlMs, nowMs) == LuaTtl(tokens, cmd.ttlMs))
  {
    hide ParseInt, OptionOf, Wrap64, RespReading, LuaReading, RespTtl, LuaTtl, NumbersParse, Known;
    AcceptedLists(tokens, cmd, nowMs);
    if Known(tokens) {
      KnownIsReadable(tokens);
      SameButTtl(tokens, cmd, cmd.ttlMs, nowMs);
    }
  }

  /** KEEPTTL, an option of neither parser: a syntax error to one, passed over by the other. */
  lemma ForeignOptionSplits(cmd: Command, nowMs: int)
    ensures var tokens := [[75, 69, 69, 80, 84, 84, 76]];
            RespReading(tokens, cmd, nowMs) == Rejected(SyntaxError) && LuaReading(tokens, cmd) == Accepted(cmd)
  {
    var token: Bytes := [75, 69, 69, 80, 84, 84, 76];
    assert OptionOf(token) == Foreign by { CapitalsStay(token); }
    hide OptionOf;
    assert [token][1..] == [];
  }

  /** PXAT n, which Lua passes over: it sets a TTL for a client and none for a script. */
  lemma AbsoluteDeadlineSplits(cmd: Command, n: int, nowMs: int)
    requires IsInt64(n)
    ensures RespReading([PXAT, FormatInt(n)], cmd, nowMs) == Accepted(cmd.(ttlMs := FromNow(n, nowMs)))
    ensures LuaReading([PXAT, FormatInt(n)], cmd) == Accepted(cmd)
  {
    NamesRead();
    ParseFormat(n);
    IntegersNameNoOption(FormatInt(n));
    hide OptionOf, ParseInt, FormatInt, FromNow;
    var tokens := [PXAT, FormatInt(n)];
    assert tokens[1..] == [FormatInt(n)] && tokens[2..] == [] && [FormatInt(n)][1..] == [];
    assert LuaReading([], cmd) == Accepted(cmd);
  }

  /** The options of a command as tokens. */
  function Render(cmd: Command): seq<Bytes> { ConditionTokens(cmd.condition) + FlagTokens(cmd) }

  function ConditionTokens(c: Condition): seq<Bytes> {
    match c case Always => [] case IfAbsent => [NX] case IfPresent => [XX]
  }

  function FlagTokens(cmd: Command): seq<Bytes> { (if cmd.returnOld then [GET] else []) + TtlTokens(cmd.ttlMs) }

  function TtlTokens(ttlMs: int): seq<Bytes> { if ttlMs == 0 then [] else [PX, FormatInt(ttlMs)] }

  lemma NamesRead()
    ensures OptionOf(NX) == Condition(IfAbsent) && OptionOf(XX) == Condition(IfPresent)
    ensures OptionOf(GET) == ReturnOld && OptionOf(PX) == Millis && OptionOf(PXAT) == AtMillis
    ensures OptionOf(EX) == Seconds && OptionOf(EXAT) == AtSeconds
  {
    CapitalsStay(EX);
    CapitalsStay(EXAT);
    CapitalsStay(NX);
    CapitalsStay(XX);
    CapitalsStay(GET);
    CapitalsStay(PX);
    CapitalsStay(PXAT);
    hide Upper;
    assert NX[0] != XX[0] && |GET| == 3 && PX[0] != NX[0] && PX[0] != XX[0] && PX[0] != EX[0] && PXAT[0] != EXAT[0];
    assert EX[0] != NX[0] && EX[0] != XX[0];
  }

  lemma ReadTtl(ttlMs: int, cmd: Command, nowMs: int)
    requires IsInt64(ttlMs) && (ttlMs == 0 ==> cmd.ttlMs == 0)
    ensures RespReading(TtlTokens(ttlMs), cmd, nowMs) == Accepted(cmd.(ttlMs := ttlMs)) && Shared(TtlTokens(ttlMs))
  {
    NamesRead();
    ParseFormat(ttlMs);
    hide OptionOf, ParseInt, FormatInt, Wrap64;
    if ttlMs != 0 { assert TtlTokens(ttlMs)[2..] == []; }
  }

  /** An option without an argument, in front of others. */
  lemma ReadFront(token: Bytes, rest: seq<Bytes>, cmd: Command, nowMs: int)
    ensures OptionOf(token).ReturnOld? ==>
              RespReading([token] + rest, cmd, nowMs) == RespReading(rest, cmd.(returnOld := true), nowMs)
    ensures OptionOf(token).Condition? ==>
              RespReading([token] + rest, cmd, nowMs) == RespReading(rest, cmd.(condition := OptionOf(token).c), nowMs)
    ensures OptionOf(token).ReturnOld? || OptionOf(token).Condition? ==> (Shared([token] + rest) <==> Shared(rest))
  {
    hide OptionOf, ParseInt;
    assert ([token] + rest)[1..] == rest;
  }

  lemma ReadFlags(cmd: Command, c: Command, nowMs: int)
    requires IsInt64(cmd.ttlMs) && c == cmd.(returnOld := false, ttlMs := 0)
    ensures RespReading(FlagTokens(cmd), c, nowMs) == Accepted(cmd) && Shared(FlagTokens(cmd))
  {
    NamesRead();
    hide RespReading, Shared, OptionOf, TtlTokens;
    var rest := TtlTokens(cmd.ttlMs);
    ReadTtl(cmd.ttlMs, c.(returnOld := cmd.returnOld), nowMs);
    ReadFront(GET, rest, c, nowMs);
    if !cmd.returnOld { assert FlagTokens(cmd) == rest; }
  }

  /** Rendering a SET command's options and parsing them gives the command back, in both parsers. */
  lemma RenderParse(key: Bytes, value: Bytes, cmd: Command, nowMs: int)
    requires cmd.op == Set && cmd.key == key && cmd.args == [value] && IsInt64(cmd.ttlMs)
    ensures RespReading(Render(cmd), Bare(key, value), nowMs) == Accepted(cmd)
    ensures LuaReading(Render(cmd), Bare(key, value)) == Accepted(cmd)
  {
    NamesRead();
    hide RespReading, LuaReading, Shared, OptionOf, FlagTokens;
    var c, rest := Bare(key, value), FlagTokens(cmd);
    ReadFlags(cmd, c.(condition := cmd.condition), nowMs);
    ReadFront(NX, rest, c, nowMs);
    ReadFront(XX, rest, c, nowMs);
    if cmd.condition == Always { assert Render(cmd) == rest; }
    ParsersAgree(Render(cmd), c, nowMs);
  }

  // What the options mean.

  /** The same letters, large or small. */
  predicate SpelledAs(s: Bytes, name: Bytes) {
    |s| == |name| && forall i :: 0 <= i < |s| ==> s[i] == name[i] || (s[i] >= 32 && s[i] - 32 == name[i])
  }

  /** An option is read in any mixture of cases. */
  lemma {:induction false} AnyCase(s: Bytes, name: Bytes)
    requires SpelledAs(s, name) && forall i :: 0 <= i < |name| ==> 65 <= name[i] <= 90
    ensures Upper(s) == name
  {
    if s != [] {
      AnyCase(s[1..], name[1..]);
      assert name == [name[0]] + name[1..];
    }
  }

  predicate TakesNumber(o: SetOption) { o.Seconds? || o.Millis? || o.AtSeconds? || o.AtMillis? }

  /** An option with its number, in front of others. */
  lemma ReadPair(token: Bytes, n: int, rest: seq<Bytes>, cmd: Command, nowMs: int)
    requires IsInt64(n) && TakesNumber(OptionOf(token))
    ensures var c := cmd.(ttlMs := Ttl(OptionOf(token), n, nowMs));
            RespReading([token, FormatInt(n)] + rest, cmd, nowMs) == RespReading(rest, c, nowMs)
    ensures OptionOf(token).Seconds? || OptionOf(token).Millis? ==>
              LuaReading([token, FormatInt(n)] + rest, cmd)
              == LuaReading(rest, cmd.(ttlMs := Ttl(OptionOf(token), n, 0)))
  {
    ParseFormat(n);
    hide OptionOf, ParseInt, FormatInt, Ttl;
    var tokens := [token, FormatInt(n)] + rest;
    assert tokens[2..] == rest && tokens[1] == FormatInt(n);
  }

  /** EX counts seconds: EX n reads as PX 1000n wherever it stands, in both parsers, and EXAT n as PXAT 1000n. */
  lemma SecondsAreMillis(n: int, rest: seq<Bytes>, cmd: Command, nowMs: int)
    requires IsInt64(n * 1000)
    ensures RespReading([EX, FormatInt(n)] + rest, cmd, nowMs)
            == RespReading([PX, FormatInt(n * 1000)] + rest, cmd, nowMs)
    ensures LuaReading([EX, FormatInt(n)] + rest, cmd) == LuaReading([PX, FormatInt(n * 1000)] + rest, cmd)
    ensures RespReading([EXAT, FormatInt(n)] + rest, cmd, nowMs)
            == RespReading([PXAT, FormatInt(n * 1000)] + rest, cmd, nowMs)
  {
    NamesRead();
    hide RespReading, LuaReading, OptionOf, FormatInt, FromNow;
    ReadPair(EX, n, rest, cmd, nowMs);
    ReadPair(PX, n * 1000, rest, cmd, nowMs);
    ReadPair(EXAT, n, rest, cmd, nowMs);
    ReadPair(PXAT, n * 1000, rest, cmd, nowMs);
  }

  /** PX counts milliseconds from now. PXAT names a moment: one to come is as far off as it is, one that has passed
      is one millisecond off. */
  lemma MillisCount(n: int, rest: seq<Bytes>, cmd: Command, nowMs: int)
    requires IsInt64(n) && IsInt64(n - nowMs)
    ensures RespReading([PX, FormatInt(n)] + rest, cmd, nowMs) == RespReading(rest, cmd.(ttlMs := n), nowMs)
    ensures LuaReading([PX, FormatInt(n)] + rest, cmd) == LuaReading(rest, cmd.(ttlMs := n))
    ensures RespReading([PXAT, FormatInt(n)] + rest, cmd, nowMs)
            == RespReading(rest, cmd.(ttlMs := if n < nowMs then 1 else n - nowMs), nowMs)
  {
    NamesRead();
    hide RespReading, LuaReading, OptionOf, FormatInt;
    ReadPair(PX, n, rest, cmd, nowMs);
    ReadPair(PXAT, n, rest, cmd, nowMs);
  }

  /** NX, XX and GET set what they say, and the last of several wins. */
  lemma FlagsCount(rest: seq<Bytes>, cmd: Command, nowMs: int)
    ensures RespReading([NX] + rest, cmd, nowMs) == RespReading(rest, cmd.(condition := IfAbsent), nowMs)
    ensures RespReading([XX] + rest, cmd, nowMs) == RespReading(rest, cmd.(condition := IfPresent), nowMs)
    ensures RespReading([GET] + rest, cmd, nowMs) == RespReading(rest, cmd.(returnOld := true), nowMs)
  {
    NamesRead();
    hide RespReading, OptionOf;
    ReadFront(NX, rest, cmd, nowMs);
    ReadFront(XX, rest, cmd, nowMs);
    ReadFront(GET, rest, cmd, nowMs);
  }
}
