/** How the request handlers turn the words of a request into a command of the state machine. */
module Handlers {
  import opened Octets
  import opened Decimal
  import opened Commands
  import opened SetOptions
  import opened TypeRows

  /** The number of words a handler takes, the command name included. */
  predicate Arity(op: Op, words: nat) {
    match op
    case Set => words >= 3
    case GetSet | Append | IncrBy | DecrBy | Expire => words == 3
    case MSet => words >= 3 && words % 2 == 1
    case Del => words >= 2
    case FlushDb => words == 1 || words == 2
    case Incr | Decr | Persist => words == 2
    case HSet => words >= 4 && words % 2 == 0
    case HSetNx | LTrim | LRem => words == 4
    case HDel | LPush | RPush | LPushX | RPushX | SAdd | SRem => words >= 3
    case LPop | RPop | SPop => words == 2 || words == 3
    case Unknown => false
  }

  const SYNC: Bytes := [83, 89, 78, 67]
  const ASYNC: Bytes := [65, 83, 89, 78, 67]

  predicate IsInteger(word: Bytes) { ParseInt(word).Good? }

  /** What a handler checks in a request of the right length. */
  predicate Readable(op: Op, argv: seq<Bytes>, nowMs: int)
    requires Arity(op, |argv|)
  {
    match op
    case Set => RespReading(argv[3..], Bare(argv[1], argv[2]), nowMs).Accepted?
    case FlushDb => |argv| == 2 ==> Upper(argv[1]) == SYNC || Upper(argv[1]) == ASYNC
    case Expire => IsInteger(argv[2])
    case LTrim => IsInteger(argv[2]) && IsInteger(argv[3])
    case LRem => IsInteger(argv[2])
    case SPop => |argv| == 3 ==> IsInteger(argv[2]) && ParseInt(argv[2]).n >= 0
    case _ => true
  }

  predicate Keyless(op: Op) { op == MSet || op == Del || op == FlushDb }

  /** The command says what the request says: the words after the name, split into a key and arguments. */
  predicate Says(cmd: Command, argv: seq<Bytes>, nowMs: int)
    requires Arity(cmd.op, |argv|)
  {
    match cmd.op
    case Set => RespReading(argv[3..], Bare(argv[1], argv[2]), nowMs) == Accepted(cmd)
    case FlushDb => cmd.key == [] && cmd.args == []
    case Expire => cmd.key == argv[1] && IsInteger(argv[2]) && cmd.ttlMs == Wrap64(ParseInt(argv[2]).n * 1000)
    case _ =>
      if Keyless(cmd.op) then cmd.key == [] && cmd.args == argv[1..]
      else cmd.key == argv[1] && cmd.args == argv[2..]
  }

  /** The append loop of the handlers with any number of words. */
  method CollectArgs(argv: seq<Bytes>, from: nat) returns (args: seq<Bytes>)
    requires from <= |argv|
    ensures args == argv[from..]
  {
    args := [];
    for i := from to |argv|
      invariant args == argv[from..i]
    {
      args := args + [argv[i]];
    }
  }

  lemma {:induction false} SetKeepsShape(tokens: seq<Bytes>, cmd: Command, nowMs: int)
    requires cmd.op == Set
    ensures var r := RespReading(tokens, cmd, nowMs);
            r.Accepted? ==> r.cmd.op == Set && r.cmd.key == cmd.key && r.cmd.args == cmd.args
    ensures RespReading(tokens, cmd, nowMs) != Rejected(WrongArity)
    decreases |tokens|
  {
    if tokens != [] {
      match OptionOf(tokens[0]) {
        case Condition(c) => SetKeepsShape(tokens[1..], cmd.(condition := c), nowMs);
        case ReturnOld => SetKeepsShape(tokens[1..], cmd.(returnOld := true), nowMs);
        case Foreign =>
        case o =>
          if |tokens| > 1 && IsInteger(tokens[1]) {
            SetKeepsShape(tokens[2..], cmd.(ttlMs := Ttl(o, ParseInt(tokens[1]).n, nowMs)), nowMs);
          }
      }
    }
  }

  /** A handler turns a request away for its length, or for what it reads, and otherwise builds a whole
      command that says what the request says. */
  predicate Handled(op: Op, argv: seq<Bytes>, nowMs: int, r: Parse) {
    && (r == Rejected(WrongArity) <==> !Arity(op, |argv|))
    && (Arity(op, |argv|) ==> (r.Accepted? <==> Readable(op, argv, nowMs)))
    && (r.Accepted? ==> r.cmd.op == op && HandlerBuilt(r.cmd) && Says(r.cmd, argv, nowMs))
  }

  method HandleSet(argv: seq<Bytes>, nowMs: int) returns (r: Parse)
    ensures Handled(Set, argv, nowMs, r)
  {
    r := ParseResp(argv, nowMs);
    if |argv| >= 3 { SetKeepsShape(argv[3..], Bare(argv[1], argv[2]), nowMs); }
  }

  method HandleFlushDb(argv: seq<Bytes>, nowMs: int) returns (r: Parse)
    ensures Handled(FlushDb, argv, nowMs, r)
  {
    if |argv| != 1 && |argv| != 2 { return Rejected(WrongArity); }
    if |argv| == 2 && Upper(argv[1]) != SYNC && Upper(argv[1]) != ASYNC { return Rejected(SyntaxError); }
    return Accepted(Command(FlushDb, [], [], 0, Always, false));
  }

  /** "sync" written with a long s is SYNC too. */
  lemma LongSync()
    ensures Upper([0xC5, 0xBF, 121, 110, 99]) == SYNC
  {
    var s: Bytes := [0xC5, 0xBF, 121, 110, 99];
    assert s[2..] == [121, 110, 99] && [121, 110, 99][1..] == [110, 99] && [110, 99][1..] == [99] && [99][1..] == [];
    assert Upper([99]) == [67] + [] && Upper([110, 99]) == [78] + [67] && Upper([121, 110, 99]) == [89] + [78, 67];
  }

  method HandleExpire(argv: seq<Bytes>, nowMs: int) returns (r: Parse)
    ensures Handled(Expire, argv, nowMs, r)
  {
    hide ParseInt, Wrap64;
    if |argv| != 3 { return Rejected(WrongArity); }
    var secs := ParseInt(argv[2]);
    if !secs.Good? { return Rejected(NotAnInteger); }
    return Accepted(Command(Expire, argv[1], [], Wrap64(secs.n * 1000), Always, false));
  }

  /** The integer checks of LTRIM, LREM and SPOP. */
  method CheckWords(op: Op, argv: seq<Bytes>) returns (ok: bool)
    requires Arity(op, |argv|) && op != Set && op != FlushDb && op != Expire
    ensures ok <==> Readable(op, argv, 0)
  {
    hide ParseInt;
    if (op == LTrim || op == LRem) && !ParseInt(argv[2]).Good? { return false; }
    if op == LTrim && !ParseInt(argv[3]).Good? { return false; }
    if op == SPop && |argv| == 3 {
      var count := ParseInt(argv[2]);
      if !count.Good? || count.n < 0 { return false; }
    }
    return true;
  }

  lemma WordsAreWhole(op: Op, argv: seq<Bytes>)
    requires Arity(op, |argv|) && op != Set && op != FlushDb && op != Expire && Readable(op, argv, 0)
    ensures var cmd := if Keyless(op) then Command(op, [], argv[1..], 0, Always, false)
                       else Command(op, argv[1], argv[2..], 0, Always, false);
            HandlerBuilt(cmd) && Says(cmd, argv, 0)
  {
    hide ParseInt;
  }

  method HandleWords(op: Op, argv: seq<Bytes>, nowMs: int) returns (r: Parse)
    requires op != Set && op != FlushDb && op != Expire
    ensures Handled(op, argv, nowMs, r)
  {
    if !Arity(op, |argv|) { return Rejected(WrongArity); }
    var ok := CheckWords(op, argv);
    if !ok { return Rejected(NotAnInteger); }
    WordsAreWhole(op, argv);
    var args := CollectArgs(argv, if Keyless(op) then 1 else 2);
    return Accepted(Command(op, if Keyless(op) then [] else argv[1], args, 0, Always, false));
  }

  /** The request for a command: a name, which the handler does not look at, and its words. */
  function RequestOf(cmd: Command, secs: int): seq<Bytes> {
    if cmd.op == Set then [[], cmd.key] + cmd.args + Render(cmd)
    else if cmd.op == Expire then [[], cmd.key, FormatInt(secs)]
    else if Keyless(cmd.op) then [[]] + cmd.args
    else [[], cmd.key] + cmd.args
  }

  /** HandlerBuilt asks for nothing more than the handlers do: each such command has a request that they
      accept and that says it. */
  lemma EveryWholeCommandHasARequest(cmd: Command, secs: int, nowMs: int)
    requires HandlerBuilt(cmd) && (Keyless(cmd.op) ==> cmd.key == [])
    requires cmd.op == Set ==> IsInt64(cmd.ttlMs)
    requires cmd.op == Expire ==> IsInt64(secs) && cmd.ttlMs == Wrap64(secs * 1000)
    ensures var argv := RequestOf(cmd, secs);
            Arity(cmd.op, |argv|) && Readable(cmd.op, argv, nowMs) && Says(cmd, argv, nowMs)
  {
    hide RespReading, Render, Upper, Wrap64, ParseInt, FormatInt;
    var argv := RequestOf(cmd, secs);
    if cmd.op == Set {
      assert cmd.args == [cmd.args[0]] && argv[3..] == Render(cmd);
      RenderParse(cmd.key, cmd.args[0], cmd, nowMs);
    } else if cmd.op == Expire {
      ParseFormat(secs);
    } else if Keyless(cmd.op) {
      assert argv[1..] == cmd.args;
    } else {
      assert argv[2..] == cmd.args;
    }
  }

  // The requests of a client, word for word.

  /** The fewest words of a request, name included, and how many more it may have: none, one, any number, or any
      even number. */
  datatype More = NoMore | OneMore | AnyMore | PairsMore

  function Shape(op: Op): (nat, More) {
    match op
    case FlushDb => (1, OneMore)
    case Incr | Decr | Persist => (2, NoMore)
    case LPop | RPop | SPop => (2, OneMore)
    case Del => (2, AnyMore)
    case GetSet | Append | IncrBy | DecrBy | Expire => (3, NoMore)
    case MSet => (3, PairsMore)
    case Set | HDel | LPush | RPush | LPushX | RPushX | SAdd | SRem => (3, AnyMore)
    case HSetNx | LTrim | LRem => (4, NoMore)
    case HSet => (4, PairsMore)
    case Unknown => (0, NoMore)
  }

  /** Which lengths of requests a handler takes. */
  lemma ArityIsShape(op: Op, words: nat)
    requires op != Unknown
    ensures var (least, more) := Shape(op);
            Arity(op, words) <==>
              && words >= least
              && match more
                 case NoMore => words == least
                 case OneMore => words <= least + 1
                 case AnyMore => true
                 case PairsMore => (words - least) % 2 == 0
  {
  }

  /** Where a handler insists on a number, it takes exactly the 64-bit numerals; the count of SPOP must not be
      negative. */
  lemma NumbersAreChecked(argv: seq<Bytes>, nowMs: int, n: int)
    requires |argv| >= 3 && Numeral(argv[2], n)
    ensures |argv| == 3 ==> (Readable(SPop, argv, nowMs) <==> 0 <= n <= INT64_MAX)
    ensures |argv| == 3 ==> (Readable(Expire, argv, nowMs) <==> IsInt64(n))
    ensures |argv| == 4 ==> (Readable(LRem, argv, nowMs) <==> IsInt64(n))
    ensures |argv| == 4 && IsInt64(n) ==>
              forall m :: Numeral(argv[3], m) ==> (Readable(LTrim, argv, nowMs) <==> IsInt64(m))
  {
    OnlyNumber(argv[2], n);
    if |argv| == 4 {
      forall m | Numeral(argv[3], m) ensures IsInteger(argv[3]) <==> IsInt64(m) { OnlyNumber(argv[3], m); }
    }
    hide ParseInt, Numeral;
  }

  lemma OnlyNumber(word: Bytes, n: int)
    requires Numeral(word, n)
    ensures IsInteger(word) <==> IsInt64(n)
    ensures IsInt64(n) ==> ParseInt(word) == Good(n)
  {
    ParseIsNumeral(word, n);
    if IsInteger(word) {
      ParseIsNumeral(word, ParseInt(word).n);
      OneNumeral(word, n, ParseInt(word).n);
    }
  }

  lemma OneNumeral(word: Bytes, m: int, n: int)
    requires Numeral(word, m) && Numeral(word, n)
    ensures m == n
  {
    SignsAreNoDigits(word);
    hide AllDigits, NumberOf;
  }

  /** ... and nothing that is no numeral. */
  lemma NothingElseIsTaken(word: Bytes)
    ensures IsInteger(word) ==> exists n :: Numeral(word, n)
  {
    if IsInteger(word) { ParseIsNumeral(word, ParseInt(word).n); }
  }
}
