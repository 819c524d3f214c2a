/** KEYS patterns: the backtracking matcher against a token semantics. */
module Glob {
  import opened Octets

  const STAR: byte := 42
  const QUESTION: byte := 63
  const OPEN: byte := 91
  const CLOSE: byte := 93
  const CARET: byte := 94
  const DASH: byte := 45
  const BACKSLASH: byte := 92

  /** `Bad` stands for what cannot be read: a class without its bracket or a lone backslash. */
  datatype Token = Star | Any | Class(negated: bool, ranges: seq<(byte, byte)>) | Literal(b: byte) | Bad

  /** The first closing bracket at or after `i`, or the length. */
  function Closing(p: Bytes, i: nat): (end: nat)
    requires i <= |p|
    ensures i <= end <= |p|
    ensures end < |p| ==> p[end] == CLOSE
    ensures forall j :: i <= j < end ==> p[j] != CLOSE
    decreases |p| - i
  {
    if i == |p| || p[i] == CLOSE then i else Closing(p, i + 1)
  }

  /** The members of a class body: ranges x-y, and single bytes as one-byte ranges. */
  function Ranges(body: Bytes): seq<(byte, byte)> {
    if body == [] then []
    else if |body| >= 3 && body[1] == DASH then [(body[0], body[2])] + Ranges(body[3..])
    else [(body[0], body[0])] + Ranges(body[1..])
  }

  function ClassOf(body: Bytes): Token {
    if body != [] && body[0] == CARET then Class(true, Ranges(body[1..])) else Class(false, Ranges(body))
  }

  /** A pattern as tokens, up to the first one that cannot be read. */
  function Tokens(p: Bytes): seq<Token> {
    if p == [] then []
    else if p[0] == STAR then [Star] + Tokens(p[1..])
    else if p[0] == QUESTION then [Any] + Tokens(p[1..])
    else if p[0] == OPEN then
      var end := Closing(p, 1);
      if end == |p| then [Bad] else [ClassOf(p[1..end])] + Tokens(p[end + 1..])
    else if p[0] == BACKSLASH then
      if |p| == 1 then [Bad] else [Literal(p[1])] + Tokens(p[2..])
    else [Literal(p[0])] + Tokens(p[1..])
  }

  predicate WellFormed(p: Bytes) { Bad !in Tokens(p) }

  predicate InRanges(ranges: seq<(byte, byte)>, b: byte) {
    exists i :: 0 <= i < |ranges| && ranges[i].0 <= b <= ranges[i].1
  }

  /** The tokens that take exactly one byte. */
  predicate TakesOne(t: Token, b: byte) {
    match t
    case Any => true
    case Class(negated, ranges) => InRanges(ranges, b) != negated
    case Literal(x) => x == b
    case _ => false
  }

  // The declarative semantics: a text matches when it splits into one piece a token.

  predicate Accepts(t: Token, piece: Bytes) { t == Star || (|piece| == 1 && TakesOne(t, piece[0])) }

  function Flatten(pieces: seq<Bytes>): Bytes {
    if pieces == [] then [] else pieces[0] + Flatten(pieces[1..])
  }

  predicate Splits(ts: seq<Token>, pieces: seq<Bytes>) {
    |ts| == |pieces| && forall i :: 0 <= i < |ts| ==> Accepts(ts[i], pieces[i])
  }

  ghost predicate Matches(ts: seq<Token>, text: Bytes) {
    exists pieces :: Splits(ts, pieces) && Flatten(pieces) == text
  }

  /** The tokens before the unreadable one match the beginning of the text. */
  ghost predicate Stumbles(ts: seq<Token>, text: Bytes) {
    ts != [] && ts[|ts| - 1] == Bad && exists i :: 0 <= i <= |text| && Matches(ts[..|ts| - 1], text[..i])
  }

  // The same by recursion on tokens and text.

  predicate Match(ts: seq<Token>, text: Bytes)
    decreases |ts| + |text|
  {
    if ts == [] then text == []
    else if ts[0] == Star then Match(ts[1..], text) || (text != [] && Match(ts, text[1..]))
    else text != [] && TakesOne(ts[0], text[0]) && Match(ts[1..], text[1..])
  }

  predicate Reach(ts: seq<Token>, text: Bytes)
    decreases |ts| + |text|
  {
    if ts == [] then false
    else if ts[0] == Bad then true
    else if ts[0] == Star then Reach(ts[1..], text) || (text != [] && Reach(ts, text[1..]))
    else text != [] && TakesOne(ts[0], text[0]) && Reach(ts[1..], text[1..])
  }

  lemma {:induction false} MatchSplits(ts: seq<Token>, text: Bytes) returns (pieces: seq<Bytes>)
    requires Match(ts, text)
    ensures Splits(ts, pieces) && Flatten(pieces) == text
    decreases |ts| + |text|
  {
    if ts == [] {
      pieces := [];
    } else if ts[0] == Star {
      if Match(ts[1..], text) {
        var rest := MatchSplits(ts[1..], text);
        pieces := [[]] + rest;
        assert pieces[1..] == rest;
      } else {
        var rest := MatchSplits(ts, text[1..]);
        pieces := [[text[0]] + rest[0]] + rest[1..];
        assert pieces[1..] == rest[1..];
        assert text == [text[0]] + text[1..];
      }
    } else {
      var rest := MatchSplits(ts[1..], text[1..]);
      pieces := [[text[0]]] + rest;
      assert pieces[1..] == rest;
      assert text == [text[0]] + text[1..];
    }
  }

  lemma {:induction false} SplitsMatch(ts: seq<Token>, pieces: seq<Bytes>)
    requires Splits(ts, pieces)
    ensures Match(ts, Flatten(pieces))
    decreases |ts|, if pieces == [] then 0 else |pieces[0]|
  {
    if ts != [] {
      var text := Flatten(pieces);
      if ts[0] == Star {
        if pieces[0] == [] {
          assert text == Flatten(pieces[1..]);
          SplitsMatch(ts[1..], pieces[1..]);
        } else {
          var shorter := [pieces[0][1..]] + pieces[1..];
          assert shorter[1..] == pieces[1..];
          assert text[1..] == Flatten(shorter);
          SplitsMatch(ts, shorter);
        }
      } else {
        assert text[1..] == Flatten(pieces[1..]);
        SplitsMatch(ts[1..], pieces[1..]);
      }
    }
  }

  /** Recursion and declaration agree. */
  lemma MatchIsSplit(ts: seq<Token>, text: Bytes)
    ensures Match(ts, text) <==> Matches(ts, text)
  {
    if Match(ts, text) { var pieces := MatchSplits(ts, text); }
    if Matches(ts, text) {
      var pieces :| Splits(ts, pieces) && Flatten(pieces) == text;
      SplitsMatch(ts, pieces);
    }
  }

  lemma {:induction false} BadNeverMatches(ts: seq<Token>, text: Bytes)
    ensures Match(ts, text) ==> Bad !in ts
    ensures Reach(ts, text) ==> Bad in ts
    decreases |ts| + |text|
  {
    if ts != [] {
      BadNeverMatches(ts[1..], text);
      if text != [] {
        BadNeverMatches(ts[1..], text[1..]);
        BadNeverMatches(ts, text[1..]);
      }
    }
  }

  /** Tokens has its unreadable token, if any, at the end. */
  lemma {:induction false} BadIsLast(p: Bytes)
    ensures forall i :: 0 <= i < |Tokens(p)| - 1 ==> Tokens(p)[i] != Bad
    decreases |p|
  {
    if p != [] {
      if p[0] == OPEN {
        if Closing(p, 1) < |p| { BadIsLast(p[Closing(p, 1) + 1..]); }
      } else if p[0] == BACKSLASH {
        if |p| > 1 { BadIsLast(p[2..]); }
      } else {
        BadIsLast(p[1..]);
      }
    }
  }

  lemma {:induction false} ReachPrefix(ts: seq<Token>, text: Bytes)
    requires ts != [] && ts[|ts| - 1] == Bad && Bad !in ts[..|ts| - 1]
    ensures Reach(ts, text) <==> exists i :: 0 <= i <= |text| && Match(ts[..|ts| - 1], text[..i])
    decreases |ts| + |text|
  {
    var good := ts[..|ts| - 1];
    if |ts| == 1 {
      assert good == [] && text[..0] == [] && Match(good, text[..0]);
    } else {
      assert good[0] == ts[0] && good[1..] == ts[1..][..|ts| - 2];
      ReachPrefix(ts[1..], text);
      if text != [] {
        ReachPrefix(ts, text[1..]);
        ReachPrefix(ts[1..], text[1..]);
      }
      ReachPrefixStep(good, text);
    }
  }

  /** A prefix match of a text is one of its tail with one more byte in front, or an empty start. */
  lemma ReachPrefixStep(good: seq<Token>, text: Bytes)
    requires good != [] && good[0] != Bad
    ensures (exists i :: 0 <= i <= |text| && Match(good, text[..i])) <==>
            if good[0] == Star then
              || (exists i :: 0 <= i <= |text| && Match(good[1..], text[..i]))
              || (text != [] && exists i :: 0 <= i <= |text[1..]| && Match(good, text[1..][..i]))
            else
              && text != [] && TakesOne(good[0], text[0])
              && exists i :: 0 <= i <= |text[1..]| && Match(good[1..], text[1..][..i])
  {
    if text != [] {
      forall i | 0 <= i <= |text[1..]| ensures text[..i + 1][1..] == text[1..][..i] && text[..i + 1] != [] { }
    }
    if i :| 0 <= i <= |text| && Match(good, text[..i]) {
      if i > 0 { assert text[..i][1..] == text[1..][..i - 1]; }
    }
    if good[0] == Star {
      if i :| 0 <= i <= |text| && Match(good[1..], text[..i]) { assert Match(good, text[..i]); }
      if text != [] {
        if i :| 0 <= i <= |text[1..]| && Match(good, text[1..][..i]) {
          assert text[..i + 1][1..] == text[1..][..i];
          assert Match(good, text[..i + 1]);
        }
      }
    } else if text != [] && TakesOne(good[0], text[0]) {
      if i :| 0 <= i <= |text[1..]| && Match(good[1..], text[1..][..i]) {
        assert text[..i + 1][1..] == text[1..][..i] && text[..i + 1][0] == text[0];
        assert Match(good, text[..i + 1]);
      }
    }
  }

  lemma ReachIsStumble(p: Bytes, text: Bytes)
    ensures Reach(Tokens(p), text) <==> Stumbles(Tokens(p), text)
  {
    hide Match, Reach, Matches, Tokens;
    var ts := Tokens(p);
    BadIsLast(p);
    BadNeverMatches(ts, text);
    if ts != [] && ts[|ts| - 1] == Bad {
      ReachPrefix(ts, text);
      forall i | 0 <= i <= |text| ensures Match(ts[..|ts| - 1], text[..i]) <==> Matches(ts[..|ts| - 1], text[..i]) {
        MatchIsSplit(ts[..|ts| - 1], text[..i]);
      }
    }
  }

  // The matcher as the source runs it.

  lemma RangesStep(body: Bytes, b: byte)
    requires body != []
    ensures var wide := |body| >= 3 && body[1] == DASH;
            InRanges(Ranges(body), b) <==>
              (if wide then body[0] <= b <= body[2] else b == body[0])
              || InRanges(Ranges(if wide then body[3..] else body[1..]), b)
  {
    hide InRanges;
    var wide := |body| >= 3 && body[1] == DASH;
    InRangesCons((body[0], if wide then body[2] else body[0]), Ranges(if wide then body[3..] else body[1..]), b);
  }

  lemma InRangesCons(first: (byte, byte), rest: seq<(byte, byte)>, b: byte)
    ensures InRanges([first] + rest, b) <==> first.0 <= b <= first.1 || InRanges(rest, b)
  {
    var all := [first] + rest;
    if InRanges(rest, b) {
      var i :| 0 <= i < |rest| && rest[i].0 <= b <= rest[i].1;
      assert all[i + 1] == rest[i];
    }
    if first.0 <= b <= first.1 { assert all[0].0 <= b <= all[0].1; }
  }

  /** The class loop: `i` runs over the body and jumps over the end of a range. */
  method ClassHas(pattern: Bytes, start: nat, end: nat, b: byte) returns (matched: bool)
    requires start <= end <= |pattern|
    ensures matched == InRanges(Ranges(pattern[start..end]), b)
  {
    matched := false;
    var i := start;
    while i < end
      invariant start <= i <= end
      invariant InRanges(Ranges(pattern[start..end]), b) <==> matched || InRanges(Ranges(pattern[i..end]), b)
    {
      var body := pattern[i..end];
      RangesStep(body, b);
      if i + 2 < end && pattern[i + 1] == DASH {
        if b >= pattern[i] && b <= pattern[i + 2] { matched := true; }
        assert body[3..] == pattern[i + 3..end];
        i := i + 2;
      } else {
        if b == pattern[i] { matched := true; }
        assert body[1..] == pattern[i + 1..end];
      }
      i := i + 1;
    }
  }

  /** What is left to decide at pattern position `pi` and text position `ti`. */
  predicate SameQuestion(p: Bytes, text: Bytes, pi: nat, ti: nat, pi': nat, ti': nat)
    requires pi <= |p| && ti <= |text| && pi' <= |p| && ti' <= |text|
  {
    && Match(Tokens(p[pi..]), text[ti..]) == Match(Tokens(p[pi'..]), text[ti'..])
    && Reach(Tokens(p[pi..]), text[ti..]) == Reach(Tokens(p[pi'..]), text[ti'..])
  }

  lemma StepOne(p: Bytes, text: Bytes, pi: nat, ti: nat, pi': nat)
    requires pi < pi' <= |p| && ti <= |text|
    requires Tokens(p[pi..]) == [Tokens(p[pi..])[0]] + Tokens(p[pi'..])
    requires Tokens(p[pi..])[0] != Star && Tokens(p[pi..])[0] != Bad
    ensures ti == |text| || !TakesOne(Tokens(p[pi..])[0], text[ti]) ==>
              !Match(Tokens(p[pi..]), text[ti..]) && !Reach(Tokens(p[pi..]), text[ti..])
    ensures ti < |text| && TakesOne(Tokens(p[pi..])[0], text[ti]) ==> SameQuestion(p, text, pi, ti, pi', ti + 1)
  {
    assert Tokens(p[pi..])[1..] == Tokens(p[pi'..]);
    if ti < |text| { assert text[ti..][1..] == text[ti + 1..]; }
  }

  lemma {:induction false} ClosingShift(p: Bytes, pi: nat, i: nat)
    requires pi <= i <= |p|
    ensures Closing(p[pi..], i - pi) == Closing(p, i) - pi
    decreases |p| - i
  {
    if i < |p| && p[i] != CLOSE { ClosingShift(p, pi, i + 1); }
  }

  /** Two stars are one. */
  lemma {:induction false} StarsCollapse(ts: seq<Token>, text: Bytes)
    ensures Match([Star, Star] + ts, text) == Match([Star] + ts, text)
    ensures Reach([Star, Star] + ts, text) == Reach([Star] + ts, text)
    decreases |text|
  {
    assert ([Star, Star] + ts)[1..] == [Star] + ts;
    if text != [] { StarsCollapse(ts, text[1..]); }
  }

  lemma {:induction false} StarTail(ts: seq<Token>, text: Bytes)
    ensures Match([Star] + ts, text) <==> exists i :: 0 <= i <= |text| && Match(ts, text[i..])
    ensures Reach([Star] + ts, text) <==> exists i :: 0 <= i <= |text| && Reach(ts, text[i..])
    decreases |text|
  {
    assert ([Star] + ts)[1..] == ts && text[0..] == text;
    if text != [] {
      StarTail(ts, text[1..]);
      forall i | 0 <= i <= |text| - 1 ensures text[1..][i..] == text[i + 1..] { }
      if i :| 0 <= i <= |text[1..]| && Match(ts, text[1..][i..]) { assert Match(ts, text[i + 1..]); }
      if i :| 0 <= i <= |text[1..]| && Reach(ts, text[1..][i..]) { assert Reach(ts, text[i + 1..]); }
      if i :| 1 <= i <= |text| && Match(ts, text[i..]) { assert Match(ts, text[1..][i - 1..]); }
      if i :| 1 <= i <= |text| && Reach(ts, text[i..]) { assert Reach(ts, text[1..][i - 1..]); }
    }
  }

  lemma OneStar(pattern: Bytes, pi: nat)
    requires pi < |pattern| && pattern[pi] == STAR
    ensures Tokens(pattern[pi..]) == [Star] + Tokens(pattern[pi + 1..])
  {
    hide Closing, ClassOf;
    assert pattern[pi..][1..] == pattern[pi + 1..];
  }

  /** A star at the end takes all that is left. */
  lemma FinalStar(text: Bytes)
    ensures Match([Star] + Tokens([]), text) && !Reach([Star] + Tokens([]), text)
  {
    StarTail([], text);
    assert text[|text|..] == [];
  }

  /** The run of stars from `start` counts as one. */
  method SkipStars(pattern: Bytes, ghost text: Bytes, start: nat) returns (pi: nat)
    requires start < |pattern| && pattern[start] == STAR
    ensures start < pi <= |pattern|
    ensures Match([Star] + Tokens(pattern[pi..]), text) == Match(Tokens(pattern[start..]), text)
    ensures Reach([Star] + Tokens(pattern[pi..]), text) == Reach(Tokens(pattern[start..]), text)
  {
    hide *;
    pi := start + 1;
    OneStar(pattern, start);
    while pi < |pattern| && pattern[pi] == STAR
      invariant start < pi <= |pattern|
      invariant Match([Star] + Tokens(pattern[pi..]), text) == Match(Tokens(pattern[start..]), text)
      invariant Reach([Star] + Tokens(pattern[pi..]), text) == Reach(Tokens(pattern[start..]), text)
    {
      OneStar(pattern, pi);
      StarsCollapse(Tokens(pattern[pi + 1..]), text);
      assert [Star] + Tokens(pattern[pi..]) == [Star, Star] + Tokens(pattern[pi + 1..]);
      pi := pi + 1;
    }
  }

  /** The star block: skip the run of stars, then try every suffix of the text in turn. */
  method MatchStar(pattern: Bytes, text: Bytes, start: nat, ti: nat) returns (ok: bool, err: bool)
    requires start < |pattern| && ti <= |text| && pattern[start] == STAR
    ensures ok == Match(Tokens(pattern[start..]), text[ti..])
    ensures err == Reach(Tokens(pattern[start..]), text[ti..])
    decreases |pattern| - start, 0
  {
    hide *;
    var pi := SkipStars(pattern, text[ti..], start);
    ghost var ts := Tokens(pattern[pi..]);
    StarTail(ts, text[ti..]);
    if pi == |pattern| {
      assert pattern[pi..] == [];
      FinalStar(text[ti..]);
      return true, false;
    }
    var i := ti;
    while i <= |text|
      invariant ti <= i <= |text| + 1
      invariant forall j :: ti <= j < i ==> !Match(ts, text[j..]) && !Reach(ts, text[j..])
    {
      ok, err := MatchFrom(pattern, text, pi, i);
      if err || ok {
        assert text[ti..][i - ti..] == text[i..];
        BadNeverMatches([Star] + ts, text[ti..]);
        return ok, err;
      }
      i := i + 1;
    }
    forall k | 0 <= k <= |text[ti..]| ensures !Match(ts, text[ti..][k..]) && !Reach(ts, text[ti..][k..]) {
      assert text[ti..][k..] == text[ti + k..];
    }
    return false, false;
  }

  lemma ClassToken(pattern: Bytes, pi: nat, end: nat)
    requires pi < |pattern| && pattern[pi] == OPEN && end == Closing(pattern, pi + 1)
    ensures Tokens(pattern[pi..])
            == if end == |pattern| then [Bad] else [ClassOf(pattern[pi + 1..end])] + Tokens(pattern[end + 1..])
  {
    var p := pattern[pi..];
    ClosingShift(pattern, pi, pi + 1);
    assert Closing(p, 1) == end - pi;
    assert end < |pattern| ==> p[1..end - pi] == pattern[pi + 1..end] && p[end - pi + 1..] == pattern[end + 1..];
    hide Closing, ClassOf;
    ClassFirst(p);
  }

  lemma ClassFirst(p: Bytes)
    requires p != [] && p[0] == OPEN
    ensures var end := Closing(p, 1);
            Tokens(p) == if end == |p| then [Bad] else [ClassOf(p[1..end])] + Tokens(p[end + 1..])
  {
    hide Closing, ClassOf;
  }

  /** The class block at an opening bracket: its closing bracket, and whether the class takes the byte. */
  method MatchClass(pattern: Bytes, pi: nat, text: Bytes, ti: nat) returns (end: nat, taken: bool)
    requires pi < |pattern| && ti <= |text| && pattern[pi] == OPEN
    ensures pi < end <= |pattern|
    ensures end == |pattern| ==> Tokens(pattern[pi..]) == [Bad]
    ensures end < |pattern| ==>
      && Tokens(pattern[pi..]) == [Tokens(pattern[pi..])[0]] + Tokens(pattern[end + 1..])
      && Tokens(pattern[pi..])[0].Class?
      && taken == (ti < |text| && TakesOne(Tokens(pattern[pi..])[0], text[ti]))
  {
    hide Tokens, Ranges, InRanges;
    end := pi + 1;
    while end < |pattern| && pattern[end] != CLOSE
      invariant pi < end <= |pattern|
      invariant Closing(pattern, end) == Closing(pattern, pi + 1)
    {
      end := end + 1;
    }
    taken := false;
    ClassToken(pattern, pi, end);
    if end == |pattern| { return; }
    ghost var body := pattern[pi + 1..end];
    if ti >= |text| { return; }
    var negated := pattern[pi + 1] == CARET;
    var start := pi + 1;
    if negated { start := start + 1; }
    assert (if negated then body[1..] else body) == pattern[start..end];
    var matched := ClassHas(pattern, start, end, text[ti]);
    taken := matched != negated;
  }

  /** One token that takes one byte: where it ends, whether it takes the byte, or an error. */
  method MatchOne(pattern: Bytes, pi: nat, text: Bytes, ti: nat) returns (next: nat, taken: bool, err: bool)
    requires pi < |pattern| && ti <= |text| && pattern[pi] != STAR
    ensures err ==> Tokens(pattern[pi..]) == [Bad]
    ensures !err ==>
      && pi < next <= |pattern|
      && Tokens(pattern[pi..]) == [Tokens(pattern[pi..])[0]] + Tokens(pattern[next..])
      && Tokens(pattern[pi..])[0] != Star && Tokens(pattern[pi..])[0] != Bad
      && taken == (ti < |text| && TakesOne(Tokens(pattern[pi..])[0], text[ti]))
  {
    hide InRanges, Closing, ClassOf;
    var c := pattern[pi];
    if c == OPEN {
      var end;
      end, taken := MatchClass(pattern, pi, text, ti);
      if end == |pattern| { return end, false, true; }
      return end + 1, taken, false;
    }
    next := pi + 1;
    if c == BACKSLASH {
      if next == |pattern| { return next, false, true; }
      next := next + 1;
    }
    assert pattern[pi..][next - pi..] == pattern[next..];
    return next, ti < |text| && (c == QUESTION || pattern[next - 1] == text[ti]), false;
  }

  /** The closure `match`: true or false at (pi0, ti0), or an error. */
  method MatchFrom(pattern: Bytes, text: Bytes, pi0: nat, ti0: nat) returns (ok: bool, err: bool)
    requires pi0 <= |pattern| && ti0 <= |text|
    ensures ok == Match(Tokens(pattern[pi0..]), text[ti0..])
    ensures err == Reach(Tokens(pattern[pi0..]), text[ti0..])
    decreases |pattern| - pi0, 1
  {
    var pi, ti := pi0, ti0;
    while pi < |pattern|
      invariant pi0 <= pi <= |pattern| && ti0 <= ti <= |text|
      invariant SameQuestion(pattern, text, pi0, ti0, pi, ti)
    {
      if pattern[pi] == STAR {
        ok, err := MatchStar(pattern, text, pi, ti);
        return;
      }
      var next, taken, bad := MatchOne(pattern, pi, text, ti);
      if bad { return false, true; }
      StepOne(pattern, text, pi, ti, next);
      if !taken { return false, false; }
      pi, ti := next, ti + 1;
    }
    ok, err := ti == |text|, false;
  }

  /** redisGlobMatch: no error and the right answer on every readable pattern; an error exactly when the
      tokens before the unreadable one match the beginning of the text. */
  method GlobMatch(pattern: Bytes, text: Bytes) returns (ok: bool, err: bool)
    ensures ok <==> WellFormed(pattern) && Matches(Tokens(pattern), text)
    ensures err <==> Stumbles(Tokens(pattern), text)
    ensures err ==> !WellFormed(pattern)
  {
    assert pattern[0..] == pattern && text[0..] == text;
    ok, err := MatchFrom(pattern, text, 0, 0);
    MatchIsSplit(Tokens(pattern), text);
    ReachIsStumble(pattern, text);
    BadNeverMatches(Tokens(pattern), text);
  }

  // Consequences.

  /** How many bytes the first token of a readable pattern spans. */
  function Span(p: Bytes): (n: nat)
    requires p != [] && WellFormed(p)
    ensures 0 < n <= |p|
    ensures Tokens(p) == [Tokens(p)[0]] + Tokens(p[n..])
  {
    if p[0] == OPEN then Closing(p, 1) + 1 else if p[0] == BACKSLASH then 2 else 1
  }

  lemma SpanExtends(p: Bytes, q: Bytes)
    requires p != [] && WellFormed(p)
    ensures Tokens(p + q) == [Tokens(p)[0]] + Tokens(p[Span(p)..] + q)
  {
    var n := Span(p);
    assert (p + q)[n..] == p[n..] + q;
    if p[0] == OPEN {
      ClosingExtends(p, q, 1);
      assert (p + q)[1..n - 1] == p[1..n - 1];
    }
  }

  lemma RestWellFormed(p: Bytes)
    requires p != [] && WellFormed(p)
    ensures WellFormed(p[Span(p)..])
  {
    var rest := Tokens(p[Span(p)..]);
    forall i | 0 <= i < |rest| ensures rest[i] != Bad {
      assert Tokens(p)[i + 1] == rest[i];
    }
  }

  lemma NoTokens()
    ensures Tokens([]) == []
  {
  }

  lemma NextToken(p: Bytes, q: Bytes) returns (first: Token, rest: Bytes)
    requires p != [] && WellFormed(p)
    ensures |rest| < |p| && WellFormed(rest)
    ensures Tokens(p) == [first] + Tokens(rest) && Tokens(p + q) == [first] + Tokens(rest + q)
  {
    RestWellFormed(p);
    SpanExtends(p, q);
    first, rest := Tokens(p)[0], p[Span(p)..];
  }

  lemma {:induction false} TokensConcat(p: Bytes, q: Bytes)
    requires WellFormed(p)
    ensures Tokens(p + q) == Tokens(p) + Tokens(q)
    decreases |p|
  {
    hide *;
    if p == [] {
      assert p + q == q;
      NoTokens();
    } else {
      var first, rest := NextToken(p, q);
      TokensConcat(rest, q);
      assert [first] + (Tokens(rest) + Tokens(q)) == [first] + Tokens(rest) + Tokens(q);
    }
  }

  lemma {:induction false} ClosingExtends(p: Bytes, q: Bytes, i: nat)
    requires i <= |p| && Closing(p, i) < |p|
    ensures Closing(p + q, i) == Closing(p, i)
    decreases |p| - i
  {
    if p[i] != CLOSE { ClosingExtends(p, q, i + 1); }
  }

  lemma {:induction false} StarsCollapseWithin(a: seq<Token>, b: seq<Token>, text: Bytes)
    ensures Match(a + ([Star] + ([Star] + b)), text) == Match(a + ([Star] + b), text)
    ensures Reach(a + ([Star] + ([Star] + b)), text) == Reach(a + ([Star] + b), text)
    decreases |a| + |text|
  {
    var two, one := a + ([Star] + ([Star] + b)), a + ([Star] + b);
    if a == [] {
      assert two == [Star, Star] + b && one == [Star] + b;
      StarsCollapse(b, text);
    } else {
      assert two[1..] == a[1..] + ([Star] + ([Star] + b)) && one[1..] == a[1..] + ([Star] + b);
      StarsCollapseWithin(a[1..], b, text);
      if text != [] {
        StarsCollapseWithin(a[1..], b, text[1..]);
        StarsCollapseWithin(a, b, text[1..]);
      }
    }
  }

  /** In a pattern, a run of stars after any readable beginning is one star. */
  lemma RunsOfStarsCollapse(p: Bytes, q: Bytes, text: Bytes)
    requires WellFormed(p)
    ensures Match(Tokens(p + [STAR] + ([STAR] + q)), text) == Match(Tokens(p + [STAR] + q), text)
    ensures Reach(Tokens(p + [STAR] + ([STAR] + q)), text) == Reach(Tokens(p + [STAR] + q), text)
  {
    StarWithin(p, q);
    StarWithin(p, [STAR] + q);
    StarThen(q);
    StarsCollapseWithin(Tokens(p), Tokens(q), text);
  }

  lemma StarThen(q: Bytes)
    ensures Tokens([STAR] + q) == [Star] + Tokens(q)
  {
    assert ([STAR] + q)[1..] == q;
  }

  lemma StarWithin(p: Bytes, q: Bytes)
    requires WellFormed(p)
    ensures Tokens(p + [STAR] + q) == Tokens(p) + ([Star] + Tokens(q))
  {
    StarThen(q);
    TokensConcat(p, [STAR] + q);
    assert p + [STAR] + q == p + ([STAR] + q);
  }

  /** Every byte with a backslash before it. */
  function Escape(text: Bytes): Bytes {
    if text == [] then [] else [BACKSLASH, text[0]] + Escape(text[1..])
  }

  /** The fully escaped form of a text is readable and matches that text only. */
  lemma {:induction false} EscapeMatchesOnly(text: Bytes, other: Bytes)
    ensures WellFormed(Escape(text))
    ensures Match(Tokens(Escape(text)), other) <==> other == text
  {
    if text != [] {
      var p := Escape(text);
      assert p[2..] == Escape(text[1..]);
      EscapeMatchesOnly(text[1..], if other == [] then [] else other[1..]);
      assert Tokens(p)[1..] == Tokens(p[2..]);
      assert text == [text[0]] + text[1..];
      if other != [] { assert other == [other[0]] + other[1..]; }
    }
  }

  // What patterns mean.

  /** `?` takes any one byte. */
  lemma {:induction false} QuestionMarks(n: nat, text: Bytes)
    ensures var p := seq(n, _ => QUESTION);
            WellFormed(p) && (Match(Tokens(p), text) <==> |text| == n)
    decreases n
  {
    if n > 0 {
      var p := seq(n, _ => QUESTION);
      assert p[1..] == seq(n - 1, _ => QUESTION);
      QuestionMarks(n - 1, if text == [] then [] else text[1..]);
      assert Tokens(p)[1..] == Tokens(p[1..]);
    }
  }

  lemma {:induction false} LiteralThen(p: Bytes, ts: seq<Token>, text: Bytes)
    ensures Match(Tokens(Escape(p)) + ts, text) <==> p <= text && Match(ts, text[|p|..])
    decreases |p|
  {
    if p == [] {
      assert Tokens(Escape(p)) + ts == ts && text[0..] == text;
    } else {
      var e := Escape(p);
      assert e[2..] == Escape(p[1..]);
      var all := Tokens(e) + ts;
      assert all[0] == Literal(p[0]) && all[1..] == Tokens(Escape(p[1..])) + ts;
      if text != [] {
        LiteralThen(p[1..], ts, text[1..]);
        assert p == [p[0]] + p[1..] && text == [text[0]] + text[1..];
        if p <= text { assert text[|p|..] == text[1..][|p| - 1..]; }
      }
    }
  }

  lemma {:induction false} StarThenRest(ts: seq<Token>, text: Bytes)
    ensures Match([Star] + ts, text) <==> exists i :: 0 <= i <= |text| && Match(ts, text[i..])
    decreases |text|
  {
    assert ([Star] + ts)[1..] == ts && text[0..] == text;
    if text != [] {
      StarThenRest(ts, text[1..]);
      if i :| 0 <= i <= |text[1..]| && Match(ts, text[1..][i..]) { assert text[i + 1..] == text[1..][i..]; }
      if i :| 0 <= i <= |text| && Match(ts, text[i..]) {
        if i > 0 { assert text[i..] == text[1..][i - 1..]; }
      }
    }
  }

  predicate EndsWith(text: Bytes, q: Bytes) { |q| <= |text| && text[|text| - |q|..] == q }

  lemma StarEnds(q: Bytes, rest: Bytes)
    ensures Match([Star] + Tokens(Escape(q)), rest) <==> EndsWith(rest, q)
  {
    hide Match, Tokens, Escape;
    StarThenRest(Tokens(Escape(q)), rest);
    forall i | 0 <= i <= |rest| ensures Match(Tokens(Escape(q)), rest[i..]) <==> rest[i..] == q {
      EscapeMatchesOnly(q, rest[i..]);
    }
    if |q| <= |rest| { assert Match(Tokens(Escape(q)), rest[|rest| - |q|..]) <==> rest[|rest| - |q|..] == q; }
  }

  /** `p*q` takes what begins with p and goes on to end with q. */
  lemma StarBetween(p: Bytes, q: Bytes, text: Bytes)
    ensures Match(Tokens(Escape(p) + [STAR] + Escape(q)), text) <==> p <= text && EndsWith(text[|p|..], q)
  {
    hide Match, Tokens, Escape, WellFormed, EndsWith;
    EscapeMatchesOnly(p, []);
    StarWithin(Escape(p), Escape(q));
    LiteralThen(p, [Star] + Tokens(Escape(q)), text);
    if p <= text { StarEnds(q, text[|p|..]); }
  }

  /** A class as a pattern: an opening bracket, a body without a closing one, and the closing one. */
  function Bracketed(body: Bytes): Bytes { [OPEN] + body + [CLOSE] }

  lemma {:induction false} ClosingAtEnd(p: Bytes, i: nat)
    requires i < |p| && p[|p| - 1] == CLOSE && forall j :: i <= j < |p| - 1 ==> p[j] != CLOSE
    ensures Closing(p, i) == |p| - 1
    decreases |p| - i
  {
    if i < |p| - 1 { ClosingAtEnd(p, i + 1); }
  }

  lemma BracketedMatches(body: Bytes, text: Bytes)
    requires CLOSE !in body
    ensures WellFormed(Bracketed(body))
    ensures Match(Tokens(Bracketed(body)), text) <==> |text| == 1 && TakesOne(ClassOf(body), text[0])
  {
    var p := Bracketed(body);
    ClosingAtEnd(p, 1);
    assert p[1..|p| - 1] == body && p[|p|..] == [];
    assert Tokens(p) == [ClassOf(body)] + [];
    hide TakesOne;
    if text != [] { assert Match(Tokens(p)[1..], text[1..]) <==> text[1..] == []; }
  }

  /** The empty class takes nothing. */
  lemma EmptyClass(text: Bytes)
    ensures !Match(Tokens(Bracketed([])), text)
  {
    BracketedMatches([], text);
  }

  /** `[x-y...]` takes the bytes from x to y and what the rest takes. */
  lemma RangeClass(x: byte, y: byte, rest: Bytes, text: Bytes)
    requires CLOSE !in [x, DASH, y] + rest && x != CARET && (rest == [] || rest[0] != CARET)
    ensures Match(Tokens(Bracketed([x, DASH, y] + rest)), text) <==>
            |text| == 1 && (x <= text[0] <= y || Match(Tokens(Bracketed(rest)), text))
  {
    var body := [x, DASH, y] + rest;
    assert body[3..] == rest;
    hide Match, Tokens, InRanges;
    BracketedMatches(body, text);
    BracketedMatches(rest, text);
    if text != [] { RangesStep(body, text[0]); }
  }

  /** `[x...]` takes x and what the rest takes, when x does not begin a range. */
  lemma ByteClass(x: byte, rest: Bytes, text: Bytes)
    requires CLOSE !in [x] + rest && x != CARET && (rest == [] || rest[0] != CARET)
    requires |rest| < 2 || rest[0] != DASH
    ensures Match(Tokens(Bracketed([x] + rest)), text) <==>
            |text| == 1 && (text[0] == x || Match(Tokens(Bracketed(rest)), text))
  {
    var body := [x] + rest;
    assert body[1..] == rest;
    hide Match, Tokens, InRanges;
    BracketedMatches(body, text);
    BracketedMatches(rest, text);
    if text != [] { RangesStep(body, text[0]); }
  }

  /** `[^...]` takes exactly the bytes that `[...]` does not. */
  lemma NegatedClass(body: Bytes, text: Bytes)
    requires CLOSE !in body && (body == [] || body[0] != CARET)
    ensures Match(Tokens(Bracketed([CARET] + body)), text) <==>
            |text| == 1 && !Match(Tokens(Bracketed(body)), text)
  {
    assert ([CARET] + body)[1..] == body;
    hide Match, Tokens, InRanges;
    BracketedMatches([CARET] + body, text);
    BracketedMatches(body, text);
  }

  /** Any other byte stands for itself, in front of any pattern. */
  lemma PlainByte(b: byte, q: Bytes, text: Bytes)
    requires b !in [STAR, QUESTION, OPEN, BACKSLASH]
    ensures Match(Tokens([b] + q), text) <==> text != [] && text[0] == b && Match(Tokens(q), text[1..])
  {
    assert ([b] + q)[1..] == q;
    assert Tokens([b] + q)[1..] == Tokens(q);
  }
}
