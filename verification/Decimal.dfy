/** The strconv conversions the state machine relies on: base-10 signed 64-bit parsing
    and formatting, with the value a failed conversion leaves behind. */
module Decimal {
  import opened Octets

  /** Outcome of strconv.ParseInt(s, 10, 64): a value, a syntax error, or a range error
      that still carries the nearest representable value. */
  datatype Parsed = Good(n: int) | Syntax | Range(clamped: int)

  datatype Scan = Done(n: nat) | BadDigit | TooBig

  predicate IsDigit(b: byte) { 48 <= b <= 57 }

  /** The digit loop: it stops at the first bad digit or at the first value over 64 bits. */
  function ScanDigits(b: Bytes, acc: nat): (s: Scan)
    requires acc < TWO64
    ensures s.Done? ==> s.n < TWO64
  {
    if b == [] then Done(acc)
    else if !IsDigit(b[0]) then BadDigit
    else if acc * 10 + (b[0] - 48) >= TWO64 then TooBig
    else ScanDigits(b[1..], acc * 10 + (b[0] - 48))
  }

  const PLUS: byte := 43
  const MINUS: byte := 45

  function ParseInt(b: Bytes): (p: Parsed)
    ensures p.Good? ==> IsInt64(p.n)
    ensures p.Range? ==> p.clamped == INT64_MIN || p.clamped == INT64_MAX
  {
    var negative := b != [] && b[0] == MINUS;
    var digits := if b != [] && (b[0] == MINUS || b[0] == PLUS) then b[1..] else b;
    if digits == [] then Syntax else
    match ScanDigits(digits, 0)
    case BadDigit => Syntax
    case TooBig => Range(if negative then INT64_MIN else INT64_MAX)
    case Done(n) =>
      if negative then (if n > TWO63 then Range(INT64_MIN) else Good(-(n as int)))
      else if n >= TWO63 then Range(INT64_MAX) else Good(n)
  }

  /** strconv.Atoi with its error ignored, as LTRIM, LREM and SPOP call it. */
  function Atoi(b: Bytes): (n: int)
    ensures IsInt64(n)
  {
    match ParseInt(b)
    case Good(n) => n
    case Syntax => 0
    case Range(n) => n
  }

  function Digits(n: nat): (r: Bytes)
    ensures r != [] && IsDigit(r[0])
  {
    if n < 10 then [48 + n] else Digits(n / 10) + [48 + n % 10]
  }

  function FormatInt(n: int): Bytes {
    if n < 0 then [MINUS] + Digits(-n) else Digits(n)
  }

  lemma {:induction false} ScanDigitsOfDigits(n: nat, rest: Bytes)
    requires n < TWO64
    ensures ScanDigits(Digits(n) + rest, 0) == ScanDigits(rest, n)
  {
    if n < 10 {
      assert (Digits(n) + rest)[1..] == rest;
    } else {
      var d := [48 + n % 10];
      assert Digits(n) + rest == Digits(n / 10) + (d + rest);
      ScanDigitsOfDigits(n / 10, d + rest);
      assert (d + rest)[1..] == rest;
    }
  }

  /** Parsing undoes formatting on every 64-bit integer. */
  lemma ParseFormat(n: int)
    requires IsInt64(n)
    ensures ParseInt(FormatInt(n)) == Good(n)
  {
    var magnitude := if n < 0 then -n else n;
    ScanDigitsOfDigits(magnitude, []);
    assert Digits(magnitude) + [] == Digits(magnitude);
    if n < 0 { assert FormatInt(n)[1..] == Digits(magnitude); }
  }

  // What a text stands for.

  predicate AllDigits(d: Bytes) { forall i :: 0 <= i < |d| ==> IsDigit(d[i]) }

  /** The number a string of digits stands for. */
  function NumberOf(d: Bytes): nat
    requires AllDigits(d)
  {
    if d == [] then 0 else NumberOf(d[..|d| - 1]) * 10 + (d[|d| - 1] - 48)
  }

  /** A decimal numeral: at least one digit, with or without one sign in front. */
  predicate Numeral(b: Bytes, n: int) {
    || (b != [] && AllDigits(b) && n == NumberOf(b))
    || (|b| > 1 && AllDigits(b[1..]) && b[0] == PLUS && n == NumberOf(b[1..]))
    || (|b| > 1 && AllDigits(b[1..]) && b[0] == MINUS && n == -(NumberOf(b[1..]) as int))
  }

  lemma {:induction false} ScanLast(d: Bytes, x: byte, acc: nat)
    requires acc < TWO64
    ensures ScanDigits(d + [x], acc)
            == match ScanDigits(d, acc)
               case Done(n) =>
                 if !IsDigit(x) then BadDigit
                 else if n * 10 + (x - 48) >= TWO64 then TooBig
                 else Done(n * 10 + (x - 48))
               case stopped => stopped
  {
    if d == [] {
      assert d + [x] == [x] && [x][1..] == [];
    } else {
      assert (d + [x])[1..] == d[1..] + [x];
      if IsDigit(d[0]) && acc * 10 + (d[0] - 48) < TWO64 { ScanLast(d[1..], x, acc * 10 + (d[0] - 48)); }
    }
  }

  /** The digit loop finds the value of a string of digits, or that it takes more than 64 bits. */
  lemma {:induction false} ScanIsValue(d: Bytes)
    ensures ScanDigits(d, 0).Done? ==> AllDigits(d)
    ensures AllDigits(d) ==> ScanDigits(d, 0) == if NumberOf(d) < TWO64 then Done(NumberOf(d)) else TooBig
  {
    if d != [] {
      var front, x := d[..|d| - 1], d[|d| - 1];
      assert d == front + [x];
      ScanIsValue(front);
      ScanLast(front, x, 0);
    }
  }

  /** ParseInt succeeds exactly on the numerals of 64-bit integers, with their value. */
  lemma ParseIsNumeral(b: Bytes, n: int)
    ensures ParseInt(b) == Good(n) <==> Numeral(b, n) && IsInt64(n)
  {
    hide ScanDigits, NumberOf, AllDigits;
    if b != [] {
      ScanIsValue(b);
      ScanIsValue(b[1..]);
      SignsAreNoDigits(b);
    }
  }

  lemma SignsAreNoDigits(b: Bytes)
    requires b != []
    ensures AllDigits(b) ==> b[0] != PLUS && b[0] != MINUS
  {
  }

  /** Atoi reads a numeral beyond 64 bits as the nearest 64-bit integer. */
  lemma AtoiClamps(b: Bytes, n: int)
    requires Numeral(b, n)
    ensures Atoi(b) == if n > INT64_MAX then INT64_MAX else if n < INT64_MIN then INT64_MIN else n
  {
    hide ScanDigits, NumberOf, AllDigits;
    ScanIsValue(b);
    ScanIsValue(b[1..]);
    SignsAreNoDigits(b);
  }

  /** ... and any other text of up to 19 bytes as 0. */
  lemma AtoiOfJunk(b: Bytes)
    requires |b| <= 19 && forall n :: !Numeral(b, n)
    ensures Atoi(b) == 0
  {
    if b != [] {
      var digits := if b[0] == MINUS || b[0] == PLUS then b[1..] else b;
      JunkStops(digits, 0);
      if digits != [] && AllDigits(digits) {
        assert Numeral(b, if b[0] == MINUS then -(NumberOf(digits) as int) else NumberOf(digits));
      }
    }
  }

  /** Nineteen digits do not overflow: the loop stops at the first byte that is none. */
  lemma {:induction false} JunkStops(d: Bytes, acc: nat)
    requires |d| <= 19 && acc < TenTo(19 - |d|)
    ensures TenTo(19 - |d|) <= TenTo(19) < TWO64
    ensures !AllDigits(d) ==> ScanDigits(d, acc) == BadDigit
  {
    TenToGrows(19 - |d|);
    if d != [] && IsDigit(d[0]) {
      JunkStops(d[1..], acc * 10 + (d[0] - 48));
    }
  }

  function TenTo(k: nat): (r: nat)
    ensures r > 0
  {
    if k == 0 then 1 else 10 * TenTo(k - 1)
  }

  lemma {:induction false} TenToGrows(k: nat)
    requires k <= 19
    ensures TenTo(k) <= TenTo(19) < TWO64
    decreases 19 - k
  {
    if k < 19 {
      TenToGrows(k + 1);
    } else {
      assert TenTo(7) == 10_000_000;
      assert TenTo(13) == 10_000_000_000_000;
      assert TenTo(19) == 10_000_000_000_000_000_000;
    }
  }

  /** The usual way to write an integer: no plus sign, no leading zero, no negative zero. */
  predicate Canonical(b: Bytes) {
    var digits := if b != [] && b[0] == MINUS then b[1..] else b;
    digits != [] && AllDigits(digits) && (digits[0] == 48 ==> b == [48])
  }

  lemma {:induction false} DigitsOfValue(d: Bytes)
    requires d != [] && AllDigits(d) && (d[0] == 48 ==> |d| == 1)
    ensures Digits(NumberOf(d)) == d && (d[0] != 48 ==> NumberOf(d) > 0)
  {
    var front, x := d[..|d| - 1], d[|d| - 1];
    assert d == front + [x];
    if front == [] {
      assert NumberOf(d) == x - 48;
    } else {
      DigitsOfValue(front);
    }
  }

  lemma {:induction false} ValueOfDigits(n: nat)
    ensures AllDigits(Digits(n)) && NumberOf(Digits(n)) == n && (Digits(n)[0] == 48 ==> n == 0)
  {
    if n >= 10 {
      ValueOfDigits(n / 10);
      assert Digits(n)[..|Digits(n)| - 1] == Digits(n / 10);
    }
  }

  /** FormatInt writes the canonical numeral, and there is only one. */
  lemma FormatIsCanonical(b: Bytes, n: int)
    ensures b == FormatInt(n) <==> Numeral(b, n) && Canonical(b)
  {
    ValueOfDigits(if n < 0 then -n else n);
    if n < 0 { assert FormatInt(n)[1..] == Digits(-n); }
    if Numeral(b, n) && Canonical(b) {
      SignsAreNoDigits(b);
      if b[0] == MINUS {
        DigitsOfValue(b[1..]);
        assert b == [MINUS] + b[1..];
      } else {
        DigitsOfValue(b);
      }
    }
  }
}
