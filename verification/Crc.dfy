/** Key slots: the CRC-16 bit loop is a polynomial remainder over GF(2), the CRC-16/XMODEM of the Redis
    Cluster Specification ("Key distribution model").

    A polynomial over GF(2) is the set of its exponents; addition is symmetric difference. */
module Crc {
  type Poly = set<nat>

  function Add(p: Poly, q: Poly): Poly { (p - q) + (q - p) }

  /** Multiplication by x^k. */
  function Shift(p: Poly, k: nat): Poly { set e | e in p :: e + k }

  /** Multiplication by the generator x^16 + x^12 + x^5 + 1. */
  function TimesG(q: Poly): Poly { Add(Add(Shift(q, 16), Shift(q, 12)), Add(Shift(q, 5), q)) }

  ghost predicate MultipleOfG(p: Poly) { exists q :: TimesG(q) == p }

  ghost predicate Congruent(p: Poly, q: Poly) { MultipleOfG(Add(p, q)) }

  predicate Below(p: Poly, n: nat) { forall e :: e in p ==> e < n }

  /** The remainder of p on division by the generator: the one congruent polynomial of degree < 16. */
  ghost predicate IsRemainder(r: Poly, p: Poly) { Below(r, 16) && Congruent(r, p) }

  lemma ShiftHas(p: Poly, k: nat, e: nat)
    ensures e in Shift(p, k) <==> e >= k && e - k in p
  {
    if e >= k && e - k in p { assert (e - k) + k == e; }
  }

  lemma ShiftZero(p: Poly)
    ensures Shift(p, 0) == p
  {
    forall e: nat ensures e in Shift(p, 0) <==> e in p { ShiftHas(p, 0, e); }
  }

  lemma ShiftAdd(p: Poly, q: Poly, k: nat)
    ensures Shift(Add(p, q), k) == Add(Shift(p, k), Shift(q, k))
  {
    forall e: nat ensures e in Shift(Add(p, q), k) <==> e in Add(Shift(p, k), Shift(q, k)) {
      ShiftHas(p, k, e);
      ShiftHas(q, k, e);
      ShiftHas(Add(p, q), k, e);
    }
  }

  lemma ShiftShift(p: Poly, j: nat, k: nat)
    ensures Shift(Shift(p, j), k) == Shift(p, j + k)
  {
    forall e: nat ensures e in Shift(Shift(p, j), k) <==> e in Shift(p, j + k) {
      ShiftHas(Shift(p, j), k, e);
      if e >= k { ShiftHas(p, j, e - k); }
      ShiftHas(p, j + k, e);
    }
  }

  lemma TimesGHas(q: Poly, e: nat)
    ensures e in TimesG(q) <==>
            (((e >= 16 && e - 16 in q) != (e >= 12 && e - 12 in q)) != ((e >= 5 && e - 5 in q) != (e in q)))
  {
    ShiftHas(q, 16, e);
    ShiftHas(q, 12, e);
    ShiftHas(q, 5, e);
  }

  lemma TimesGAdd(a: Poly, b: Poly)
    ensures TimesG(Add(a, b)) == Add(TimesG(a), TimesG(b))
  {
    forall e: nat ensures e in TimesG(Add(a, b)) <==> e in Add(TimesG(a), TimesG(b)) {
      TimesGHas(a, e);
      TimesGHas(b, e);
      TimesGHas(Add(a, b), e);
    }
  }

  lemma ShiftsCommute(p: Poly, j: nat, k: nat)
    ensures Shift(Shift(p, j), k) == Shift(Shift(p, k), j)
  {
    ShiftShift(p, j, k);
    ShiftShift(p, k, j);
  }

  lemma TimesGShift(q: Poly, k: nat)
    ensures TimesG(Shift(q, k)) == Shift(TimesG(q), k)
  {
    ShiftsCommute(q, 16, k);
    ShiftsCommute(q, 12, k);
    ShiftsCommute(q, 5, k);
    ShiftAdd(Shift(q, 16), Shift(q, 12), k);
    ShiftAdd(Shift(q, 5), q, k);
    ShiftAdd(Add(Shift(q, 16), Shift(q, 12)), Add(Shift(q, 5), q), k);
  }

  // Congruence.

  lemma CongruentReflexive(p: Poly)
    ensures Congruent(p, p)
  {
    assert TimesG({}) == {} == Add(p, p);
  }

  lemma CongruentSymmetric(p: Poly, q: Poly)
    requires Congruent(p, q)
    ensures Congruent(q, p)
  {
    assert Add(p, q) == Add(q, p);
  }

  lemma CongruentTransitive(p: Poly, q: Poly, r: Poly)
    requires Congruent(p, q) && Congruent(q, r)
    ensures Congruent(p, r)
  {
    var a :| TimesG(a) == Add(p, q);
    var b :| TimesG(b) == Add(q, r);
    TimesGAdd(a, b);
    assert Add(Add(p, q), Add(q, r)) == Add(p, r);
  }

  lemma CongruentAdd(p: Poly, p': Poly, q: Poly, q': Poly)
    requires Congruent(p, p') && Congruent(q, q')
    ensures Congruent(Add(p, q), Add(p', q'))
  {
    var a :| TimesG(a) == Add(p, p');
    var b :| TimesG(b) == Add(q, q');
    TimesGAdd(a, b);
    assert Add(Add(p, p'), Add(q, q')) == Add(Add(p, q), Add(p', q'));
  }

  lemma CongruentShift(p: Poly, q: Poly, k: nat)
    requires Congruent(p, q)
    ensures Congruent(Shift(p, k), Shift(q, k))
  {
    var a :| TimesG(a) == Add(p, q);
    TimesGShift(a, k);
    ShiftAdd(p, q, k);
  }

  /** A generator with a constant term does not divide x: a factor x can be cancelled. */
  lemma {:induction false} CancelShift(p: Poly, k: nat)
    requires MultipleOfG(Shift(p, k))
    ensures MultipleOfG(p)
    decreases k
  {
    if k == 0 {
      ShiftZero(p);
    } else {
      ShiftShift(p, k - 1, 1);
      CancelOne(Shift(p, k - 1));
      CancelShift(p, k - 1);
    }
  }

  lemma CancelOne(p: Poly)
    requires MultipleOfG(Shift(p, 1))
    ensures MultipleOfG(p)
  {
    var a :| TimesG(a) == Shift(p, 1);
    TimesGHas(a, 0);
    ShiftHas(p, 1, 0);
    assert 0 !in a;
    var b: Poly := set e | e in a :: if e > 0 then e - 1 else 0;
    forall e: nat ensures e in a <==> e in Shift(b, 1) {
      ShiftHas(b, 1, e);
      if e in a { assert e - 1 in b; }
    }
    assert Shift(b, 1) == a;
    TimesGShift(b, 1);
    forall e: nat ensures e in TimesG(b) <==> e in p {
      ShiftHas(TimesG(b), 1, e + 1);
      ShiftHas(p, 1, e + 1);
    }
    assert TimesG(b) == p;
  }

  lemma {:induction false} Greatest(p: Poly) returns (m: nat)
    requires p != {}
    ensures m in p && forall e :: e in p ==> e <= m
    decreases |p|
  {
    var x :| x in p;
    if p == {x} {
      m := x;
    } else {
      var y := Greatest(p - {x});
      m := if x > y then x else y;
      forall e | e in p ensures e <= m { assert e == x || e in p - {x}; }
    }
  }

  /** The leading term of a nonzero multiple has degree 16 or more. */
  lemma LeadingTerm(q: Poly)
    requires q != {}
    ensures !Below(TimesG(q), 16)
  {
    var m := Greatest(q);
    TimesGHas(q, m + 16);
  }

  lemma SmallMultipleIsZero(p: Poly)
    requires MultipleOfG(p) && Below(p, 16)
    ensures p == {}
  {
    var q :| TimesG(q) == p;
    if q != {} { LeadingTerm(q); }
    assert TimesG({}) == {};
  }

  /** Remainders are unique. */
  lemma RemainderUnique(r: Poly, s: Poly, p: Poly)
    requires IsRemainder(r, p) && IsRemainder(s, p)
    ensures r == s
  {
    CongruentSymmetric(s, p);
    CongruentTransitive(r, p, s);
    SmallMultipleIsZero(Add(r, s));
    forall e: nat ensures e in r <==> e in s { assert e !in Add(r, s); }
  }

  // The bit loop.

  function Mask(i: nat): bv16 {
    match i
    case 0 => 0x0001 case 1 => 0x0002 case 2 => 0x0004 case 3 => 0x0008
    case 4 => 0x0010 case 5 => 0x0020 case 6 => 0x0040 case 7 => 0x0080
    case 8 => 0x0100 case 9 => 0x0200 case 10 => 0x0400 case 11 => 0x0800
    case 12 => 0x1000 case 13 => 0x2000 case 14 => 0x4000 case 15 => 0x8000
    case _ => 0
  }

  predicate Has(r: bv16, mask: bv16) { r & mask != 0 }

  function Twice(r: bv16): bv16 { r << 1 }

  predicate OneBit(mask: bv16) { mask & (mask - 1) == 0 }

  predicate Bit(r: bv16, i: nat) { Has(r, Mask(i)) }

  /** The polynomial of a 16-bit register. */
  function PolyOf(r: bv16): Poly { set i: nat | i < 16 && Bit(r, i) }

  function BitStep(r: bv16): bv16 { if Has(r, 0x8000) then Twice(r) ^ 0x1021 else Twice(r) }

  lemma ShiftedMask(r: bv16, m: bv16)
    requires !Has(m, 0x8000)
    ensures Has(Twice(r), Twice(m)) <==> Has(r, m)
    ensures !Has(Twice(r), 1)
  {
  }

  lemma XorMask(r: bv16, s: bv16, m: bv16)
    requires OneBit(m)
    ensures Has(r ^ s, m) <==> Has(r, m) != Has(s, m)
  {
  }

  lemma MaskShape(i: nat)
    requires i < 16
    ensures OneBit(Mask(i)) && Mask(0) == 1 && Mask(15) == 0x8000
    ensures i > 0 ==> Mask(i) == Twice(Mask(i - 1)) && !Has(Mask(i - 1), 0x8000)
    ensures Has(0x1021, Mask(i)) <==> i == 0 || i == 5 || i == 12
  {
  }

  lemma BitStepBits(r: bv16, i: nat)
    requires i < 16
    ensures Bit(BitStep(r), i) <==> (i > 0 && Bit(r, i - 1)) != (Bit(r, 15) && (i == 0 || i == 5 || i == 12))
  {
    assert !Has(0, 0x8000);
    hide Mask, Has, Twice, OneBit;
    MaskShape(i);
    XorMask(Twice(r), 0x1021, Mask(i));
    ShiftedMask(r, if i > 0 then Mask(i - 1) else 0);
  }

  lemma PolyHas(r: bv16, e: nat)
    ensures e in PolyOf(r) <==> e < 16 && Bit(r, e)
  {
  }

  /** One turn of the bit loop multiplies by x modulo the generator. */
  lemma BitStepIsTimesX(r: bv16)
    ensures Congruent(PolyOf(BitStep(r)), Shift(PolyOf(r), 1))
  {
    hide Bit, BitStep, PolyOf, TimesG, Shift;
    var q: Poly := if Bit(r, 15) then {0} else {};
    forall e: nat ensures e in TimesG(q) <==> e in Add(PolyOf(BitStep(r)), Shift(PolyOf(r), 1)) {
      TimesGHas(q, e);
      ShiftHas(PolyOf(r), 1, e);
      PolyHas(BitStep(r), e);
      if e > 0 { PolyHas(r, e - 1); }
      if e < 16 { BitStepBits(r, e); }
    }
    assert TimesG(q) == Add(PolyOf(BitStep(r)), Shift(PolyOf(r), 1));
  }

  function BitSteps(r: bv16, n: nat): bv16 { if n == 0 then r else BitStep(BitSteps(r, n - 1)) }

  lemma OneMoreBit(s: bv16, p: Poly, n: nat)
    requires Congruent(PolyOf(s), Shift(p, n))
    ensures Congruent(PolyOf(BitStep(s)), Shift(p, n + 1))
  {
    BitStepIsTimesX(s);
    CongruentShift(PolyOf(s), Shift(p, n), 1);
    ShiftShift(p, n, 1);
    CongruentTransitive(PolyOf(BitStep(s)), Shift(PolyOf(s), 1), Shift(p, n + 1));
  }

  lemma {:induction false} MoreBits(r: bv16, p: Poly, k: nat, n: nat)
    requires Congruent(PolyOf(r), Shift(p, k))
    ensures Congruent(PolyOf(BitSteps(r, n)), Shift(p, k + n))
    decreases n
  {
    if n > 0 {
      MoreBits(r, p, k, n - 1);
      OneMoreBit(BitSteps(r, n - 1), p, k + n - 1);
    }
  }

  lemma BitStepsShift(r: bv16, n: nat)
    ensures Congruent(PolyOf(BitSteps(r, n)), Shift(PolyOf(r), n))
  {
    ShiftZero(PolyOf(r));
    CongruentReflexive(PolyOf(r));
    MoreBits(r, PolyOf(r), 0, n);
  }

  lemma BitXor(r: bv16, s: bv16, i: nat)
    requires i < 16
    ensures Bit(r ^ s, i) <==> Bit(r, i) != Bit(s, i)
  {
    hide Mask, Has, Twice, OneBit;
    MaskShape(i);
    XorMask(r, s, Mask(i));
  }

  lemma PolyOfXor(r: bv16, s: bv16)
    ensures PolyOf(r ^ s) == Add(PolyOf(r), PolyOf(s))
  {
    forall e: nat ensures e in PolyOf(r ^ s) <==> e in Add(PolyOf(r), PolyOf(s)) {
      PolyHas(r, e);
      PolyHas(s, e);
      PolyHas(r ^ s, e);
      if e < 16 { BitXor(r, s, e); }
    }
  }

  function BytePoly(b: bv8): Poly { PolyOf(b as bv16) }

  /** The register with `x` in its high byte. */
  function High(x: bv16): bv16 { x << 8 }

  lemma HighMask(x: bv16, m: bv16)
    requires !Has(x, 0xFF00) && !Has(m, 0xFF00)
    ensures Has(High(x), High(m)) <==> Has(x, m)
    ensures !Has(High(x), m) && !Has(x, High(m))
  {
  }

  lemma HighMasks(i: nat)
    requires i < 16
    ensures i < 8 ==> !Has(Mask(i), 0xFF00)
    ensures i >= 8 ==> Mask(i) == High(Mask(i - 8)) && !Has(Mask(i - 8), 0xFF00)
  {
  }

  lemma ByteFits(b: bv8)
    ensures !Has(b as bv16, 0xFF00)
  {
  }

  lemma HighBits(b: bv8, i: nat)
    requires i < 16
    ensures Bit(High(b as bv16), i) <==> i >= 8 && Bit(b as bv16, i - 8)
    ensures i >= 8 ==> !Bit(b as bv16, i)
  {
    hide Mask, Has, High;
    ByteFits(b);
    HighMasks(i);
    HighMask(b as bv16, if i < 8 then Mask(i) else Mask(i - 8));
  }

  lemma HighBytePoly(b: bv8)
    ensures PolyOf(High(b as bv16)) == Shift(BytePoly(b), 8)
    ensures Below(BytePoly(b), 8)
  {
    hide Bit, High;
    var x := b as bv16;
    forall e: nat ensures e in PolyOf(High(x)) <==> e in Shift(BytePoly(b), 8) {
      ShiftHas(BytePoly(b), 8, e);
      PolyHas(High(x), e);
      if e >= 8 { PolyHas(x, e - 8); }
      if e < 16 { HighBits(b, e); }
      if 8 <= e - 8 < 16 { HighBits(b, e - 8); }
    }
    forall e | e in BytePoly(b) ensures e < 8 {
      PolyHas(x, e);
      if e < 16 { HighBits(b, e); }
    }
  }

  /** The message as a polynomial: bit j of the byte that k bytes follow is the coefficient of x^(8k+j). */
  function Message(data: seq<bv8>): Poly {
    if data == [] then {} else Add(Shift(Message(data[..|data| - 1]), 8), BytePoly(data[|data| - 1]))
  }

  /** The byte turn: mix the byte into the high half, then eight turns of the bit loop. */
  function Absorb(r: bv16, b: bv8): bv16 { BitSteps(r ^ High(b as bv16), 8) }

  function Crc16(data: seq<bv8>): bv16 {
    if data == [] then 0 else Absorb(Crc16(data[..|data| - 1]), data[|data| - 1])
  }

  method TurnBit(crc: bv16) returns (r: bv16)
    ensures r == BitStep(crc)
  {
    if crc & 0x8000 != 0 { r := (crc << 1) ^ 0x1021; } else { r := crc << 1; }
  }

  /** The inner loop of crc16. */
  method ShiftOut(mixed: bv16, bits: nat) returns (crc: bv16)
    ensures crc == BitSteps(mixed, bits)
  {
    crc := mixed;
    for i := 0 to bits
      invariant crc == BitSteps(mixed, i)
    {
      crc := TurnBit(crc);
    }
  }

  /** crc16 as the source runs it. */
  method ComputeCrc16(data: seq<bv8>) returns (crc: bv16)
    ensures crc == Crc16(data)
  {
    crc := 0;
    for n := 0 to |data|
      invariant crc == Crc16(data[..n])
    {
      assert data[..n + 1][..n] == data[..n];
      crc := ShiftOut(crc ^ ((data[n] as bv16) << 8), 8);
    }
    assert data[..|data|] == data;
  }

  /** Eight turns on a register into which a byte has been mixed. */
  lemma MixedTurn(r: bv16, mixed: bv16, byte: Poly, m: Poly)
    requires Congruent(PolyOf(r), Shift(m, 16)) && PolyOf(mixed) == Add(PolyOf(r), Shift(byte, 8))
    ensures Congruent(PolyOf(BitSteps(mixed, 8)), Shift(Add(Shift(m, 8), byte), 16))
  {
    hide *;
    var high := Shift(byte, 8);
    BitStepsShift(mixed, 8);
    CongruentReflexive(high);
    CongruentAdd(PolyOf(r), Shift(m, 16), high, high);
    CongruentShift(PolyOf(mixed), Add(Shift(m, 16), high), 8);
    CongruentTransitive(PolyOf(BitSteps(mixed, 8)), Shift(PolyOf(mixed), 8), Shift(Add(Shift(m, 16), high), 8));
    ShiftAdd(Shift(m, 16), high, 8);
    ShiftsCommute(m, 16, 8);
    ShiftShift(byte, 8, 8);
    ShiftAdd(Shift(m, 8), byte, 16);
  }

  lemma AbsorbIsByteTurn(r: bv16, b: bv8, m: Poly)
    requires Congruent(PolyOf(r), Shift(m, 16))
    ensures Congruent(PolyOf(Absorb(r, b)), Shift(Add(Shift(m, 8), BytePoly(b)), 16))
  {
    hide *;
    PolyOfXor(r, High(b as bv16));
    HighBytePoly(b);
    MixedTurn(r, r ^ High(b as bv16), BytePoly(b), m);
    AbsorbMeans(r, b);
  }

  lemma AbsorbMeans(r: bv16, b: bv8)
    ensures Absorb(r, b) == BitSteps(r ^ High(b as bv16), 8)
  {
    hide BitSteps, High;
  }

  /** The CRC is the remainder of message * x^16 on division by x^16 + x^12 + x^5 + 1. */
  lemma {:induction false} CrcIsRemainder(data: seq<bv8>)
    ensures IsRemainder(PolyOf(Crc16(data)), Shift(Message(data), 16))
  {
    if data == [] {
      assert PolyOf(0) == {} == Shift({}, 16);
      CongruentReflexive({});
    } else {
      var rest := data[..|data| - 1];
      CrcIsRemainder(rest);
      AbsorbIsByteTurn(Crc16(rest), data[|data| - 1], Message(rest));
    }
  }

  // Consequences.

  lemma NonzeroHasBit(x: bv16) returns (i: nat)
    requires x != 0
    ensures i < 16 && Bit(x, i)
  {
    if x & 0x00FF != 0 {
      i := LowBit(x);
    } else {
      SplitMask(x);
      i := HighBit(x);
    }
  }

  lemma LowBit(x: bv16) returns (i: nat)
    requires x & 0x00FF != 0
    ensures i < 16 && Bit(x, i)
  {
    i := if x & 0x01 != 0 then 0 else if x & 0x02 != 0 then 1 else if x & 0x04 != 0 then 2 else if x & 0x08 != 0 then 3
         else if x & 0x10 != 0 then 4 else if x & 0x20 != 0 then 5 else if x & 0x40 != 0 then 6 else 7;
  }

  lemma HighBit(x: bv16) returns (i: nat)
    requires x & 0xFF00 != 0
    ensures i < 16 && Bit(x, i)
  {
    i := if x & 0x0100 != 0 then 8 else if x & 0x0200 != 0 then 9 else if x & 0x0400 != 0 then 10
         else if x & 0x0800 != 0 then 11 else if x & 0x1000 != 0 then 12 else if x & 0x2000 != 0 then 13
         else if x & 0x4000 != 0 then 14 else 15;
  }

  lemma SplitMask(x: bv16)
    requires x != 0 && x & 0x00FF == 0
    ensures x & 0xFF00 != 0
  {
  }

  lemma XorZero(r: bv16, s: bv16)
    ensures r ^ s == 0 <==> r == s
  {
  }

  /** A register is determined by its polynomial. */
  lemma BitsDetermine(r: bv16, s: bv16)
    requires PolyOf(r) == PolyOf(s)
    ensures r == s
  {
    XorZero(r, s);
    if r ^ s != 0 {
      var i := NonzeroHasBit(r ^ s);
      BitXor(r, s, i);
      PolyHas(r, i);
      PolyHas(s, i);
    }
  }

  function Xor(a: seq<bv8>, b: seq<bv8>): (c: seq<bv8>)
    requires |a| == |b|
    ensures |c| == |a|
  {
    seq(|a|, i requires 0 <= i < |a| => a[i] ^ b[i])
  }

  lemma BytePolyXor(x: bv8, y: bv8)
    ensures BytePoly(x ^ y) == Add(BytePoly(x), BytePoly(y))
  {
    assert (x ^ y) as bv16 == (x as bv16) ^ (y as bv16);
    PolyOfXor(x as bv16, y as bv16);
  }

  lemma AddInterchange(a: Poly, b: Poly, c: Poly, d: Poly)
    ensures Add(Add(a, b), Add(c, d)) == Add(Add(a, c), Add(b, d))
  {
  }

  lemma {:induction false} MessageXor(a: seq<bv8>, b: seq<bv8>)
    requires |a| == |b|
    ensures Message(Xor(a, b)) == Add(Message(a), Message(b))
  {
    if a != [] {
      var n := |a| - 1;
      assert Xor(a, b)[..n] == Xor(a[..n], b[..n]);
      MessageXor(a[..n], b[..n]);
      BytePolyXor(a[n], b[n]);
      ShiftAdd(Message(a[..n]), Message(b[..n]), 8);
      AddInterchange(Shift(Message(a[..n]), 8), Shift(Message(b[..n]), 8), BytePoly(a[n]), BytePoly(b[n]));
    }
  }

  lemma XorIsRemainder(r: bv16, s: bv16, p: Poly, q: Poly)
    requires IsRemainder(PolyOf(r), Shift(p, 16)) && IsRemainder(PolyOf(s), Shift(q, 16))
    ensures IsRemainder(PolyOf(r ^ s), Shift(Add(p, q), 16))
  {
    PolyOfXor(r, s);
    ShiftAdd(p, q, 16);
    CongruentAdd(PolyOf(r), Shift(p, 16), PolyOf(s), Shift(q, 16));
  }

  /** The CRC is XOR-linear on strings of one length. */
  lemma CrcIsLinear(a: seq<bv8>, b: seq<bv8>)
    requires |a| == |b|
    ensures Crc16(Xor(a, b)) == Crc16(a) ^ Crc16(b)
  {
    CrcIsRemainder(a);
    CrcIsRemainder(b);
    XorIsRemainder(Crc16(a), Crc16(b), Message(a), Message(b));
    MessageXor(a, b);
    CrcDetermined(Xor(a, b), Crc16(a) ^ Crc16(b));
  }

  /** The CRC is the only register that is the remainder. */
  lemma CrcDetermined(data: seq<bv8>, r: bv16)
    requires IsRemainder(PolyOf(r), Shift(Message(data), 16))
    ensures r == Crc16(data)
  {
    CrcIsRemainder(data);
    RemainderUnique(PolyOf(r), PolyOf(Crc16(data)), Shift(Message(data), 16));
    BitsDetermine(r, Crc16(data));
  }

  lemma MessageSnoc(s: seq<bv8>)
    requires s != []
    ensures Message(s) == Add(Shift(Message(s[..|s| - 1]), 8), BytePoly(s[|s| - 1]))
  {
  }

  lemma Regroup(p: Poly, q: Poly, byte: Poly, k: nat)
    ensures Add(Shift(Add(Shift(p, k), q), 8), byte) == Add(Shift(p, k + 8), Add(Shift(q, 8), byte))
  {
    hide Add, Shift;
    ShiftAdd(Shift(p, k), q, 8);
    ShiftShift(p, k, 8);
    AddAssociates(Shift(p, k + 8), Shift(q, 8), byte);
  }

  lemma NothingAfter(p: Poly)
    ensures Add(Shift(p, 0), Message([])) == p
  {
    ShiftZero(p);
  }

  lemma SplitLast(a: seq<bv8>, b: seq<bv8>)
    requires b != []
    ensures Message(a + b) == Add(Shift(Message(a + b[..|b| - 1]), 8), BytePoly(b[|b| - 1]))
  {
    hide *;
    MessageSnoc(a + b);
    LastOfConcat(a, b);
  }

  lemma LastOfConcat<B>(a: seq<B>, b: seq<B>)
    requires b != []
    ensures var s := a + b; s[..|s| - 1] == a + b[..|b| - 1] && s[|s| - 1] == b[|b| - 1]
  {
    var s := a + b;
    assert s[..|s| - 1] == a + b[..|b| - 1];
  }

  lemma {:induction false} MessageConcat(a: seq<bv8>, b: seq<bv8>)
    ensures Message(a + b) == Add(Shift(Message(a), 8 * |b|), Message(b))
  {
    hide *;
    if b == [] {
      assert a + b == a;
      NothingAfter(Message(a));
    } else {
      var n := |b| - 1;
      SplitLast(a, b);
      MessageSnoc(b);
      MessageConcat(a, b[..n]);
      Regroup(Message(a), Message(b[..n]), BytePoly(b[n]), 8 * n);
    }
  }

  lemma AddAssociates(a: Poly, b: Poly, c: Poly)
    ensures Add(Add(a, b), c) == Add(a, Add(b, c))
  {
  }

  lemma {:induction false} MessageBelow(a: seq<bv8>)
    ensures Below(Message(a), 8 * |a|)
  {
    if a != [] {
      var n := |a| - 1;
      MessageBelow(a[..n]);
      HighBytePoly(a[n]);
      forall e | e in Message(a) ensures e < 8 * |a| {
        ShiftHas(Message(a[..n]), 8, e);
      }
    }
  }

  /** Different strings of one length are different polynomials. */
  lemma {:induction false} MessageInjective(a: seq<bv8>, b: seq<bv8>)
    requires |a| == |b| && Message(a) == Message(b)
    ensures a == b
  {
    if a != [] {
      var n := |a| - 1;
      LowAndHigh(Message(a[..n]), BytePoly(a[n]), Message(b[..n]), BytePoly(b[n]), a[n], b[n]);
      MessageInjective(a[..n], b[..n]);
      BitsDetermine(a[n] as bv16, b[n] as bv16);
      assert a == a[..n] + [a[n]] && b == b[..n] + [b[n]];
    }
  }

  lemma LowAndHigh(p: Poly, x: Poly, q: Poly, y: Poly, a: bv8, b: bv8)
    requires x == BytePoly(a) && y == BytePoly(b) && Add(Shift(p, 8), x) == Add(Shift(q, 8), y)
    ensures p == q && x == y
  {
    HighBytePoly(a);
    HighBytePoly(b);
    forall e: nat ensures (e in p <==> e in q) && (e in x <==> e in y) {
      ShiftHas(p, 8, e + 8);
      ShiftHas(q, 8, e + 8);
      ShiftHas(p, 8, e);
      ShiftHas(q, 8, e);
      assert e + 8 in Add(Shift(p, 8), x) <==> e + 8 in Add(Shift(q, 8), y);
      assert e in Add(Shift(p, 8), x) <==> e in Add(Shift(q, 8), y);
    }
  }

  lemma MultipleIsCongruence(p: Poly, q: Poly)
    ensures Congruent(p, q) <==> MultipleOfG(Add(p, q))
    ensures MultipleOfG(p) <==> Congruent({}, p)
  {
    assert Add({}, p) == p;
  }

  /** A string followed by two bytes has CRC 0 if and only if the two bytes are its CRC, high byte first. */
  lemma AppendedCrc(data: seq<bv8>, hi: bv8, lo: bv8)
    ensures Crc16(data + [hi, lo]) == 0 <==> High(hi as bv16) ^ (lo as bv16) == Crc16(data)
  {
    var tail, w := [hi, lo], High(hi as bv16) ^ (lo as bv16);
    var m := Message(data);
    TailPoly(hi, lo);
    MessageConcat(data, tail);
    var p := Add(Shift(m, 16), PolyOf(w));
    assert Message(data + tail) == p;
    CrcIsRemainder(data + tail);
    CrcIsRemainder(data);
    MultipleIsCongruence(PolyOf(w), Shift(m, 16));
    assert Add(PolyOf(w), Shift(m, 16)) == p;
    if Crc16(data + tail) == 0 {
      assert PolyOf(0) == {};
      MultipleIsCongruence(Shift(p, 16), {});
      CancelShift(p, 16);
      RemainderUnique(PolyOf(w), PolyOf(Crc16(data)), Shift(m, 16));
      BitsDetermine(w, Crc16(data));
    }
    if w == Crc16(data) {
      ZeroRemainder(p, 16);
      RemainderUnique({}, PolyOf(Crc16(data + tail)), Shift(p, 16));
      assert PolyOf(0) == {};
      BitsDetermine(Crc16(data + tail), 0);
    }
  }

  lemma ZeroRemainder(p: Poly, k: nat)
    requires MultipleOfG(p)
    ensures IsRemainder({}, Shift(p, k))
  {
    var a :| TimesG(a) == p;
    TimesGShift(a, k);
    MultipleIsCongruence(Shift(p, k), {});
  }

  lemma MessageOfTwo(x: bv8, y: bv8)
    ensures Message([x, y]) == Add(Shift(BytePoly(x), 8), BytePoly(y))
  {
    var one: seq<bv8> := [x];
    assert [x, y][..1] == one && one[..0] == [];
    NothingShifted(BytePoly(x));
    assert Message(one) == BytePoly(x);
  }

  lemma NothingShifted(p: Poly)
    ensures Add(Shift({}, 8), p) == p
  {
    assert Shift({}, 8) == {};
  }

  lemma TailPoly(hi: bv8, lo: bv8)
    ensures Message([hi, lo]) == PolyOf(High(hi as bv16) ^ (lo as bv16))
  {
    MessageOfTwo(hi, lo);
    HighBytePoly(hi);
    PolyOfXor(High(hi as bv16), lo as bv16);
  }

  /** Keys that differ only inside a window of at most two bytes have different CRCs. */
  lemma BurstChangesCrc(p: seq<bv8>, u: seq<bv8>, v: seq<bv8>, s: seq<bv8>)
    requires |u| == |v| <= 2 && u != v
    ensures Crc16(p + u + s) != Crc16(p + v + s)
  {
    if Crc16(p + u + s) == Crc16(p + v + s) {
      var a, b := p + u + s, p + v + s;
      CrcIsRemainder(a);
      CrcIsRemainder(b);
      SameCrcDifference(a, b);
      WindowDifference(p, u, v, s);
      var d := Add(Message(u), Message(v));
      CancelShift(d, 8 * |s|);
      MessageBelow(u);
      MessageBelow(v);
      SmallMultipleIsZero(d);
      AddZero(Message(u), Message(v));
      MessageInjective(u, v);
    }
  }

  lemma AddZero(p: Poly, q: Poly)
    requires Add(p, q) == {}
    ensures p == q
  {
    forall e ensures e in p <==> e in q { assert e !in Add(p, q); }
  }

  lemma SameCrcDifference(a: seq<bv8>, b: seq<bv8>)
    requires Crc16(a) == Crc16(b)
    ensures MultipleOfG(Add(Message(a), Message(b)))
  {
    CrcIsRemainder(a);
    CrcIsRemainder(b);
    CongruentSymmetric(PolyOf(Crc16(a)), Shift(Message(a), 16));
    CongruentTransitive(Shift(Message(a), 16), PolyOf(Crc16(a)), Shift(Message(b), 16));
    ShiftAdd(Message(a), Message(b), 16);
    CancelShift(Add(Message(a), Message(b)), 16);
  }

  lemma WindowDifference(p: seq<bv8>, u: seq<bv8>, v: seq<bv8>, s: seq<bv8>)
    requires |u| == |v|
    ensures Add(Message(p + u + s), Message(p + v + s)) == Shift(Add(Message(u), Message(v)), 8 * |s|)
  {
    MessageConcat(p + u, s);
    MessageConcat(p + v, s);
    MessageConcat(p, u);
    MessageConcat(p, v);
    var x := Shift(Message(p), 8 * |u|);
    assert Add(Message(p + u), Message(p + v)) == Add(Message(u), Message(v)) by {
      CommonTerm(x, Message(u), Message(v));
    }
    CommonTail(Shift(Message(p + u), 8 * |s|), Shift(Message(p + v), 8 * |s|), Message(s));
    ShiftAdd(Message(p + u), Message(p + v), 8 * |s|);
  }

  lemma CommonTerm(x: Poly, p: Poly, q: Poly)
    ensures Add(Add(x, p), Add(x, q)) == Add(p, q)
  {
  }

  lemma CommonTail(p: Poly, q: Poly, x: Poly)
    ensures Add(Add(p, x), Add(q, x)) == Add(p, q)
  {
  }

  /** KeyToSlot: the CRC modulo the 16384 slots. */
  function Slot(key: seq<bv8>): bv16 { SlotOf(Crc16(key)) }

  function SlotOf(crc: bv16): bv16 { crc % 16384 }

  /** The terms of a polynomial below a degree. */
  function Low(p: Poly, n: nat): Poly { set e | e in p && e < n }

  lemma LowMask(x: bv16, m: bv16)
    ensures Has(SlotOf(x), m) <==> Has(x, m & 0x3FFF)
  {
    assert x % 16384 == x & 0x3FFF;
  }

  lemma LowMasks(i: nat)
    requires i < 16
    ensures Mask(i) & 0x3FFF == if i < 14 then Mask(i) else 0
  {
  }

  lemma HasNothing(x: bv16)
    ensures !Has(x, 0)
  {
  }

  lemma SlotBit(x: bv16, i: nat)
    ensures i in PolyOf(SlotOf(x)) <==> i < 14 && i in PolyOf(x)
  {
    hide SlotOf, Has, Mask, PolyOf;
    PolyHas(SlotOf(x), i);
    PolyHas(x, i);
    if i < 16 {
      LowMask(x, Mask(i));
      LowMasks(i);
      HasNothing(x);
    }
  }

  lemma SlotBits(x: bv16)
    ensures PolyOf(SlotOf(x)) == Low(PolyOf(x), 14)
  {
    hide SlotOf, PolyOf;
    forall i: nat ensures i in PolyOf(SlotOf(x)) <==> i in Low(PolyOf(x), 14) { SlotBit(x, i); }
  }

  /** The slot is the part below degree 14 of the remainder of message times x^16, and nothing else is. */
  lemma SlotIsLowRemainder(key: seq<bv8>, slot: bv16)
    ensures slot == Slot(key) <==>
            exists r :: IsRemainder(r, Shift(Message(key), 16)) && PolyOf(slot) == Low(r, 14)
  {
    hide IsRemainder, PolyOf, Message, Shift, Low, Crc16, SlotOf;
    var crc := Crc16(key);
    CrcIsRemainder(key);
    SlotBits(crc);
    if r :| IsRemainder(r, Shift(Message(key), 16)) && PolyOf(slot) == Low(r, 14) {
      RemainderUnique(r, PolyOf(crc), Shift(Message(key), 16));
      BitsDetermine(slot, Slot(key));
    }
  }

  /** Slots are in range, and the slot map is XOR-linear on keys of one length. */
  lemma SlotIsLinear(a: seq<bv8>, b: seq<bv8>)
    requires |a| == |b|
    ensures Slot(a) < 16384
    ensures Slot(Xor(a, b)) == Slot(a) ^ Slot(b)
  {
    CrcIsLinear(a, b);
    LowBitsXor(Crc16(a), Crc16(b));
  }

  lemma LowBitsXor(r: bv16, s: bv16)
    ensures SlotOf(r ^ s) == SlotOf(r) ^ SlotOf(s)
    ensures SlotOf(r) < 16384
  {
    assert r % 16384 == r & 0x3FFF;
    assert s % 16384 == s & 0x3FFF;
    assert (r ^ s) % 16384 == (r ^ s) & 0x3FFF;
  }

  // The check value of the Redis Cluster Specification, Appendix A.

  function EightSteps(r: bv16): bv16 {
    BitStep(BitStep(BitStep(BitStep(BitStep(BitStep(BitStep(BitStep(r))))))))
  }

  lemma EightAtOnce(r: bv16)
    ensures BitSteps(r, 8) == EightSteps(r)
  {
    hide BitStep;
    assert BitSteps(r, 2) == BitStep(BitStep(r)) by { assert BitSteps(r, 1) == BitStep(BitSteps(r, 0)); }
    assert BitSteps(r, 4) == BitStep(BitStep(BitSteps(r, 2))) by { assert BitSteps(r, 3) == BitStep(BitSteps(r, 2)); }
    assert BitSteps(r, 6) == BitStep(BitStep(BitSteps(r, 4))) by { assert BitSteps(r, 5) == BitStep(BitSteps(r, 4)); }
    assert BitSteps(r, 8) == BitStep(BitStep(BitSteps(r, 6))) by { assert BitSteps(r, 7) == BitStep(BitSteps(r, 6)); }
  }

  lemma AbsorbIs(r: bv16, b: bv8)
    ensures Absorb(r, b) == EightSteps(r ^ High(b as bv16))
  {
    hide EightSteps, High, BitSteps;
    EightAtOnce(r ^ High(b as bv16));
  }

  lemma CrcOfNext(before: seq<bv8>, b: bv8)
    ensures Crc16(before + [b]) == Absorb(Crc16(before), b)
  {
    hide Absorb;
    assert (before + [b])[..|before|] == before;
  }

  lemma AbsorbNext(before: seq<bv8>, r: bv16, b: bv8, s: bv16, after: seq<bv8>)
    requires Crc16(before) == r && after == before + [b] && EightSteps(r ^ High(b as bv16)) == s
    ensures Crc16(after) == s
  {
    hide *;
    CrcOfNext(before, b);
    AbsorbIs(r, b);
  }

  const DIGITS: seq<bv8> := [0x31, 0x32, 0x33, 0x34, 0x35, 0x36, 0x37, 0x38, 0x39]

  /** "123456789" has CRC 0x31C3 and slot 12739. */
  lemma CheckValue()
    ensures Crc16(DIGITS) == 0x31C3 && Slot(DIGITS) == 12739
  {
    var data := DIGITS;
    AbsorbNext(data[..0], 0x0000, 0x31, 0x2672, data[..1]);
    AbsorbNext(data[..1], 0x2672, 0x32, 0x20B5, data[..2]);
    AbsorbNext(data[..2], 0x20B5, 0x33, 0x9752, data[..3]);
    AbsorbNext(data[..3], 0x9752, 0x34, 0xD789, data[..4]);
    AbsorbNext(data[..4], 0xD789, 0x35, 0x546C, data[..5]);
    AbsorbNext(data[..5], 0x546C, 0x36, 0x20E4, data[..6]);
    AbsorbNext(data[..6], 0x20E4, 0x37, 0x86D6, data[..7]);
    AbsorbNext(data[..7], 0x86D6, 0x38, 0x9015, data[..8]);
    AbsorbNext(data[..8], 0x9015, 0x39, 0x31C3, data[..9]);
    assert data[..9] == data;
  }
}
