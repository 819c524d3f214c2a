/** Byte strings, their lexicographic order and big-endian integers: the key order of the
    embedded store and the 8-byte index inside a Raft log key (store/raft_store.go). */
module Octets {
  type byte = b: int | 0 <= b < 256
  type Bytes = seq<byte>

  datatype Option<+T> = None | Some(value: T)

  const TWO63: int := 0x8000_0000_0000_0000
  const TWO64: int := 0x1_0000_0000_0000_0000
  const INT64_MAX: int := TWO63 - 1
  const INT64_MIN: int := -TWO63

  predicate IsInt64(n: int) { -0x8000_0000_0000_0000 <= n < 0x8000_0000_0000_0000 }

  /** Two's-complement reduction to a 64-bit signed integer. */
  function Wrap64(n: int): (r: int)
    ensures IsInt64(r)
    ensures IsInt64(n) ==> r == n
  {
    (n + 0x8000_0000_0000_0000) % 0x1_0000_0000_0000_0000 - 0x8000_0000_0000_0000
  }

  /** It is the one 64-bit integer that differs from `n` by a multiple of 2^64. */
  lemma Wrap64Unique(n: int, r: int)
    ensures r == Wrap64(n) <==> IsInt64(r) && (r - n) % 0x1_0000_0000_0000_0000 == 0
  {
  }

  /** Wrapping after every addition is the same as wrapping once at the end. */
  lemma Wrap64Absorbs(a: int, b: int)
    ensures Wrap64(Wrap64(a) + b) == Wrap64(a + b)
  {
    hide Wrap64;
    var w := Wrap64(a) + b;
    Wrap64Unique(a, Wrap64(a));
    Wrap64Unique(w, Wrap64(w));
    MultiplesAdd(Wrap64(w) - w, Wrap64(a) - a);
    assert (Wrap64(w) - w) + (Wrap64(a) - a) == Wrap64(w) - (a + b);
    Wrap64Unique(a + b, Wrap64(w));
  }

  lemma MultiplesAdd(x: int, y: int)
    requires x % 0x1_0000_0000_0000_0000 == 0 && y % 0x1_0000_0000_0000_0000 == 0
    ensures (x + y) % 0x1_0000_0000_0000_0000 == 0
  {
  }

  /** Strict lexicographic order, the iteration order of the store. */
  predicate Less(a: Bytes, b: Bytes) {
    b != [] && (a == [] || a[0] < b[0] || (a[0] == b[0] && Less(a[1..], b[1..])))
  }

  predicate AtMost(a: Bytes, b: Bytes) { a == b || Less(a, b) }

  lemma {:induction false} LessIrreflexive(a: Bytes)
    ensures !Less(a, a)
  {
    if a != [] { LessIrreflexive(a[1..]); }
  }

  lemma {:induction false} LessTotal(a: Bytes, b: Bytes)
    ensures Less(a, b) || a == b || Less(b, a)
  {
    if a != [] && b != [] && a[0] == b[0] {
      LessTotal(a[1..], b[1..]);
      assert a == [a[0]] + a[1..] && b == [b[0]] + b[1..];
    }
  }

  lemma {:induction false} LessTransitive(a: Bytes, b: Bytes, c: Bytes)
    requires Less(a, b) && Less(b, c)
    ensures Less(a, c)
  {
    if a != [] && a[0] == b[0] == c[0] { LessTransitive(a[1..], b[1..], c[1..]); }
  }

  lemma LessAsymmetric(a: Bytes, b: Bytes)
    requires Less(a, b)
    ensures a != b && !Less(b, a)
  {
    LessIrreflexive(a);
    if Less(b, a) { LessTransitive(a, b, a); }
  }

  /** A common first byte does not take part in a comparison. */
  lemma LessTail(x: byte, a: Bytes, b: Bytes)
    ensures Less([x] + a, [x] + b) <==> Less(a, b)
  {
    assert ([x] + a)[1..] == a && ([x] + b)[1..] == b;
  }

  lemma {:induction false} LessSnoc(a: Bytes, x: byte, b: Bytes, y: byte)
    requires |a| == |b|
    ensures Less(a + [x], b + [y]) <==> Less(a, b) || (a == b && x < y)
  {
    if a == [] {
      assert a + [x] == [x] && b + [y] == [y];
      LessIrreflexive([]);
    } else {
      assert (a + [x])[1..] == a[1..] + [x] && (b + [y])[1..] == b[1..] + [y];
      LessSnoc(a[1..], x, b[1..], y);
      assert a == [a[0]] + a[1..] && b == [b[0]] + b[1..];
    }
  }

  /** The strings that begin with `p` are an interval of the order that starts at `p`. */
  lemma {:induction false} PrefixInterval(p: Bytes, key: Bytes)
    requires p <= key
    ensures AtMost(p, key)
  {
    if p == [] {
    } else {
      PrefixInterval(p[1..], key[1..]);
      assert p == [p[0]] + p[1..] && key == [key[0]] + key[1..];
    }
  }

  lemma {:induction false} PrefixIntervalEnd(p: Bytes, key: Bytes, other: Bytes)
    requires p <= key && AtMost(p, other) && !(p <= other)
    ensures Less(key, other)
  {
    if p[0] == other[0] { PrefixIntervalEnd(p[1..], key[1..], other[1..]); }
  }

  /** The low `width` bytes of `n`, most significant first. */
  function BigEndian(n: nat, width: nat): (r: Bytes)
    ensures |r| == width
  {
    if width == 0 then [] else BigEndian(n / 256, width - 1) + [n % 256]
  }

  function FromBigEndian(b: Bytes): nat {
    if b == [] then 0 else FromBigEndian(b[..|b| - 1]) * 256 + b[|b| - 1]
  }

  function Pow256(width: nat): (r: nat)
    ensures r > 0
  {
    if width == 0 then 1 else 256 * Pow256(width - 1)
  }

  lemma {:induction false} BigEndianRoundTrip(n: nat, width: nat)
    requires n < Pow256(width)
    ensures FromBigEndian(BigEndian(n, width)) == n
  {
    if width > 0 {
      BigEndianRoundTrip(n / 256, width - 1);
      assert BigEndian(n, width)[..width - 1] == BigEndian(n / 256, width - 1);
    }
  }

  /** Big-endian strings of one width sort as the numbers they stand for. */
  lemma {:induction false} BigEndianOrder(m: nat, n: nat, width: nat)
    requires m < Pow256(width) && n < Pow256(width)
    ensures Less(BigEndian(m, width), BigEndian(n, width)) <==> m < n
    ensures BigEndian(m, width) == BigEndian(n, width) <==> m == n
  {
    BigEndianRoundTrip(m, width);
    BigEndianRoundTrip(n, width);
    if width > 0 {
      BigEndianOrder(m / 256, n / 256, width - 1);
      LessSnoc(BigEndian(m / 256, width - 1), m % 256, BigEndian(n / 256, width - 1), n % 256);
    }
  }

  lemma Pow256Eight()
    ensures Pow256(8) == TWO64
  {
    assert Pow256(4) == 0x1_0000_0000;
    assert Pow256(8) == 256 * (256 * (256 * (256 * Pow256(4))));
  }

  /** The order of dictionaries: a proper prefix comes first, and otherwise the first difference decides. */
  lemma {:induction false} LessExactly(a: Bytes, b: Bytes)
    ensures Less(a, b) <==>
            a < b || exists i :: 0 <= i < |a| && i < |b| && a[..i] == b[..i] && a[i] < b[i]
  {
    if a != [] && b != [] && a[0] == b[0] {
      var x, y := a[1..], b[1..];
      LessExactly(x, y);
      assert a == [a[0]] + x && b == [b[0]] + y;
      if i :| 0 <= i < |x| && i < |y| && x[..i] == y[..i] && x[i] < y[i] {
        assert a[..i + 1] == [a[0]] + x[..i] && b[..i + 1] == [b[0]] + y[..i];
        assert a[i + 1] < b[i + 1];
      }
      if i :| 0 <= i < |a| && i < |b| && a[..i] == b[..i] && a[i] < b[i] {
        assert x[..i - 1] == a[..i][1..] && y[..i - 1] == b[..i][1..];
        assert x[i - 1] < y[i - 1];
      }
    } else if a != [] && b != [] {
      if a[0] < b[0] { assert a[..0] == b[..0]; }
      forall i | 0 < i <= |a| && i <= |b| ensures a[..i][0] != b[..i][0] { }
    }
  }
}
