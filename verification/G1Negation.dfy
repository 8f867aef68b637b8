/** negate_g1_bytes of contracts/groth16_verifier/src/lib.rs: p - y on big-endian bytes. */
module G1Negation {
  import opened Bytes

  // The base field prime, big-endian.
  const FP_MODULUS: seq<Byte> := [
    0x30, 0x64, 0x4e, 0x72, 0xe1, 0x31, 0xa0, 0x29, 0xb8, 0x50, 0x45, 0xb6, 0x81, 0x81, 0x58, 0x5d,
    0x97, 0x81, 0x6a, 0x91, 0x68, 0x71, 0xca, 0x8d, 0x3c, 0x20, 0x8c, 0x16, 0xd8, 0x7c, 0xfd, 0x47
  ]

  function Prime(): (p: nat)
    ensures 0 < p < Pow256(32)
  {
    BigEndianBound(FP_MODULUS);
    LastByteCounts(FP_MODULUS);
    BigEndian(FP_MODULUS)
  }

  lemma LastByteCounts(s: seq<Byte>)
    requires s != [] && s[|s| - 1] > 0
    ensures BigEndian(s) > 0
  {
  }

  /** The y coordinate of a 64-byte point. */
  function Y(point: seq<Byte>): (y: nat)
    requires |point| == 64
    ensures y < Pow256(32)
  {
    BigEndianBound(point[32..]);
    BigEndian(point[32..])
  }

  /** The negated point: x kept, y replaced by p - y modulo 2^256, and zero left alone. */
  function Negated(point: seq<Byte>): seq<Byte>
    requires |point| == 64
  {
    if Y(point) == 0 then point else point[..32] + ToBytes((Prime() - Y(point)) % Pow256(32), 32)
  }

  lemma SuffixValue(s: seq<Byte>, i: nat)
    requires i < |s|
    ensures BigEndian(s[i..]) == s[i] * Pow256(|s| - i - 1) + BigEndian(s[i + 1..])
  {
    assert s[i..] == [s[i]] + s[i + 1..];
    BigEndianConcat([s[i]], s[i + 1..]);
    assert BigEndian([s[i]]) == s[i];
  }

  lemma BorrowStep(p: int, y: int, n: int, borrow: int, borrow': int, w: int)
    requires n == p - y - borrow + 256 * borrow'
    ensures n * w == p * w - y * w - borrow * w + borrow' * (w * 256)
  {
  }

  /** From position i on, n is m - y with that borrow outstanding. */
  ghost predicate Subtracted(m: seq<Byte>, y: seq<Byte>, n: seq<Byte>, i: nat, borrow: int) {
    && |m| == |y| == |n| && i <= |n|
    && BigEndian(n[i..]) == BigEndian(m[i..]) - BigEndian(y[i..]) + borrow * Pow256(|n| - i)
  }

  lemma SubtractedDigit(m: seq<Byte>, y: seq<Byte>, was: seq<Byte>, n: seq<Byte>, i: nat, carried: int, borrow: int)
    requires Subtracted(m, y, was, i + 1, carried) && i < |n| == |was| && n == was[i := n[i]]
    requires n[i] == m[i] - y[i] - carried + 256 * borrow
    ensures Subtracted(m, y, n, i, borrow)
  {
    hide BigEndian, Pow256;
    assert n[i + 1..] == was[i + 1..];
    SuffixValue(n, i);
    SuffixValue(m, i);
    SuffixValue(y, i);
    BorrowStep(m[i], y[i], n[i], carried, borrow, Pow256(|n| - i - 1));
    PowerStep(|n| - i - 1);
  }

  /** The byte-wise subtraction: the result and the last borrow together are p - y. */
  method SubtractFromPrime(y: seq<Byte>) returns (neg: seq<Byte>, ghost borrowed: int)
    requires |y| == 32
    ensures |neg| == 32 && 0 <= borrowed <= 1
    ensures BigEndian(neg) == Prime() - BigEndian(y) + borrowed * Pow256(32)
  {
    hide BigEndian, Pow256;
    neg, borrowed := SubtractBytes(FP_MODULUS, y);
  }

  lemma NothingSubtracted(m: seq<Byte>, y: seq<Byte>, n: seq<Byte>)
    requires |m| == |y| == |n|
    ensures Subtracted(m, y, n, |n|, 0)
  {
    assert n[|n|..] == [] && m[|n|..] == [] && y[|n|..] == [];
  }

  /** The loop, for any 32-byte minuend. */
  method SubtractBytes(m: seq<Byte>, y: seq<Byte>) returns (neg: seq<Byte>, ghost borrowed: int)
    requires |m| == |y| == 32
    ensures |neg| == 32 && 0 <= borrowed <= 1
    ensures BigEndian(neg) == BigEndian(m) - BigEndian(y) + borrowed * Pow256(32)
  {
    hide Subtracted, BigEndian, Pow256;
    var negY := new Byte[32](i => 0);
    var borrow := 0;
    NothingSubtracted(m, y, negY[..]);
    for i := 32 downto 0
      invariant 0 <= borrow <= 1
      invariant Subtracted(m, y, negY[..], i, borrow)
    {
      ghost var was, carried := negY[..], borrow;
      var minuend: int, subtrahend: int := m[i], y[i];
      var diff := minuend - subtrahend - borrow;
      if diff < 0 {
        negY[i] := diff + 256;
        borrow := 1;
      } else {
        negY[i] := diff;
        borrow := 0;
      }
      SubtractedDigit(m, y, was, negY[..], i, carried, borrow);
    }
    neg, borrowed := negY[..], borrow;
    AllSubtracted(m, y, neg, borrow);
  }

  lemma AllSubtracted(m: seq<Byte>, y: seq<Byte>, neg: seq<Byte>, borrow: int)
    requires Subtracted(m, y, neg, 0, borrow)
    ensures |m| == |y| == |neg| && BigEndian(neg) == BigEndian(m) - BigEndian(y) + borrow * Pow256(|neg|)
  {
    hide BigEndian, Pow256;
    assert neg[0..] == neg && m[0..] == m && y[0..] == y;
  }

  lemma PowerStep(n: nat)
    ensures Pow256(n + 1) == Pow256(n) * 256
  {
  }

  /** Negation of an encoded point: x is untouched, y becomes (p - y) mod 2^256, zero stays zero. */
  method NegateG1Bytes(point: seq<Byte>) returns (out: seq<Byte>)
    requires |point| == 64
    ensures out == Negated(point)
  {
    hide BigEndian, ToBytes, Pow256, Prime;
    var y := point[32..64];
    assert y == point[32..];
    var allZero := IsZero(y);
    if allZero {
      return point;
    }
    ghost var borrowed;
    var neg;
    neg, borrowed := SubtractFromPrime(y);
    out := point[..32] + neg;
    BigEndianBound(neg);
    WrappedDifference(Prime() - Y(point), BigEndian(neg), borrowed, Pow256(32));
    ToBytesOfBigEndian(neg);
  }

  lemma WrappedDifference(d: int, n: int, borrow: int, m: int)
    requires 0 <= n < m && 0 <= borrow <= 1 && n == d + borrow * m && -m < d < m
    ensures n == d % m
  {
    if borrow == 1 {
      assert d < 0;
      assert d % m == d + m by { WrapsOnce(d, m); }
    }
  }

  lemma WrapsOnce(d: int, m: int)
    requires -m < d < 0
    ensures d % m == d + m
  {
    var q := d / m;
    assert d == m * q + d % m;
    assert q == -1 by {
      if q >= 0 {
        ProductNonnegative(m, q);
      } else if q <= -2 {
        ProductNonnegative(m, -2 - q);
      }
    }
  }

  lemma ProductNonnegative(a: int, b: int)
    requires a >= 0 && b >= 0
    ensures a * b >= 0
  {
  }

  method IsZero(y: seq<Byte>) returns (zero: bool)
    ensures zero <==> BigEndian(y) == 0
  {
    var i := 0;
    while i < |y|
      invariant 0 <= i <= |y| && BigEndian(y[..i]) == 0
    {
      PrefixMonotone(y, i + 1);
      assert y[..i + 1][..i] == y[..i];
      if y[i] != 0 {
        return false;
      }
      i := i + 1;
    }
    assert y[..|y|] == y;
    zero := true;
  }

  lemma PrefixMonotone(y: seq<Byte>, i: nat)
    requires i <= |y|
    ensures BigEndian(y[..i]) > 0 ==> BigEndian(y) > 0
  {
    hide BigEndian, Pow256;
    assert y == y[..i] + y[i..];
    BigEndianConcat(y[..i], y[i..]);
    if BigEndian(y[..i]) > 0 {
      ProductPositive(BigEndian(y[..i]), Pow256(|y[i..]|));
    }
  }

  lemma ProductPositive(a: int, b: int)
    requires a > 0 && b > 0
    ensures a * b > 0
  {
  }

  /** On a point whose y is below p and not zero, the subtraction borrows nothing at the end, the new y
      is p - y, and the two sum to p. */
  lemma NegationMeans(point: seq<Byte>)
    requires |point| == 64 && 0 < Y(point) < Prime()
    ensures |Negated(point)| == 64 && Negated(point)[..32] == point[..32]
    ensures Y(Negated(point)) == Prime() - Y(point)
  {
    hide BigEndian, Pow256, ToBytes, Prime;
    var d := Prime() - Y(point);
    SmallRemainder(d, Pow256(32));
    BigEndianOfToBytes(d, 32);
    assert Negated(point)[32..] == ToBytes(d, 32);
  }

  lemma SmallRemainder(d: int, m: int)
    requires 0 <= d < m
    ensures d % m == d
  {
  }

  /** Negating twice gives the point back for every y but p itself, which is not a canonical coordinate. */
  lemma NegateTwice(point: seq<Byte>)
    requires |point| == 64
    ensures |Negated(point)| == 64
    ensures Negated(Negated(point)) == point <==> Y(point) != Prime()
  {
    hide BigEndian, Pow256, ToBytes, Prime;
    var y, m := Y(point), Pow256(32);
    var d := Prime() - y;
    if y != 0 {
      DifferenceTwice(Prime(), y, m);
      BigEndianOfToBytes(d % m, 32);
      assert Negated(point)[32..] == ToBytes(d % m, 32) && Negated(point)[..32] == point[..32];
      ToBytesOfBigEndian(point[32..]);
      assert point == point[..32] + point[32..];
    }
  }

  lemma DifferenceTwice(p: int, y: int, m: int)
    requires 0 < p < m && 0 < y < m
    ensures (p - y) % m == 0 <==> p == y
    ensures p != y ==> (p - (p - y) % m) % m == y
  {
    if p < y {
      WrapsOnce(p - y, m);
      WrapsOnce(y - m, m);
    } else {
      SmallRemainder(p - y, m);
      SmallRemainder(y, m);
    }
  }

  // ---- Written out ----

  /** Eight bytes as one number. */
  function EightBytes(s: seq<int>, i: nat): int
    requires i + 8 <= |s|
  {
    0x100_0000_0000_0000 * s[i] + 0x1_0000_0000_0000 * s[i + 1] + 0x100_0000_0000 * s[i + 2] + 0x1_0000_0000 * s[i + 3]
    + 0x100_0000 * s[i + 4] + 0x1_0000 * s[i + 5] + 0x100 * s[i + 6] + s[i + 7]
  }

  lemma NextByte(s: seq<Byte>, i: nat, before: nat)
    requires i < |s| && BigEndian(s[..i]) == before
    ensures BigEndian(s[..i + 1]) == 256 * before + s[i]
  {
    assert s[..i + 1][..i] == s[..i];
  }

  lemma EightMore(s: seq<Byte>, i: nat, v: nat)
    requires i + 8 <= |s| && BigEndian(s[..i]) == v
    ensures BigEndian(s[..i + 8]) == 0x1_0000_0000_0000_0000 * v + EightBytes(s, i)
  {
    hide BigEndian;
    var a := 256 * v + s[i];
    var b := 256 * a + s[i + 1];
    var c := 256 * b + s[i + 2];
    var d := 256 * c + s[i + 3];
    var e := 256 * d + s[i + 4];
    var f := 256 * e + s[i + 5];
    var g := 256 * f + s[i + 6];
    NextByte(s, i, v);
    NextByte(s, i + 1, a);
    NextByte(s, i + 2, b);
    NextByte(s, i + 3, c);
    NextByte(s, i + 4, d);
    NextByte(s, i + 5, e);
    NextByte(s, i + 6, f);
    NextByte(s, i + 7, g);
  }

  /** The modulus is the one the curve family gives for its parameter. */
  lemma PrimeOfCurve()
    ensures var u := 4965661367192848881;
      Prime() == 36 * (u * u * u * u) + 36 * (u * u * u) + 24 * (u * u) + 6 * u + 1
  {
    hide BigEndian, EightBytes;
    var s := FP_MODULUS;
    assert BigEndian(s[..0]) == 0 by { Nothing(s); }
    Quarters();
    LowQuarters();
    EightMore(s, 0, 0);
    EightMore(s, 8, 0x30644e72e131a029);
    EightMore(s, 16, 0x30644e72e131a029b85045b68181585d);
    EightMore(s, 24, 0x30644e72e131a029b85045b68181585d97816a916871ca8d);
    assert s[..32] == s;
    assert Prime() == 0x30644e72e131a029b85045b68181585d97816a916871ca8d3c208c16d87cfd47;
  }

  lemma Nothing(s: seq<Byte>)
    ensures BigEndian(s[..0]) == 0
  {
  }

  lemma Quarters()
    ensures EightBytes(FP_MODULUS, 0) == 0x30644e72e131a029 && EightBytes(FP_MODULUS, 8) == 0xb85045b68181585d
  {
  }

  lemma LowQuarters()
    ensures EightBytes(FP_MODULUS, 16) == 0x97816a916871ca8d && EightBytes(FP_MODULUS, 24) == 0x3c208c16d87cfd47
  {
  }

  /** The negated point, case by case: x is kept; y = 0 stays, y up to the modulus p becomes p - y, and a larger
      y becomes 2^256 + p - y. */
  lemma NegatedIs(point: seq<Byte>)
    requires |point| == 64
    ensures var out, y := Negated(point), Y(point);
      var m := 0x1_0000000000000000_0000000000000000_0000000000000000_0000000000000000;
      && |out| == 64 && out[..32] == point[..32]
      && (y == 0 ==> out == point)
      && (0 < y <= Prime() ==> Y(out) == Prime() - y)
      && (y > Prime() ==> Y(out) == m + Prime() - y)
  {
    hide BigEndian, Pow256, ToBytes, Prime;
    var y, m := Y(point), Pow256(32);
    Pow256Values();
    if y != 0 {
      var d := Prime() - y;
      if y <= Prime() {
        SmallRemainder(d, m);
      } else {
        WrapsOnce(d, m);
      }
      BigEndianOfToBytes(d % m, 32);
      assert Negated(point)[32..] == ToBytes(d % m, 32);
    }
  }
}
