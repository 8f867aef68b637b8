/** The four-limb Montgomery arithmetic of contracts/shielded_pool/src/poseidon/field.rs.

    A machine word is a mathematical integer below 2^64; every wrap-around and truncating cast of
    the source is written out with % and /, and every u128 intermediate is shown to fit. */
module Limbs {
  import opened ScalarField

  const B: int := 0x1_0000000000000000
  const U128: int := 0x1_0000000000000000_0000000000000000

  type Word = x: int | 0 <= x < 0x1_0000000000000000

  /** A field value as the source holds it: four words, least significant first. */
  type Fr = s: seq<Word> | |s| == 4 witness [0, 0, 0, 0]

  const ZERO: Fr := [0, 0, 0, 0]
  const MODULUS: Fr := [0x43e1f593f0000001, 0x2833e84879b97091, 0xb85045b68181585d, 0x30644e72e131a029]
  const R2: Fr := [0x1bb8e645ae216da7, 0x53fe3ab1e35c59e3, 0x8c49833d53bb8085, 0x0216d0b17f4e44a5]
  const INV: Word := 0xc2e1f593efffffff

  function Weigh(l0: int, l1: int, l2: int, l3: int): int {
    l0 + l1 * 0x1_0000000000000000
    + l2 * 0x1_0000000000000000_0000000000000000
    + l3 * 0x1_0000000000000000_0000000000000000_0000000000000000
  }

  /** The integer four words stand for. */
  function Value(s: Fr): (v: int)
    ensures 0 <= v < RADIX
  {
    Weigh(s[0], s[1], s[2], s[3])
  }

  predicate Reduced(s: Fr) { Value(s) < R }

  lemma ModulusValue()
    ensures Value(MODULUS) == R
  {
  }

  /** The casts `x as u64` and `(x >> 64) as u64` of a u128. */
  function Split(x: int): (r: (Word, Word))
    requires 0 <= x < U128
    ensures r.0 + B * r.1 == x
  {
    (x % B, x / B % B)
  }

  /** a + b * c + carry as a low and a high word; the sum always fits the u128 it is computed in. */
  function Mac(a: Word, b: Word, c: Word, carry: Word): (r: (Word, Word))
    ensures a + b * c + carry < U128
    ensures r.0 + B * r.1 == a + b * c + carry
  {
    ProductBound(b, c, 0xffff_ffff_ffff_ffff);
    Split(a + b * c + carry)
  }

  function Adc(a: Word, b: Word, carry: Word): (r: (Word, Word))
    ensures r.0 + B * r.1 == a + b + carry
  {
    Split(a + b + carry)
  }

  function WrappingAdd(a: Word, b: Word): (r: Word)
    ensures a + b < B ==> r == a + b
  {
    (a + b) % B
  }

  /** a - b - borrow in wrapping u128 arithmetic; the second word is the borrow out. */
  function Sbb(a: Word, b: Word, borrow: Word): (r: (Word, Word))
    requires borrow <= 1
    ensures r.1 <= 1 && r.0 - B * r.1 == a - b - borrow
  {
    var difference := a - (b + borrow);
    var ret := if difference < 0 then difference + U128 else difference;
    var (low, high) := Split(ret);
    (low, high % 2)
  }

  /** The four-word borrow chain: s - m, plus 2^256 when the last borrow is set. */
  method Borrow4(s: Fr, m: Fr) returns (d: Fr, borrow: Word)
    ensures borrow <= 1
    ensures Value(d) == Value(s) - Value(m) + borrow * RADIX
  {
    var (d0, b0) := Sbb(s[0], m[0], 0);
    var (d1, b1) := Sbb(s[1], m[1], b0);
    var (d2, b2) := Sbb(s[2], m[2], b1);
    var (d3, b3) := Sbb(s[3], m[3], b2);
    d, borrow := [d0, d1, d2, d3], b3;
  }

  /** The four-word carry chain: a + b, less 2^256 times the last carry. */
  method Carry4(a: Fr, b: Fr) returns (s: Fr, carry: Word)
    ensures Value(s) + carry * RADIX == Value(a) + Value(b)
  {
    var (r0, c0) := Adc(a[0], b[0], 0);
    var (r1, c1) := Adc(a[1], b[1], c0);
    var (r2, c2) := Adc(a[2], b[2], c1);
    var (r3, c3) := Adc(a[3], b[3], c2);
    s, carry := [r0, r1, r2, r3], c3;
  }

  /** Subtracts the modulus once from a value that is not below it. */
  method ConditionalReduce(s: Fr) returns (r: Fr)
    ensures Value(r) == if Value(s) < R then Value(s) else Value(s) - R
  {
    ModulusValue();
    var d, borrow := Borrow4(s, MODULUS);
    r := if borrow == 1 then s else d;
  }

  /** Field addition: the carry chain with its last carry dropped, then one reduction. */
  method AddFr(a: Fr, b: Fr) returns (r: Fr)
    ensures Reduced(a) && Reduced(b) ==> Value(r) == Add(Value(a), Value(b))
  {
    hide Value;
    var s, carry := Carry4(a, b);
    r := ConditionalReduce(s);
    SumReduced(Value(a), Value(b), Value(s), carry);
  }

  lemma SumReduced(x: int, y: int, v: int, carry: int)
    requires 0 <= x < RADIX && 0 <= y < RADIX && 0 <= v < RADIX && 0 <= carry
    requires v + carry * RADIX == x + y
    ensures x < R && y < R ==> (if v < R then v else v - R) == Reduce(x + y)
  {
    if x < R && y < R {
      assert carry == 0;
    }
  }

  /** x & mask for the two masks the source builds, all zeros and all ones. */
  function Masked(x: Word, mask: Word): Word
    requires mask == 0 || mask == B - 1
  {
    if mask == 0 then 0 else x
  }

  /** The modulus under the mask `borrow.wrapping_neg()`. */
  method MaskedModulus(borrow: Word) returns (r: Fr)
    requires borrow <= 1
    ensures Value(r) == borrow * R
  {
    ModulusValue();
    var mask: Word := (B - borrow) % B;
    r := [Masked(MODULUS[0], mask), Masked(MODULUS[1], mask), Masked(MODULUS[2], mask), Masked(MODULUS[3], mask)];
  }

  /** Field subtraction: a borrow chain, then the modulus added back under the borrow's mask. */
  method SubFr(a: Fr, b: Fr) returns (r: Fr)
    ensures Reduced(a) && Reduced(b) ==> Value(r) == Sub(Value(a), Value(b))
  {
    hide Value;
    var d, borrow := Borrow4(a, b);
    var addend := MaskedModulus(borrow);
    var carry;
    r, carry := Carry4(d, addend);
    DifferenceReduced(Value(a), Value(b), Value(d), borrow, Value(r), carry);
  }

  lemma DifferenceReduced(x: int, y: int, d: int, borrow: int, v: int, carry: int)
    requires 0 <= x < RADIX && 0 <= y < RADIX && 0 <= d < RADIX && 0 <= v < RADIX
    requires 0 <= borrow <= 1 && 0 <= carry
    requires d == x - y + borrow * RADIX
    requires v + carry * RADIX == d + borrow * R
    ensures x < R && y < R ==> v == Reduce(x - y)
  {
  }

  // ---- Montgomery multiplication ----

  function Weigh5(l0: int, l1: int, l2: int, l3: int, l4: int): int {
    Weigh(l0, l1, l2, l3) + l4 * 0x1_0000000000000000_0000000000000000_0000000000000000_0000000000000000
  }

  /** 2^(64 i). */
  function Radix(i: nat): (p: int)
    ensures p > 0
  {
    if i == 0 then 1 else Radix(i - 1) * B
  }

  /** The integer the i least significant words of b stand for. */
  function Low(b: Fr, i: nat): int
    requires i <= 4
  {
    if i == 0 then 0 else Low(b, i - 1) + b[i - 1] * Radix(i - 1)
  }

  lemma LowAll(b: Fr)
    ensures Low(b, 4) == Value(b) && Radix(4) == RADIX
  {
    assert Radix(1) == B;
    assert Radix(2) == U128;
    assert Radix(3) == 0x1_0000000000000000_0000000000000000_0000000000000000;
    assert Low(b, 1) == b[0];
    assert Low(b, 2) == b[0] + b[1] * B;
    assert Low(b, 3) == b[0] + b[1] * B + b[2] * U128;
  }

  /** The first carry chain of a round adds a * bi to the running value. */
  lemma RowAdded(t: seq<int>, a: Fr, bi: Word, l: seq<int>, c: seq<int>)
    requires |t| == |l| == |c| == 5
    requires l[0] + B * c[0] == t[0] + a[0] * bi
    requires l[1] + B * c[1] == t[1] + a[1] * bi + c[0]
    requires l[2] + B * c[2] == t[2] + a[2] * bi + c[1]
    requires l[3] + B * c[3] == t[3] + a[3] * bi + c[2]
    requires l[4] + B * c[4] == t[4] + c[3]
    ensures Weigh5(l[0], l[1], l[2], l[3], l[4]) + c[4] * Radix(5)
         == Weigh5(t[0], t[1], t[2], t[3], t[4]) + Value(a) * bi
  {
    LowAll(a);
    assert Radix(5) == RADIX * B;
    ScaleValue(a, bi);
  }

  lemma ScaleValue(a: Fr, k: int)
    ensures Value(a) * k == Weigh(a[0] * k, a[1] * k, a[2] * k, a[3] * k)
  {
  }

  /** The multiple of r that makes the lowest word of t + m * r vanish: t0 * INV, wrapping. */
  function Quotient(t0: Word): Word { t0 * INV % B }

  lemma LowWordCancels(t0: Word, low: Word, carry: Word)
    requires low + B * carry == t0 + Quotient(t0) * MODULUS[0]
    ensures low == 0
  {
    var q := t0 * INV / B;
    assert low == (t0 * 3723675147829272286 - q * MODULUS[0] - carry) * B;
  }

  /** The second carry chain of a round adds m * r and drops the vanished lowest word. */
  lemma RowReduced(l: seq<int>, m: int, k: seq<int>, n: seq<int>, top: int)
    requires |l| == |k| == 5 && |n| == 4
    requires B * k[0] == l[0] + m * MODULUS[0]
    requires n[0] + B * k[1] == l[1] + m * MODULUS[1] + k[0]
    requires n[1] + B * k[2] == l[2] + m * MODULUS[2] + k[1]
    requires n[2] + B * k[3] == l[3] + m * MODULUS[3] + k[2]
    requires n[3] + B * k[4] == l[4] + k[3]
    ensures Weigh5(n[0], n[1], n[2], n[3], k[4] + top) * B
         == Weigh5(l[0], l[1], l[2], l[3], l[4]) + top * Radix(5) + m * R
  {
    LowAll(ZERO);
    assert Radix(5) == RADIX * B;
    ScaleValue(MODULUS, m);
    ModulusValue();
  }

  /** What one round of the product keeps: t carries a * b / 2^(64 i), modulo r, and stays below a + r. */
  ghost predicate RoundInvariant(t: int, a: int, b: int, p: int, q: int) {
    t * p == a * b + q * R && 0 <= q < p && 0 <= t < a + R
  }

  lemma RoundKept(t: int, a: int, b: int, p: int, q: int, bi: Word, m: Word, t': int)
    requires RoundInvariant(t, a, b, p, q) && 0 <= a && 0 < p
    requires t' * B == t + a * bi + m * R
    ensures RoundInvariant(t', a, b + bi * p, p * B, q + m * p)
  {
    RoundIdentity(t, a, b, p, q, bi, m, t', B, R);
    QuotientBound(p, q, m, B);
    RunningBound(t, a, bi, m, t', B, R);
  }

  /** The three parts of the step, for any base k and modulus r. */
  lemma RoundIdentity(t: int, a: int, b: int, p: int, q: int, bi: int, m: int, t': int, k: int, r: int)
    requires t * p == a * b + q * r && t' * k == t + a * bi + m * r
    ensures t' * (p * k) == a * (b + bi * p) + (q + m * p) * r
  {
    assert t' * (p * k) == (t' * k) * p by { MulExchange(t', p, k); }
    Spread(t, a * bi, m * r, p);
    assert (a * bi) * p == a * (bi * p) && (m * r) * p == (m * p) * r by { MulExchange(m, r, p); }
    Spread(b, bi * p, 0, a);
    Spread(q, m * p, 0, r);
  }

  lemma QuotientBound(p: int, q: int, m: int, k: int)
    requires 0 <= q < p && 0 <= m < k
    ensures 0 <= q + m * p < p * k
  {
    ProductMonotone(p, m, k - 1);
    Spread(k - 1, 1, 0, p);
  }

  lemma RunningBound(t: int, a: int, bi: int, m: int, t': int, k: int, r: int)
    requires 0 <= t < a + r && 0 <= a && 0 < r && 0 <= bi < k && 0 <= m < k
    requires t' * k == t + a * bi + m * r
    ensures 0 <= t' < a + r
  {
    ProductMonotone(a, bi, k - 1);
    ProductMonotone(r, m, k - 1);
    Spread(k - 1, 1, 0, a + r);
    Spread(a, r, 0, k - 1);
    DivideBound(t', a + r, k);
  }

  lemma DivideBound(x: int, y: int, k: int)
    requires k > 0 && 0 <= x * k < y * k
    ensures 0 <= x < y
  {
    if x < 0 {
      ProductMonotone(k, 1, -x);
    }
    if x >= y {
      ProductMonotone(k, 0, x - y);
    }
  }

  lemma Spread(x: int, y: int, z: int, p: int)
    ensures (x + y + z) * p == x * p + y * p + z * p == p * (x + y + z)
  {
  }

  lemma ProductMonotone(a: int, x: int, y: int)
    requires 0 <= a && 0 <= x <= y
    ensures 0 <= a * x <= a * y
  {
    assert 0 <= a * (y - x);
  }

  ghost function Running(t: array<Word>): int
    requires t.Length == 5
    reads t
  {
    Weigh5(t[0], t[1], t[2], t[3], t[4])
  }

  /** The first half of a round, in place: t += a * bi, with the carry out of its five words. */
  method AddRow(t: array<Word>, a: Fr, bi: Word) returns (carry: Word)
    requires t.Length == 5
    modifies t
    ensures Running(t) + carry * Radix(5) == old(Running(t)) + Value(a) * bi
  {
    hide Value, Weigh5, Mac, Adc;
    ghost var t0: seq<int> := [t[0], t[1], t[2], t[3], t[4]];
    var (l0, c0) := Mac(t[0], a[0], bi, 0);
    t[0] := l0;
    var (l1, c1) := Mac(t[1], a[1], bi, c0);
    t[1] := l1;
    var (l2, c2) := Mac(t[2], a[2], bi, c1);
    t[2] := l2;
    var (l3, c3) := Mac(t[3], a[3], bi, c2);
    t[3] := l3;
    var (l4, c4) := Adc(t[4], 0, c3);
    t[4] := l4;
    carry := c4;
    RowAdded(t0, a, bi, [l0, l1, l2, l3, l4], [c0, c1, c2, c3, c4]);
  }

  /** t + carry * 2^320, with any multiple of r a round may add, is below 2 * 2^256 once divided. */
  ghost predicate Fits(t: int, carry: Word) {
    t + carry * Radix(5) + B * R <= 2 * RADIX * B
  }

  /** The second half of a round, in place: t becomes (t + carry * 2^320 + m * r) / 2^64 for the m
      that makes the division exact. The top word never wraps when the result is below 2 * 2^256. */
  method ReduceRow(t: array<Word>, carry: Word) returns (ghost m: Word)
    requires t.Length == 5
    requires Fits(Running(t), carry)
    modifies t
    ensures Running(t) * B == old(Running(t)) + carry * Radix(5) + m * R
  {
    hide Weigh5, Running, Mac, Adc, Quotient, Radix, WrappingAdd, Fits;
    ghost var l: seq<int> := [t[0], t[1], t[2], t[3], t[4]];
    RunningIs(t, t[0], t[1], t[2], t[3], t[4]);
    var quotient := Quotient(t[0]);
    m := quotient;
    var (gone, k0) := Mac(t[0], quotient, MODULUS[0], 0);
    LowWordCancels(t[0], gone, k0);
    var (n0, k1) := Mac(t[1], quotient, MODULUS[1], k0);
    t[0] := n0;
    var (n1, k2) := Mac(t[2], quotient, MODULUS[2], k1);
    t[1] := n1;
    var (n2, k3) := Mac(t[3], quotient, MODULUS[3], k2);
    t[2] := n2;
    var (n3, k4) := Adc(t[4], k3, 0);
    t[3] := n3;
    RowReduced(l, m, [k0, k1, k2, k3, k4], [n0, n1, n2, n3], carry);
    TopFits(n0, n1, n2, n3, k4 + carry, m, l, carry);
    t[4] := WrappingAdd(k4, carry);
    RunningIs(t, n0, n1, n2, n3, k4 + carry);
  }

  lemma RunningIs(t: array<Word>, l0: int, l1: int, l2: int, l3: int, l4: int)
    requires t.Length == 5 && t[0] == l0 && t[1] == l1 && t[2] == l2 && t[3] == l3 && t[4] == l4
    ensures Running(t) == Weigh5(l0, l1, l2, l3, l4)
  {
  }

  lemma TopFits(n0: Word, n1: Word, n2: Word, n3: Word, top: int, m: Word, l: seq<int>, carry: Word)
    requires |l| == 5 && 0 <= top
    requires Weigh5(n0, n1, n2, n3, top) * B
          == Weigh5(l[0], l[1], l[2], l[3], l[4]) + carry * Radix(5) + m * R
    requires Fits(Weigh5(l[0], l[1], l[2], l[3], l[4]), carry)
    ensures top <= 1
  {
    assert Weigh5(n0, n1, n2, n3, top) < 2 * RADIX;
  }

  /** One round on the running value: the invariant moves from i words of b to i + 1. */
  lemma RoundFits(t: int, a: int, bi: Word)
    requires 0 <= t < a + R && 0 <= a < RADIX
    ensures t + a * bi + B * R <= 2 * RADIX * B
  {
    assert a * bi <= a * (B - 1) by { ProductMonotone(a, bi, B - 1); }
  }

  method MulRound(t: array<Word>, a: Fr, b: Fr, i: nat, ghost q: int) returns (ghost q': int)
    requires t.Length == 5 && i < 4
    requires RoundInvariant(Running(t), Value(a), Low(b, i), Radix(i), q)
    modifies t
    ensures RoundInvariant(Running(t), Value(a), Low(b, i + 1), Radix(i + 1), q')
  {
    hide Running, Value;
    ghost var before := Running(t);
    RoundFits(before, Value(a), b[i]);
    var carry := AddRow(t, a, b[i]);
    ghost var m := ReduceRow(t, carry);
    q' := q + m * Radix(i);
    RoundKept(before, Value(a), Low(b, i), Radix(i), q, b[i], m, Running(t));
  }

  /** The end of the product: the modulus comes off once for a set top word and once more if it can. */
  method FinalReduce(t: array<Word>) returns (r: Fr, ghost k: int)
    requires t.Length == 5 && Running(t) < RADIX + R
    ensures 0 <= k <= 2 && Value(r) == Running(t) - k * R
    ensures Running(t) < 2 * R ==> Reduced(r)
  {
    var s: Fr := [t[0], t[1], t[2], t[3]];
    assert Running(t) == Value(s) + t[4] * RADIX;
    k := 0;
    if t[4] != 0 {
      hide Value;
      ModulusValue();
      var d, borrow := Borrow4(s, MODULUS);
      TopWordBorrows(Value(s), t[4], Value(d), borrow);
      s, k := d, 1;
    }
    hide Value;
    r := ConditionalReduce(s);
    k := if Value(s) < R then k else k + 1;
  }

  lemma TopWordBorrows(s: int, top: Word, d: int, borrow: Word)
    requires 0 <= s < RADIX && 0 <= d < RADIX && top != 0 && borrow <= 1
    requires s + top * RADIX < RADIX + R && d == s - R + borrow * RADIX
    ensures top == 1 && borrow == 1
  {
  }

  /** What multiplication promises: r times 2^256 is congruent to a * b, whatever the operands, and r
      is reduced as soon as a * b < r * 2^256. */
  ghost predicate IsMontgomeryProduct(r: Fr, a: Fr, b: Fr) {
    && Reduce(Value(r) * RADIX) == Reduce(Value(a) * Value(b))
    && (Value(a) * Value(b) < R * RADIX ==> Reduced(r))
  }

  /** Montgomery multiplication, coarsely integrated operand scanning. */
  method MulFr(a: Fr, b: Fr) returns (r: Fr)
    ensures IsMontgomeryProduct(r, a, b)
  {
    hide Running, Value, RoundInvariant, Low, Radix, IsMontgomeryProduct;
    var t := new Word[5](i => 0);
    ghost var q := 0;
    RunningZero(t);
    BeforeRounds(Running(t), a, b);
    var i := 0;
    while i < 4
      invariant 0 <= i <= 4
      invariant RoundInvariant(Running(t), Value(a), Low(b, i), Radix(i), q)
    {
      q := MulRound(t, a, b, i, q);
      i := i + 1;
    }
    AfterRounds(Running(t), a, b, q);
    ghost var k;
    r, k := FinalReduce(t);
    FinalReduction(Running(t), a, b, q, k, r);
  }

  lemma RunningZero(t: array<Word>)
    requires t.Length == 5 && t[0] == t[1] == t[2] == t[3] == t[4] == 0
    ensures Running(t) == 0
  {
  }

  lemma BeforeRounds(t: int, a: Fr, b: Fr)
    requires t == 0
    ensures RoundInvariant(t, Value(a), Low(b, 0), Radix(0), 0)
  {
  }

  lemma AfterRounds(t: int, a: Fr, b: Fr, q: int)
    requires RoundInvariant(t, Value(a), Low(b, 4), Radix(4), q)
    ensures RoundInvariant(t, Value(a), Value(b), RADIX, q) && t < RADIX + R
  {
    LowAll(b);
  }

  lemma FinalReduction(t: int, a: Fr, b: Fr, q: int, k: int, r: Fr)
    requires RoundInvariant(t, Value(a), Value(b), RADIX, q) && Value(r) == t - k * R
    requires t < 2 * R ==> Reduced(r)
    ensures IsMontgomeryProduct(r, a, b)
  {
    hide Value;
    ProductCongruent(t, Value(a), Value(b), q, k, Value(r));
  }

  lemma ProductCongruent(t: int, a: int, b: int, q: int, k: int, r: int)
    requires RoundInvariant(t, a, b, RADIX, q) && r == t - k * R
    ensures Reduce(r * RADIX) == Reduce(a * b)
    ensures a * b < R * RADIX ==> t < 2 * R
  {
    assert r * RADIX == a * b + (q - k * RADIX) * R;
    CongruentByQuotient(r * RADIX, a * b, q - k * RADIX);
    if a * b < R * RADIX {
      assert q * R <= RADIX * R by { ProductMonotone(R, q, RADIX); }
      assert t * RADIX < 2 * R * RADIX;
    }
  }
}
