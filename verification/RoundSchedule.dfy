/** The Poseidon permutation written out: which lanes hold the inputs, what one full and one partial round do
    to each lane, and how many of each there are. The specification the contract's hash is proved against
    is this. */
module RoundSchedule {
  import opened ScalarField
  import opened Poseidon

  /** Three lanes. */
  type Lane3 = s: seq<int> | |s| == 3 witness [0, 0, 0]

  function Plus(x: int, y: int): int { x + y }

  function Fifth(x: int): int { x * x * x * x * x % R }

  function RowSum(row: Lane3, x: int, y: int, z: int): int { (row[0] * x + row[1] * y + row[2] * z) % R }

  /** Constants on, all three lanes to the fifth power, matrix. */
  function FullRound(c: seq<int>, m: seq<Lane3>, r: nat, s: Lane3): Lane3
    requires |c| == 195 && |m| == 3 && r < 65
  {
    var x, y, z := Fifth(s[0] + c[3 * r]), Fifth(s[1] + c[3 * r + 1]), Fifth(s[2] + c[3 * r + 2]);
    [RowSum(m[0], x, y, z), RowSum(m[1], x, y, z), RowSum(m[2], x, y, z)]
  }

  /** Constants on, the first lane to the fifth power, matrix. */
  function PartialRound(c: seq<int>, m: seq<Lane3>, r: nat, s: Lane3): Lane3
    requires |c| == 195 && |m| == 3 && r < 65
  {
    var x, y, z := Fifth(s[0] + c[3 * r]), s[1] + c[3 * r + 1], s[2] + c[3 * r + 2];
    [RowSum(m[0], x, y, z), RowSum(m[1], x, y, z), RowSum(m[2], x, y, z)]
  }

  /** n full rounds from round r on. */
  function FullRounds(c: seq<int>, m: seq<Lane3>, r: nat, n: nat, s: Lane3): Lane3
    requires |c| == 195 && |m| == 3 && r + n <= 65
  {
    if n == 0 then s else FullRound(c, m, r + n - 1, FullRounds(c, m, r, n - 1, s))
  }

  function PartialRounds(c: seq<int>, m: seq<Lane3>, r: nat, n: nat, s: Lane3): Lane3
    requires |c| == 195 && |m| == 3 && r + n <= 65
  {
    if n == 0 then s else PartialRound(c, m, r + n - 1, PartialRounds(c, m, r, n - 1, s))
  }

  /** Four full rounds, 57 partial ones, four full ones, on zero and the two inputs; the first lane. */
  function Digest(c: seq<int>, m: seq<Lane3>, left: int, right: int): int
    requires |c| == 195 && |m| == 3
  {
    FullRounds(c, m, 61, 4, PartialRounds(c, m, 4, 57, FullRounds(c, m, 0, 4, [0, left, right])))[0]
  }

  // ---- One lane ----

  lemma FifthPower(x: Fe, y: int)
    requires x == Reduce(y)
    ensures Pow5(x) == Fifth(y)
  {
    hide Reduce;
    Idempotent(y);
    ProductOf(x, y, x, y);
    var x2 := Mul(x, x);
    Idempotent(y * y);
    ProductOf(x2, y * y, x2, y * y);
    Idempotent((y * y) * (y * y));
    ProductOf(Mul(x2, x2), (y * y) * (y * y), x, y);
    FiveFactors(y);
    ReduceIs(y * y * y * y * y);
  }

  lemma FiveFactors(y: int)
    ensures (y * y) * (y * y) * y == y * y * y * y * y
  {
  }

  lemma ReduceIs(v: int)
    ensures Reduce(v) == v % R
  {
  }

  lemma Idempotent(v: int)
    ensures Reduce(Reduce(v)) == Reduce(v)
  {
  }

  /** Products may be taken before or after reduction. */
  lemma ProductOf(a: int, x: int, b: int, y: int)
    requires Reduce(a) == Reduce(x) && Reduce(b) == Reduce(y)
    ensures Reduce(a * b) == Reduce(x * y)
  {
    hide Reduce;
    CongruentMul(a, x, b);
    CongruentMul(b, y, x);
    assert b * x == x * b && y * x == x * y;
  }

  lemma RowIs(row: Lanes, s: Lanes, x: int, y: int, z: int)
    requires s[0] == Reduce(x) && s[1] == Reduce(y) && s[2] == Reduce(z)
    ensures Dot(row, s) == RowSum(row, x, y, z)
  {
    hide Reduce;
    TermIs(row[0], s[0], x);
    TermIs(row[1], s[1], y);
    TermIs(row[2], s[2], z);
    SumOf(Mul(row[0], s[0]), row[0] * x, Mul(row[1], s[1]), row[1] * y);
    SumOf(Add(Mul(row[0], s[0]), Mul(row[1], s[1])), row[0] * x + row[1] * y, Mul(row[2], s[2]), row[2] * z);
    ReduceIs(row[0] * x + row[1] * y + row[2] * z);
  }

  lemma TermIs(a: Fe, b: Fe, x: int)
    requires b == Reduce(x)
    ensures Reduce(Mul(a, b)) == Reduce(a * x)
  {
    hide Reduce;
    Idempotent(x);
    Idempotent(a * b);
    ProductOf(a, a, b, x);
  }

  lemma SumOf(a: Fe, x: int, b: Fe, y: int)
    requires Reduce(a) == Reduce(x) && Reduce(b) == Reduce(y)
    ensures Add(a, b) == Reduce(x + y) && Reduce(Add(a, b)) == Reduce(x + y)
  {
    hide Reduce;
    CongruentAdd(a, b, x, y);
    Idempotent(a + b);
  }

  // ---- One round ----

  lemma FullRoundIs(p: Parameters, r: nat, s: Lanes)
    requires WellFormed(p) && (r < 4 || 61 <= r < 65)
    ensures Mix(p, SBox(r, AddConstants(p, r, s))) == FullRound(p.c, p.m, r, s)
  {
    hide Dot, RowSum, Pow5, Fifth, Reduce;
    var x, y, z := Plus(s[0], p.c[3 * r]), Plus(s[1], p.c[3 * r + 1]), Plus(s[2], p.c[3 * r + 2]);
    FifthPower(Reduce(x), x);
    FifthPower(Reduce(y), y);
    FifthPower(Reduce(z), z);
    var t: Lanes := [Pow5(Reduce(x)), Pow5(Reduce(y)), Pow5(Reduce(z))];
    Small(t[0]);
    Small(t[1]);
    Small(t[2]);
    RowIs(p.m[0], t, t[0], t[1], t[2]);
    RowIs(p.m[1], t, t[0], t[1], t[2]);
    RowIs(p.m[2], t, t[0], t[1], t[2]);
  }

  lemma Small(x: Fe)
    ensures Reduce(x) == x
  {
  }

  lemma PartialRoundIs(p: Parameters, r: nat, s: Lanes)
    requires WellFormed(p) && 4 <= r < 61
    ensures Mix(p, SBox(r, AddConstants(p, r, s))) == PartialRound(p.c, p.m, r, s)
  {
    hide Dot, RowSum, Pow5, Fifth, Reduce;
    var x, y, z := Plus(s[0], p.c[3 * r]), Plus(s[1], p.c[3 * r + 1]), Plus(s[2], p.c[3 * r + 2]);
    FifthPower(Reduce(x), x);
    var t: Lanes := [Pow5(Reduce(x)), Reduce(y), Reduce(z)];
    Small(t[0]);
    RowIs(p.m[0], t, t[0], y, z);
    RowIs(p.m[1], t, t[0], y, z);
    RowIs(p.m[2], t, t[0], y, z);
  }

  // ---- All rounds ----

  lemma OneRound(p: Parameters, s: Lanes, n: nat)
    requires WellFormed(p) && n < 65
    ensures Permutation(p, s, n + 1) == Mix(p, SBox(n, AddConstants(p, n, Permutation(p, s, n))))
  {
    hide Mix, SBox, AddConstants;
  }

  lemma {:induction false} FullFrom(p: Parameters, s: Lanes, r: nat, n: nat)
    requires WellFormed(p) && r + n <= 65 && (r + n <= 4 || 61 <= r)
    ensures Permutation(p, s, r + n) == FullRounds(p.c, p.m, r, n, Permutation(p, s, r))
  {
    hide Permutation, Mix, SBox, AddConstants, FullRound;
    if n > 0 {
      FullFrom(p, s, r, n - 1);
      OneRound(p, s, r + n - 1);
      FullRoundIs(p, r + n - 1, Permutation(p, s, r + n - 1));
    }
  }

  lemma {:induction false} PartialFrom(p: Parameters, s: Lanes, n: nat)
    requires WellFormed(p) && n <= 57
    ensures Permutation(p, s, 4 + n) == PartialRounds(p.c, p.m, 4, n, Permutation(p, s, 4))
  {
    hide Permutation, Mix, SBox, AddConstants, PartialRound;
    if n > 0 {
      PartialFrom(p, s, n - 1);
      OneRound(p, s, 4 + n - 1);
      PartialRoundIs(p, 4 + n - 1, Permutation(p, s, 4 + n - 1));
    }
  }

  lemma NoRounds(p: Parameters, s: Lanes)
    requires WellFormed(p)
    ensures Permutation(p, s, 0) == s
  {
  }

  /** The hash is the first lane of 4 full, 57 partial and 4 full rounds on zero, left and right. */
  lemma HashIsDigest(p: Parameters, left: Fe, right: Fe)
    requires WellFormed(p)
    ensures Hash2(p, left, right) == Digest(p.c, p.m, left, right)
  {
    hide Permutation, FullRounds, PartialRounds;
    var s: Lanes := [0, left, right];
    NoRounds(p, s);
    FullFrom(p, s, 0, 4);
    PartialFrom(p, s, 57);
    FullFrom(p, s, 61, 4);
  }

  // ---- The modulus ----

  /** r is the order the curve family gives for its parameter. */
  lemma ModulusOfCurve()
    ensures var u := 4965661367192848881;
      R == 36 * (u * u * u * u) + 36 * (u * u * u) + 18 * (u * u) + 6 * u + 1
  {
  }
}
