/** The BN254 scalar field Z_r, its Montgomery representation, and the modular-arithmetic facts
    the limb code, the hash and the circuits are measured against. */
module ScalarField {
  // The field modulus r.
  const R: int := 21888242871839275222246405745257275088548364400416034343698204186575808495617

  // The Montgomery radix 2^256 and its inverse modulo r.
  const RADIX: int := 0x1_0000000000000000_0000000000000000_0000000000000000_0000000000000000
  const RADIX_INVERSE: int := 9915499612839321149637521777990102151350674507940716049588462388200839649614

  type Fe = x: int | 0 <= x < R witness 0

  function Reduce(x: int): Fe { x % R }

  function Add(a: Fe, b: Fe): Fe { Reduce(a + b) }

  function Sub(a: Fe, b: Fe): Fe { Reduce(a - b) }

  function Mul(a: Fe, b: Fe): Fe { Reduce(a * b) }

  function Pow5(a: Fe): Fe {
    var x2 := Mul(a, a);
    Mul(Mul(x2, x2), a)
  }

  /** The field element a Montgomery value stands for: v / 2^256 in Z_r. */
  function Decode(v: int): Fe { Reduce(v * RADIX_INVERSE) }

  /** The Montgomery representative of a field element. */
  function Encode(x: int): Fe { Reduce(x * RADIX) }

  /** That r is prime, in the one form the circuits rely on: a product vanishes only with a factor. */
  ghost predicate NoZeroDivisors() {
    forall a: Fe, b: Fe :: Mul(a, b) == 0 ==> a == 0 || b == 0
  }

  lemma SmallReduces(v: int)
    requires 0 <= v < R
    ensures Reduce(v) == v
  {
  }

  lemma ProductBound(b: int, c: int, m: int)
    requires 0 <= b <= m && 0 <= c <= m
    ensures 0 <= b * c <= m * m
  {
    assert 0 <= (m - b) * c;
    assert 0 <= m * (m - c);
  }

  lemma CongruentByQuotient(x: int, y: int, k: int)
    requires x == y + k * R
    ensures Reduce(x) == Reduce(y)
  {
  }

  lemma CongruentMul(x: int, y: int, z: int)
    requires Reduce(x) == Reduce(y)
    ensures Reduce(x * z) == Reduce(y * z)
  {
    var k, j := x / R, y / R;
    assert x * z == y * z + ((k - j) * z) * R by {
      assert x == y + (k - j) * R;
      MulExchange(k - j, R, z);
    }
    CongruentByQuotient(x * z, y * z, (k - j) * z);
  }

  lemma MulExchange(a: int, b: int, c: int)
    ensures (a * b) * c == (a * c) * b
  {
  }

  lemma CongruentAdd(x: int, y: int, x': int, y': int)
    requires Reduce(x) == Reduce(x') && Reduce(y) == Reduce(y')
    ensures Reduce(x + y) == Reduce(x' + y')
  {
    var k, k' := x / R, x' / R;
    var j, j' := y / R, y' / R;
    CongruentByQuotient(x + y, x' + y', k - k' + j - j');
  }

  lemma CongruentSub(x: int, y: int, x': int, y': int)
    requires Reduce(x) == Reduce(x') && Reduce(y) == Reduce(y')
    ensures Reduce(x - y) == Reduce(x' - y')
  {
    var k, k' := x / R, x' / R;
    var j, j' := y / R, y' / R;
    CongruentByQuotient(x - y, x' - y', k - k' - j + j');
  }

  lemma ReduceFactors(x: int, y: int)
    ensures Reduce(Reduce(x) * Reduce(y)) == Reduce(x * y)
  {
    CongruentMul(Reduce(x), x, Reduce(y));
    CongruentMul(Reduce(y), y, x);
    assert x * Reduce(y) == Reduce(y) * x && y * x == x * y;
  }

  lemma RadixCancels(v: int)
    ensures Reduce(v * RADIX * RADIX_INVERSE) == Reduce(v)
  {
    var k := 52454480824480482120356829342366457550537710351690908576382634413609933864959;
    assert RADIX * RADIX_INVERSE == 1 + k * R;
    Distribute(v, RADIX, RADIX_INVERSE, k, R);
    CongruentByQuotient(v * RADIX * RADIX_INVERSE, v, v * k);
  }

  lemma Distribute(v: int, a: int, b: int, k: int, m: int)
    requires a * b == 1 + k * m
    ensures v * a * b == v + (v * k) * m
  {
    assert v * a * b == v * (a * b);
    assert v * (k * m) == (v * k) * m;
  }

  /** v * 2^256 being congruent to x pins v, modulo r, as x * 2^-256. */
  lemma CancelRadix(v: int, x: int)
    requires Reduce(v * RADIX) == Reduce(x)
    ensures Reduce(v) == Decode(x)
  {
    CongruentMul(v * RADIX, x, RADIX_INVERSE);
    RadixCancels(v);
  }

  /** Decoding inverts encoding on every integer, so Encode picks the Montgomery form of x mod r. */
  lemma DecodeEncode(x: int)
    ensures Decode(Encode(x)) == Reduce(x)
  {
    CongruentMul(Encode(x), x * RADIX, RADIX_INVERSE);
    CancelRadix(x, x * RADIX);
  }

  lemma EncodeDecode(v: Fe)
    ensures Encode(Decode(v)) == v
  {
    CongruentMul(Decode(v), v * RADIX_INVERSE, RADIX);
    MulExchange(v, RADIX_INVERSE, RADIX);
    RadixCancels(v);
  }

  lemma DecodeAdd(a: int, b: int)
    ensures Decode(a + b) == Add(Decode(a), Decode(b))
  {
    assert (a + b) * RADIX_INVERSE == a * RADIX_INVERSE + b * RADIX_INVERSE;
    CongruentAdd(a * RADIX_INVERSE, b * RADIX_INVERSE, Decode(a), Decode(b));
  }

  lemma DecodeSub(a: int, b: int)
    ensures Decode(a - b) == Sub(Decode(a), Decode(b))
  {
    assert (a - b) * RADIX_INVERSE == a * RADIX_INVERSE - b * RADIX_INVERSE;
    CongruentSub(a * RADIX_INVERSE, b * RADIX_INVERSE, Decode(a), Decode(b));
  }

  lemma DecodeCongruent(a: int, b: int)
    requires Reduce(a) == Reduce(b)
    ensures Decode(a) == Decode(b)
  {
    CongruentMul(a, b, RADIX_INVERSE);
  }

  /** The Montgomery product of two values decodes to the product of what they decode to. */
  lemma DecodeMontgomeryProduct(v: int, a: int, b: int)
    requires Reduce(v * RADIX) == Reduce(a * b)
    ensures Decode(v) == Mul(Decode(a), Decode(b))
  {
    CancelRadix(v, a * b);
    DecodeCongruent(v, a * b * RADIX_INVERSE);
    assert a * b * RADIX_INVERSE * RADIX_INVERSE == (a * RADIX_INVERSE) * (b * RADIX_INVERSE) by {
      Regroup(a, b, RADIX_INVERSE);
    }
    ReduceFactors(a * RADIX_INVERSE, b * RADIX_INVERSE);
  }

  lemma Regroup(a: int, b: int, c: int)
    ensures a * b * c * c == (a * c) * (b * c)
  {
    assert a * b * c == (a * c) * b;
    assert (a * c) * b * c == (a * c) * (b * c);
  }
}
