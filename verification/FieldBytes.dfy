/** The rest of contracts/shielded_pool/src/poseidon/field.rs: the fifth power and the conversions
    between big-endian bytes and Montgomery form. */
module FieldBytes {
  import opened ScalarField
  import opened Limbs
  import opened Bytes

  const ONE: Fr := [1, 0, 0, 0]

  /** On operands whose product is below r * 2^256 - reduced ones, in particular - multiplication is
      reduced and multiplies what its operands stand for. */
  lemma ProductDecodes(r: Fr, a: Fr, b: Fr)
    requires IsMontgomeryProduct(r, a, b)
    ensures Decode(Value(r)) == Mul(Decode(Value(a)), Decode(Value(b)))
    ensures Reduced(b) ==> Reduced(r)
  {
    hide Value;
    DecodeMontgomeryProduct(Value(r), Value(a), Value(b));
    if Reduced(b) {
      ProductBelow(Value(a), Value(b), RADIX, R);
    }
  }

  lemma ProductBelow(a: int, b: int, m: int, n: int)
    requires 0 <= a < m && 0 <= b < n
    ensures a * b < n * m
  {
    assert a * b <= a * n by { assert 0 <= a * (n - b); }
    assert a * n < n * m by { assert 0 < n * (m - a); }
  }

  lemma SumDecodes(a: Fe, b: Fe)
    ensures Decode(Add(a, b)) == Add(Decode(a), Decode(b))
  {
    DecodeAdd(a, b);
    DecodeCongruent(Add(a, b), a + b);
  }

  lemma DifferenceDecodes(a: Fe, b: Fe)
    ensures Decode(Sub(a, b)) == Sub(Decode(a), Decode(b))
  {
    DecodeSub(a, b);
    DecodeCongruent(Sub(a, b), a - b);
  }

  /** x^5, the S-box. */
  method Pow5Fr(a: Fr) returns (r: Fr)
    ensures Decode(Value(r)) == Pow5(Decode(Value(a)))
    ensures Reduced(a) ==> Reduced(r)
  {
    hide Value, IsMontgomeryProduct;
    var x2 := MulFr(a, a);
    ProductDecodes(x2, a, a);
    var x4 := MulFr(x2, x2);
    ProductDecodes(x4, x2, x2);
    r := MulFr(x4, a);
    ProductDecodes(r, x4, a);
  }

  /** The i-th group of eight bytes. */
  function Chunk(s: seq<Byte>, i: nat): (c: seq<Byte>)
    requires 8 * i + 8 <= |s|
    ensures |c| == 8
  {
    s[8 * i..8 * i + 8]
  }

  /** The word eight bytes stand for, built by shifting each byte in. */
  method ReadWord(bytes: seq<Byte>, i: nat) returns (w: Word)
    requires 8 * i + 8 <= |bytes|
    ensures w == BigEndian(Chunk(bytes, i))
  {
    w := 0;
    var j := 0;
    while j < 8
      invariant 0 <= j <= 8
      invariant w == BigEndian(bytes[8 * i..8 * i + j])
    {
      ghost var prefix := bytes[8 * i..8 * i + j];
      BigEndianBound(prefix);
      ShortPrefix(j);
      assert bytes[8 * i..8 * i + j + 1] == prefix + [bytes[8 * i + j]];
      // w << 8 discards nothing, so the | of the source is a sum.
      w := (w * 256) % B + bytes[8 * i + j];
      j := j + 1;
    }
  }

  /** The four words of a 32-byte string, most significant bytes in the last word. */
  method LimbsOf(bytes: seq<Byte>) returns (limbs: Fr)
    requires |bytes| == 32
    ensures Value(limbs) == BigEndian(bytes)
  {
    hide BigEndian;
    limbs := ZERO;
    var i := 0;
    while i < 4
      invariant 0 <= i <= 4
      invariant i >= 1 ==> limbs[3] == BigEndian(Chunk(bytes, 0))
      invariant i >= 2 ==> limbs[2] == BigEndian(Chunk(bytes, 1))
      invariant i >= 3 ==> limbs[1] == BigEndian(Chunk(bytes, 2))
      invariant i >= 4 ==> limbs[0] == BigEndian(Chunk(bytes, 3))
    {
      hide Value;
      var w := ReadWord(bytes, i);
      limbs := limbs[3 - i := w];
      i := i + 1;
    }
    FourChunks(bytes);
  }

  lemma ShortPrefix(j: nat)
    requires j <= 7
    ensures Pow256(j) * 256 <= B
  {
    Pow256Values();
    Pow256Monotone(j + 1, 8);
  }

  lemma {:induction false} Pow256Monotone(m: nat, n: nat)
    requires m <= n
    ensures Pow256(m) <= Pow256(n)
  {
    if m < n {
      Pow256Monotone(m, n - 1);
    }
  }

  lemma FourChunks(s: seq<Byte>)
    requires |s| == 32
    ensures BigEndian(s) == Weigh(BigEndian(Chunk(s, 3)), BigEndian(Chunk(s, 2)),
                                  BigEndian(Chunk(s, 1)), BigEndian(Chunk(s, 0)))
  {
    hide BigEndian, Pow256;
    Pow256Values();
    assert s == Chunk(s, 0) + s[8..];
    assert s[8..] == Chunk(s, 1) + s[16..];
    assert s[16..] == Chunk(s, 2) + s[24..];
    assert s[24..] == Chunk(s, 3);
    BigEndianConcat(Chunk(s, 0), s[8..]);
    BigEndianConcat(Chunk(s, 1), s[16..]);
    BigEndianConcat(Chunk(s, 2), s[24..]);
  }

  /** Bytes to Montgomery form. The left operand of the product need not be reduced. */
  method FromBeBytes(bytes: seq<Byte>) returns (r: Fr)
    requires |bytes| == 32
    ensures Reduced(r) && Decode(Value(r)) == Reduce(BigEndian(bytes))
  {
    var limbs := LimbsOf(bytes);
    hide Value, IsMontgomeryProduct;
    r := MulFr(limbs, R2);
    ProductDecodes(r, limbs, R2);
    TimesRadixSquared(Value(limbs));
  }

  lemma TimesRadixSquared(v: int)
    ensures Reduced(R2) && Mul(Decode(v), Decode(Value(R2))) == Reduce(v)
  {
    RadixSquaredValue();
    var x := Reduce(RADIX);
    assert Decode(Value(R2)) == x by {
      CongruentMul(Value(R2), RADIX * RADIX, RADIX_INVERSE);
      RadixCancels(RADIX);
    }
    ReduceFactors(v * RADIX_INVERSE, RADIX);
    MulExchange(v, RADIX_INVERSE, RADIX);
    RadixCancels(v);
  }

  lemma RadixSquaredValue()
    ensures Reduced(R2) && Reduce(Value(R2)) == Reduce(RADIX * RADIX)
  {
    assert RADIX * RADIX
        == Value(R2) + 612557527273816073910311476275045157067432104571610153771051915293407781491289 * R;
  }

  lemma NothingYet(w: Word)
    ensures BigEndian([]) == ShiftRight(w, 8)
  {
    Pow256Values();
    ShiftOut(w, 8);
  }

  lemma NextByte(s: seq<Byte>, w: Word, j: nat)
    requires j < 8 && BigEndian(s) == ShiftRight(w, 8 - j)
    ensures BigEndian(s + [ShiftRight(w, 7 - j) % 256]) == ShiftRight(w, 7 - j)
  {
    assert (s + [ShiftRight(w, 7 - j) % 256])[..|s|] == s;
  }

  lemma LastByte(w: Word)
    ensures ShiftRight(w, 0) == w
  {
  }

  /** Writes one word, most significant byte first, over the i-th group of eight bytes. */
  method WriteWord(buffer: array<Byte>, i: nat, w: Word)
    requires buffer.Length == 32 && i < 4
    modifies buffer
    ensures BigEndian(Chunk(buffer[..], i)) == w
    ensures forall k :: 0 <= k < 4 && k != i ==> Chunk(buffer[..], k) == old(Chunk(buffer[..], k))
  {
    hide BigEndian, ShiftRight;
    NothingYet(w);
    ghost var was := buffer[..];
    assert buffer[8 * i..8 * i + 0] == [];
    var j := 0;
    while j < 8
      invariant 0 <= j <= 8
      invariant BigEndian(buffer[8 * i..8 * i + j]) == ShiftRight(w, 8 - j)
      invariant buffer[..8 * i] == was[..8 * i] && buffer[8 * i + 8..] == was[8 * i + 8..]
    {
      ghost var before := buffer[8 * i..8 * i + j];
      buffer[8 * i + j] := ShiftRight(w, 7 - j) % 256;
      NextByte(before, w, j);
      assert buffer[8 * i..8 * i + j] == before;
      assert buffer[8 * i..8 * i + j + 1] == before + [buffer[8 * i + j]];
      assert buffer[..8 * i] == was[..8 * i] && buffer[8 * i + 8..] == was[8 * i + 8..];
      j := j + 1;
    }
    LastByte(w);
    assert Chunk(buffer[..], i) == buffer[8 * i..8 * i + 8];
    ghost var now := buffer[..];
    assert now[..8 * i] == was[..8 * i] && now[8 * i + 8..] == was[8 * i + 8..];
    OtherChunks(was, now, i);
  }

  /** Strings that agree outside one group of eight bytes have the same other groups. */
  lemma OtherChunks(s: seq<Byte>, t: seq<Byte>, i: nat)
    requires |s| == |t| == 32 && i < 4 && s[..8 * i] == t[..8 * i] && s[8 * i + 8..] == t[8 * i + 8..]
    ensures forall k :: 0 <= k < 4 && k != i ==> Chunk(t, k) == Chunk(s, k)
  {
    forall k | 0 <= k < 4 && k != i
      ensures Chunk(t, k) == Chunk(s, k)
    {
      if k < i {
        ChunkBefore(s, 8 * i, k);
        ChunkBefore(t, 8 * i, k);
      } else {
        ChunkAfter(s, 8 * i + 8, k);
        ChunkAfter(t, 8 * i + 8, k);
      }
    }
  }

  lemma ChunkBefore(s: seq<Byte>, n: nat, k: nat)
    requires 8 * k + 8 <= n <= |s|
    ensures Chunk(s, k) == s[..n][8 * k..8 * k + 8]
  {
  }

  lemma ChunkAfter(s: seq<Byte>, n: nat, k: nat)
    requires n <= 8 * k && 8 * k + 8 <= |s|
    ensures Chunk(s, k) == s[n..][8 * k - n..8 * k - n + 8]
  {
  }

  /** Montgomery form to the canonical 32 bytes of what it stands for, whether or not it is reduced. */
  method ToBeBytes(a: Fr) returns (out: seq<Byte>)
    ensures out == ToBytes(Decode(Value(a)), 32)
  {
    hide Value, IsMontgomeryProduct, Decode;
    var canonical := MulFr(a, ONE);
    TimesOne(canonical, a);
    var buffer := new Byte[32](i => 0);
    var i := 0;
    while i < 4
      invariant 0 <= i <= 4
      invariant i >= 1 ==> BigEndian(Chunk(buffer[..], 0)) == canonical[3]
      invariant i >= 2 ==> BigEndian(Chunk(buffer[..], 1)) == canonical[2]
      invariant i >= 3 ==> BigEndian(Chunk(buffer[..], 2)) == canonical[1]
      invariant i >= 4 ==> BigEndian(Chunk(buffer[..], 3)) == canonical[0]
    {
      WriteWord(buffer, i, canonical[3 - i]);
      i := i + 1;
    }
    out := buffer[..];
    ChunksEncode(out, canonical);
  }

  lemma ChunksEncode(out: seq<Byte>, l: Fr)
    requires |out| == 32
    requires BigEndian(Chunk(out, 0)) == l[3] && BigEndian(Chunk(out, 1)) == l[2]
    requires BigEndian(Chunk(out, 2)) == l[1] && BigEndian(Chunk(out, 3)) == l[0]
    ensures out == ToBytes(Value(l), 32)
  {
    FourChunks(out);
    ToBytesOfBigEndian(out);
  }

  lemma TimesOne(r: Fr, a: Fr)
    requires IsMontgomeryProduct(r, a, ONE)
    ensures Value(r) == Decode(Value(a))
  {
    hide Value, Decode, Reduce;
    OneValue();
    assert Value(a) * Value(ONE) == Value(a);
    BelowRadix(Value(a));
    CancelRadix(Value(r), Value(a));
    SmallReduces(Value(r));
  }

  lemma OneValue()
    ensures Value(ONE) == 1
  {
  }

  lemma BelowRadix(v: int)
    requires v < RADIX
    ensures v < R * RADIX
  {
  }

  /** Bytes through Montgomery form and back: the canonical encoding of the value mod r, for every
      input, including those not below r. */
  method ByteRoundTrip(bytes: seq<Byte>) returns (out: seq<Byte>)
    requires |bytes| == 32
    ensures out == ToBytes(Reduce(BigEndian(bytes)), 32)
    ensures BigEndian(bytes) < R ==> out == bytes
  {
    hide Value, Decode, BigEndian, ToBytes;
    var a := FromBeBytes(bytes);
    out := ToBeBytes(a);
    ToBytesOfBigEndian(bytes);
  }

  // ---- The other way round ----

  lemma DigitUnique(x: int, y: int, x': int, y': int)
    requires 0 <= x < B && 0 <= x' < B && x + B * y == x' + B * y'
    ensures x == x' && y == y'
  {
  }

  /** Four words are determined by the integer they stand for. */
  lemma ValueInjective(a: Fr, b: Fr)
    requires Value(a) == Value(b)
    ensures a == b
  {
    DigitUnique(a[0], a[1] + B * (a[2] + B * a[3]), b[0], b[1] + B * (b[2] + B * b[3]));
    DigitUnique(a[1], a[2] + B * a[3], b[1], b[2] + B * b[3]);
    DigitUnique(a[2], a[3], b[2], b[3]);
  }

  /** Two reduced elements that decode alike are the same four words. */
  lemma DecodeInjective(a: Fr, b: Fr)
    requires Reduced(a) && Reduced(b) && Decode(Value(a)) == Decode(Value(b))
    ensures a == b
  {
    hide Value, Decode, Encode;
    EncodeDecode(Value(a));
    EncodeDecode(Value(b));
    ValueInjective(a, b);
  }

  /** Limbs to bytes and back: the identity on every reduced element. */
  method LimbRoundTrip(a: Fr) returns (r: Fr)
    requires Reduced(a)
    ensures r == a
  {
    hide Value, Decode, BigEndian, ToBytes;
    var bytes := ToBeBytes(a);
    r := FromBeBytes(bytes);
    CanonicalBytes(Decode(Value(a)));
    DecodeInjective(a, r);
  }

  lemma CanonicalBytes(x: Fe)
    ensures |ToBytes(x, 32)| == 32 && Reduce(BigEndian(ToBytes(x, 32))) == x
  {
    hide BigEndian, ToBytes;
    Pow256Values();
    BigEndianOfToBytes(x, 32);
    SmallReduces(x);
  }
}
