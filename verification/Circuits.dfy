/** The three circuits as constraint systems over Z_r, and what their constraints mean for integers.

    Hashes are arbitrary functions. The templates Num2Bits, LessThan and Mux1 come from circomlib and
    are written out as the constraints circomlib documents for them. */
module Circuits {
  import opened ScalarField
  import opened Merkle

  /** Poseidon on one to four inputs. */
  datatype Hashes = Hashes(h1: Fe -> Fe, h2: (Fe, Fe) -> Fe, h3: (Fe, Fe, Fe) -> Fe, h4: (Fe, Fe, Fe, Fe) -> Fe)

  const BOUND: int := 0x1_0000_0000_0000_0000

  function TreeOf(h: Hashes): Scheme<Fe> { Scheme(h.h2, 0) }

  function NoteCommitment(h: Hashes, asset: Fe, amount: Fe, ownerPk: Fe, rho: Fe): Fe {
    h.h4(asset, amount, ownerPk, rho)
  }

  function OwnerPk(h: Hashes, ownerSk: Fe): Fe { h.h1(ownerSk) }

  function Nullifier(h: Hashes, ownerSk: Fe, rho: Fe, leafIndex: Fe): Fe {
    h.h3(ownerSk, rho, leafIndex)
  }

  // ---- Gadgets ----

  ghost predicate Boolean(x: Fe) { Mul(x, Sub(x, 1)) == 0 }

  function Mux1(c0: Fe, c1: Fe, s: Fe): Fe { Add(Mul(Sub(c1, c0), s), c0) }

  /** The linear combination sum of bits[i] * 2^i, over Z_r. */
  function WeightedSum(bits: seq<Fe>): Fe {
    if bits == [] then 0
    else
      var n := |bits| - 1;
      Add(WeightedSum(bits[..n]), Mul(bits[n], Reduce(Pow2(n))))
  }

  ghost predicate Num2Bits(x: Fe, bits: seq<Fe>, n: nat) {
    |bits| == n && (forall i :: 0 <= i < n ==> Boolean(bits[i])) && WeightedSum(bits) == x
  }

  /** a < b for operands below 2^252: the top bit of a + 2^252 - b is clear. */
  ghost predicate LessThan252(a: Fe, b: Fe, bits: seq<Fe>, out: Fe) {
    Num2Bits(Sub(Add(a, Reduce(Pow2(252))), b), bits, 253) && out == Sub(1, bits[252])
  }

  /** The unrolled path: cur holds the nodes from the leaf to the root. */
  ghost predicate MerkleInclusion(h: Hashes, leaf: Fe, root: Fe, elements: seq<Fe>, indices: seq<Fe>, cur: seq<Fe>) {
    && |indices| == |elements| && |cur| == |elements| + 1
    && cur[0] == leaf
    && (forall i :: 0 <= i < |elements| ==> Boolean(indices[i]))
    && (forall i :: 0 <= i < |elements| ==>
         cur[i + 1] == h.h2(Mux1(cur[i], elements[i], indices[i]), Mux1(elements[i], cur[i], indices[i])))
    && root == cur[|elements|]
  }

  // ---- What the gadgets mean ----

  ghost predicate IsBinary(bits: seq<Fe>) { forall i :: 0 <= i < |bits| ==> bits[i] <= 1 }

  lemma BooleanMeans(x: Fe)
    requires NoZeroDivisors()
    ensures Boolean(x) <==> x <= 1
  {
    if Boolean(x) {
      assert x == 0 || Sub(x, 1) == 0;
    }
  }

  lemma {:induction false} WeightedSumMeans(bits: seq<Fe>)
    requires IsBinary(bits) && Pow2(|bits|) <= R
    ensures WeightedSum(bits) == LeafIndex(bits) < Pow2(|bits|)
  {
    if bits != [] {
      hide Add, Mul, Reduce;
      var n := |bits| - 1;
      WeightedSumMeans(bits[..n]);
      BitTerm(LeafIndex(bits[..n]), bits[n], Pow2(n));
    }
  }

  lemma BitTerm(sum: nat, bit: Fe, p: nat)
    requires bit <= 1 && sum < p && 2 * p <= R
    ensures Add(sum, Mul(bit, Reduce(p))) == sum + bit * p < 2 * p
  {
    if bit == 1 {
      assert Mul(bit, Reduce(p)) == p;
    } else {
      assert Mul(bit, Reduce(p)) == 0;
    }
  }

  /** The n low bits of x, least significant first. */
  function BitsOf(x: nat, n: nat): (bits: seq<Fe>)
    ensures |bits| == n && forall i :: 0 <= i < n ==> bits[i] == Ancestor(x, i) % 2
  {
    seq(n, i requires 0 <= i < n => Ancestor(x, i) % 2)
  }

  lemma BitsBelow(x: Fe, bits: seq<Fe>, n: nat)
    requires NoZeroDivisors() && Pow2(n) <= R && Num2Bits(x, bits, n)
    ensures IsBinary(bits) && x == LeafIndex(bits) < Pow2(n)
  {
    hide Boolean, WeightedSum, LeafIndex;
    forall i | 0 <= i < n
      ensures bits[i] <= 1
    {
      BooleanMeans(bits[i]);
    }
    WeightedSumMeans(bits);
  }

  lemma BitsExist(x: Fe, n: nat)
    requires NoZeroDivisors() && Pow2(n) <= R && x < Pow2(n)
    ensures Num2Bits(x, BitsOf(x, n), n)
  {
    hide Boolean, WeightedSum, LeafIndex, BitsOf, Ancestor, Pow2;
    var bits := BitsOf(x, n);
    forall i | 0 <= i < n
      ensures Boolean(bits[i])
    {
      BooleanMeans(bits[i]);
    }
    WeightedSumMeans(bits);
    PathIndex(x, bits);
    AncestorBelowCapacity(x, n);
  }

  /** Num2Bits(n) is exactly the range check below 2^n, as long as 2^n does not pass r. */
  lemma RangeCheck(x: Fe, n: nat)
    requires NoZeroDivisors() && Pow2(n) <= R
    ensures x < Pow2(n) <==> exists bits :: Num2Bits(x, bits, n)
  {
    forall bits | Num2Bits(x, bits, n)
      ensures x < Pow2(n)
    {
      BitsBelow(x, bits, n);
    }
    if x < Pow2(n) {
      BitsExist(x, n);
    }
  }

  lemma AddBack(c0: Fe, c1: Fe)
    ensures Add(Sub(c1, c0), c0) == c1
  {
    CongruentByQuotient(Sub(c1, c0) + c0, c1, -((c1 - c0) / R));
  }

  lemma MulBit(x: Fe, s: Fe)
    requires s <= 1
    ensures Mul(x, s) == if s == 0 then 0 else x
  {
    if s == 0 {
      assert x * s == 0;
    } else {
      assert x * s == x;
    }
  }

  lemma Mux1Means(c0: Fe, c1: Fe, s: Fe)
    requires s <= 1
    ensures Mux1(c0, c1, s) == if s == 0 then c0 else c1
  {
    MulBit(Sub(c1, c0), s);
    AddBack(c0, c1);
    hide Sub, Mul;
  }

  /** All prefixes of a path folded: the values of the circuit's cur signals. */
  function FoldTrace(h: Hashes, leaf: Fe, elements: seq<Fe>, bits: seq<Fe>): (cur: seq<Fe>)
    requires |elements| == |bits|
    ensures |cur| == |elements| + 1
    ensures forall i :: 0 <= i <= |elements| ==> cur[i] == Fold(TreeOf(h), leaf, elements[..i], bits[..i])
  {
    seq(|elements| + 1, i requires 0 <= i <= |elements| => Fold(TreeOf(h), leaf, elements[..i], bits[..i]))
  }

  lemma FoldStep(h: Hashes, leaf: Fe, elements: seq<Fe>, bits: seq<Fe>, i: nat)
    requires i < |elements| == |bits| && IsBinary(bits)
    ensures var cur := Fold(TreeOf(h), leaf, elements[..i], bits[..i]);
      Fold(TreeOf(h), leaf, elements[..i + 1], bits[..i + 1])
      == h.h2(Mux1(cur, elements[i], bits[i]), Mux1(elements[i], cur, bits[i]))
  {
    var cur := Fold(TreeOf(h), leaf, elements[..i], bits[..i]);
    assert elements[..i + 1][..i] == elements[..i] && bits[..i + 1][..i] == bits[..i];
    Mux1Means(cur, elements[i], bits[i]);
    Mux1Means(elements[i], cur, bits[i]);
  }

  /** The inclusion constraints hold exactly of a binary path that folds from the leaf to the root. */
  lemma InclusionMeans(h: Hashes, leaf: Fe, root: Fe, elements: seq<Fe>, indices: seq<Fe>, cur: seq<Fe>)
    requires NoZeroDivisors() && |indices| == |elements|
    ensures MerkleInclusion(h, leaf, root, elements, indices, cur) ==>
      IsBinary(indices) && Fold(TreeOf(h), leaf, elements, indices) == root
    ensures IsBinary(indices) && Fold(TreeOf(h), leaf, elements, indices) == root ==>
      MerkleInclusion(h, leaf, root, elements, indices, FoldTrace(h, leaf, elements, indices))
  {
    hide Boolean, Mux1, Fold;
    forall i | 0 <= i < |indices|
      ensures Boolean(indices[i]) <==> indices[i] <= 1
    {
      BooleanMeans(indices[i]);
    }
    if MerkleInclusion(h, leaf, root, elements, indices, cur) {
      CurIsFold(h, leaf, root, elements, indices, cur, |elements|);
      assert elements[..|elements|] == elements && indices[..|elements|] == indices;
    }
    if IsBinary(indices) && Fold(TreeOf(h), leaf, elements, indices) == root {
      FoldStart(h, leaf);
      assert elements[..0] == [] && indices[..0] == [];
      assert elements[..|elements|] == elements && indices[..|elements|] == indices;
      forall i | 0 <= i < |elements| {
        FoldStep(h, leaf, elements, indices, i);
      }
    }
  }

  lemma FoldStart(h: Hashes, leaf: Fe)
    ensures Fold(TreeOf(h), leaf, [], []) == leaf
  {
  }

  lemma {:induction false} CurIsFold(h: Hashes, leaf: Fe, root: Fe, elements: seq<Fe>, indices: seq<Fe>,
                                     cur: seq<Fe>, i: nat)
    requires MerkleInclusion(h, leaf, root, elements, indices, cur) && IsBinary(indices) && i <= |elements|
    ensures cur[i] == Fold(TreeOf(h), leaf, elements[..i], indices[..i])
  {
    if i == 0 {
      FoldStart(h, leaf);
    } else {
      CurIsFold(h, leaf, root, elements, indices, cur, i - 1);
      FoldStep(h, leaf, elements, indices, i - 1);
    }
  }

  // ---- shield ----

  ghost predicate Shield(h: Hashes, amount: Fe, commitment: Fe, ownerPk: Fe, rho: Fe, bits: seq<Fe>) {
    && Num2Bits(amount, bits, 64)
    && commitment == NoteCommitment(h, 0, amount, ownerPk, rho)
  }

  ghost predicate ShieldMeans(h: Hashes, amount: Fe, commitment: Fe, ownerPk: Fe, rho: Fe) {
    amount < BOUND && commitment == NoteCommitment(h, 0, amount, ownerPk, rho)
  }

  lemma Pow4()
    ensures Pow2(4) == 16
  {
  }

  lemma Pow64()
    ensures Pow2(64) == BOUND
  {
    hide Pow2;
    Pow4();
    Pow2Add(4, 4);
    Pow2Add(8, 8);
    Pow2Add(16, 16);
    Pow2Add(32, 32);
  }

  lemma Pow252()
    ensures Pow2(252) == 0x1000_0000_0000_0000_0000_0000_0000_0000_0000_0000_0000_0000_0000_0000_0000_0000
    ensures Pow2(253) == 2 * Pow2(252)
  {
    assert Pow2(253) == 2 * Pow2(252);
    Pow60();
    hide Pow2;
    Pow64();
    Pow2Add(64, 64);
    assert Pow2(128) == 0x1_0000_0000_0000_0000_0000_0000_0000_0000;
    Pow2Add(128, 64);
    assert Pow2(192) == 0x1_0000_0000_0000_0000_0000_0000_0000_0000_0000_0000_0000_0000;
    Pow2Add(192, 60);
  }

  lemma Pow60()
    ensures Pow2(60) == 0x1000_0000_0000_0000
  {
    assert Pow2(4) == 16;
    hide Pow2;
    Pow64();
    Pow2Add(60, 4);
  }

  lemma Doubling(a: int, b: int)
    ensures 2 * (a * b) == a * (2 * b)
  {
  }

  lemma {:induction false} Pow2Add(m: nat, n: nat)
    ensures Pow2(m + n) == Pow2(m) * Pow2(n)
  {
    if n > 0 {
      Pow2Add(m, n - 1);
      Doubling(Pow2(m), Pow2(n - 1));
    }
  }

  /** The shield constraints can be met exactly when the amount is below 2^64 and the commitment opens
      to a collateral note of that amount. */
  lemma ShieldExact(h: Hashes, amount: Fe, commitment: Fe, ownerPk: Fe, rho: Fe)
    requires NoZeroDivisors()
    ensures (exists bits :: Shield(h, amount, commitment, ownerPk, rho, bits))
       <==> ShieldMeans(h, amount, commitment, ownerPk, rho)
  {
    hide Num2Bits, Pow2;
    Pow64();
    RangeCheck(amount, 64);
    if ShieldMeans(h, amount, commitment, ownerPk, rho) {
      var bits :| Num2Bits(amount, bits, 64);
      assert Shield(h, amount, commitment, ownerPk, rho, bits);
    }
  }

  // ---- unshield ----

  datatype UnshieldPublic = UnshieldPublic(root: Fe, nullifier: Fe, withdrawAmount: Fe, recipient: Fe)

  datatype UnshieldPrivate = UnshieldPrivate(ownerSk: Fe, rho: Fe, elements: seq<Fe>, indices: seq<Fe>)

  /** The intermediate signals. */
  datatype UnshieldSignals = UnshieldSignals(recipientSq: Fe, leafIndex: Fe, cur: seq<Fe>)

  function UnshieldNote(h: Hashes, p: UnshieldPublic, s: UnshieldPrivate): Fe {
    NoteCommitment(h, 0, p.withdrawAmount, OwnerPk(h, s.ownerSk), s.rho)
  }

  ghost predicate Unshield(h: Hashes, depth: nat, p: UnshieldPublic, s: UnshieldPrivate, t: UnshieldSignals) {
    && |s.elements| == |s.indices| == depth
    && t.recipientSq == Mul(p.recipient, p.recipient)
    && t.leafIndex == WeightedSum(s.indices)
    && p.nullifier == Nullifier(h, s.ownerSk, s.rho, t.leafIndex)
    && MerkleInclusion(h, UnshieldNote(h, p, s), p.root, s.elements, s.indices, t.cur)
  }

  /** A binary path that folds from the note's commitment to the root, and the nullifier of the
      position the path spells. */
  ghost predicate Spends(h: Hashes, depth: nat, root: Fe, nullifier: Fe, note: Fe,
                         ownerSk: Fe, rho: Fe, elements: seq<Fe>, indices: seq<Fe>) {
    && |elements| == |indices| == depth && IsBinary(indices)
    && Fold(TreeOf(h), note, elements, indices) == root
    && nullifier == Nullifier(h, ownerSk, rho, Reduce(LeafIndex(indices)))
  }

  ghost predicate UnshieldMeans(h: Hashes, depth: nat, p: UnshieldPublic, s: UnshieldPrivate) {
    Spends(h, depth, p.root, p.nullifier, UnshieldNote(h, p, s), s.ownerSk, s.rho, s.elements, s.indices)
  }

  /** The nullifier and membership constraints, shared by both spending circuits. */
  lemma SpendExact(h: Hashes, depth: nat, root: Fe, nullifier: Fe, note: Fe, ownerSk: Fe, rho: Fe,
                   elements: seq<Fe>, indices: seq<Fe>, cur: seq<Fe>)
    requires NoZeroDivisors() && Pow2(depth) <= R && |elements| == |indices| == depth
    ensures
      (nullifier == Nullifier(h, ownerSk, rho, WeightedSum(indices)) &&
       MerkleInclusion(h, note, root, elements, indices, cur)) ==>
        Spends(h, depth, root, nullifier, note, ownerSk, rho, elements, indices)
    ensures
      Spends(h, depth, root, nullifier, note, ownerSk, rho, elements, indices) ==>
        (nullifier == Nullifier(h, ownerSk, rho, WeightedSum(indices)) &&
         MerkleInclusion(h, note, root, elements, indices, FoldTrace(h, note, elements, indices)))
  {
    hide MerkleInclusion, Fold, LeafIndex, WeightedSum, FoldTrace, Pow2;
    InclusionMeans(h, note, root, elements, indices, cur);
    if IsBinary(indices) {
      WeightedSumMeans(indices);
    }
  }

  /** The unshield constraints can be met exactly when the withdrawn note is the leaf its path binds. */
  lemma UnshieldExact(h: Hashes, depth: nat, p: UnshieldPublic, s: UnshieldPrivate)
    requires NoZeroDivisors() && Pow2(depth) <= R
    ensures (exists t :: Unshield(h, depth, p, s, t)) <==> UnshieldMeans(h, depth, p, s)
  {
    hide MerkleInclusion, WeightedSum, FoldTrace, Spends, Pow2, Mul;
    forall t | Unshield(h, depth, p, s, t)
      ensures UnshieldMeans(h, depth, p, s)
    {
      SpendExact(h, depth, p.root, p.nullifier, UnshieldNote(h, p, s), s.ownerSk, s.rho, s.elements, s.indices, t.cur);
    }
    if UnshieldMeans(h, depth, p, s) {
      SpendLengths(h, depth, p.root, p.nullifier, UnshieldNote(h, p, s), s.ownerSk, s.rho, s.elements, s.indices);
      SpendExact(h, depth, p.root, p.nullifier, UnshieldNote(h, p, s), s.ownerSk, s.rho, s.elements, s.indices, []);
      var cur := FoldTrace(h, UnshieldNote(h, p, s), s.elements, s.indices);
      assert Unshield(h, depth, p, s, UnshieldSignals(Mul(p.recipient, p.recipient), WeightedSum(s.indices), cur));
    }
  }

  lemma SpendLengths(h: Hashes, depth: nat, root: Fe, nullifier: Fe, note: Fe, ownerSk: Fe, rho: Fe,
                     elements: seq<Fe>, indices: seq<Fe>)
    requires Spends(h, depth, root, nullifier, note, ownerSk, rho, elements, indices)
    ensures |elements| == |indices| == depth
  {
  }

  // ---- private_swap ----

  datatype SwapPublic = SwapPublic(
    root: Fe, nullifierIn: Fe, outCommitment: Fe, changeCommitment: Fe,
    reserveInBefore: Fe, reserveOutBefore: Fe, reserveInAfter: Fe, reserveOutAfter: Fe, assetOut: Fe)

  datatype SwapPrivate = SwapPrivate(
    ownerSk: Fe, inAmount: Fe, rhoIn: Fe, elements: seq<Fe>, indices: seq<Fe>,
    amountIn: Fe, amountOut: Fe, rhoOut: Fe, rhoChange: Fe)

  /** The intermediate signals, with the bits of the eight range checks and of the comparison. */
  datatype SwapSignals = SwapSignals(
    leafIndex: Fe, change: Fe, kBefore: Fe, kAfter: Fe, cur: seq<Fe>,
    bitsInAmount: seq<Fe>, bitsAmountIn: seq<Fe>, bitsAmountOut: seq<Fe>,
    bitsReserveInBefore: seq<Fe>, bitsReserveOutBefore: seq<Fe>,
    bitsReserveInAfter: seq<Fe>, bitsReserveOutAfter: seq<Fe>, bitsChange: seq<Fe>, bitsLess: seq<Fe>)

  function SwapNote(h: Hashes, s: SwapPrivate): Fe {
    NoteCommitment(h, 0, s.inAmount, OwnerPk(h, s.ownerSk), s.rhoIn)
  }

  ghost predicate SwapRanges(p: SwapPublic, s: SwapPrivate, t: SwapSignals) {
    && Num2Bits(s.inAmount, t.bitsInAmount, 64)
    && Num2Bits(s.amountIn, t.bitsAmountIn, 64)
    && Num2Bits(s.amountOut, t.bitsAmountOut, 64)
    && Num2Bits(p.reserveInBefore, t.bitsReserveInBefore, 64)
    && Num2Bits(p.reserveOutBefore, t.bitsReserveOutBefore, 64)
    && Num2Bits(p.reserveInAfter, t.bitsReserveInAfter, 64)
    && Num2Bits(p.reserveOutAfter, t.bitsReserveOutAfter, 64)
  }

  ghost predicate SwapConservation(s: SwapPrivate, t: SwapSignals) {
    && t.change == Sub(s.inAmount, s.amountIn)
    && Num2Bits(t.change, t.bitsChange, 64)
    && LessThan252(s.amountIn, Add(s.inAmount, 1), t.bitsLess, 1)
  }

  ghost predicate SwapMarket(p: SwapPublic, s: SwapPrivate, t: SwapSignals) {
    && p.reserveInAfter == Add(p.reserveInBefore, s.amountIn)
    && p.reserveOutAfter == Sub(p.reserveOutBefore, s.amountOut)
    && t.kBefore == Mul(p.reserveInBefore, p.reserveOutBefore)
    && t.kAfter == Mul(p.reserveInAfter, p.reserveOutAfter)
    && t.kBefore == t.kAfter
    && Mul(Sub(p.assetOut, 1), Sub(p.assetOut, 2)) == 0
  }

  ghost predicate PrivateSwap(h: Hashes, depth: nat, p: SwapPublic, s: SwapPrivate, t: SwapSignals) {
    && |s.elements| == |s.indices| == depth
    && SwapRanges(p, s, t)
    && t.leafIndex == WeightedSum(s.indices)
    && p.nullifierIn == Nullifier(h, s.ownerSk, s.rhoIn, t.leafIndex)
    && MerkleInclusion(h, SwapNote(h, s), p.root, s.elements, s.indices, t.cur)
    && SwapConservation(s, t)
    && SwapMarket(p, s, t)
    && p.outCommitment == NoteCommitment(h, p.assetOut, s.amountOut, OwnerPk(h, s.ownerSk), s.rhoOut)
    && p.changeCommitment == NoteCommitment(h, 0, t.change, OwnerPk(h, s.ownerSk), s.rhoChange)
  }

  /** The value side of a swap, over the integers. */
  ghost predicate SwapValues(p: SwapPublic, s: SwapPrivate) {
    && s.inAmount < BOUND && s.amountIn <= s.inAmount && s.amountOut <= p.reserveOutBefore < BOUND
    && p.reserveInBefore + s.amountIn == p.reserveInAfter < BOUND
    && p.reserveOutBefore - s.amountOut == p.reserveOutAfter
    && p.reserveInBefore * p.reserveOutBefore == p.reserveInAfter * p.reserveOutAfter
    && (p.assetOut == 1 || p.assetOut == 2)
  }

  ghost predicate SwapMeans(h: Hashes, depth: nat, p: SwapPublic, s: SwapPrivate) {
    && SwapValues(p, s)
    && Spends(h, depth, p.root, p.nullifierIn, SwapNote(h, s), s.ownerSk, s.rhoIn, s.elements, s.indices)
    && p.outCommitment == NoteCommitment(h, p.assetOut, s.amountOut, OwnerPk(h, s.ownerSk), s.rhoOut)
    && p.changeCommitment == NoteCommitment(h, 0, s.inAmount - s.amountIn, OwnerPk(h, s.ownerSk), s.rhoChange)
  }

  lemma DifferenceInRange(x: Fe, y: Fe)
    requires x < BOUND && y < BOUND
    ensures Sub(x, y) < BOUND <==> y <= x
    ensures y <= x ==> Sub(x, y) == x - y
  {
  }

  lemma SumInRange(x: Fe, y: Fe)
    requires x < BOUND && y < BOUND
    ensures Add(x, y) == x + y
  {
  }

  lemma SmallProduct(x: Fe, y: Fe, m: int)
    requires x <= m && y <= m && m * m < R
    ensures Mul(x, y) == x * y
  {
    ProductBound(x, y, m);
    SmallReduces(x * y);
  }

  lemma ProductInRange(x: Fe, y: Fe)
    requires x < BOUND && y < BOUND
    ensures Mul(x, y) == x * y
  {
    SmallProduct(x, y, BOUND);
  }

  lemma SubZero(a: Fe, b: Fe)
    ensures Sub(a, b) == 0 <==> a == b
  {
  }

  lemma MulZero(a: Fe)
    ensures Mul(a, 0) == 0 && Mul(0, a) == 0
  {
  }

  lemma AssetIsYesOrNo(a: Fe)
    requires NoZeroDivisors()
    ensures Mul(Sub(a, 1), Sub(a, 2)) == 0 <==> a == 1 || a == 2
  {
    hide Sub, Mul;
    SubZero(a, 1);
    SubZero(a, 2);
    MulZero(Sub(a, 1));
    MulZero(Sub(a, 2));
    if Mul(Sub(a, 1), Sub(a, 2)) == 0 {
      assert Sub(a, 1) == 0 || Sub(a, 2) == 0;
    }
  }

  /** The comparison kept beside the range check of the change never rejects what that check admits. */
  lemma ComparisonHolds(a: Fe, b: Fe)
    requires NoZeroDivisors() && a <= b < BOUND
    ensures var v := Sub(Add(a, Reduce(Pow2(252))), Add(b, 1));
      LessThan252(a, Add(b, 1), BitsOf(v, 253), 1)
  {
    Pow252();
    hide Pow2, Num2Bits;
    var v := Sub(Add(a, Reduce(Pow2(252))), Add(b, 1));
    ShiftedDifference(a, b, Pow2(252));
    BitsExist(v, 253);
    AncestorBelowCapacity(v, 252);
  }

  lemma ShiftedDifference(a: Fe, b: Fe, p: int)
    requires a <= b < BOUND && p == 0x1000_0000_0000_0000_0000_0000_0000_0000_0000_0000_0000_0000_0000_0000_0000_0000
    ensures Sub(Add(a, Reduce(p)), Add(b, 1)) == p + a - b - 1
  {
    assert Reduce(p) == p && Add(a, p) == a + p && Add(b, 1) == b + 1;
  }

  lemma RangesMean(p: SwapPublic, s: SwapPrivate, t: SwapSignals)
    requires NoZeroDivisors() && SwapRanges(p, s, t)
    ensures s.inAmount < BOUND && s.amountIn < BOUND && s.amountOut < BOUND
    ensures p.reserveInBefore < BOUND && p.reserveOutBefore < BOUND
    ensures p.reserveInAfter < BOUND && p.reserveOutAfter < BOUND
  {
    hide Num2Bits, Pow2;
    Pow64();
    BitsBelow(s.inAmount, t.bitsInAmount, 64);
    BitsBelow(s.amountIn, t.bitsAmountIn, 64);
    BitsBelow(s.amountOut, t.bitsAmountOut, 64);
    BitsBelow(p.reserveInBefore, t.bitsReserveInBefore, 64);
    BitsBelow(p.reserveOutBefore, t.bitsReserveOutBefore, 64);
    BitsBelow(p.reserveInAfter, t.bitsReserveInAfter, 64);
    BitsBelow(p.reserveOutAfter, t.bitsReserveOutAfter, 64);
  }

  lemma ValuesSound(p: SwapPublic, s: SwapPrivate, t: SwapSignals)
    requires NoZeroDivisors() && SwapRanges(p, s, t) && SwapConservation(s, t) && SwapMarket(p, s, t)
    ensures SwapValues(p, s) && t.change == s.inAmount - s.amountIn
  {
    hide NoZeroDivisors, Num2Bits, Pow2, LessThan252, SwapRanges, Add, Sub, Mul;
    RangesMean(p, s, t);
    Pow64();
    BitsBelow(t.change, t.bitsChange, 64);
    DifferenceInRange(s.inAmount, s.amountIn);
    SumInRange(p.reserveInBefore, s.amountIn);
    DifferenceInRange(p.reserveOutBefore, s.amountOut);
    ProductInRange(p.reserveInBefore, p.reserveOutBefore);
    ProductInRange(p.reserveInAfter, p.reserveOutAfter);
    AssetIsYesOrNo(p.assetOut);
  }

  /** The signals an honest prover computes. */
  function SignalsOf(h: Hashes, p: SwapPublic, s: SwapPrivate): SwapSignals
    requires |s.elements| == |s.indices|
  {
    var change := Sub(s.inAmount, s.amountIn);
    var less := Sub(Add(s.amountIn, Reduce(Pow2(252))), Add(s.inAmount, 1));
    SwapSignals(
      WeightedSum(s.indices), change,
      Mul(p.reserveInBefore, p.reserveOutBefore), Mul(p.reserveInAfter, p.reserveOutAfter),
      FoldTrace(h, SwapNote(h, s), s.elements, s.indices),
      BitsOf(s.inAmount, 64), BitsOf(s.amountIn, 64), BitsOf(s.amountOut, 64),
      BitsOf(p.reserveInBefore, 64), BitsOf(p.reserveOutBefore, 64),
      BitsOf(p.reserveInAfter, 64), BitsOf(p.reserveOutAfter, 64), BitsOf(change, 64), BitsOf(less, 253))
  }

  lemma ValuesComplete(h: Hashes, p: SwapPublic, s: SwapPrivate)
    requires NoZeroDivisors() && SwapValues(p, s) && |s.elements| == |s.indices|
    ensures var t := SignalsOf(h, p, s);
      && SwapRanges(p, s, t) && SwapConservation(s, t) && SwapMarket(p, s, t)
      && t.change == s.inAmount - s.amountIn
  {
    Pow64();
    hide Num2Bits, Pow2, LessThan252, Add, Sub, Mul, Reduce, BitsOf, WeightedSum, FoldTrace;
    BitsExist(s.inAmount, 64);
    BitsExist(s.amountIn, 64);
    BitsExist(s.amountOut, 64);
    BitsExist(p.reserveInBefore, 64);
    BitsExist(p.reserveOutBefore, 64);
    BitsExist(p.reserveInAfter, 64);
    BitsExist(p.reserveOutAfter, 64);
    BitsExist(s.inAmount - s.amountIn, 64);
    ComparisonHolds(s.amountIn, s.inAmount);
    DifferenceInRange(s.inAmount, s.amountIn);
    SumInRange(p.reserveInBefore, s.amountIn);
    DifferenceInRange(p.reserveOutBefore, s.amountOut);
    ProductInRange(p.reserveInBefore, p.reserveOutBefore);
    ProductInRange(p.reserveInAfter, p.reserveOutAfter);
    AssetIsYesOrNo(p.assetOut);
  }

  /** Every witness over Z_r of the swap constraints satisfies the swap as integers. */
  lemma SwapSound(h: Hashes, depth: nat, p: SwapPublic, s: SwapPrivate, t: SwapSignals)
    requires NoZeroDivisors() && Pow2(depth) <= R && PrivateSwap(h, depth, p, s, t)
    ensures SwapMeans(h, depth, p, s)
  {
    hide MerkleInclusion, WeightedSum, Spends, SwapRanges, SwapConservation, SwapMarket, SwapValues, Pow2;
    ValuesSound(p, s, t);
    SpendExact(h, depth, p.root, p.nullifierIn, SwapNote(h, s), s.ownerSk, s.rhoIn, s.elements, s.indices, t.cur);
    hide Add, Sub, Mul;
    ChangeNonnegative(p, s);
  }

  lemma ChangeNonnegative(p: SwapPublic, s: SwapPrivate)
    requires SwapValues(p, s)
    ensures 0 <= s.inAmount - s.amountIn < R
  {
  }

  /** Every integer swap has a witness over Z_r, the one an honest prover computes. */
  lemma SwapComplete(h: Hashes, depth: nat, p: SwapPublic, s: SwapPrivate)
    requires NoZeroDivisors() && Pow2(depth) <= R && SwapMeans(h, depth, p, s)
    ensures |s.elements| == |s.indices| == depth && PrivateSwap(h, depth, p, s, SignalsOf(h, p, s))
  {
    hide MerkleInclusion, WeightedSum, FoldTrace, SwapRanges, SwapConservation, SwapMarket, SwapValues;
    hide Pow2, Add, Sub, Mul, Reduce, BitsOf, Fold, LeafIndex;
    ValuesComplete(h, p, s);
    SpendExact(h, depth, p.root, p.nullifierIn, SwapNote(h, s), s.ownerSk, s.rhoIn, s.elements, s.indices, []);
  }
}
