/** What each circuit's proof states about its public inputs, written out in the hashes and in integers:
    the constraints can be met exactly when this holds. And what the tree they speak of looks like. */
module Statements {
  import opened ScalarField
  import opened Merkle
  import opened Circuits

  // ---- Paths from the leaf up ----

  /** The root a path leads to, from the leaf up: a bit 0 puts the node on the left of its sibling. */
  function ClimbTo(h2: (Fe, Fe) -> Fe, leaf: Fe, elements: seq<Fe>, bits: seq<Fe>): Fe
    requires |elements| == |bits|
    decreases |bits|
  {
    if bits == [] then leaf
    else ClimbTo(h2, if bits[0] == 0 then h2(leaf, elements[0]) else h2(elements[0], leaf), elements[1..], bits[1..])
  }

  /** The number whose binary digits these are, lowest first. */
  function Spelled(bits: seq<Fe>): nat {
    if bits == [] then 0 else bits[0] + 2 * Spelled(bits[1..])
  }

  lemma {:induction false} FoldIsClimb(h: Hashes, leaf: Fe, elements: seq<Fe>, bits: seq<Fe>)
    requires |elements| == |bits|
    ensures Fold(TreeOf(h), leaf, elements, bits) == ClimbTo(h.h2, leaf, elements, bits)
    decreases |bits|
  {
    if bits != [] {
      var next := if bits[0] == 0 then h.h2(leaf, elements[0]) else h.h2(elements[0], leaf);
      FoldFromFirst(h, leaf, elements, bits, next);
      FoldIsClimb(h, next, elements[1..], bits[1..]);
    }
  }

  /** The first level may be folded before the others. */
  lemma {:induction false} FoldFromFirst(h: Hashes, leaf: Fe, elements: seq<Fe>, bits: seq<Fe>, next: Fe)
    requires |elements| == |bits| && bits != []
    requires next == if bits[0] == 0 then h.h2(leaf, elements[0]) else h.h2(elements[0], leaf)
    ensures Fold(TreeOf(h), leaf, elements, bits) == Fold(TreeOf(h), next, elements[1..], bits[1..])
  {
    var n := |bits| - 1;
    if n > 0 {
      FoldFromFirst(h, leaf, elements[..n], bits[..n], next);
      assert elements[..n][1..] == elements[1..][..n - 1] && bits[..n][1..] == bits[1..][..n - 1];
      assert elements[n] == elements[1..][n - 1] && bits[n] == bits[1..][n - 1];
    } else {
      FoldStart(h, leaf);
    }
  }

  lemma {:induction false} IndexIsSpelled(bits: seq<Fe>)
    ensures LeafIndex(bits) == Spelled(bits)
  {
    if bits != [] {
      IndexFromFirst(bits);
      IndexIsSpelled(bits[1..]);
    }
  }

  lemma {:induction false} IndexFromFirst(bits: seq<Fe>)
    requires bits != []
    ensures LeafIndex(bits) == bits[0] + 2 * LeafIndex(bits[1..])
  {
    var n := |bits| - 1;
    if n > 0 {
      IndexFromFirst(bits[..n]);
      assert bits[..n][1..] == bits[1..][..n - 1] && bits[n] == bits[1..][n - 1];
      Doubling(bits[n], Pow2(n - 1));
    }
  }

  /** A path of that many bits from this leaf to the root. */
  ghost predicate LeadsTo(h2: (Fe, Fe) -> Fe, depth: nat, leaf: Fe, elements: seq<Fe>, bits: seq<Fe>, root: Fe) {
    && |elements| == |bits| == depth && (forall i :: 0 <= i < |bits| ==> bits[i] == 0 || bits[i] == 1)
    && ClimbTo(h2, leaf, elements, bits) == root
  }

  lemma SpendsIs(h: Hashes, depth: nat, root: Fe, nullifier: Fe, note: Fe, ownerSk: Fe, rho: Fe, elements: seq<Fe>,
                 bits: seq<Fe>)
    ensures Spends(h, depth, root, nullifier, note, ownerSk, rho, elements, bits)
       <==> LeadsTo(h.h2, depth, note, elements, bits, root) &&
            nullifier == h.h3(ownerSk, rho, Spelled(bits) % R)
  {
    hide Fold, ClimbTo, LeafIndex, Spelled;
    IndexIsSpelled(bits);
    if |elements| == |bits| {
      FoldIsClimb(h, note, elements, bits);
    }
  }

  // ---- The three circuits ----

  /** shield: the commitment is to a collateral note of the public amount, which is below 2^64. */
  lemma ShieldStates(h: Hashes, amount: Fe, commitment: Fe, ownerPk: Fe, rho: Fe)
    requires NoZeroDivisors()
    ensures (exists bits :: Shield(h, amount, commitment, ownerPk, rho, bits))
       <==> amount < 0x1_0000_0000_0000_0000 && commitment == h.h4(0, amount, ownerPk, rho)
  {
    hide Num2Bits;
    ShieldExact(h, amount, commitment, ownerPk, rho);
  }

  /** unshield: a collateral note of the public amount, owned by the hash of the secret key, lies under the
      root at the place its path spells, and the nullifier is that of the key, the randomness and the place. */
  lemma UnshieldStates(h: Hashes, depth: nat, p: UnshieldPublic, s: UnshieldPrivate)
    requires NoZeroDivisors() && Pow2(depth) <= R
    ensures (exists t :: Unshield(h, depth, p, s, t))
       <==> LeadsTo(h.h2, depth, h.h4(0, p.withdrawAmount, h.h1(s.ownerSk), s.rho), s.elements, s.indices, p.root) &&
            p.nullifier == h.h3(s.ownerSk, s.rho, Spelled(s.indices) % R)
  {
    hide Unshield, Spends, LeadsTo, Spelled, Pow2;
    UnshieldExact(h, depth, p, s);
    SpendsIs(h, depth, p.root, p.nullifier, UnshieldNote(h, p, s), s.ownerSk, s.rho, s.elements, s.indices);
  }

  /** The trade a swap proof states, over the integers: paid out of the note, the reserves moved by exactly
      what is paid and taken, their product kept, everything below 2^64, and the asset YES or NO. */
  ghost predicate IsSwap(inAmount: int, paid: int, taken: int, inBefore: int, outBefore: int, inAfter: int,
                         outAfter: int, asset: int)
  {
    && paid <= inAmount < 0x1_0000_0000_0000_0000
    && inAfter == inBefore + paid && inAfter < 0x1_0000_0000_0000_0000
    && outAfter == outBefore - taken && taken <= outBefore < 0x1_0000_0000_0000_0000
    && inAfter * outAfter == inBefore * outBefore
    && asset in {1, 2}
  }

  lemma ValuesAre(p: SwapPublic, s: SwapPrivate)
    ensures SwapValues(p, s)
       <==> IsSwap(s.inAmount, s.amountIn, s.amountOut, p.reserveInBefore, p.reserveOutBefore, p.reserveInAfter,
                   p.reserveOutAfter, p.assetOut)
  {
  }

  /** private_swap: such a trade, a collateral note spent as above, and two notes of the same owner: what is
      taken, in the bought asset, and the rest of the input, in collateral. */
  ghost predicate SwapStatement(h: Hashes, depth: nat, p: SwapPublic, s: SwapPrivate) {
    && IsSwap(s.inAmount, s.amountIn, s.amountOut, p.reserveInBefore, p.reserveOutBefore, p.reserveInAfter,
              p.reserveOutAfter, p.assetOut)
    && LeadsTo(h.h2, depth, h.h4(0, s.inAmount, h.h1(s.ownerSk), s.rhoIn), s.elements, s.indices, p.root)
    && p.nullifierIn == h.h3(s.ownerSk, s.rhoIn, Spelled(s.indices) % R)
    && p.outCommitment == h.h4(p.assetOut, s.amountOut, h.h1(s.ownerSk), s.rhoOut)
    && p.changeCommitment == h.h4(0, s.inAmount - s.amountIn, h.h1(s.ownerSk), s.rhoChange)
  }

  lemma MeansStatement(h: Hashes, depth: nat, p: SwapPublic, s: SwapPrivate)
    ensures SwapMeans(h, depth, p, s) <==> SwapStatement(h, depth, p, s)
  {
    hide Spends, LeadsTo, Spelled, SwapValues;
    ValuesAre(p, s);
    SpendsIs(h, depth, p.root, p.nullifierIn, SwapNote(h, s), s.ownerSk, s.rhoIn, s.elements, s.indices);
  }

  lemma SwapStates(h: Hashes, depth: nat, p: SwapPublic, s: SwapPrivate)
    requires NoZeroDivisors() && Pow2(depth) <= R
    ensures (exists t :: PrivateSwap(h, depth, p, s, t)) <==> SwapStatement(h, depth, p, s)
  {
    hide PrivateSwap, SwapMeans, SwapStatement, Pow2;
    MeansStatement(h, depth, p, s);
    forall t | PrivateSwap(h, depth, p, s, t)
      ensures SwapMeans(h, depth, p, s)
    {
      SwapSound(h, depth, p, s, t);
    }
    if SwapMeans(h, depth, p, s) {
      SwapComplete(h, depth, p, s);
    }
  }

  // ---- The tree ----

  /** Children joined in order: the tree whose nodes are the lists of what lies under them. */
  function Listing(empty: int): Scheme<seq<int>> { Scheme((x: seq<int>, y: seq<int>) => x + y, [empty]) }

  /** Leaf k of the padded tree. */
  function Padded(s: seq<int>, empty: int, k: nat): int { if k < |s| then s[k] else empty }

  /** Node i of a level lists the padded leaves from i * 2^level on, 2^level of them, in order. */
  lemma {:induction false} NodeLists(s: seq<seq<int>>, leaves: seq<int>, empty: int, level: nat, i: nat)
    requires |s| == |leaves| && forall k :: 0 <= k < |s| ==> s[k] == [leaves[k]]
    ensures var listed := Node(Listing(empty), s, level, i);
      && |listed| == Pow2(level)
      && forall j :: 0 <= j < Pow2(level) ==> listed[j] == Padded(leaves, empty, i * Pow2(level) + j)
  {
    if level > 0 {
      var p := Pow2(level - 1);
      var x, y := Node(Listing(empty), s, level - 1, 2 * i), Node(Listing(empty), s, level - 1, 2 * i + 1);
      NodeLists(s, leaves, empty, level - 1, 2 * i);
      NodeLists(s, leaves, empty, level - 1, 2 * i + 1);
      Child(i, 0, p);
      Child(i, 1, p);
      forall j | 0 <= j < 2 * p
        ensures (x + y)[j] == Padded(leaves, empty, i * (2 * p) + j)
      {
        if j < p {
          assert (x + y)[j] == x[j];
        } else {
          assert (x + y)[j] == y[j - p];
        }
      }
    }
  }

  /** The root the pool stores for three leaves, at depth two: pairs in order, the empty leaf 0. */
  lemma SmallRoot(h: Hashes, a: Fe, b: Fe, c: Fe)
    ensures Root(TreeOf(h), 2, [a, b, c]) == h.h2(h.h2(a, b), h.h2(c, 0))
  {
    var sc, s := TreeOf(h), [a, b, c];
    assert Ancestor(2, 1) == 1 && Ancestor(2, 2) == 0;
    assert Node(sc, s, 1, 0) == h.h2(a, b) && Node(sc, s, 1, 1) == h.h2(c, 0);
  }
}
