/** The client's tree of cli/src/crypto.ts: the same insert, kept with all leaves so that
    authentication paths can be rebuilt level by level. */
module ClientTree {
  import opened Merkle
  import opened Outcomes

  class MerkleTree<T> {
    const scheme: Scheme<T>
    const depth: nat
    var zeros: seq<T>
    var filledSubtrees: seq<T>
    var leaves: seq<T>
    var currentRoot: T

    ghost predicate Valid()
      reads this
    {
      && ZerosHold(scheme, zeros, depth)
      && |filledSubtrees| == depth && FrontierHolds(scheme, leaves, filledSubtrees)
      && currentRoot == Root(scheme, depth, leaves)
      && |leaves| <= Pow2(depth)
    }

    constructor (scheme: Scheme<T>, depth: nat)
      ensures Valid() && this.scheme == scheme && this.depth == depth && leaves == []
    {
      this.scheme, this.depth := scheme, depth;
      var z := [scheme.empty];
      var i := 1;
      while i <= depth
        invariant 1 <= i <= depth + 1 && ZerosHold(scheme, z, i - 1)
      {
        z := z + [scheme.hash(z[i - 1], z[i - 1])];
        i := i + 1;
      }
      zeros, filledSubtrees, leaves, currentRoot := z, z[..depth], [], z[depth];
      new;
      EmptyFrontier(scheme, filledSubtrees);
    }

    /** Appends a leaf; None when the tree is full. */
    method Insert(leaf: T) returns (r: Option<nat>)
      requires Valid()
      modifies this
      ensures Valid()
      ensures |old(leaves)| == Pow2(depth) ==> r == None && leaves == old(leaves)
      ensures |old(leaves)| < Pow2(depth) ==> r == Some(|old(leaves)|) && leaves == old(leaves) + [leaf]
    {
      var index := |leaves|;
      if index >= Pow2(depth) {
        return None;
      }
      var filled := filledSubtrees;
      var cur := leaf;
      var idx: nat := index;
      var i := 0;
      while i < depth
        modifies {}
        invariant 0 <= i <= depth
        invariant Climbing(scheme, leaves, leaf, filledSubtrees, filled, i, idx, cur)
      {
        var left, right;
        if idx % 2 == 0 {
          ClimbLeft(scheme, leaves, leaf, filledSubtrees, filled, i, idx, cur);
          left, right := cur, zeros[i];
          filled := filled[i := cur];
        } else {
          ClimbRight(scheme, leaves, leaf, filledSubtrees, filled, i, idx, cur);
          left, right := filled[i], cur;
        }
        cur := scheme.hash(left, right);
        idx := idx / 2;
        i := i + 1;
      }
      Climbed(scheme, leaves, leaf, filledSubtrees, filled, idx, cur);
      filledSubtrees, currentRoot, leaves := filled, cur, leaves + [leaf];
      r := Some(index);
    }

    /** The authentication path of a leaf; None when the index is out of range. Folded the circuit's
        way from the leaf it reaches the current root, and its bits spell the index. */
    method PathFor(index: int) returns (r: Option<(seq<T>, seq<nat>)>)
      requires Valid()
      ensures r.None? <==> !(0 <= index < |leaves|)
      ensures r.Some? ==>
        var (elements, bits) := r.value;
        && IsPath(scheme, leaves, index, elements, bits) && |bits| == depth && Binary(bits)
        && Fold(scheme, leaves[index], elements, bits) == currentRoot
        && LeafIndex(bits) == index
    {
      if index < 0 || index >= |leaves| {
        return None;
      }
      hide Node, Ancestor, Fold, LeafIndex, Root, IsPath, LevelHolds, Pow2;
      var elements: seq<T>, bits: seq<nat> := [], [];
      var level := leaves;
      var idx: nat := index;
      var i := 0;
      StartOfPath(scheme, leaves, index);
      while i < depth
        invariant 0 <= i <= depth && idx == Ancestor(index, i)
        invariant |bits| == i && IsPath(scheme, leaves, index, elements, bits)
        invariant LevelHolds(scheme, leaves, i, level)
      {
        var isRightChild := idx % 2 == 1;
        var siblingIdx := if isRightChild then idx - 1 else idx + 1;
        LevelReads(scheme, leaves, i, level, siblingIdx);
        var sibling := if siblingIdx < |level| then level[siblingIdx] else zeros[i];
        PathExtends(scheme, leaves, index, elements, bits);
        elements := elements + [sibling];
        bits := bits + [if isRightChild then 1 else 0];
        level := NextLevel(i, level);
        AncestorStep(index, i);
        idx := idx / 2;
        i := i + 1;
      }
      PathReachesRoot(scheme, leaves, index, elements, bits);
      PathLengths(scheme, leaves, index, elements, bits);
      r := Some((elements, bits));
    }

    /** The inner loop: one level up, missing right siblings being empty subtrees. */
    method NextLevel(i: nat, level: seq<T>) returns (next: seq<T>)
      requires Valid() && i < depth && LevelHolds(scheme, leaves, i, level)
      ensures LevelHolds(scheme, leaves, i + 1, next)
    {
      next := [];
      var j := 0;
      while j < |level|
        invariant 0 <= j <= |level| + 1 && j % 2 == 0 && |next| == j / 2
        invariant forall k :: 0 <= k < |next| ==> next[k] == Node(scheme, leaves, i + 1, k)
      {
        LevelReads(scheme, leaves, i, level, j + 1);
        var l := level[j];
        var r := if j + 1 < |level| then level[j + 1] else zeros[i];
        assert Node(scheme, leaves, i + 1, j / 2) == scheme.hash(l, r);
        next := next + [scheme.hash(l, r)];
        j := j + 2;
      }
    }
  }

  /** A level array holds the level's nodes up to and including the one above the last leaf. */
  ghost predicate LevelHolds<T>(sc: Scheme<T>, s: seq<T>, i: nat, level: seq<T>) {
    && s != [] && |level| == Ancestor(|s| - 1, i) + 1
    && forall k :: 0 <= k < |level| ==> level[k] == Node(sc, s, i, k)
  }

  lemma StartOfPath<T>(sc: Scheme<T>, s: seq<T>, index: nat)
    requires index < |s|
    ensures Ancestor(index, 0) == index && IsPath(sc, s, index, [], []) && LevelHolds(sc, s, 0, s)
  {
  }

  lemma AncestorStep(index: nat, i: nat)
    ensures Ancestor(index, i + 1) == Ancestor(index, i) / 2
  {
  }

  lemma PathLengths<T>(sc: Scheme<T>, s: seq<T>, index: nat, elements: seq<T>, bits: seq<nat>)
    requires IsPath(sc, s, index, elements, bits)
    ensures |elements| == |bits|
  {
  }

  lemma LevelReads<T>(sc: Scheme<T>, s: seq<T>, i: nat, level: seq<T>, k: nat)
    requires LevelHolds(sc, s, i, level)
    ensures Node(sc, s, i, k) == if k < |level| then level[k] else Zero(sc, i)
  {
    if k >= |level| {
      EmptyNode(sc, s, i, k);
    }
  }

  /** The << of JavaScript on 1: a signed 32-bit shift by i modulo 32. */
  function JsShiftOne(i: nat): int {
    if i % 32 == 31 then -0x8000_0000 else Pow2(i % 32)
  }

  lemma BitsStart(bits: seq<nat>)
    ensures LeafIndex(bits[..0]) == 0
  {
  }

  lemma BitsStep(bits: seq<nat>, i: nat)
    requires i < |bits| && Binary(bits)
    ensures LeafIndex(bits[..i + 1]) == LeafIndex(bits[..i]) + if bits[i] == 0 then 0 else Pow2(i)
  {
    assert bits[..i + 1][..i] == bits[..i];
  }

  lemma {:induction false} Pow2Grows(m: nat, n: nat)
    requires m < n
    ensures Pow2(m) < Pow2(n)
  {
    if m < n - 1 {
      Pow2Grows(m, n - 1);
    }
  }

  /** The 32-bit shift is the power of two exactly below 31, and too small from there on. */
  lemma ShiftFallsShort(i: nat)
    ensures i < 31 ==> JsShiftOne(i) == Pow2(i)
    ensures i >= 31 ==> JsShiftOne(i) < Pow2(i)
  {
    hide Pow2;
    if i >= 32 {
      Pow2Grows(i % 32, i);
    }
  }

  /** pathIndicesToLeafIndex of cli/src/prover.ts: the number the bits spell, exactly when no bit from the
      31st on is set; the shift there leaves the result too small. */
  method PathIndicesToLeafIndex(bits: seq<nat>) returns (acc: int)
    requires Binary(bits)
    ensures acc == LeafIndex(bits) <==> forall i :: 31 <= i < |bits| ==> bits[i] == 0
    ensures acc <= LeafIndex(bits)
  {
    hide LeafIndex, Pow2, JsShiftOne;
    acc := 0;
    BitsStart(bits);
    var i := 0;
    while i < |bits|
      invariant 0 <= i <= |bits|
      invariant acc <= LeafIndex(bits[..i])
      invariant acc == LeafIndex(bits[..i]) <==> forall j :: 31 <= j < i ==> bits[j] == 0
    {
      BitsStep(bits, i);
      ShiftFallsShort(i);
      if bits[i] != 0 {
        acc := acc + JsShiftOne(i);
      }
      i := i + 1;
    }
    assert bits[..|bits|] == bits;
  }
}
