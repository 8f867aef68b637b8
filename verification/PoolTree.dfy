/** The on-chain tree of contracts/shielded_pool/src/merkle.rs: a frontier of one cached node per
    level, the current root and every root there has been. */
module PoolTree {
  import opened Merkle
  import opened Outcomes

  const U32_LIMIT: nat := 0x1_0000_0000

  /** The roots of all prefixes, the empty one included. */
  function KnownRoots<T(==)>(sc: Scheme<T>, depth: nat, s: seq<T>): set<T> {
    set n: nat | n <= |s| :: Root(sc, depth, s[..n])
  }

  lemma KnownRootsEmpty<T>(sc: Scheme<T>, depth: nat)
    ensures KnownRoots(sc, depth, []) == {Zero(sc, depth)}
  {
    var s: seq<T> := [];
    assert s[..0] == s;
    assert Root(sc, depth, s[..0]) in KnownRoots(sc, depth, s);
  }

  lemma KnownRootsGrow<T>(sc: Scheme<T>, depth: nat, s: seq<T>, leaf: T)
    ensures KnownRoots(sc, depth, s + [leaf]) == KnownRoots(sc, depth, s) + {Root(sc, depth, s + [leaf])}
  {
    var t := s + [leaf];
    forall n: nat | n <= |s|
      ensures t[..n] == s[..n]
    {
    }
    assert t[..|t|] == t;
    forall r | r in KnownRoots(sc, depth, s)
      ensures r in KnownRoots(sc, depth, t)
    {
      var n: nat :| n <= |s| && r == Root(sc, depth, s[..n]);
      assert r == Root(sc, depth, t[..n]);
    }
    assert Root(sc, depth, t[..|t|]) in KnownRoots(sc, depth, t);
    forall r | r in KnownRoots(sc, depth, t)
      ensures r in KnownRoots(sc, depth, s) || r == Root(sc, depth, t)
    {
      var n: nat :| n <= |t| && r == Root(sc, depth, t[..n]);
      if n <= |s| {
        assert r == Root(sc, depth, s[..n]);
      }
    }
  }

  class Tree<T(==)> {
    const scheme: Scheme<T>
    const depth: nat
    var frontier: seq<T>
    var zeros: seq<T>
    var root: T
    var nextIndex: nat
    var knownRoots: set<T>
    ghost var leaves: seq<T>

    /** The stored values are the ones the plain tree over the inserted leaves has. */
    ghost predicate Valid()
      reads this
    {
      && |frontier| == depth && FrontierHolds(scheme, leaves, frontier)
      && ZerosHold(scheme, zeros, depth)
      && root == Root(scheme, depth, leaves)
      && nextIndex == |leaves| < U32_LIMIT
      && knownRoots == KnownRoots(scheme, depth, leaves)
    }

    constructor (scheme: Scheme<T>, depth: nat)
      ensures this.scheme == scheme && this.depth == depth
    {
      this.scheme, this.depth := scheme, depth;
      frontier, zeros, root, nextIndex, knownRoots, leaves := [], [], scheme.empty, 0, {}, [];
    }

    method ZeroRoots() returns (v: seq<T>)
      ensures ZerosHold(scheme, v, depth)
    {
      var cur := scheme.empty;
      v := [cur];
      var i := 0;
      while i < depth
        invariant 0 <= i <= depth && ZerosHold(scheme, v, i) && cur == Zero(scheme, i)
      {
        cur := scheme.hash(cur, cur);
        v := v + [cur];
        i := i + 1;
      }
    }

    /** An empty tree: the only known root is that of the all-empty tree. */
    method Init()
      modifies this
      ensures Valid() && leaves == []
    {
      var zr := ZeroRoots();
      var f: seq<T> := [];
      var i := 0;
      while i < depth
        invariant 0 <= i <= depth && |f| == i
        invariant forall l :: 0 <= l < i ==> f[l] == zr[l]
      {
        f := f + [zr[i]];
        i := i + 1;
      }
      frontier, zeros, root, nextIndex, leaves := f, zr, zr[depth], 0, [];
      knownRoots := {root};
      EmptyFrontier(scheme, frontier);
      KnownRootsEmpty(scheme, depth);
    }

    /** Appends a leaf in one walk from leaf to root; None when the u32 leaf counter would overflow. */
    method Insert(leaf: T) returns (r: Option<(T, nat)>)
      requires Valid()
      modifies this
      ensures Valid()
      ensures old(nextIndex) + 1 == U32_LIMIT ==> r == None && leaves == old(leaves)
      ensures old(nextIndex) + 1 < U32_LIMIT ==>
        leaves == old(leaves) + [leaf] && r == Some((Root(scheme, depth, leaves), old(nextIndex)))
    {
      var index := nextIndex;
      var leafIndex := index;
      if leafIndex + 1 >= U32_LIMIT {
        return None;
      }
      var f := frontier;
      var cur := leaf;
      var level := 0;
      while level < depth
        modifies {}
        invariant 0 <= level <= depth
        invariant Climbing(scheme, leaves, leaf, frontier, f, level, index, cur)
      {
        if index % 2 == 0 {
          ClimbLeft(scheme, leaves, leaf, frontier, f, level, index, cur);
          f := f[level := cur];
          cur := scheme.hash(cur, zeros[level]);
        } else {
          ClimbRight(scheme, leaves, leaf, frontier, f, level, index, cur);
          cur := scheme.hash(f[level], cur);
        }
        index := index / 2;
        level := level + 1;
      }
      Climbed(scheme, leaves, leaf, frontier, f, index, cur);
      KnownRootsGrow(scheme, depth, leaves, leaf);
      frontier, root, nextIndex := f, cur, leafIndex + 1;
      knownRoots := knownRoots + {cur};
      leaves := leaves + [leaf];
      r := Some((cur, leafIndex));
    }

    method IsKnownRoot(candidate: T) returns (known: bool)
      requires Valid()
      ensures known <==> exists n: nat :: n <= |leaves| && candidate == Root(scheme, depth, leaves[..n])
    {
      known := candidate in knownRoots;
    }
  }
}
