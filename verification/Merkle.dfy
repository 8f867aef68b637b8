/** The plain tree: the root of the complete binary tree over a sequence of leaves padded with an
    empty leaf, for an arbitrary two-to-one hash and an arbitrary depth. The frontier insert, the path
    builder and the inclusion circuit are all measured against it. */
module Merkle {
  datatype Scheme<!T> = Scheme(hash: (T, T) -> T, empty: T)

  function Pow2(n: nat): (p: nat)
    ensures p > 0
  {
    if n == 0 then 1 else 2 * Pow2(n - 1)
  }

  /** The index of the node that leaf i lies under, that many levels up: i shifted right. */
  function Ancestor(i: nat, level: nat): nat {
    if level == 0 then i else Ancestor(i, level - 1) / 2
  }

  function LeafAt<T>(e: T, s: seq<T>, i: nat): T {
    if i < |s| then s[i] else e
  }

  /** The value of the i-th node of a level of the padded tree. */
  function Node<T>(sc: Scheme<T>, s: seq<T>, level: nat, i: nat): T
    decreases level
  {
    if level == 0 then LeafAt(sc.empty, s, i)
    else sc.hash(Node(sc, s, level - 1, 2 * i), Node(sc, s, level - 1, 2 * i + 1))
  }

  /** The root of an all-empty subtree. */
  function Zero<T>(sc: Scheme<T>, level: nat): T {
    if level == 0 then sc.empty else sc.hash(Zero(sc, level - 1), Zero(sc, level - 1))
  }

  /** The root a tree of that depth has after inserting s: that of the complete tree the latest leaf
      lies in. Within capacity there is only one, Node(sc, s, depth, 0). */
  function Root<T>(sc: Scheme<T>, depth: nat, s: seq<T>): T {
    if s == [] then Zero(sc, depth) else Node(sc, s, depth, Ancestor(|s| - 1, depth))
  }

  // ---- Indices ----

  lemma {:induction false} AncestorSuccessor(n: nat, level: nat)
    ensures Ancestor(n + 1, level) == Ancestor(n, level) || Ancestor(n + 1, level) == Ancestor(n, level) + 1
  {
    if level > 0 {
      AncestorSuccessor(n, level - 1);
    }
  }

  lemma {:induction false} AncestorIsDivision(i: nat, level: nat)
    ensures Ancestor(i, level) * Pow2(level) <= i < (Ancestor(i, level) + 1) * Pow2(level)
  {
    if level > 0 {
      AncestorIsDivision(i, level - 1);
      var a, b, p := Ancestor(i, level - 1), Ancestor(i, level), Pow2(level - 1);
      Scale(2 * b, a, p);
      Scale(a + 1, 2 * (b + 1), p);
      Child(b, 0, p);
      Child(b + 1, 0, p);
    }
  }

  /** The last multiple of 2^depth that is not above i. */
  function EpochStart(i: nat, depth: nat): nat {
    Ancestor(i, depth) * Pow2(depth)
  }

  lemma EpochContains(i: nat, depth: nat)
    ensures EpochStart(i, depth) <= i < EpochStart(i, depth) + Pow2(depth)
  {
    AncestorIsDivision(i, depth);
    Distribute(Ancestor(i, depth), Pow2(depth));
  }

  lemma Distribute(k: int, p: int)
    ensures (k + 1) * p == k * p + p
  {
  }

  lemma Child(i: int, bit: int, p: int)
    ensures (2 * i + bit) * p == i * (2 * p) + bit * p
  {
  }

  lemma Scale(a: int, b: int, p: nat)
    requires a <= b
    ensures a * p <= b * p
  {
    assert 0 <= (b - a) * p;
  }

  /** Position k * 2^d + j, with j below 2^d, lies under node k of level d. */
  lemma AncestorOfSum(k: nat, j: nat, d: nat)
    requires j < Pow2(d)
    ensures Ancestor(k * Pow2(d) + j, d) == k
  {
    var i := k * Pow2(d) + j;
    AncestorIsDivision(i, d);
    var a := Ancestor(i, d);
    if a < k {
      Scale(a + 1, k, Pow2(d));
    } else if a > k {
      Scale(k + 1, a, Pow2(d));
    }
  }

  lemma AncestorBelowCapacity(i: nat, depth: nat)
    ensures Ancestor(i, depth) == 0 <==> i < Pow2(depth)
  {
    AncestorIsDivision(i, depth);
    if Ancestor(i, depth) >= 1 {
      Scale(1, Ancestor(i, depth), Pow2(depth));
    }
  }

  // ---- What a node depends on ----

  /** A node past the last leaf is the root of an empty subtree. */
  lemma {:induction false} EmptyNode<T>(sc: Scheme<T>, s: seq<T>, level: nat, i: nat)
    requires s == [] || i > Ancestor(|s| - 1, level)
    ensures Node(sc, s, level, i) == Zero(sc, level)
  {
    if level > 0 {
      EmptyNode(sc, s, level - 1, 2 * i);
      EmptyNode(sc, s, level - 1, 2 * i + 1);
    }
  }

  /** A node wholly to the left of the next free position no longer changes. */
  lemma {:induction false} CompletedNode<T>(sc: Scheme<T>, s: seq<T>, t: seq<T>, level: nat, i: nat)
    requires s <= t && i < Ancestor(|s|, level)
    ensures Node(sc, t, level, i) == Node(sc, s, level, i)
  {
    if level > 0 {
      CompletedNode(sc, s, t, level - 1, 2 * i);
      CompletedNode(sc, s, t, level - 1, 2 * i + 1);
    }
  }

  /** Node i + j of a level is node i of the same level once the j * 2^level leaves before it go. */
  lemma {:induction false} NodeOfSuffix<T>(sc: Scheme<T>, s: seq<T>, level: nat, i: nat, j: nat, skipped: nat)
    requires skipped == j * Pow2(level) <= |s|
    ensures Node(sc, s, level, i + j) == Node(sc, s[skipped..], level, i)
  {
    if level > 0 {
      assert 2 * j * Pow2(level - 1) == j * Pow2(level);
      NodeOfSuffix(sc, s, level - 1, 2 * i, 2 * j, skipped);
      NodeOfSuffix(sc, s, level - 1, 2 * i + 1, 2 * j, skipped);
    }
  }

  /** Within capacity the root is that of the one complete tree. */
  lemma RootWithinCapacity<T>(sc: Scheme<T>, depth: nat, s: seq<T>)
    requires |s| <= Pow2(depth)
    ensures Root(sc, depth, s) == Node(sc, s, depth, 0)
  {
    if s == [] {
      EmptyNode(sc, s, depth, 0);
    } else {
      AncestorBelowCapacity(|s| - 1, depth);
    }
  }

  lemma EpochNode<T>(sc: Scheme<T>, depth: nat, s: seq<T>, i: nat)
    requires i < |s|
    ensures EpochStart(i, depth) <= i < EpochStart(i, depth) + Pow2(depth)
    ensures Node(sc, s, depth, Ancestor(i, depth)) == Node(sc, s[EpochStart(i, depth)..], depth, 0)
  {
    EpochContains(i, depth);
    NodeOfSuffix(sc, s, depth, 0, Ancestor(i, depth), EpochStart(i, depth));
  }

  /** Beyond capacity the root is that of the leaves since the last multiple of 2^depth before the
      latest insert. */
  lemma RootOfEpoch<T>(sc: Scheme<T>, depth: nat, s: seq<T>)
    requires s != []
    ensures var start := EpochStart(|s| - 1, depth);
      start < |s| <= start + Pow2(depth) && Root(sc, depth, s) == Root(sc, depth, s[start..])
  {
    hide EpochStart, Ancestor, Pow2, Node;
    EpochNode(sc, depth, s, |s| - 1);
    RootWithinCapacity(sc, depth, s[EpochStart(|s| - 1, depth)..]);
  }

  // ---- The frontier ----

  /** At every level where the next position is a right child, its completed left sibling is cached. */
  ghost predicate FrontierHolds<T>(sc: Scheme<T>, s: seq<T>, frontier: seq<T>) {
    forall l :: 0 <= l < |frontier| && Ancestor(|s|, l) % 2 == 1 ==>
      frontier[l] == Node(sc, s, l, Ancestor(|s|, l) - 1)
  }

  ghost predicate ZerosHold<T>(sc: Scheme<T>, zeros: seq<T>, depth: nat) {
    |zeros| == depth + 1 && forall l :: 0 <= l <= depth ==> zeros[l] == Zero(sc, l)
  }

  /** What the insert loop has reached after that many levels: the path node of the new leaf, and a
      frontier whose left-child levels hold it. */
  ghost predicate Climbing<T>(sc: Scheme<T>, s: seq<T>, leaf: T, was: seq<T>, frontier: seq<T>,
                              level: nat, index: nat, cur: T) {
    && |frontier| == |was| && level <= |was|
    && index == Ancestor(|s|, level) && cur == Node(sc, s + [leaf], level, index)
    && (forall l :: level <= l < |was| ==> frontier[l] == was[l])
    && (forall l :: 0 <= l < level ==>
         frontier[l] == if Ancestor(|s|, l) % 2 == 0 then Node(sc, s + [leaf], l, Ancestor(|s|, l)) else was[l])
  }

  lemma ClimbLeft<T>(sc: Scheme<T>, s: seq<T>, leaf: T, was: seq<T>, frontier: seq<T>,
                     level: nat, index: nat, cur: T)
    requires Climbing(sc, s, leaf, was, frontier, level, index, cur) && level < |was| && index % 2 == 0
    ensures Climbing(sc, s, leaf, was, frontier[level := cur], level + 1, index / 2,
                     sc.hash(cur, Zero(sc, level)))
  {
    EmptyNode(sc, s + [leaf], level, index + 1);
    assert Node(sc, s + [leaf], level + 1, index / 2) == sc.hash(cur, Zero(sc, level));
  }

  lemma ClimbRight<T>(sc: Scheme<T>, s: seq<T>, leaf: T, was: seq<T>, frontier: seq<T>,
                      level: nat, index: nat, cur: T)
    requires Climbing(sc, s, leaf, was, frontier, level, index, cur) && level < |was| && index % 2 == 1
    requires FrontierHolds(sc, s, was)
    ensures Climbing(sc, s, leaf, was, frontier, level + 1, index / 2, sc.hash(frontier[level], cur))
  {
    CompletedNode(sc, s, s + [leaf], level, index - 1);
    assert Node(sc, s + [leaf], level + 1, index / 2) == sc.hash(frontier[level], cur);
  }

  lemma Climbed<T>(sc: Scheme<T>, s: seq<T>, leaf: T, was: seq<T>, frontier: seq<T>, index: nat, cur: T)
    requires FrontierHolds(sc, s, was)
    requires Climbing(sc, s, leaf, was, frontier, |was|, index, cur)
    ensures FrontierHolds(sc, s + [leaf], frontier) && cur == Root(sc, |was|, s + [leaf])
  {
    var t := s + [leaf];
    forall l | 0 <= l < |frontier| && Ancestor(|t|, l) % 2 == 1
      ensures frontier[l] == Node(sc, t, l, Ancestor(|t|, l) - 1)
    {
      AncestorSuccessor(|s|, l);
      if Ancestor(|t|, l) == Ancestor(|s|, l) {
        CompletedNode(sc, s, t, l, Ancestor(|t|, l) - 1);
      }
    }
  }

  // ---- Authentication paths ----

  /** A path folded from its leaf: bit 0 puts the sibling on the right, bit 1 on the left. */
  function Fold<T>(sc: Scheme<T>, leaf: T, elements: seq<T>, bits: seq<nat>): T
    requires |elements| == |bits|
  {
    if elements == [] then leaf
    else
      var d := |elements| - 1;
      var cur := Fold(sc, leaf, elements[..d], bits[..d]);
      if bits[d] == 0 then sc.hash(cur, elements[d]) else sc.hash(elements[d], cur)
  }

  /** The number the bits spell, least significant first. */
  function LeafIndex(bits: seq<nat>): nat {
    if bits == [] then 0
    else LeafIndex(bits[..|bits| - 1]) + bits[|bits| - 1] * Pow2(|bits| - 1)
  }

  ghost predicate Binary(bits: seq<nat>) { forall i :: 0 <= i < |bits| ==> bits[i] <= 1 }

  function Sibling(i: nat): nat { if i % 2 == 1 then i - 1 else i + 1 }

  /** The path the plain tree has for a leaf. */
  ghost predicate IsPath<T>(sc: Scheme<T>, s: seq<T>, index: nat, elements: seq<T>, bits: seq<nat>) {
    && |elements| == |bits|
    && (forall l :: 0 <= l < |bits| ==> bits[l] == Ancestor(index, l) % 2)
    && (forall l :: 0 <= l < |bits| ==> elements[l] == Node(sc, s, l, Sibling(Ancestor(index, l))))
  }

  /** Folding a leaf's path gives the node the leaf lies under. */
  lemma {:induction false} PathFolds<T>(sc: Scheme<T>, s: seq<T>, index: nat, elements: seq<T>, bits: seq<nat>)
    requires IsPath(sc, s, index, elements, bits)
    ensures Fold(sc, LeafAt(sc.empty, s, index), elements, bits) == Node(sc, s, |bits|, Ancestor(index, |bits|))
  {
    if bits != [] {
      var d := |bits| - 1;
      PathFolds(sc, s, index, elements[..d], bits[..d]);
    }
  }

  /** The bits of a path spell the leaf's offset below the node the path reaches. */
  lemma {:induction false} PathIndex(index: nat, bits: seq<nat>)
    requires forall l :: 0 <= l < |bits| ==> bits[l] == Ancestor(index, l) % 2
    ensures LeafIndex(bits) + Ancestor(index, |bits|) * Pow2(|bits|) == index
  {
    if bits != [] {
      var d := |bits| - 1;
      PathIndex(index, bits[..d]);
      Child(Ancestor(index, d) / 2, bits[d], Pow2(d));
    }
  }

  lemma PathExtends<T>(sc: Scheme<T>, s: seq<T>, index: nat, elements: seq<T>, bits: seq<nat>)
    requires IsPath(sc, s, index, elements, bits)
    ensures var a := Ancestor(index, |bits|);
      IsPath(sc, s, index, elements + [Node(sc, s, |bits|, Sibling(a))], bits + [a % 2])
  {
  }

  /** Within capacity a full path folds to the root and spells the index itself. */
  lemma PathReachesRoot<T>(sc: Scheme<T>, s: seq<T>, index: nat, elements: seq<T>, bits: seq<nat>)
    requires index < |s| <= Pow2(|bits|) && IsPath(sc, s, index, elements, bits)
    ensures Fold(sc, s[index], elements, bits) == Root(sc, |bits|, s)
    ensures LeafIndex(bits) == index && Binary(bits)
  {
    hide Node, Fold, Ancestor, Pow2, LeafIndex;
    PathFolds(sc, s, index, elements, bits);
    PathIndex(index, bits);
    AncestorBelowCapacity(index, |bits|);
    RootWithinCapacity(sc, |bits|, s);
  }

  lemma {:induction false} AncestorOfZero(level: nat)
    ensures Ancestor(0, level) == 0
  {
    if level > 0 {
      AncestorOfZero(level - 1);
    }
  }

  /** Before the first insert any frontier will do. */
  lemma EmptyFrontier<T>(sc: Scheme<T>, frontier: seq<T>)
    ensures FrontierHolds(sc, [], frontier)
  {
    forall l | 0 <= l < |frontier|
      ensures Ancestor(0, l) == 0
    {
      AncestorOfZero(l);
    }
  }

  // ---- Binding ----

  /** The hash has no collision among these pairs. */
  ghost predicate CollisionFree<T(!new)>(hash: (T, T) -> T, queries: iset<(T, T)>) {
    forall a, b, c, d :: (a, b) in queries && (c, d) in queries && hash(a, b) == hash(c, d) ==> a == c && b == d
  }

  /** Every pair hashed in a subtree is among the queries. */
  ghost predicate NodeQueried<T(!new)>(sc: Scheme<T>, queries: iset<(T, T)>, s: seq<T>, level: nat, i: nat) {
    level > 0 ==>
      && (Node(sc, s, level - 1, 2 * i), Node(sc, s, level - 1, 2 * i + 1)) in queries
      && NodeQueried(sc, queries, s, level - 1, 2 * i)
      && NodeQueried(sc, queries, s, level - 1, 2 * i + 1)
  }

  /** Every pair hashed in folding a path is among the queries. */
  ghost predicate FoldQueried<T(!new)>(sc: Scheme<T>, queries: iset<(T, T)>, leaf: T, elements: seq<T>, bits: seq<nat>)
    requires |elements| == |bits|
  {
    elements != [] ==>
      var d := |elements| - 1;
      var cur := Fold(sc, leaf, elements[..d], bits[..d]);
      && (if bits[d] == 0 then (cur, elements[d]) in queries else (elements[d], cur) in queries)
      && FoldQueried(sc, queries, leaf, elements[..d], bits[..d])
  }

  /** What is hashed below a node of the suffix is what is hashed below that node of the whole. */
  lemma {:induction false} QueriedOfSuffix<T(!new)>(sc: Scheme<T>, queries: iset<(T, T)>, s: seq<T>, level: nat,
                                                    i: nat, j: nat, skipped: nat)
    requires skipped == j * Pow2(level) <= |s|
    ensures NodeQueried(sc, queries, s, level, i + j) <==> NodeQueried(sc, queries, s[skipped..], level, i)
    decreases level
  {
    if level > 0 {
      assert 2 * (i + j) == 2 * i + 2 * j;
      Child(j, 0, Pow2(level - 1));
      NodeOfSuffix(sc, s, level - 1, 2 * i, 2 * j, skipped);
      NodeOfSuffix(sc, s, level - 1, 2 * i + 1, 2 * j, skipped);
      QueriedOfSuffix(sc, queries, s, level - 1, 2 * i, 2 * j, skipped);
      QueriedOfSuffix(sc, queries, s, level - 1, 2 * i + 1, 2 * j, skipped);
    }
  }

  /** Folding a leaf's own path hashes only pairs the tree hashed. */
  lemma {:induction false} PathQueried<T(!new)>(sc: Scheme<T>, queries: iset<(T, T)>, s: seq<T>, index: nat,
                                                elements: seq<T>, bits: seq<nat>)
    requires IsPath(sc, s, index, elements, bits)
    requires NodeQueried(sc, queries, s, |bits|, Ancestor(index, |bits|))
    ensures FoldQueried(sc, queries, LeafAt(sc.empty, s, index), elements, bits)
  {
    if bits != [] {
      var d := |bits| - 1;
      PathFolds(sc, s, index, elements[..d], bits[..d]);
      PathQueried(sc, queries, s, index, elements[..d], bits[..d]);
    }
  }

  lemma {:induction false} LeafIndexBound(bits: seq<nat>)
    requires Binary(bits)
    ensures LeafIndex(bits) < Pow2(|bits|)
  {
    if bits != [] {
      LeafIndexBound(bits[..|bits| - 1]);
      Scale(bits[|bits| - 1], 1, Pow2(|bits| - 1));
    }
  }

  /** Without collisions, a path that folds to a node of the tree starts from the very leaf its bits
      point at below that node. */
  lemma {:induction false} FoldBinds<T(!new)>(sc: Scheme<T>, queries: iset<(T, T)>, s: seq<T>, i: nat,
                                              leaf: T, elements: seq<T>, bits: seq<nat>)
    requires |elements| == |bits| && Binary(bits)
    requires CollisionFree(sc.hash, queries)
    requires NodeQueried(sc, queries, s, |bits|, i) && FoldQueried(sc, queries, leaf, elements, bits)
    requires Fold(sc, leaf, elements, bits) == Node(sc, s, |bits|, i)
    ensures leaf == LeafAt(sc.empty, s, i * Pow2(|bits|) + LeafIndex(bits))
    decreases |bits|
  {
    if bits != [] {
      var d := |bits| - 1;
      var child := 2 * i + bits[d];
      FoldBinds(sc, queries, s, child, leaf, elements[..d], bits[..d]);
      Child(i, bits[d], Pow2(d));
    }
  }
}
