/** A world of toy hashes that meets every hypothesis of the run theorems. Its hash counts, so trees of
    hundreds of leaves have known roots and no collisions. */
module Example {
  import opened ScalarField
  import opened Merkle
  import opened Circuits
  import opened Ledger
  import opened Bookkeeping
  import opened PoolSafety

  const STEP: nat := 100000

  /** A node's level, times STEP, plus the weights of the leaves below it. */
  function At(level: nat, weight: nat): Fe
    requires level <= DEPTH && weight < STEP
  {
    level * STEP + weight
  }

  function Combine(left: Fe, right: Fe): Fe {
    if left + STEP + right % STEP < R then left + STEP + right % STEP else 0
  }

  /** A collateral note of key 7 weighs its amount, unless its randomness is 10; a position note weighs 1000,
      a note of key 8 weighs 20000. */
  function Weight(asset: Fe, amount: Fe, pk: Fe, rho: Fe): Fe {
    if asset == 1 then 1000 else if pk == 8 then 20000 else if rho == 10 then 10000 else amount
  }

  function ToyHashes(): Hashes {
    Hashes((sk: Fe) => sk, Combine, (sk: Fe, rho: Fe, i: Fe) => 3,
           (asset: Fe, amount: Fe, pk: Fe, rho: Fe) => Weight(asset, amount, pk, rho))
  }

  /** The weights hashed together: of full and partly filled trees of ones, of a lone 500, of the three
      leaves 1, 1000, 10000, and of the two leaves 20000, 1. */
  ghost predicate Pair(level: nat, a: nat, b: nat) {
    || (b == 0 && (a <= Pow2(level) || a == 500 || a == 20000))
    || (a == Pow2(level) && b <= Pow2(level))
    || (level == 0 && (a, b) in {(1, 1000), (10000, 0), (20000, 1)})
    || (level == 1 && (a, b) in {(1001, 0), (1001, 10000), (20001, 0)})
    || (level >= 2 && (a, b) in {(1001, 0), (11001, 0), (20001, 0)})
  }

  ghost predicate Paired(x: Fe, y: Fe) {
    x / STEP == y / STEP < DEPTH && Pair(x / STEP, x % STEP, y % STEP)
  }

  ghost function ToyQueries(): Queries {
    Queries(iset{7}, iset x: Fe, y: Fe | Paired(x, y) :: (x, y), iset{(7, 9, 0)},
            iset{(0, 1, 7, 9), (0, 500, 7, 9), (1, 0, 7, 9), (0, 1, 7, 10), (0, 1, 8, 12)})
  }

  const POOL := Address(0)
  const USER := Address(1)

  ghost function ToyWorld(): World { World(ToyHashes(), ToyQueries(), POOL) }

  function ToyScheme(): Scheme<Fe> { TreeOf(ToyHashes()) }

  // ---- No collisions ----

  lemma {:induction false} SmallPower(level: nat)
    requires level <= DEPTH
    ensures 1 <= Pow2(level) <= 256 && (level < DEPTH ==> Pow2(level) <= 128) && (level >= 1 ==> Pow2(level) >= 2)
  {
    assert Pow2(8) == 256 && Pow2(7) == 128 && Pow2(6) == 64 && Pow2(5) == 32;
    assert Pow2(4) == 16 && Pow2(3) == 8 && Pow2(2) == 4 && Pow2(1) == 2 && Pow2(0) == 1;
  }

  /** The total pins the pair. */
  lemma PairUnique(level: nat, a: nat, b: nat, c: nat, d: nat)
    requires level < DEPTH && Pair(level, a, b) && Pair(level, c, d) && a + b == c + d
    ensures a == c && b == d
  {
    SmallPower(level);
    hide Pow2;
  }

  lemma PairSmall(level: nat, a: nat, b: nat)
    requires level < DEPTH && Pair(level, a, b)
    ensures a + b < STEP
  {
    SmallPower(level);
    hide Pow2;
  }

  lemma CombineAt(level: nat, a: nat, b: nat)
    requires level < DEPTH && a + b < STEP
    ensures Combine(At(level, a), At(level, b)) == At(level + 1, a + b)
    ensures At(level, a) / STEP == level && At(level, a) % STEP == a
  {
  }

  lemma PairIsQueried(level: nat, a: nat, b: nat)
    requires level < DEPTH && Pair(level, a, b)
    ensures a + b < STEP && (At(level, a), At(level, b)) in ToyQueries().q2
    ensures Combine(At(level, a), At(level, b)) == At(level + 1, a + b)
  {
    hide Pair;
    PairSmall(level, a, b);
    CombineAt(level, a, b);
    CombineAt(level, b, a);
    assert Paired(At(level, a), At(level, b));
  }

  lemma CombineInjective(x: Fe, y: Fe, x': Fe, y': Fe)
    requires Paired(x, y) && Paired(x', y') && Combine(x, y) == Combine(x', y')
    ensures x == x' && y == y'
  {
    hide Pair, Combine;
    PairedAt(x, y);
    PairedAt(x', y');
    PairIsQueried(x / STEP, x % STEP, y % STEP);
    PairIsQueried(x' / STEP, x' % STEP, y' % STEP);
    SameAt(x / STEP + 1, x % STEP + y % STEP, x' / STEP + 1, x' % STEP + y' % STEP);
    PairUnique(x / STEP, x % STEP, y % STEP, x' % STEP, y' % STEP);
  }

  lemma PairedAt(x: Fe, y: Fe)
    requires Paired(x, y)
    ensures x == At(x / STEP, x % STEP) && y == At(x / STEP, y % STEP)
  {
    hide Pair;
  }

  lemma SameAt(k: nat, a: nat, l: nat, b: nat)
    requires k <= DEPTH && l <= DEPTH && a < STEP && b < STEP && At(k, a) == At(l, b)
    ensures k == l && a == b
  {
  }

  lemma ToyIdeal()
    ensures Ideal(ToyWorld())
  {
    hide CollisionFree, Combine, Paired;
    ToyNodesDistinct();
  }

  lemma ToyNodesDistinct()
    ensures CollisionFree(ToyHashes().h2, ToyQueries().q2)
  {
    hide Paired, Combine;
    var q := ToyQueries().q2;
    forall a, b, c, d | (a, b) in q && (c, d) in q && Combine(a, b) == Combine(c, d)
      ensures a == c && b == d
    {
      CombineInjective(a, b, c, d);
    }
  }

  // ---- The trees ----

  function Ones(n: nat): (s: seq<Fe>)
    ensures |s| == n && forall i :: 0 <= i < n ==> s[i] == 1
  {
    seq(n, i => 1)
  }

  function Clamp(x: int, m: nat): nat { if x <= 0 then 0 else if x >= m then m else x }

  /** How many of n leaves are below a node. */
  function Share(n: nat, level: nat, i: nat): nat { Clamp(n - i * Pow2(level), Pow2(level)) }

  lemma ClampSplits(n: int, i: nat, m: nat)
    ensures Clamp(n - (2 * i) * m, m) + Clamp(n - (2 * i + 1) * m, m) == Clamp(n - i * (2 * m), 2 * m)
    ensures Clamp(n - (2 * i + 1) * m, m) > 0 ==> Clamp(n - (2 * i) * m, m) == m
  {
    Child(i, 0, m);
    Child(i, 1, m);
  }

  lemma ShareSplits(n: nat, level: nat, i: nat)
    requires level < DEPTH
    ensures Share(n, level, 2 * i) + Share(n, level, 2 * i + 1) == Share(n, level + 1, i)
    ensures Share(n, level, 2 * i) <= Pow2(level) && Share(n, level, 2 * i + 1) <= Pow2(level)
    ensures Share(n, level, 2 * i + 1) > 0 ==> Share(n, level, 2 * i) == Pow2(level)
  {
    assert Pow2(level + 1) == 2 * Pow2(level);
    hide Pow2;
    ClampSplits(n, i, Pow2(level));
  }

  lemma SharePair(n: nat, level: nat, i: nat)
    requires level < DEPTH
    ensures Pair(level, Share(n, level, 2 * i), Share(n, level, 2 * i + 1))
    ensures Share(n, level, 2 * i) + Share(n, level, 2 * i + 1) == Share(n, level + 1, i)
  {
    hide Share, Pow2;
    ShareSplits(n, level, i);
  }

  /** A node's value, and that all hashed below it is among the queries. */
  ghost predicate NodeIs(s: seq<Fe>, level: nat, i: nat, weight: nat) {
    && level <= DEPTH && weight < STEP && Node(ToyScheme(), s, level, i) == At(level, weight)
    && NodeQueried(ToyScheme(), ToyQueries().q2, s, level, i)
  }

  /** One level up. */
  lemma NodeStep(s: seq<Fe>, level: nat, i: nat, a: nat, b: nat)
    requires level < DEPTH && Pair(level, a, b) && NodeIs(s, level, 2 * i, a) && NodeIs(s, level, 2 * i + 1, b)
    ensures NodeIs(s, level + 1, i, a + b)
  {
    hide Combine, At, ToyQueries, Pair;
    PairIsQueried(level, a, b);
  }

  lemma {:induction false} OnesNode(n: nat, level: nat, i: nat)
    requires level <= DEPTH
    ensures NodeIs(Ones(n), level, i, Share(n, level, i))
    decreases level
  {
    hide NodeIs, Share, Pair, Ones;
    if level == 0 {
      OnesLeaf(n, i);
    } else {
      OnesNode(n, level - 1, 2 * i);
      OnesNode(n, level - 1, 2 * i + 1);
      SharePair(n, level - 1, i);
      NodeStep(Ones(n), level - 1, i, Share(n, level - 1, 2 * i), Share(n, level - 1, 2 * i + 1));
    }
  }

  lemma OnesLeaf(n: nat, i: nat)
    ensures NodeIs(Ones(n), 0, i, Share(n, 0, i))
  {
    hide ToyQueries, Combine;
    assert Pow2(0) == 1;
    LeafIsAt(Ones(n), i);
  }

  lemma LeafIsAt(s: seq<Fe>, i: nat)
    ensures Node(ToyScheme(), s, 0, i) == if i < |s| then s[i] else 0
    ensures At(0, 0) == 0 && At(0, 1) == 1 && At(0, 500) == 500 && At(0, 1000) == 1000 && At(0, 10000) == 10000
  {
  }

  ghost predicate IsBeyond(s: seq<Fe>, level: nat, i: nat) {
    s == [] || i > Ancestor(|s| - 1, level)
  }

  /** Beyond the leaves. */
  lemma BeyondNode(s: seq<Fe>, level: nat, i: nat)
    requires level <= DEPTH && IsBeyond(s, level, i)
    ensures Node(ToyScheme(), s, level, i) == At(level, 0)
  {
    hide At, Node, Share, Combine, NodeQueried;
    EmptyNode(ToyScheme(), s, level, i);
    EmptyNode(ToyScheme(), Ones(0), level, 0);
    OnesNode(0, level, 0);
    NothingShared(level);
  }

  lemma NothingShared(level: nat)
    ensures Share(0, level, 0) == 0
  {
  }

  lemma {:induction false} Beyond(s: seq<Fe>, level: nat, i: nat)
    requires level <= DEPTH && IsBeyond(s, level, i)
    ensures NodeIs(s, level, i, 0)
    decreases level
  {
    hide NodeIs, Pair, IsBeyond;
    if level == 0 {
      BeyondLeaf(s, i);
    } else {
      BeyondChildren(s, level - 1, i);
      Beyond(s, level - 1, 2 * i);
      Beyond(s, level - 1, 2 * i + 1);
      EmptyPair(level - 1);
      NodeStep(s, level - 1, i, 0, 0);
    }
  }

  lemma BeyondLeaf(s: seq<Fe>, i: nat)
    requires IsBeyond(s, 0, i)
    ensures NodeIs(s, 0, i, 0)
  {
    hide At, Combine, ToyQueries;
    BeyondNode(s, 0, i);
  }

  lemma BeyondChildren(s: seq<Fe>, level: nat, i: nat)
    requires IsBeyond(s, level + 1, i)
    ensures IsBeyond(s, level, 2 * i) && IsBeyond(s, level, 2 * i + 1)
  {
  }

  lemma EmptyPair(level: nat)
    ensures Pair(level, 0, 0)
  {
  }

  /** The small trees, each with its total. */
  ghost predicate Few(s: seq<Fe>, total: nat) {
    || (s == [500] && total == 500)
    || (s == [1, 1000] && total == 1001)
    || (s == [1, 1000, 10000] && total == 11001)
    || (s == [20000] && total == 20000)
    || (s == [20000, 1] && total == 20001)
  }

  lemma FewLeaf(s: seq<Fe>, i: nat)
    requires forall k :: 0 <= k < |s| ==> s[k] < STEP
    ensures NodeIs(s, 0, i, if i < |s| then s[i] else 0)
  {
    hide Combine, ToyQueries;
  }

  lemma FewBase(s: seq<Fe>, total: nat)
    requires Few(s, total)
    ensures NodeIs(s, 2, 0, total)
  {
    hide NodeIs;
    assert Pow2(0) == 1 && Pow2(1) == 2;
    var a, b, c := LeafAt(0, s, 0), LeafAt(0, s, 1), LeafAt(0, s, 2);
    FewLeaf(s, 0);
    FewLeaf(s, 1);
    FewLeaf(s, 2);
    FewLeaf(s, 3);
    NodeStep(s, 0, 0, a, b);
    NodeStep(s, 0, 1, c, 0);
    NodeStep(s, 1, 0, a + b, c);
  }

  /** Above the small tree everything else is empty. */
  lemma {:induction false} FewNode(s: seq<Fe>, total: nat, level: nat)
    requires Few(s, total) && 2 <= level <= DEPTH
    ensures NodeIs(s, level, 0, total)
  {
    hide NodeIs, Few, Pair, IsBeyond;
    if level == 2 {
      FewBase(s, total);
    } else {
      FewNode(s, total, level - 1);
      FewEdge(s, total, level - 1);
      Beyond(s, level - 1, 1);
      NodeStep(s, level - 1, 0, total, 0);
    }
  }

  lemma FewEdge(s: seq<Fe>, total: nat, level: nat)
    requires Few(s, total) && 2 <= level
    ensures Pair(level, total, 0) && IsBeyond(s, level, 1)
  {
    hide Ancestor;
    Capacious(level);
    AncestorBelowCapacity(|s| - 1, level);
  }

  lemma Capacious(level: nat)
    requires 2 <= level
    ensures Pow2(level) >= 4
  {
  }

  // ---- What the pool hashes ----

  lemma RootQueried(s: seq<Fe>, i: nat, weight: nat)
    requires NodeIs(s, DEPTH, i, weight)
    ensures NodeQueried(ToyScheme(), ToyQueries().q2, s, DEPTH, i)
    ensures Node(ToyScheme(), s, DEPTH, i) == At(DEPTH, weight)
  {
  }

  lemma OnesQueried(n: nat)
    ensures TreeQueried(ToyWorld(), Ones(n))
  {
    hide NodeQueried, ToyQueries, Share, Ancestor, Node, At, Ones, NodeIs;
    Beyond([], DEPTH, 0);
    RootQueried([], 0, 0);
    forall k: nat | 0 < k <= n
      ensures NodeQueried(ToyScheme(), ToyQueries().q2, Ones(n)[..k], DEPTH, Ancestor(k - 1, DEPTH))
    {
      var i := Ancestor(k - 1, DEPTH);
      OnesNode(k, DEPTH, i);
      RootQueried(Ones(k), i, Share(k, DEPTH, i));
      assert Ones(n)[..k] == Ones(k);
    }
  }

  /** One more leaf: only the latest root is new. */
  lemma QueriedGrows(leaves: seq<Fe>, leaf: Fe)
    requires TreeQueried(ToyWorld(), leaves)
    requires NodeQueried(ToyScheme(), ToyQueries().q2, leaves + [leaf], DEPTH, Ancestor(|leaves|, DEPTH))
    ensures TreeQueried(ToyWorld(), leaves + [leaf])
  {
    hide NodeQueried, ToyQueries, Ancestor;
    var s := leaves + [leaf];
    forall k: nat | 0 < k <= |s|
      ensures NodeQueried(ToyScheme(), ToyQueries().q2, s[..k], DEPTH, Ancestor(k - 1, DEPTH))
    {
      if k == |s| {
        assert s[..k] == s;
      } else {
        assert s[..k] == leaves[..k];
      }
    }
  }

  /** A full tree of ones, and 500 as the first leaf of the next. */
  function Overfull(): seq<Fe> { Ones(256) + [500] }

  lemma OverfullQueried()
    ensures TreeQueried(ToyWorld(), Overfull())
  {
    hide TreeQueried, NodeQueried, ToyQueries, Ancestor, ToyHashes;
    OnesQueried(256);
    SecondTreeQueried();
    OneMoreQueried(256, 500);
  }

  lemma OneMoreQueried(n: nat, leaf: Fe)
    requires TreeQueried(ToyWorld(), Ones(n))
    requires NodeQueried(ToyScheme(), ToyQueries().q2, Ones(n) + [leaf], DEPTH, Ancestor(n, DEPTH))
    ensures TreeQueried(ToyWorld(), Ones(n) + [leaf])
  {
    hide TreeQueried, NodeQueried, ToyQueries, Ancestor, ToyHashes;
    QueriedGrows(Ones(n), leaf);
  }

  lemma SecondTreeQueried()
    ensures NodeQueried(ToyScheme(), ToyQueries().q2, Overfull(), DEPTH, Ancestor(256, DEPTH))
  {
    hide NodeQueried, ToyQueries, NodeIs, Node, Pow2, Ancestor;
    DepthFits();
    AncestorOfSum(1, 0, DEPTH);
    assert Overfull()[256..] == [500];
    FewNode([500], 500, DEPTH);
    RootQueried([500], 0, 500);
    QueriedOfSuffix(ToyScheme(), ToyQueries().q2, Overfull(), DEPTH, 0, 1, 256);
  }

  lemma OneForeignQueried()
    ensures TreeQueried(ToyWorld(), [20000])
  {
    hide NodeQueried, ToyQueries, TreeQueried, Node, Ancestor, NodeIs, Pow2;
    OnesQueried(0);
    assert Ones(0) == [] && [] + [20000] == [20000];
    FewNode([20000], 20000, DEPTH);
    RootQueried([20000], 0, 20000);
    AncestorOfZero(DEPTH);
    QueriedGrows([], 20000);
  }

  lemma ForeignQueried()
    ensures TreeQueried(ToyWorld(), [20000, 1])
  {
    hide NodeQueried, ToyQueries, TreeQueried, Node, Ancestor, NodeIs, Pow2;
    DepthFits();
    OneForeignQueried();
    assert [20000] + [1] == [20000, 1];
    FewNode([20000, 1], 20001, DEPTH);
    RootQueried([20000, 1], 0, 20001);
    AncestorBelowCapacity(1, DEPTH);
    QueriedGrows([20000], 1);
  }

  lemma SwappedQueried()
    ensures TreeQueried(ToyWorld(), [1, 1000, 10000])
  {
    hide NodeQueried, ToyQueries, TreeQueried, Node, Ancestor, NodeIs, Pow2;
    DepthFits();
    OnesQueried(1);
    assert Ones(1) == [1];
    assert [1] + [1000] == [1, 1000] && [1, 1000] + [10000] == [1, 1000, 10000];
    FewNode([1, 1000], 1001, DEPTH);
    FewNode([1, 1000, 10000], 11001, DEPTH);
    RootQueried([1, 1000], 0, 1001);
    RootQueried([1, 1000, 10000], 0, 11001);
    AncestorBelowCapacity(1, DEPTH);
    AncestorBelowCapacity(2, DEPTH);
    QueriedGrows([1], 1000);
    QueriedGrows([1, 1000], 10000);
  }
}
