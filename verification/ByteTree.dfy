/** The contract's tree hashes and stores 32-byte strings; the rest of the model speaks of field elements.
    For any leaves, canonical or not, the byte tree is the encoding of the field tree. */
module ByteTree {
  import opened ScalarField
  import opened Bytes
  import opened Merkle
  import opened Circuits
  import opened Ledger
  import Poseidon
  import PoolTree

  type Digest = s: seq<Byte> | |s| == 32 witness ToBytes(0, 32)

  /** The field element a byte string stands for, and the canonical bytes of a field element. */
  function Read(d: Digest): Fe { Reduce(BigEndian(d)) }

  function Canonical(x: Fe): Digest { ToBytes(x, 32) }

  predicate IsCanonical(d: Digest) { BigEndian(d) < R }

  function ReadAll(ds: seq<Digest>): (xs: seq<Fe>)
    ensures |xs| == |ds| && forall i :: 0 <= i < |ds| ==> xs[i] == Read(ds[i])
  {
    seq(|ds|, i requires 0 <= i < |ds| => Read(ds[i]))
  }

  lemma ReadCanonical(x: Fe)
    ensures Read(Canonical(x)) == x && IsCanonical(Canonical(x))
  {
    hide BigEndian, ToBytes;
    Pow256Values();
    BigEndianOfToBytes(x, 32);
    SmallReduces(x);
  }

  lemma CanonicalRead(d: Digest)
    requires IsCanonical(d)
    ensures Canonical(Read(d)) == d
  {
    hide BigEndian, ToBytes;
    SmallReduces(BigEndian(d));
    ToBytesOfBigEndian(d);
  }

  /** What poseidon2_be computes, and its tree with the all-zero leaf. */
  ghost function HashBytes(p: Poseidon.Parameters, left: Digest, right: Digest): Digest
    requires Poseidon.WellFormed(p)
  {
    Canonical(Poseidon.Hash2(p, Read(left), Read(right)))
  }

  ghost function ByteScheme(p: Poseidon.Parameters): Scheme<Digest>
    requires Poseidon.WellFormed(p)
  {
    Scheme((left: Digest, right: Digest) => HashBytes(p, left, right), Canonical(0))
  }

  /** The two-input hash of the run model is the Poseidon permutation with these parameters. */
  ghost predicate IsPoseidon(h: Hashes, p: Poseidon.Parameters) {
    Poseidon.WellFormed(p) && forall left: Fe, right: Fe :: h.h2(left, right) == Poseidon.Hash2(p, left, right)
  }

  /** The contract's node hash on bytes is the byte tree's. */
  method NodeHash(t: Poseidon.Tables, left: Digest, right: Digest) returns (out: Digest)
    requires Poseidon.ValidTables(t)
    ensures out == ByteScheme(Poseidon.Constants(t)).hash(left, right)
  {
    out := Poseidon.Poseidon2Be(t, left, right);
  }

  /** Every node of the byte tree reads as the field tree's node over the leaves read modulo r, and above
      the leaves it is that node's canonical encoding. */
  lemma {:induction false} NodeTransport(h: Hashes, p: Poseidon.Parameters, ds: seq<Digest>, level: nat, i: nat)
    requires IsPoseidon(h, p)
    ensures Read(Node(ByteScheme(p), ds, level, i)) == Node(TreeOf(h), ReadAll(ds), level, i)
    ensures level > 0 ==> Node(ByteScheme(p), ds, level, i) == Canonical(Node(TreeOf(h), ReadAll(ds), level, i))
  {
    hide Read, Canonical, Poseidon.Hash2;
    ReadCanonical(0);
    if level > 0 {
      NodeTransport(h, p, ds, level - 1, 2 * i);
      NodeTransport(h, p, ds, level - 1, 2 * i + 1);
      ReadCanonical(Node(TreeOf(h), ReadAll(ds), level, i));
    }
  }

  /** The root the contract stores is the canonical encoding of the field tree's root. */
  lemma RootTransport(h: Hashes, p: Poseidon.Parameters, ds: seq<Digest>)
    requires IsPoseidon(h, p)
    ensures Root(ByteScheme(p), DEPTH, ds) == Canonical(Root(TreeOf(h), DEPTH, ReadAll(ds)))
  {
    hide Node, Read, Canonical, Poseidon.Hash2, ReadAll, ByteScheme;
    if ds == [] {
      EmptyNode(ByteScheme(p), ds, DEPTH, 0);
      EmptyNode(TreeOf(h), ReadAll(ds), DEPTH, 0);
      NodeTransport(h, p, ds, DEPTH, 0);
    } else {
      NodeTransport(h, p, ds, DEPTH, Ancestor(|ds| - 1, DEPTH));
    }
  }

  /** A 32-byte string is a known root exactly when it is the canonical encoding of a root the run model
      knows: no second byte string of the same field element is accepted. */
  lemma KnownTransport(h: Hashes, p: Poseidon.Parameters, ds: seq<Digest>, d: Digest)
    requires IsPoseidon(h, p)
    ensures d in PoolTree.KnownRoots(ByteScheme(p), DEPTH, ds)
       <==> IsCanonical(d) && Read(d) in PoolTree.KnownRoots(TreeOf(h), DEPTH, ReadAll(ds))
  {
    hide Root, Read, Canonical, ByteScheme, IsCanonical;
    if d in PoolTree.KnownRoots(ByteScheme(p), DEPTH, ds) {
      var n: nat :| n <= |ds| && d == Root(ByteScheme(p), DEPTH, ds[..n]);
      PrefixRoot(h, p, ds, n);
    }
    if IsCanonical(d) && Read(d) in PoolTree.KnownRoots(TreeOf(h), DEPTH, ReadAll(ds)) {
      var n: nat :| n <= |ds| && Read(d) == Root(TreeOf(h), DEPTH, ReadAll(ds)[..n]);
      PrefixRoot(h, p, ds, n);
      CanonicalRead(d);
      assert d == Root(ByteScheme(p), DEPTH, ds[..n]);
    }
  }

  lemma PrefixRoot(h: Hashes, p: Poseidon.Parameters, ds: seq<Digest>, n: nat)
    requires IsPoseidon(h, p) && n <= |ds|
    ensures var x := Root(TreeOf(h), DEPTH, ReadAll(ds)[..n]);
      Root(ByteScheme(p), DEPTH, ds[..n]) == Canonical(x) && Read(Canonical(x)) == x && IsCanonical(Canonical(x))
  {
    hide Root, Read, Canonical, ByteScheme, IsCanonical;
    RootTransport(h, p, ds[..n]);
    assert ReadAll(ds[..n]) == ReadAll(ds)[..n];
    ReadCanonical(Root(TreeOf(h), DEPTH, ReadAll(ds)[..n]));
  }
}
